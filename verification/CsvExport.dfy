/**
 The CSV text of components/dashboard/ExportCsvButton.tsx, and a reader that follows the quoting
 rules of section 2 of RFC 4180 (rules 1, 2 and 4 to 7) with LF as the record break, as the
 export writes it.
 */
module CsvExport {
  import opened Common

  const QUOTE: char := '"'
  const COMMA: char := ','
  const LF: char := '\n'

  /** A cell as `String(...)` shows it; None for null or undefined. */
  type Row = map<string, Option<string>>

  // --------------------------------------------------------------------- writing

  /** Every quote doubled. */
  function Escape(s: string): string {
    if s == [] then [] else (if s[0] == QUOTE then [QUOTE, QUOTE] else [s[0]]) + Escape(s[1..])
  }

  function Quoted(s: string): string {
    [QUOTE] + Escape(s) + [QUOTE]
  }

  function QuotedAll(fields: seq<string>): (r: seq<string>)
    ensures |r| == |fields| && forall i | 0 <= i < |fields| :: r[i] == Quoted(fields[i])
  {
    seq(|fields|, i requires 0 <= i < |fields| => Quoted(fields[i]))
  }

  /** JavaScript's `join` with a one-character separator. */
  function Join(parts: seq<string>, separator: char): string {
    if parts == [] then ""
    else if |parts| == 1 then parts[0]
    else parts[0] + [separator] + Join(parts[1..], separator)
  }

  function CellText(row: Row, header: string): string {
    if header in row && row[header].Some? then row[header].value else ""
  }

  /** The values of one row under the headers. */
  function Cells(headers: seq<string>, row: Row): (r: seq<string>)
    ensures |r| == |headers|
  {
    seq(|headers|, i requires 0 <= i < |headers| => CellText(row, headers[i]))
  }

  function Records(headers: seq<string>, data: seq<Row>): (r: seq<seq<string>>)
    ensures |r| == |data| && forall i | 0 <= i < |data| :: r[i] == Cells(headers, data[i])
  {
    seq(|data|, i requires 0 <= i < |data| => Cells(headers, data[i]))
  }

  function Lines(records: seq<seq<string>>): (r: seq<string>)
    ensures |r| == |records| && forall i | 0 <= i < |records| :: r[i] == Join(QuotedAll(records[i]), COMMA)
  {
    seq(|records|, i requires 0 <= i < |records| => Join(QuotedAll(records[i]), COMMA))
  }

  function Csv(headers: seq<string>, data: seq<Row>): string {
    Join([Join(headers, COMMA)] + Lines(Records(headers, data)), LF)
  }

  /**
   `handleExport` up to the text: nothing for no data, otherwise the header row and one quoted
   row per object. The headers are the keys of the first object.
   */
  method BuildCsv(headers: seq<string>, data: seq<Row>) returns (csv: Option<string>)
    ensures csv == if data == [] then None else Some(Csv(headers, data))
  {
    if |data| == 0 {
      return None;
    }
    var csvRows := [Join(headers, COMMA)];
    for i := 0 to |data|
      invariant csvRows == [Join(headers, COMMA)] + Lines(Records(headers, data[..i]))
    {
      var values := [];
      for k := 0 to |headers|
        invariant |values| == k
        invariant forall j | 0 <= j < k :: values[j] == Quoted(CellText(data[i], headers[j]))
      {
        values := values + [Quoted(CellText(data[i], headers[k]))];
      }
      assert values == QuotedAll(Cells(headers, data[i]));
      csvRows := csvRows + [Join(values, COMMA)];
      assert Lines(Records(headers, data[..i + 1]))
          == Lines(Records(headers, data[..i])) + [Join(values, COMMA)];
    }
    assert data[..|data|] == data;
    return Some(Join(csvRows, LF));
  }

  // --------------------------------------------------------------------- reading

  datatype Parsed<T> = Parsed(value: T, rest: string)

  predicate Plain(s: string) {
    QUOTE !in s && COMMA !in s && LF !in s
  }

  /** The end of a field: the end of the text, a comma or a line feed. */
  predicate AtBreak(t: string) {
    t == [] || t[0] == COMMA || t[0] == LF
  }

  predicate AtRecordBreak(t: string) {
    t == [] || t[0] == LF
  }

  /** The content of a quoted field after its opening quote, and the text after its closing one. */
  function ReadQuoted(t: string): (r: Option<Parsed<string>>)
    ensures r.Some? ==> |r.value.rest| < |t|
  {
    if t == [] then None
    else if t[0] != QUOTE then
      var r := ReadQuoted(t[1..]);
      if r.None? then None else Some(Parsed([t[0]] + r.value.value, r.value.rest))
    else if |t| > 1 && t[1] == QUOTE then
      var r := ReadQuoted(t[2..]);
      if r.None? then None else Some(Parsed([QUOTE] + r.value.value, r.value.rest))
    else Some(Parsed("", t[1..]))
  }

  /** A field that does not start with a quote may not contain one. */
  function ReadPlain(t: string): (r: Option<Parsed<string>>)
    ensures r.Some? ==> Plain(r.value.value) && AtBreak(r.value.rest) && |r.value.rest| <= |t|
  {
    if AtBreak(t) then Some(Parsed("", t))
    else if t[0] == QUOTE then None
    else
      var r := ReadPlain(t[1..]);
      if r.None? then None else Some(Parsed([t[0]] + r.value.value, r.value.rest))
  }

  function ReadField(t: string): (r: Option<Parsed<string>>)
    ensures r.Some? ==> AtBreak(r.value.rest) && |r.value.rest| <= |t|
  {
    if t != [] && t[0] == QUOTE then
      var r := ReadQuoted(t[1..]);
      if r.Some? && AtBreak(r.value.rest) then r else None
    else ReadPlain(t)
  }

  function ReadRecord(t: string): (r: Option<Parsed<seq<string>>>)
    ensures r.Some? ==> r.value.value != [] && AtRecordBreak(r.value.rest) && |r.value.rest| <= |t|
    decreases |t|
  {
    var field := ReadField(t);
    if field.None? then None
    else if AtRecordBreak(field.value.rest) then Some(Parsed([field.value.value], field.value.rest))
    else
      var others := ReadRecord(field.value.rest[1..]);
      if others.None? then None
      else Some(Parsed([field.value.value] + others.value.value, others.value.rest))
  }

  /** A line feed may end the last record. */
  function ReadFile(t: string): (r: Option<seq<seq<string>>>)
    ensures r.Some? ==> r.value != []
    decreases |t|
  {
    var record := ReadRecord(t);
    if record.None? then None
    else if |record.value.rest| <= 1 then Some([record.value.value])
    else
      var others := ReadFile(record.value.rest[1..]);
      if others.None? then None else Some([record.value.value] + others.value)
  }

  // ------------------------------------------------------------------ round trips

  lemma {:induction false} QuotedReadsBack(s: string, rest: string)
    requires rest == [] || rest[0] != QUOTE
    ensures ReadQuoted(Escape(s) + [QUOTE] + rest) == Some(Parsed(s, rest))
  {
    var t := Escape(s) + [QUOTE] + rest;
    if s == [] {
      assert t == [QUOTE] + rest;
    } else {
      QuotedReadsBack(s[1..], rest);
      var tail := Escape(s[1..]) + [QUOTE] + rest;
      if s[0] == QUOTE {
        assert t == [QUOTE, QUOTE] + tail && t[2..] == tail;
      } else {
        assert t == [s[0]] + tail && t[1..] == tail;
      }
      assert [s[0]] + s[1..] == s;
    }
  }

  lemma QuotedFieldReadsBack(s: string, rest: string)
    requires AtBreak(rest)
    ensures ReadField(Quoted(s) + rest) == Some(Parsed(s, rest))
  {
    assert (Quoted(s) + rest)[1..] == Escape(s) + [QUOTE] + rest;
    QuotedReadsBack(s, rest);
  }

  lemma {:induction false} PlainReadsBack(s: string, rest: string)
    requires Plain(s) && AtBreak(rest)
    ensures ReadField(s + rest) == ReadPlain(s + rest) == Some(Parsed(s, rest))
  {
    if s == [] {
      assert s + rest == rest;
    } else {
      assert s[0] in s;
      assert forall c | c in s[1..] :: c in s;
      PlainReadsBack(s[1..], rest);
      assert (s + rest)[1..] == s[1..] + rest;
      assert [s[0]] + s[1..] == s;
    }
  }

  /** `text` is a way to write the field that reads back as the field. */
  ghost predicate Writes(text: string, field: string) {
    forall rest | AtBreak(rest) :: ReadField(text + rest) == Some(Parsed(field, rest))
  }

  ghost predicate WritesAll(texts: seq<string>, fields: seq<string>) {
    && |texts| == |fields|
    && (texts != [] ==> Writes(texts[0], fields[0]) && WritesAll(texts[1..], fields[1..]))
  }

  lemma LastField(text: string, field: string, rest: string)
    requires Writes(text, field) && AtRecordBreak(rest)
    ensures ReadRecord(text + rest) == Some(Parsed([field], rest))
  {
    assert ReadField(text + rest) == Some(Parsed(field, rest));
  }

  lemma FieldThenOthers(text: string, field: string, tail: string)
    requires Writes(text, field)
    ensures var whole, others := ReadRecord(text + ([COMMA] + tail)), ReadRecord(tail);
            others.Some? ==> whole == Some(Parsed([field] + others.value.value, others.value.rest))
  {
    var t := [COMMA] + tail;
    assert t[1..] == tail && AtBreak(t) && !AtRecordBreak(t);
    assert ReadField(text + t) == Some(Parsed(field, t));
  }

  lemma JoinMore(texts: seq<string>, rest: string)
    requires |texts| > 1
    ensures Join(texts, COMMA) + rest == texts[0] + ([COMMA] + (Join(texts[1..], COMMA) + rest))
  {
  }

  lemma {:induction false} RecordReadsBack(texts: seq<string>, fields: seq<string>, rest: string)
    requires texts != [] && AtRecordBreak(rest) && WritesAll(texts, fields)
    ensures ReadRecord(Join(texts, COMMA) + rest) == Some(Parsed(fields, rest))
  {
    if |texts| == 1 {
      LastField(texts[0], fields[0], rest);
      assert fields == [fields[0]];
    } else {
      RecordReadsBack(texts[1..], fields[1..], rest);
      FieldThenOthers(texts[0], fields[0], Join(texts[1..], COMMA) + rest);
      JoinMore(texts, rest);
      assert [fields[0]] + fields[1..] == fields;
    }
  }

  lemma {:induction false} QuotingWritesAll(fields: seq<string>)
    ensures WritesAll(QuotedAll(fields), fields)
  {
    if fields != [] {
      forall r | AtBreak(r) ensures ReadField(Quoted(fields[0]) + r) == Some(Parsed(fields[0], r)) {
        QuotedFieldReadsBack(fields[0], r);
      }
      QuotingWritesAll(fields[1..]);
      assert QuotedAll(fields)[1..] == QuotedAll(fields[1..]);
    }
  }

  lemma {:induction false} PlainWritesAll(headers: seq<string>)
    requires forall i | 0 <= i < |headers| :: Plain(headers[i])
    ensures WritesAll(headers, headers)
  {
    if headers != [] {
      forall r | AtBreak(r) ensures ReadField(headers[0] + r) == Some(Parsed(headers[0], r)) {
        PlainReadsBack(headers[0], r);
      }
      PlainWritesAll(headers[1..]);
    }
  }

  lemma QuotedRecordReadsBack(fields: seq<string>, rest: string)
    requires fields != [] && AtRecordBreak(rest)
    ensures ReadRecord(Join(QuotedAll(fields), COMMA) + rest) == Some(Parsed(fields, rest))
  {
    QuotingWritesAll(fields);
    RecordReadsBack(QuotedAll(fields), fields, rest);
  }

  /** A record with at least one quoted field has a text of at least two characters. */
  lemma QuotedLineLength(fields: seq<string>)
    requires fields != []
    ensures |Join(QuotedAll(fields), COMMA)| >= 2
  {
    assert QuotedAll(fields)[0] == Quoted(fields[0]);
  }

  /** Rows of arbitrary strings, with at least one column each, read back exactly. */
  lemma {:induction false} RowsReadBack(records: seq<seq<string>>)
    requires records != [] && forall i | 0 <= i < |records| :: records[i] != []
    ensures ReadFile(Join(Lines(records), LF)) == Some(records)
    ensures |Join(Lines(records), LF)| >= 2
  {
    var line := Join(QuotedAll(records[0]), COMMA);
    QuotedLineLength(records[0]);
    if |records| == 1 {
      QuotedRecordReadsBack(records[0], []);
      assert line + [] == line;
      assert records == [records[0]];
    } else {
      RowsReadBack(records[1..]);
      assert Lines(records)[1..] == Lines(records[1..]);
      var tail := Join(Lines(records[1..]), LF);
      assert Join(Lines(records), LF) == line + ([LF] + tail);
      QuotedRecordReadsBack(records[0], [LF] + tail);
      assert ([LF] + tail)[1..] == tail;
      assert [records[0]] + records[1..] == records;
    }
  }

  lemma PlainHeadersReadBack(headers: seq<string>, rest: string)
    requires headers != [] && AtRecordBreak(rest) && forall i | 0 <= i < |headers| :: Plain(headers[i])
    ensures ReadRecord(Join(headers, COMMA) + rest) == Some(Parsed(headers, rest))
  {
    PlainWritesAll(headers);
    RecordReadsBack(headers, headers, rest);
  }

  // -------------------------------------------------- headers that do not survive

  /** `k` leading quotes of the content of a quoted field come from 2 * k quotes of its text. */
  lemma {:induction false} LeadingQuotes(t: string, k: nat)
    requires ReadQuoted(t).Some? && k <= |ReadQuoted(t).value.value|
    requires forall i | 0 <= i < k :: ReadQuoted(t).value.value[i] == QUOTE
    ensures 2 * k <= |t| && forall i | 0 <= i < 2 * k :: t[i] == QUOTE
  {
    if k > 0 {
      var content := ReadQuoted(t).value.value;
      assert content[0] == QUOTE;
      assert t[0] == QUOTE;
      assert t[1] == QUOTE;
      assert ReadQuoted(t[2..]).value.value == content[1..];
      LeadingQuotes(t[2..], k - 1);
      forall i | 0 <= i < 2 * k ensures t[i] == QUOTE {
        if i >= 2 { assert t[i] == t[2..][i - 2]; }
      }
    }
  }

  /** Read as a quoted field, a text that starts with `h` and goes on with another character is not `h`. */
  lemma {:induction false} QuotedIsNotItself(h: string, rest: string, k: nat)
    requires h != [] && h[0] == QUOTE && rest != [] && rest[0] != QUOTE
    requires 1 <= k <= |h| && forall i | 0 <= i < k :: h[i] == QUOTE
    requires ReadQuoted((h + rest)[1..]).Some?
    ensures ReadQuoted((h + rest)[1..]).value.value != h
    decreases |h| - k
  {
    var t := (h + rest)[1..];
    if ReadQuoted(t).value.value == h {
      LeadingQuotes(t, k);
      assert t[k - 1] == (h + rest)[k];
      if k < |h| {
        QuotedIsNotItself(h, rest, k + 1);
      }
    }
  }

  lemma SpecialFieldIsNotReadBack(h: string, rest: string)
    requires !Plain(h) && rest != [] && AtBreak(rest)
    ensures ReadField(h + rest).Some? ==> ReadField(h + rest).value.value != h
  {
    if h[0] == QUOTE && ReadField(h + rest).Some? {
      QuotedIsNotItself(h, rest, 1);
    }
  }

  lemma FirstField(t: string)
    ensures ReadRecord(t).Some? ==>
              ReadField(t).Some? && ReadRecord(t).value.value[0] == ReadField(t).value.value
  {
  }

  lemma PlainFirstField(h: string, t: string)
    requires Plain(h)
    ensures var whole, others := ReadRecord(h + [COMMA] + t), ReadRecord(t);
            whole.Some? ==> others.Some? && whole.value.value == [h] + others.value.value
  {
    var tail := [COMMA] + t;
    assert h + [COMMA] + t == h + tail && tail[1..] == t;
    PlainReadsBack(h, tail);
  }

  lemma {:induction false} SpecialHeadersAreNotReadBack(headers: seq<string>, rest: string)
    requires rest != [] && AtRecordBreak(rest)
    requires headers == [] || exists i | 0 <= i < |headers| :: !Plain(headers[i])
    ensures var r := ReadRecord(Join(headers, COMMA) + rest);
            r.Some? ==> r.value.value != headers
  {
    if headers != [] {
      var t := Join(headers, COMMA) + rest;
      if Plain(headers[0]) {
        var i :| 0 <= i < |headers| && !Plain(headers[i]);
        assert headers[1..][i - 1] == headers[i];
        SpecialHeadersAreNotReadBack(headers[1..], rest);
        PlainFirstField(headers[0], Join(headers[1..], COMMA) + rest);
        assert t == headers[0] + [COMMA] + (Join(headers[1..], COMMA) + rest);
      } else {
        var tail := if |headers| == 1 then rest else [COMMA] + Join(headers[1..], COMMA) + rest;
        assert t == headers[0] + tail;
        SpecialFieldIsNotReadBack(headers[0], tail);
        FirstField(t);
      }
    }
  }

  /**
   The exported text reads back as the header row followed by exactly the rows, whatever the
   cells contain, if and only if there is a column and no header contains a comma, a quote or
   a line feed: headers are not escaped.
   */
  lemma CsvRoundTrip(headers: seq<string>, data: seq<Row>)
    requires data != []
    ensures ReadFile(Csv(headers, data)) == Some([headers] + Records(headers, data))
       <==> headers != [] && forall i | 0 <= i < |headers| :: Plain(headers[i])
  {
    var records := Records(headers, data);
    var head, tail := Join(headers, COMMA), Join(Lines(records), LF);
    assert ([head] + Lines(records))[1..] == Lines(records);
    assert Csv(headers, data) == head + ([LF] + tail);
    assert ([LF] + tail)[1..] == tail;
    if headers != [] && forall i | 0 <= i < |headers| :: Plain(headers[i]) {
      PlainHeadersReadBack(headers, [LF] + tail);
      RowsReadBack(records);
    } else {
      SpecialHeadersAreNotReadBack(headers, [LF] + tail);
      var r := ReadFile(head + ([LF] + tail));
      if r.Some? { assert r.value[0] != headers; }
    }
  }

  /**
   The law from the objects themselves: with plain headers the text reads back as one record per
   object under the headers, in order, and under each header stands the object's value for it,
   or nothing if it has none.
   */
  lemma ValuesStandUnderTheirHeaders(headers: seq<string>, data: seq<Row>, i: nat, j: nat)
    requires headers != [] && (forall k | 0 <= k < |headers| :: Plain(headers[k])) && i < |data| && j < |headers|
    ensures var file := ReadFile(Csv(headers, data));
            && file.Some? && |file.value| == |data| + 1 && file.value[0] == headers
            && |file.value[i + 1]| == |headers|
            && file.value[i + 1][j]
               == if headers[j] in data[i] && data[i][headers[j]].Some? then data[i][headers[j]].value else ""
  {
    CsvRoundTrip(headers, data);
    var records := Records(headers, data);
    assert ([headers] + records)[i + 1] == records[i] == Cells(headers, data[i]);
  }
}
