/**
 The loop of `runOracleKeeper`: one counter decides when to alert about an outage and when to
 report a recovery. The alerts are compared with the outage stretches of the whole trace.
 */
module OutageAlerts {
  datatype CycleEnd = Outage | Fine | Threw

  const SUSTAINED: nat := 12

  /** Thrown cycles say nothing about the feed. */
  function Heard(ends: seq<CycleEnd>): (r: seq<CycleEnd>)
    ensures Threw !in r
  {
    if ends == [] then []
    else
      var before, last := Heard(ends[..|ends| - 1]), ends[|ends| - 1];
      if last == Threw then before else before + [last]
  }

  /** An outage stretch starts at `i`; a maximal stretch is known by its start. */
  predicate Starts(s: seq<CycleEnd>, i: nat) {
    i < |s| && s[i] == Outage && (i == 0 || s[i - 1] != Outage)
  }

  /** The stretch that starts at `i` lasts for at least 12 cycles. */
  ghost predicate StartsLong(s: seq<CycleEnd>, i: nat) {
    Starts(s, i) && i + 12 <= |s| && forall k | i <= k < i + 12 :: s[k] == Outage
  }

  /** The stretch that starts at `i` has ended. */
  ghost predicate StartsEnded(s: seq<CycleEnd>, i: nat) {
    Starts(s, i) && exists k | i < k < |s| :: s[k] != Outage
  }

  ghost function LongStretches(s: seq<CycleEnd>): set<nat> {
    set i: nat | i < |s| && StartsLong(s, i)
  }

  ghost function EndedStretches(s: seq<CycleEnd>): set<nat> {
    set i: nat | i < |s| && StartsEnded(s, i)
  }

  /** The outages at the end of the trace. */
  function Trailing(s: seq<CycleEnd>): (n: nat)
    ensures n <= |s| && (forall k | |s| - n <= k < |s| :: s[k] == Outage)
    ensures n < |s| ==> s[|s| - n - 1] != Outage
  {
    if s == [] || s[|s| - 1] != Outage then 0 else 1 + Trailing(s[..|s| - 1])
  }

  /** A stretch that has not ended is the trailing one. */
  lemma OpenStretch(s: seq<CycleEnd>, i: nat)
    ensures Starts(s, i) && !StartsEnded(s, i) <==> i == |s| - Trailing(s) && Trailing(s) > 0
  {
    var n, c := |s|, Trailing(s);
    if Starts(s, i) && i < n - c {
      assert s[n - c - 1] != Outage;
    }
  }

  lemma OneMore(s: seq<CycleEnd>, end: CycleEnd)
    ensures Trailing(s + [end]) == if end == Outage then Trailing(s) + 1 else 0
  {
    assert (s + [end])[..|s|] == s;
  }

  /** A stretch that was long before the last cycle was long without it. */
  lemma LongBefore(s: seq<CycleEnd>, end: CycleEnd, i: nat)
    requires i + SUSTAINED <= |s|
    ensures StartsLong(s + [end], i) <==> StartsLong(s, i)
  {
    assert forall k | 0 <= k < |s| :: (s + [end])[k] == s[k];
  }

  /** The last cycle makes the trailing stretch long when it is its twelfth. */
  lemma LongNow(s: seq<CycleEnd>, end: CycleEnd, i: nat)
    requires i + SUSTAINED == |s| + 1
    ensures StartsLong(s + [end], i)
       <==> end == Outage && Trailing(s) + 1 == SUSTAINED && i == |s| - Trailing(s)
  {
    var t := s + [end];
    OneMore(s, end);
    OpenStretch(t, i);
  }

  /** Which stretches are long after one more cycle. */
  lemma LongAfter(s: seq<CycleEnd>, end: CycleEnd, i: nat)
    ensures StartsLong(s + [end], i)
       <==> StartsLong(s, i) || (end == Outage && Trailing(s) + 1 == SUSTAINED && i == |s| - Trailing(s))
  {
    if i + SUSTAINED <= |s| {
      LongBefore(s, end, i);
    } else if i + SUSTAINED == |s| + 1 {
      LongNow(s, end, i);
    }
  }

  /** A stretch that has ended stays so. */
  lemma EndedStays(s: seq<CycleEnd>, end: CycleEnd, i: nat)
    requires StartsEnded(s, i)
    ensures StartsEnded(s + [end], i)
  {
    var k :| i < k < |s| && s[k] != Outage;
    assert (s + [end])[k] == s[k] && (s + [end])[i] == s[i];
  }

  /** The trailing stretch ends with the first cycle that is fine. */
  lemma OpenEnds(s: seq<CycleEnd>, end: CycleEnd)
    requires Trailing(s) > 0
    ensures StartsEnded(s + [end], |s| - Trailing(s)) <==> end != Outage
    ensures !StartsEnded(s, |s| - Trailing(s))
  {
    var t, i := s + [end], |s| - Trailing(s);
    OpenStretch(s, i);
    assert t[i] == s[i] && (i > 0 ==> t[i - 1] == s[i - 1]);
    if end != Outage {
      assert i < |s| < |t| && t[|s|] != Outage;
    } else {
      forall k | i < k < |t| ensures t[k] == Outage {
        if k < |s| { assert t[k] == s[k]; }
      }
    }
  }

  /** Which stretches have ended after one more cycle. */
  lemma EndedAfter(s: seq<CycleEnd>, end: CycleEnd, i: nat)
    requires end != Threw
    ensures StartsEnded(s + [end], i)
       <==> StartsEnded(s, i) || (end == Fine && Trailing(s) > 0 && i == |s| - Trailing(s))
  {
    OpenStretch(s, i);
    if StartsEnded(s, i) {
      EndedStays(s, end, i);
    } else if Trailing(s) > 0 && i == |s| - Trailing(s) {
      OpenEnds(s, end);
    } else if i < |s| {
      assert (s + [end])[i] == s[i] && (i > 0 ==> (s + [end])[i - 1] == s[i - 1]);
    }
  }

  lemma LongStretchesAfter(s: seq<CycleEnd>, end: CycleEnd)
    requires end != Threw
    ensures |LongStretches(s + [end])|
         == |LongStretches(s)| + if end == Outage && Trailing(s) + 1 == SUSTAINED then 1 else 0
  {
    var open := |s| - Trailing(s);
    var isNew := end == Outage && Trailing(s) + 1 == SUSTAINED;
    forall i: nat ensures i in LongStretches(s + [end]) <==> i in LongStretches(s) || (isNew && i == open) {
      LongAfter(s, end, i);
    }
    assert isNew ==> !StartsLong(s, open);
    assert LongStretches(s + [end]) == LongStretches(s) + if isNew then {open} else {};
  }

  lemma EndedStretchesAfter(s: seq<CycleEnd>, end: CycleEnd)
    requires end != Threw
    ensures |EndedStretches(s + [end])|
         == |EndedStretches(s)| + if end == Fine && Trailing(s) > 0 then 1 else 0
  {
    var open := |s| - Trailing(s);
    var isNew := end == Fine && Trailing(s) > 0;
    forall i: nat ensures i in EndedStretches(s + [end]) <==> i in EndedStretches(s) || (isNew && i == open) {
      EndedAfter(s, end, i);
    }
    if isNew { OpenEnds(s, end); }
    assert EndedStretches(s + [end]) == EndedStretches(s) + if isNew then {open} else {};
  }

  /** What the loop keeps: the counter, and the alerts sent so far. */
  datatype Monitor = Monitor(consecutiveOutages: nat, sustainedAlerts: nat, recoveryAlerts: nat)

  function Observe(m: Monitor, end: CycleEnd): Monitor {
    match end
    case Threw => m
    case Outage =>
      var c := m.consecutiveOutages + 1;
      Monitor(c, m.sustainedAlerts + (if c == SUSTAINED then 1 else 0), m.recoveryAlerts)
    case Fine =>
      if m.consecutiveOutages > 0 then Monitor(0, m.sustainedAlerts, m.recoveryAlerts + 1) else m
  }

  function Watch(ends: seq<CycleEnd>): Monitor {
    if ends == [] then Monitor(0, 0, 0)
    else Observe(Watch(ends[..|ends| - 1]), ends[|ends| - 1])
  }

  /**
   Over any trace, the sustained-failure alerts are as many as the maximal outage stretches of
   at least 12 cycles, and the recovery alerts as many as the stretches that have ended; thrown
   cycles neither extend nor break a stretch.
   */
  lemma {:induction false} AlertsCountStretches(ends: seq<CycleEnd>)
    ensures Watch(ends).consecutiveOutages == Trailing(Heard(ends))
    ensures Watch(ends).sustainedAlerts == |LongStretches(Heard(ends))|
    ensures Watch(ends).recoveryAlerts == |EndedStretches(Heard(ends))|
  {
    if ends != [] {
      var last, s := ends[|ends| - 1], Heard(ends[..|ends| - 1]);
      AlertsCountStretches(ends[..|ends| - 1]);
      if last != Threw {
        LongStretchesAfter(s, last);
        EndedStretchesAfter(s, last);
        OneMore(s, last);
      }
    }
  }
}

/** The polling loop around the keeper. */
module OracleLoop {
  import opened Common
  import opened PriceAggregation
  import opened OracleCycles
  import opened OracleKeeper
  import opened OutageAlerts

  /** The inputs of the cycles that did not throw. */
  function Present(inputs: seq<Option<Input>>): seq<Input> {
    if inputs == [] then []
    else
      var before, last := Present(inputs[..|inputs| - 1]), inputs[|inputs| - 1];
      if last.Some? then before + [last.value] else before
  }

  /** A cycle in which some symbol has no price is an outage. */
  function EndOf(cfg: Config, reading: Reading, st: State): CycleEnd {
    if Tallied(cfg, reading, st, |TRACKED_SYMBOLS|, NoPrice) > 0 then Outage else Fine
  }

  /** Exactly: a cycle after which XLM or BTC has no price. */
  lemma OutageMeansNoPrice(cfg: Config, reading: Reading, st: State)
    ensures EndOf(cfg, reading, st) == Outage
       <==> || OutcomeFor(cfg, reading, XLM, st).result.price.None?
            || OutcomeFor(cfg, reading, BTC, st).result.price.None?
    ensures EndOf(cfg, reading, st) != Threw
  {
    BothSymbolsAreCounted(cfg, reading, st, NoPrice);
    OutcomesAreExact(cfg, reading, XLM, Get(st.good, XLM), Get(st.published, XLM));
    OutcomesAreExact(cfg, reading, BTC, Get(st.good, BTC), Get(st.published, BTC));
  }

  function EndsOf(cfg: Config, inputs: seq<Option<Input>>): (r: seq<CycleEnd>)
    ensures |r| == |inputs|
  {
    if inputs == [] then []
    else
      var before, last := inputs[..|inputs| - 1], inputs[|inputs| - 1];
      EndsOf(cfg, before)
      + [CycleEndOf(cfg, ReadAll(cfg, Present(before)), last)]
  }

  function CycleEndOf(cfg: Config, readings: seq<Reading>, input: Option<Input>): CycleEnd {
    if input.None? then Threw else EndOf(cfg, Read(cfg, input.value), RunCycles(cfg, readings))
  }

  /** One turn of the loop: a cycle, and the alert it leads to. */
  method PollOnce(keeper: Keeper, input: Option<Input>, m: Monitor) returns (after: Monitor)
    requires keeper.Valid()
    modifies keeper
    ensures keeper.Valid()
    ensures keeper.readings == old(keeper.readings)
                               + if input.Some? then [Read(keeper.cfg, input.value)] else []
    ensures after == Observe(m, CycleEndOf(keeper.cfg, old(keeper.readings), input))
  {
    after := m;
    if input.Some? {
      var summary := keeper.RunOracleCycle(input.value);
      if summary.unavailable > 0 {
        after := after.(consecutiveOutages := after.consecutiveOutages + 1);
        if after.consecutiveOutages == SUSTAINED {
          after := after.(sustainedAlerts := after.sustainedAlerts + 1);
        }
      } else if after.consecutiveOutages > 0 {
        after := after.(consecutiveOutages := 0, recoveryAlerts := after.recoveryAlerts + 1);
      }
    }
  }

  lemma OneMoreInput(cfg: Config, inputs: seq<Option<Input>>, i: nat)
    requires i < |inputs|
    ensures Watch(EndsOf(cfg, inputs[..i + 1]))
         == Observe(Watch(EndsOf(cfg, inputs[..i])), CycleEndOf(cfg, ReadAll(cfg, Present(inputs[..i])), inputs[i]))
    ensures ReadAll(cfg, Present(inputs[..i + 1]))
         == ReadAll(cfg, Present(inputs[..i])) + if inputs[i].Some? then [Read(cfg, inputs[i].value)] else []
  {
    assert inputs[..i + 1][..i] == inputs[..i];
    assert EndsOf(cfg, inputs[..i + 1])[..i] == EndsOf(cfg, inputs[..i]);
  }

  /** What holds at the top of the loop once `i` cycles are over. */
  ghost predicate Tracks(keeper: Keeper, inputs: seq<Option<Input>>, i: nat, monitor: Monitor)
    requires i <= |inputs|
    reads keeper
  {
    && keeper.Valid()
    && keeper.readings == ReadAll(keeper.cfg, Present(inputs[..i]))
    && monitor == Watch(EndsOf(keeper.cfg, inputs[..i]))
  }

  method PollNext(keeper: Keeper, inputs: seq<Option<Input>>, i: nat, m: Monitor) returns (after: Monitor)
    requires i < |inputs| && Tracks(keeper, inputs, i, m)
    modifies keeper
    ensures Tracks(keeper, inputs, i + 1, after)
  {
    OneMoreInput(keeper.cfg, inputs, i);
    after := PollOnce(keeper, inputs[i], m);
  }

  lemma AlertsOf(keeper: Keeper, inputs: seq<Option<Input>>, i: nat, monitor: Monitor)
    requires i <= |inputs| && Tracks(keeper, inputs, i, monitor)
    ensures var heard := Heard(EndsOf(keeper.cfg, inputs[..i]));
            && monitor.sustainedAlerts == |LongStretches(heard)|
            && monitor.recoveryAlerts == |EndedStretches(heard)|
  {
    AlertsCountStretches(EndsOf(keeper.cfg, inputs[..i]));
  }

  lemma NothingPolledYet(keeper: Keeper, inputs: seq<Option<Input>>)
    requires keeper.Valid() && keeper.readings == []
    ensures Tracks(keeper, inputs, 0, Monitor(0, 0, 0))
  {
    assert inputs[..0] == [];
  }

  /** With `once` the loop ends after its first cycle. */
  function Turns(n: nat, once: bool): nat {
    if once then Min(n, 1) else n
  }

  method PollInTurn(keeper: Keeper, once: bool, inputs: seq<Option<Input>>) returns (monitor: Monitor, exitCode: nat)
    requires Tracks(keeper, inputs, 0, Monitor(0, 0, 0))
    modifies keeper
    ensures Tracks(keeper, inputs, Turns(|inputs|, once), monitor)
    ensures exitCode == if once && inputs != [] && inputs[0].None? then 1 else 0
  {
    monitor, exitCode := Monitor(0, 0, 0), 0;
    var i := 0;
    while i < Turns(|inputs|, once)
      invariant i <= Turns(|inputs|, once) && Tracks(keeper, inputs, i, monitor)
      invariant exitCode == if once && i == 1 && inputs[0].None? then 1 else 0
    {
      monitor := PollNext(keeper, inputs, i, monitor);
      if inputs[i].None? && once {
        exitCode := 1;
      }
      i := i + 1;
    }
  }

  /**
   The loop for as long as `inputs` lasts; None stands for a cycle that threw. Its alerts are
   those of the stretches in the trace of its cycles.
   */
  method RunOracleKeeper(cfg: Config, once: bool, inputs: seq<Option<Input>>)
    returns (monitor: Monitor, exitCode: nat)
    ensures var heard := Heard(EndsOf(cfg, if once && inputs != [] then inputs[..1] else inputs));
            && monitor.sustainedAlerts == |LongStretches(heard)|
            && monitor.recoveryAlerts == |EndedStretches(heard)|
    ensures exitCode == if once && inputs != [] && inputs[0].None? then 1 else 0
  {
    var keeper := new Keeper(cfg);
    NothingPolledYet(keeper, inputs);
    monitor, exitCode := PollInTurn(keeper, once, inputs);
    AlertsOf(keeper, inputs, Turns(|inputs|, once), monitor);
    assert inputs[..|inputs|] == inputs;
  }
}
