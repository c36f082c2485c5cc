/**
 `parseArgs` of scripts/deploy-testnet.ts: a loop that splits `--flag=value` into two arguments
 in place and looks at the first again. Its meaning is a grammar that never rewrites the list.
 */
module CliArgs {
  import opened Common

  datatype Options = Options(network: string, adminKey: string, envFile: string, only: Option<string>,
                             skipBuild: bool, skipBindings: bool, skipInit: bool, dryRun: bool, resume: bool)

  const DEFAULTS: Options :=
    Options("testnet", "trustlend-admin", ".env.local", None, false, false, false, false, false)

  /** How a run of the parser ends; the last three leave the process. */
  datatype Result = Parsed(options: Options) | HelpShown | MissingValue(flag: string) | UnknownOption(flag: string)

  datatype Valued = Network | AdminKey | EnvFile | Only

  datatype Switch = SkipBuild | SkipInit | SkipBindings | Resume | DryRun

  /** What an argument at option position is, when it is spelled exactly. */
  datatype Token = Takes(valued: Valued) | Turns(switch: Switch) | Help | Other

  function Recognize(arg: string): Token {
    if arg == "--network" then Takes(Network)
    else if arg == "--admin-key" then Takes(AdminKey)
    else if arg == "--env-file" || arg == "--out-env" then Takes(EnvFile)
    else if arg == "--only" then Takes(Only)
    else if arg == "--skip-build" then Turns(SkipBuild)
    else if arg == "--skip-init" then Turns(SkipInit)
    else if arg == "--skip-bindings" then Turns(SkipBindings)
    else if arg == "--resume" then Turns(Resume)
    else if arg == "--dry-run" then Turns(DryRun)
    else if arg == "-h" || arg == "--help" then Help
    else Other
  }

  function Assign(o: Options, v: Valued, value: string): Options {
    match v
    case Network => o.(network := value)
    case AdminKey => o.(adminKey := value)
    case EnvFile => o.(envFile := value)
    case Only => o.(only := Some(value))
  }

  function TurnOn(o: Options, s: Switch): Options {
    match s
    case SkipBuild => o.(skipBuild := true)
    case SkipInit => o.(skipInit := true)
    case SkipBindings => o.(skipBindings := true)
    case Resume => o.(resume := true)
    case DryRun => o.(dryRun := true)
  }

  // ------------------------------------------------------------ --flag=value

  /** The first `=`, or the length. */
  function EqualsAt(s: string): (k: nat)
    ensures k <= |s| && (k < |s| ==> s[k] == '=') && forall i | 0 <= i < k :: s[i] != '='
  {
    if s == [] || s[0] == '=' then 0 else 1 + EqualsAt(s[1..])
  }

  predicate HasAttachedValue(arg: string) {
    |arg| >= 2 && arg[..2] == "--" && EqualsAt(arg) < |arg|
  }

  function Name(arg: string): string
    requires HasAttachedValue(arg)
  {
    arg[..EqualsAt(arg)]
  }

  function AttachedValue(arg: string): string
    requires HasAttachedValue(arg)
  {
    arg[EqualsAt(arg) + 1..]
  }

  function EqualsSigns(s: string): nat {
    if s == [] then 0 else (if s[0] == '=' then 1 else 0) + EqualsSigns(s[1..])
  }

  /** The `=` signs of all the arguments: each split uses one up. */
  function AllEqualsSigns(args: seq<string>): nat {
    if args == [] then 0 else EqualsSigns(args[0]) + AllEqualsSigns(args[1..])
  }

  lemma {:induction false} EqualsSignsConcat(a: string, b: string)
    ensures EqualsSigns(a + b) == EqualsSigns(a) + EqualsSigns(b)
  {
    if a == [] {
      assert a + b == b;
    } else {
      EqualsSignsConcat(a[1..], b);
      assert (a + b)[1..] == a[1..] + b;
    }
  }

  lemma SplitUsesAnEqualsSign(arg: string)
    requires HasAttachedValue(arg)
    ensures EqualsSigns(arg) == EqualsSigns(Name(arg)) + 1 + EqualsSigns(AttachedValue(arg))
  {
    var k := EqualsAt(arg);
    EqualsSignsConcat(arg[..k], arg[k..]);
    assert arg[..k] + arg[k..] == arg;
    assert arg[k..][1..] == arg[k + 1..];
  }

  // ------------------------------------------------------------------- the grammar

  /** One option read: the parse stops, or goes on with the other arguments. */
  datatype Reading = Stop(result: Result) | Go(rest: seq<string>, options: Options)

  /** An argument whose name, before its attached value, is `token`. */
  function ReadAttached(token: Token, arg: string, rest: seq<string>, o: Options): (r: Reading)
    requires HasAttachedValue(arg)
    ensures r.Go? ==> AllEqualsSigns(r.rest) < EqualsSigns(arg) + AllEqualsSigns(rest)
  {
    SplitUsesAnEqualsSign(arg);
    assert ([AttachedValue(arg)] + rest)[1..] == rest;
    match token
    case Takes(v) => Go(rest, Assign(o, v, AttachedValue(arg)))
    case Turns(s) => Go([AttachedValue(arg)] + rest, TurnOn(o, s))
    case Help => Stop(HelpShown)
    case Other => Stop(UnknownOption(Name(arg)))
  }

  /** An argument that is `token` itself. */
  function ReadBare(token: Token, arg: string, rest: seq<string>, o: Options): (r: Reading)
    ensures r.Go? && token != Other ==> AllEqualsSigns(r.rest) <= AllEqualsSigns(rest) && |r.rest| <= |rest|
    ensures r.Go? && token == Other ==> AllEqualsSigns(r.rest) < EqualsSigns(arg) + AllEqualsSigns(rest)
  {
    match token
    case Takes(v) => if rest == [] then Stop(MissingValue(arg)) else Go(rest[1..], Assign(o, v, rest[0]))
    case Turns(s) => Go(rest, TurnOn(o, s))
    case Help => Stop(HelpShown)
    case Other =>
      if HasAttachedValue(arg) then ReadAttached(Recognize(Name(arg)), arg, rest, o) else Stop(UnknownOption(arg))
  }

  /**
   The first option of the arguments. A flag with a value takes the next argument or its
   attached value, whatever it looks like; a switch with an attached value is turned on and
   the value stands at option position next.
   */
  function ReadOption(args: seq<string>, o: Options): (r: Reading)
    requires args != []
    ensures r.Go? ==> AllEqualsSigns(r.rest) <= AllEqualsSigns(args)
    ensures r.Go? ==> AllEqualsSigns(r.rest) < AllEqualsSigns(args) || |r.rest| < |args|
  {
    ReadBare(Recognize(args[0]), args[0], args[1..], o)
  }

  /** The meaning of the arguments, from options `o`. */
  function Meaning(args: seq<string>, o: Options): Result
    decreases AllEqualsSigns(args), |args|
  {
    if args == [] then Parsed(o)
    else
      match ReadOption(args, o)
      case Stop(result) => result
      case Go(rest, options) => Meaning(rest, options)
  }

  lemma NameHasNoValue(arg: string)
    requires HasAttachedValue(arg)
    ensures !HasAttachedValue(Name(arg))
  {
    assert forall i | 0 <= i < |Name(arg)| :: Name(arg)[i] != '=';
  }

  /** `--flag=value` at option position means `--flag value`. */
  lemma AttachedMeansSeparate(arg: string, rest: seq<string>, o: Options)
    requires HasAttachedValue(arg) && Recognize(arg) == Other
    ensures Meaning([arg] + rest, o) == Meaning([Name(arg), AttachedValue(arg)] + rest, o)
  {
    var split := [Name(arg), AttachedValue(arg)] + rest;
    assert ([arg] + rest)[1..] == rest;
    assert split[1..] == [AttachedValue(arg)] + rest;
    assert split[1..][1..] == rest;
    NameHasNoValue(arg);
  }

  /** The spellings that are recognized carry no `=`. */
  lemma RecognizedIsBare(arg: string)
    requires Recognize(arg) != Other
    ensures !HasAttachedValue(arg)
  {
    assert '=' !in arg;
    assert forall i | 0 <= i < |arg| :: arg[i] != '=';
  }

  /** The loop takes a value: it moves on by two arguments. */
  lemma TakesTurn(args: seq<string>, i: nat, o: Options, v: Valued)
    requires i < |args| && Recognize(args[i]) == Takes(v)
    ensures i + 1 == |args| ==> Meaning(args[i..], o) == MissingValue(args[i])
    ensures i + 1 < |args| ==>
              && Meaning(args[i..], o) == Meaning(args[i + 2..], Assign(o, v, args[i + 1]))
              && AllEqualsSigns(args[i + 2..]) <= AllEqualsSigns(args[i..])
  {
    assert args[i..][1..] == args[i + 1..];
    if i + 1 < |args| { assert args[i + 1..][1..] == args[i + 2..]; }
  }

  /** The loop turns a switch on: it moves on by one argument. */
  lemma TurnsTurn(args: seq<string>, i: nat, o: Options, s: Switch)
    requires i < |args| && Recognize(args[i]) == Turns(s)
    ensures Meaning(args[i..], o) == Meaning(args[i + 1..], TurnOn(o, s))
    ensures AllEqualsSigns(args[i + 1..]) <= AllEqualsSigns(args[i..])
  {
    assert args[i..][1..] == args[i + 1..];
  }

  /** The list after the splice at `i`. */
  function Spliced(args: seq<string>, i: nat): seq<string>
    requires i < |args| && HasAttachedValue(args[i])
  {
    args[..i] + [Name(args[i]), AttachedValue(args[i])] + args[i + 1..]
  }

  /** The loop splits an argument: it stays where it is, with one `=` less to read. */
  lemma SplitTurn(args: seq<string>, i: nat, o: Options)
    requires i < |args| && Recognize(args[i]) == Other && HasAttachedValue(args[i])
    ensures i < |Spliced(args, i)| && Meaning(Spliced(args, i)[i..], o) == Meaning(args[i..], o)
    ensures AllEqualsSigns(Spliced(args, i)[i..]) < AllEqualsSigns(args[i..])
  {
    var rest := args[i + 1..];
    assert args[i..] == [args[i]] + rest;
    assert Spliced(args, i)[i..] == [Name(args[i]), AttachedValue(args[i])] + rest;
    AttachedMeansSeparate(args[i], rest, o);
    SplitIsSmaller(args[i], rest);
  }

  lemma StopTurn(args: seq<string>, i: nat, o: Options)
    requires i < |args| && (Recognize(args[i]) == Help || (Recognize(args[i]) == Other && !HasAttachedValue(args[i])))
    ensures Meaning(args[i..], o) == if Recognize(args[i]) == Help then HelpShown else UnknownOption(args[i])
  {
  }

  /**
   The loop. It ends for every list: a split uses up an `=` of the unread arguments, and every
   other turn reads an argument.
   */
  method ParseArgs(argv: seq<string>) returns (r: Result)
    ensures r == Meaning(argv, DEFAULTS)
  {
    var args, options, i := argv, DEFAULTS, 0;
    assert args[0..] == args;
    while i < |args|
      invariant i <= |args|
      invariant Meaning(args[i..], options) == Meaning(argv, DEFAULTS)
      decreases AllEqualsSigns(args[i..]), |args| - i
    {
      var arg := args[i];
      match Recognize(arg) {
        case Takes(v) =>
          TakesTurn(args, i, options, v);
          i := i + 1;
          if i >= |args| {
            return MissingValue(arg);
          }
          options := Assign(options, v, args[i]);
        case Turns(s) =>
          TurnsTurn(args, i, options, s);
          options := TurnOn(options, s);
        case Help =>
          StopTurn(args, i, options);
          return HelpShown;
        case Other =>
          if !HasAttachedValue(arg) {
            StopTurn(args, i, options);
            return UnknownOption(arg);
          }
          SplitTurn(args, i, options);
          args := args[..i] + [Name(arg), AttachedValue(arg)] + args[i + 1..];
          i := i - 1;
      }
      i := i + 1;
    }
    return Parsed(options);
  }

  lemma SplitIsSmaller(arg: string, rest: seq<string>)
    requires HasAttachedValue(arg)
    ensures AllEqualsSigns([Name(arg), AttachedValue(arg)] + rest) < AllEqualsSigns([arg] + rest)
  {
    SplitUsesAnEqualsSign(arg);
    var split := [Name(arg), AttachedValue(arg)] + rest;
    assert split[1..] == [AttachedValue(arg)] + rest;
    assert split[1..][1..] == rest;
    assert ([arg] + rest)[1..] == rest;
  }

  lemma ValuedPair(name: string, v: Valued, value: string, rest: seq<string>, o: Options)
    requires Recognize(name) == Takes(v)
    ensures Meaning([name, value] + rest, o) == Meaning(rest, Assign(o, v, value))
  {
    var pair := [name, value] + rest;
    assert pair[1..] == [value] + rest && pair[1..][1..] == rest;
    assert ReadOption(pair, o) == Go(rest, Assign(o, v, value));
  }

  /** The two names of the environment file mean the same. */
  lemma EnvFileHasTwoNames(name: string, value: string, rest: seq<string>, o: Options)
    requires name == "--env-file" || name == "--out-env"
    ensures Meaning([name, value] + rest, o) == Meaning(rest, o.(envFile := value))
  {
    assert Recognize(name) == Takes(EnvFile);
    ValuedPair(name, EnvFile, value, rest, o);
  }

  // ----------------------------------------------------------------- composition

  lemma AttachedComposes(token: Token, arg: string, rest: seq<string>, b: seq<string>, o: Options)
    requires HasAttachedValue(arg) && ReadAttached(token, arg, rest, o).Go?
    ensures ReadAttached(token, arg, rest + b, o)
         == Go(ReadAttached(token, arg, rest, o).rest + b, ReadAttached(token, arg, rest, o).options)
  {
    assert [AttachedValue(arg)] + (rest + b) == [AttachedValue(arg)] + rest + b;
  }

  lemma BareComposes(token: Token, arg: string, rest: seq<string>, b: seq<string>, o: Options)
    requires ReadBare(token, arg, rest, o).Go?
    ensures ReadBare(token, arg, rest + b, o)
         == Go(ReadBare(token, arg, rest, o).rest + b, ReadBare(token, arg, rest, o).options)
  {
    if token == Other {
      AttachedComposes(Recognize(Name(arg)), arg, rest, b, o);
    } else if rest != [] {
      assert (rest + b)[1..] == rest[1..] + b;
    }
  }

  lemma OptionComposes(a: seq<string>, b: seq<string>, o: Options)
    requires a != [] && ReadOption(a, o).Go?
    ensures ReadOption(a + b, o) == Go(ReadOption(a, o).rest + b, ReadOption(a, o).options)
  {
    assert (a + b)[1..] == a[1..] + b;
    BareComposes(Recognize(a[0]), a[0], a[1..], b, o);
  }

  /** Arguments that parse on their own can be followed by others. */
  lemma {:induction false} MeaningComposes(a: seq<string>, b: seq<string>, o: Options)
    requires Meaning(a, o).Parsed?
    ensures Meaning(a + b, o) == Meaning(b, Meaning(a, o).options)
    decreases AllEqualsSigns(a), |a|
  {
    if a == [] {
      assert a + b == b;
    } else {
      OptionComposes(a, b, o);
      MeaningComposes(ReadOption(a, o).rest, b, ReadOption(a, o).options);
    }
  }

  // ------------------------------------------------------------- how a parse stops

  /** An empty command line asks for the documented defaults. */
  lemma EmptyMeansDefaults()
    ensures Meaning([], DEFAULTS)
         == Parsed(Options("testnet", "trustlend-admin", ".env.local", None, false, false, false, false, false))
  {
  }

  predicate IsFlagWithValue(arg: string) {
    arg in {"--network", "--admin-key", "--env-file", "--out-env", "--only"}
  }

  predicate IsSwitch(arg: string) {
    arg in {"--skip-build", "--skip-init", "--skip-bindings", "--resume", "--dry-run"}
  }

  /** Asking for help stops the parse, whatever follows. */
  lemma HelpStops(args: seq<string>, arg: string, rest: seq<string>)
    requires Meaning(args, DEFAULTS).Parsed? && (arg == "-h" || arg == "--help")
    ensures Meaning(args + ([arg] + rest), DEFAULTS) == HelpShown
  {
    MeaningComposes(args, [arg] + rest, DEFAULTS);
  }

  /** A flag at the end without its value is reported by its name. */
  lemma MissingValueIsReported(args: seq<string>, arg: string)
    requires Meaning(args, DEFAULTS).Parsed? && IsFlagWithValue(arg)
    ensures Meaning(args + [arg], DEFAULTS) == MissingValue(arg)
  {
    MeaningComposes(args, [arg], DEFAULTS);
  }

  /** An argument that is no option, before any attached value. */
  predicate IsUnknown(name: string) {
    && '=' !in name && !IsFlagWithValue(name) && !IsSwitch(name) && name != "-h" && name != "--help"
  }

  lemma EqualsIsThere(s: string)
    ensures EqualsAt(s) < |s| ==> '=' in s
  {
    if EqualsAt(s) < |s| { assert s[EqualsAt(s)] in s; }
  }

  lemma UnknownStops(name: string, rest: seq<string>, o: Options)
    requires IsUnknown(name)
    ensures Meaning([name] + rest, o) == UnknownOption(name)
  {
    EqualsIsThere(name);
    assert ([name] + rest)[1..] == rest;
    assert Recognize(name) == Other;
  }

  lemma UnknownAttachedStops(name: string, value: string, rest: seq<string>, o: Options)
    requires IsUnknown(name) && |name| >= 2 && name[..2] == "--"
    ensures Meaning([name + ['='] + value] + rest, o) == UnknownOption(name)
  {
    var arg := name + ['='] + value;
    EqualsAfterName(name, value);
    assert arg[..2] == name[..2];
    assert HasAttachedValue(arg) && Name(arg) == name && AttachedValue(arg) == value;
    if Recognize(arg) != Other { RecognizedIsBare(arg); }
    AttachedMeansSeparate(arg, rest, o);
    UnknownStops(name, [value] + rest, o);
    assert [name] + ([value] + rest) == [name, value] + rest;
  }

  lemma DashesAreInTheName(name: string, value: string)
    requires !(|name| >= 2 && name[..2] == "--")
    ensures var arg := name + ['='] + value;
            '=' in arg && !(|arg| >= 2 && arg[..2] == "--")
  {
    var arg := name + ['='] + value;
    assert arg[|name|] == '=';
    assert |name| >= 2 ==> name[..2] == arg[..2];
    assert |name| < 2 && |arg| >= 2 ==> arg[0] == '=' || arg[1] == '=';
  }

  /** Without two leading dashes nothing is split off. */
  lemma UnsplitStops(arg: string, rest: seq<string>, o: Options)
    requires '=' in arg && !(|arg| >= 2 && arg[..2] == "--")
    ensures Meaning([arg] + rest, o) == UnknownOption(arg)
  {
    assert ([arg] + rest)[1..] == rest;
    assert Recognize(arg) == Other && !HasAttachedValue(arg);
  }

  /**
   An argument that is no option is reported, whatever follows: without its attached value if it
   starts with two dashes, and otherwise in full.
   */
  lemma UnknownOptionIsReported(args: seq<string>, name: string, value: string, rest: seq<string>)
    requires Meaning(args, DEFAULTS).Parsed? && IsUnknown(name)
    ensures Meaning(args + ([name] + rest), DEFAULTS) == UnknownOption(name)
    ensures |name| >= 2 && name[..2] == "--" ==>
              Meaning(args + ([name + ['='] + value] + rest), DEFAULTS) == UnknownOption(name)
    ensures !(|name| >= 2 && name[..2] == "--") ==>
              Meaning(args + ([name + ['='] + value] + rest), DEFAULTS) == UnknownOption(name + ['='] + value)
  {
    var o := Meaning(args, DEFAULTS).options;
    MeaningComposes(args, [name] + rest, DEFAULTS);
    UnknownStops(name, rest, o);
    MeaningComposes(args, [name + ['='] + value] + rest, DEFAULTS);
    if |name| >= 2 && name[..2] == "--" {
      UnknownAttachedStops(name, value, rest, o);
    } else {
      DashesAreInTheName(name, value);
      UnsplitStops(name + ['='] + value, rest, o);
    }
  }

  // ------------------------------------------------------------------- round trip

  function ValuedName(v: Valued): string {
    match v
    case Network => "--network"
    case AdminKey => "--admin-key"
    case EnvFile => "--out-env"
    case Only => "--only"
  }

  function SwitchName(s: Switch): string {
    match s
    case SkipBuild => "--skip-build"
    case SkipInit => "--skip-init"
    case SkipBindings => "--skip-bindings"
    case Resume => "--resume"
    case DryRun => "--dry-run"
  }

  function WriteValued(v: Valued, value: string, attached: bool): seq<string> {
    if attached then [ValuedName(v) + ['='] + value] else [ValuedName(v), value]
  }

  function WriteOnly(only: Option<string>, attached: bool): seq<string> {
    if only.Some? then WriteValued(Only, only.value, attached) else []
  }

  function WriteSwitch(s: Switch, on: bool): seq<string> {
    if on then [SwitchName(s)] else []
  }

  /** Arguments that turn some switches on. */
  function WriteSwitches(switches: seq<(Switch, bool)>): seq<string> {
    if switches == [] then [] else WriteSwitch(switches[0].0, switches[0].1) + WriteSwitches(switches[1..])
  }

  function SwitchesOf(o: Options): seq<(Switch, bool)> {
    [(SkipBuild, o.skipBuild), (SkipInit, o.skipInit), (SkipBindings, o.skipBindings), (Resume, o.resume),
     (DryRun, o.dryRun)]
  }

  function TurnOnAll(o: Options, switches: seq<(Switch, bool)>): Options
    decreases switches
  {
    if switches == [] then o
    else TurnOnAll(if switches[0].1 then TurnOn(o, switches[0].0) else o, switches[1..])
  }

  /** Arguments that ask for the options `o`, in either spelling. */
  function Write(o: Options, attached: bool): seq<string> {
    WriteValued(Network, o.network, attached) + (WriteValued(AdminKey, o.adminKey, attached)
    + (WriteValued(EnvFile, o.envFile, attached)
    + (WriteOnly(o.only, attached) + WriteSwitches(SwitchesOf(o)))))
  }

  lemma {:induction false} EqualsAfterName(name: string, value: string)
    requires '=' !in name
    ensures EqualsAt(name + ['='] + value) == |name|
  {
    var s := name + ['='] + value;
    if name != [] {
      assert name[0] in name;
      assert forall c | c in name[1..] :: c in name;
      EqualsAfterName(name[1..], value);
      assert s[1..] == name[1..] + ['='] + value;
    }
  }

  lemma ValuedNamesAreKnown(v: Valued)
    ensures Recognize(ValuedName(v)) == Takes(v) && '=' !in ValuedName(v)
    ensures |ValuedName(v)| >= 2 && ValuedName(v)[..2] == "--"
  {
  }

  lemma WrittenValue(v: Valued, value: string, attached: bool, rest: seq<string>, o: Options)
    ensures Meaning(WriteValued(v, value, attached) + rest, o) == Meaning(rest, Assign(o, v, value))
  {
    ValuedNamesAreKnown(v);
    var name := ValuedName(v);
    ValuedPair(name, v, value, rest, o);
    if attached {
      var arg := name + ['='] + value;
      EqualsAfterName(name, value);
      assert arg[..2] == name[..2];
      assert HasAttachedValue(arg) && Name(arg) == name && AttachedValue(arg) == value;
      if Recognize(arg) != Other { RecognizedIsBare(arg); }
      AttachedMeansSeparate(arg, rest, o);
    }
  }

  lemma SwitchNamesAreKnown(s: Switch)
    ensures Recognize(SwitchName(s)) == Turns(s)
  {
  }

  lemma WrittenSwitch(s: Switch, on: bool, rest: seq<string>, o: Options)
    ensures Meaning(WriteSwitch(s, on) + rest, o) == Meaning(rest, if on then TurnOn(o, s) else o)
  {
    if on {
      var args := [SwitchName(s)] + rest;
      SwitchNamesAreKnown(s);
      assert args[1..] == rest;
      assert ReadOption(args, o) == Go(rest, TurnOn(o, s));
    } else {
      assert [] + rest == rest;
    }
  }

  lemma {:induction false} SwitchesReadBack(switches: seq<(Switch, bool)>, base: Options)
    ensures Meaning(WriteSwitches(switches), base) == Parsed(TurnOnAll(base, switches))
  {
    if switches != [] {
      var (s, on) := switches[0];
      WrittenSwitch(s, on, WriteSwitches(switches[1..]), base);
      SwitchesReadBack(switches[1..], if on then TurnOn(base, s) else base);
    }
  }

  lemma AllSwitches(o: Options, base: Options)
    requires base == DEFAULTS.(network := o.network, adminKey := o.adminKey, envFile := o.envFile, only := o.only)
    ensures TurnOnAll(base, SwitchesOf(o)) == o
  {
    var s := SwitchesOf(o);
    assert s[1..][1..] == s[2..] && s[2..][1..] == s[3..] && s[3..][1..] == s[4..] && s[4..][1..] == [];
    var b1 := base.(skipBuild := o.skipBuild);
    var b2 := b1.(skipInit := o.skipInit);
    var b3 := b2.(skipBindings := o.skipBindings);
    var b4 := b3.(resume := o.resume);
    assert TurnOnAll(base, s) == TurnOnAll(b1, s[1..]) == TurnOnAll(b2, s[2..]) == TurnOnAll(b3, s[3..]);
    assert TurnOnAll(b3, s[3..]) == TurnOnAll(b4, s[4..]) == o;
  }

  lemma {:induction false} WrittenOnly(only: Option<string>, attached: bool, rest: seq<string>, o: Options)
    requires o.only.None?
    ensures Meaning(WriteOnly(only, attached) + rest, o) == Meaning(rest, o.(only := only))
  {
    if only.Some? {
      WrittenValue(Only, only.value, attached, rest, o);
    } else {
      assert [] + rest == rest;
      assert o.(only := None) == o;
    }
  }

  /** Every set of options can be asked for, with attached values or separate ones. */
  lemma OptionsReadBack(o: Options, attached: bool)
    ensures Meaning(Write(o, attached), DEFAULTS) == Parsed(o)
  {
    var v5 := WriteSwitches(SwitchesOf(o));
    var v4 := WriteOnly(o.only, attached) + v5;
    var v3 := WriteValued(EnvFile, o.envFile, attached) + v4;
    var v2 := WriteValued(AdminKey, o.adminKey, attached) + v3;
    var o1 := Assign(DEFAULTS, Network, o.network);
    var o2 := Assign(o1, AdminKey, o.adminKey);
    var o3 := Assign(o2, EnvFile, o.envFile);
    var o4 := o3.(only := o.only);
    calc {
      Meaning(Write(o, attached), DEFAULTS);
      { WrittenValue(Network, o.network, attached, v2, DEFAULTS); }
      Meaning(v2, o1);
      { WrittenValue(AdminKey, o.adminKey, attached, v3, o1); }
      Meaning(v3, o2);
      { WrittenValue(EnvFile, o.envFile, attached, v4, o2); }
      Meaning(v4, o3);
      { WrittenOnly(o.only, attached, v5, o3); }
      Meaning(v5, o4);
      { SwitchesReadBack(SwitchesOf(o), o4); AllSwitches(o, o4); }
      Parsed(o);
    }
  }
}
