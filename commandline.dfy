/*
  CommandLineUtility: turns an argument vector into an option dictionary
  (name -> values), finds which dictionary key names a member of the
  options type, and converts that key's values into the member's value.
  Reflection is replaced by a list of `Member` descriptions: the public
  fields of the options type followed by its public properties.
*/
module CommandLine {
  import opened Wrappers
  import opened StringExtensions

  type Options = map<string, seq<string>>

  // ------------------------------------------------------ CreateOptionDictionary

  /** The builder's state between two arguments: the options saved so far,
      the option being read ("" for none) and the values read for it. */
  datatype Reader = Reader(saved: Options, name: string, values: seq<string>)

  const Start: Reader := Reader(map[], "", [])

  /** An argument that starts with '-' names an option. */
  predicate IsOption(arg: string) {
    arg != [] && arg[0] == '-'
  }

  /** `saveCurrentOption`: a named option is stored, and the reader is cleared. */
  function Save(r: Reader): Reader {
    Reader(if r.name == "" then r.saved else r.saved[r.name := r.values], "", [])
  }

  /** One argument of the loop: a value joins the option being read; an
      option saves the one being read and starts a new one. Saved names are
      never lost, and the empty name is never saved. */
  function Step(r: Reader, arg: string): (next: Reader)
    ensures r.saved.Keys <= next.saved.Keys
    ensures "" !in r.saved ==> "" !in next.saved
    ensures !IsOption(arg) ==> next.saved == r.saved && next.name == r.name && next.values == r.values + [arg]
    ensures IsOption(arg) && r.name != "" ==> r.name in next.saved
  {
    if IsOption(arg) then
      var s := Save(r);
      var split := SplitFirst(TrimStartDash(arg), "=");
      if split.remaining != "" then Save(Reader(s.saved, split.head, [split.remaining]))
      else Reader(s.saved, split.head, [])
    else Reader(r.saved, r.name, r.values + [arg])
  }

  function Run(r: Reader, args: seq<string>): (last: Reader)
    ensures r.saved.Keys <= last.saved.Keys
    ensures "" !in r.saved ==> "" !in last.saved
    decreases |args|
  {
    if args == [] then r else Run(Step(r, args[0]), args[1..])
  }

  /** The dictionary `CreateOptionDictionary` builds. */
  function OptionDictionary(argv: seq<string>): (d: Options)
    ensures "" !in d
    ensures (forall a | a in argv :: !IsOption(a)) ==> d == map[]
  {
    if forall a | a in argv :: !IsOption(a) then
      RunValues(Start, argv);
      Save(Run(Start, argv)).saved
    else Save(Run(Start, argv)).saved
  }

  method CreateOptionDictionary(argv: seq<string>) returns (res: Options)
    ensures res == OptionDictionary(argv)
  {
    res := map[];
    var currValues: seq<string> := [];
    var currName := "";
    var i := 0;
    while i < |argv|
      invariant 0 <= i <= |argv|
      invariant Run(Reader(res, currName, currValues), argv[i..]) == Run(Start, argv)
    {
      ghost var before := Reader(res, currName, currValues);
      var arg := argv[i];
      if arg != [] && arg[0] == '-' {
        res := SaveCurrentOption(res, currName, currValues);
        currValues := [];
        var split := SplitFirst(TrimStartDash(arg), "=");
        currName := split.head;
        assert Reader(res, currName, currValues) == Reader(Save(before).saved, split.head, []);
        if split.remaining != "" {
          currValues := currValues + [split.remaining];
          assert currValues == [split.remaining];
          res := SaveCurrentOption(res, currName, currValues);
          currName := "";
          currValues := [];
        }
      } else {
        currValues := currValues + [arg];
      }
      assert Reader(res, currName, currValues) == Step(before, arg);
      assert argv[i..][1..] == argv[i + 1..];
      i := i + 1;
    }
    res := SaveCurrentOption(res, currName, currValues);
  }

  method SaveCurrentOption(res: Options, currName: string, currValues: seq<string>) returns (res': Options)
    ensures res' == Save(Reader(res, currName, currValues)).saved
  {
    res' := res;
    if currName != "" {
      res' := res'[currName := currValues];
    }
  }

  lemma {:induction false} RunAppend(r: Reader, a: seq<string>, b: seq<string>)
    ensures Run(r, a + b) == Run(Run(r, a), b)
    decreases |a|
  {
    if a != [] {
      assert (a + b)[1..] == a[1..] + b;
      RunAppend(Step(r, a[0]), a[1..], b);
    } else {
      assert a + b == b;
    }
  }

  /** The dictionary is what the reader has saved once the last option is saved. */
  lemma {:induction false} DictionaryOf(argv: seq<string>)
    ensures OptionDictionary(argv) == Save(Run(Start, argv)).saved
  {
  }

  lemma {:induction false} RunOne(r: Reader, arg: string)
    ensures Run(r, [arg]) == Step(r, arg)
  {
    assert [arg][1..] == [];
  }

  /** Arguments that name no option only add values to the current one. */
  lemma {:induction false} RunValues(r: Reader, vals: seq<string>)
    requires forall x | x in vals :: !IsOption(x)
    ensures Run(r, vals) == Reader(r.saved, r.name, r.values + vals)
    decreases |vals|
  {
    if vals != [] {
      assert vals[0] in vals;
      assert forall x | x in vals[1..] :: x in vals;
      RunValues(Step(r, vals[0]), vals[1..]);
      assert r.values + [vals[0]] + vals[1..] == r.values + vals;
    }
  }

  /** Arguments before the first option are discarded. */
  lemma {:induction false} LeadingValuesIgnored(junk: seq<string>, rest: seq<string>)
    requires forall x | x in junk :: !IsOption(x)
    requires rest == [] || IsOption(rest[0])
    ensures OptionDictionary(junk + rest) == OptionDictionary(rest)
  {
    RunAppend(Start, junk, rest);
    RunValues(Start, junk);
    var r := Reader(map[], "", junk);
    assert [] + junk == junk;
    if rest != [] {
      assert Step(r, rest[0]) == Step(Start, rest[0]);
      assert Run(r, rest) == Run(Start, rest);
    }
  }

  /** Leading dashes are all stripped: "-x" and "--x" read alike. */
  lemma {:induction false} DashCountIgnored(pre: seq<string>, a: string, post: seq<string>)
    ensures OptionDictionary(pre + ["-" + a] + post) == OptionDictionary(pre + ["--" + a] + post)
  {
    DictionaryOf(pre + ["-" + a] + post);
    DictionaryOf(pre + ["--" + a] + post);
    RunAppend(Start, pre + ["-" + a], post);
    RunAppend(Start, pre + ["--" + a], post);
    RunAppend(Start, pre, ["-" + a]);
    RunAppend(Start, pre, ["--" + a]);
    assert TrimStartDash("--" + a) == TrimStartDash("-" + a) by {
      assert ("--" + a)[1..] == "-" + a;
    }
    var r := Run(Start, pre);
    RunOne(r, "-" + a);
    RunOne(r, "--" + a);
    assert Step(r, "-" + a) == Step(r, "--" + a);
  }

  /** The name an option argument sets when it holds no '='. */
  lemma {:induction false} OptionName(n: string)
    requires n != "" && n[0] != '-' && '=' !in n
    ensures SplitFirst(TrimStartDash("-" + n), "=") == Split(n, "")
  {
    assert ("-" + n)[1..] == n;
    SplitFirstAbsent(n, "=");
  }

  /** "-name" followed by plain arguments stores exactly those arguments
      (none at all gives the empty list), replacing an earlier "-name". */
  lemma {:induction false} OptionTakesValues(pre: seq<string>, n: string, vals: seq<string>)
    requires n != "" && n[0] != '-' && '=' !in n
    requires forall x | x in vals :: !IsOption(x)
    ensures OptionDictionary(pre + ["-" + n] + vals) == Save(Run(Start, pre)).saved[n := vals]
  {
    var r := Run(Start, pre);
    DictionaryOf(pre + ["-" + n] + vals);
    RunAppend(Start, pre + ["-" + n], vals);
    RunAppend(Start, pre, ["-" + n]);
    RunOne(r, "-" + n);
    OptionName(n);
    assert Step(r, "-" + n) == Reader(Save(r).saved, n, []);
    RunValues(Reader(Save(r).saved, n, []), vals);
    assert [] + vals == vals;
  }

  /** "-name=value" stores [value] and closes the option: plain arguments
      after it are dropped. */
  lemma {:induction false} InlineValueCloses(pre: seq<string>, n: string, v: string, junk: seq<string>)
    requires n != "" && n[0] != '-' && '=' !in n && v != ""
    requires forall x | x in junk :: !IsOption(x)
    ensures OptionDictionary(pre + ["-" + n + "=" + v] + junk) == Save(Run(Start, pre)).saved[n := [v]]
  {
    var arg := "-" + n + "=" + v;
    DictionaryOf(pre + [arg] + junk);
    RunAppend(Start, pre + [arg], junk);
    RunAppend(Start, pre, [arg]);
    assert TrimStartDash(arg) == n + "=" + v by {
      assert arg[1..] == n + "=" + v;
    }
    SplitFirstJoin(n, "=", v);
    var r := Run(Start, pre);
    RunOne(r, arg);
    assert Step(r, arg) == Reader(Save(r).saved[n := [v]], "", []);
    RunValues(Reader(Save(r).saved[n := [v]], "", []), junk);
  }

  // ------------------------------------------------------ FindKey

  datatype Scalar = Text | Int32 | Int64

  /** A member's type: `bool`, a single value, or an array of values. */
  datatype Kind = Flag | Single(scalar: Scalar) | ArrayOf(element: Scalar)

  /** A public field or property of the options type, with its `Alias`
      attributes in declaration order; a field is always writable. */
  datatype Member = Member(name: string, aliases: seq<string>, kind: Kind, canWrite: bool)

  /** The first of `keys` present in the options (`Where(...).FirstOrDefault()`). */
  function FirstPresent(keys: seq<string>, options: Options): (r: Option<string>)
    ensures r.None? <==> forall k | k in keys :: k !in options
    ensures r.Some? ==> r.value in options && exists i | 0 <= i < |keys| ::
              keys[i] == r.value && forall j | 0 <= j < i :: keys[j] !in options
  {
    if keys == [] then None
    else if keys[0] in options then Some(keys[0])
    else
      var r := FirstPresent(keys[1..], options);
      assert forall k | k in keys[1..] :: k in keys;
      assert forall k | k in keys :: k == keys[0] || k in keys[1..];
      if r.Some? then
        var i :| 0 <= i < |keys[1..]| && keys[1..][i] == r.value && forall j | 0 <= j < i :: keys[1..][j] !in options;
        assert keys[i + 1] == r.value;
        r
      else r
  }

  /** The names a member answers to, in the order `FindKey` tries them. */
  function Candidates(m: Member): (r: seq<string>)
    requires m.name != ""
    ensures |r| == |m.aliases| + 4 && r[0] == m.name && Last(r) == CamelCaseToDashed(m.name)
    ensures forall a | a in m.aliases :: a in r
  {
    [m.name, PascalCased(m.name), CamelCased(m.name)] + m.aliases + [CamelCaseToDashed(m.name)]
  }

  lemma {:induction false} CandidateNames(m: Member)
    requires m.name != ""
    ensures forall k :: k in Candidates(m) <==>
              k == m.name || k == PascalCased(m.name) || k == CamelCased(m.name) || k in m.aliases || k == CamelCaseToDashed(m.name)
  {
  }

  /** `FindKey`: the exact name, then the PascalCased and camelCased names,
      then the first alias present, then the dashed name. */
  function FindKey(options: Options, m: Member): (r: Option<string>)
    requires m.name != ""
    ensures r.Some? ==> r.value in options && r.value in Candidates(m)
    ensures r.None? ==> forall k | k in Candidates(m) :: k !in options
  {
    CandidateNames(m);
    if m.name in options then Some(m.name)
    else if PascalCased(m.name) in options then Some(PascalCased(m.name))
    else if CamelCased(m.name) in options then Some(CamelCased(m.name))
    else
      var alias := FirstPresent(m.aliases, options);
      if alias.Some? then
        assert alias.value in m.aliases;
        alias
      else if CamelCaseToDashed(m.name) in options then Some(CamelCaseToDashed(m.name))
      else None
  }

  lemma {:induction false} FirstPresentAppend(a: seq<string>, b: seq<string>, options: Options)
    ensures FirstPresent(a + b, options) == if FirstPresent(a, options).Some? then FirstPresent(a, options) else FirstPresent(b, options)
  {
    if a != [] {
      assert (a + b)[0] == a[0];
      if a[0] !in options {
        assert (a + b)[1..] == a[1..] + b;
        FirstPresentAppend(a[1..], b, options);
      }
    } else {
      assert a + b == b;
    }
  }

  /** `FindKey` answers with the first candidate name present. */
  lemma {:induction false} FindKeyIsFirstCandidate(options: Options, m: Member)
    requires m.name != ""
    ensures FindKey(options, m) == FirstPresent(Candidates(m), options)
  {
    var front := [m.name, PascalCased(m.name), CamelCased(m.name)];
    var dashed := [CamelCaseToDashed(m.name)];
    FirstPresentAppend(front + m.aliases, dashed, options);
    FirstPresentAppend(front, m.aliases, options);
    FirstPresentThree(m.name, PascalCased(m.name), CamelCased(m.name), options);
    assert dashed[1..] == [];
  }

  lemma {:induction false} FirstPresentThree(a: string, b: string, c: string, options: Options)
    ensures FirstPresent([a, b, c], options)
            == if a in options then Some(a) else if b in options then Some(b) else if c in options then Some(c) else None
  {
    assert [a, b, c][1..] == [b, c] && [b, c][1..] == [c] && [c][1..] == [];
  }

  // ------------------------------------------------------ conversion

  datatype Value = TextValue(text: string) | NumberValue(number: int) | FlagValue(flag: bool) | ListValue(items: seq<Value>)

  /** What a member ends up holding: set by the options type's own
      `IConvertOptions.Convert`, or assigned a converted value. */
  datatype Setting = Hooked | Assigned(value: Value)

  predicate FitsScalar(v: Value, s: Scalar) {
    match s
    case Text => v.TextValue?
    case Int32 => v.NumberValue? && Int32Min <= v.number <= Int32Max
    case Int64 => v.NumberValue? && Int64Min <= v.number <= Int64Max
  }

  predicate Fits(v: Value, k: Kind) {
    match k
    case Flag => v.FlagValue?
    case Single(s) => FitsScalar(v, s)
    case ArrayOf(s) => v.ListValue? && forall x | x in v.items :: FitsScalar(x, s)
  }

  /** `Convert.ChangeType(str, type)`: `None` where it throws. */
  function ChangeType(str: string, s: Scalar): (r: Option<Value>)
    ensures r.Some? ==> FitsScalar(r.value, s)
    ensures s.Text? ==> r == Some(TextValue(str))
  {
    match s
    case Text => Some(TextValue(str))
    case Int32 =>
      var n := ParseInteger(str, Int32Min, Int32Max);
      if n.Some? then Some(NumberValue(n.value)) else None
    case Int64 =>
      var n := ParseInteger(str, Int64Min, Int64Max);
      if n.Some? then Some(NumberValue(n.value)) else None
  }

  /** `Array.ConvertAll(values, ChangeType)`: fails when one value does. */
  function ConvertAll(values: seq<string>, s: Scalar): (r: Option<seq<Value>>)
    ensures r.None? <==> exists i | 0 <= i < |values| :: ChangeType(values[i], s).None?
    ensures r.Some? ==> |r.value| == |values| && forall i | 0 <= i < |values| :: ChangeType(values[i], s) == Some(r.value[i])
  {
    if values == [] then Some([])
    else
      var head := ChangeType(values[0], s);
      var tail := ConvertAll(values[1..], s);
      if head.None? then None
      else if tail.None? then
        var i :| 0 <= i < |values[1..]| && ChangeType(values[1..][i], s).None?;
        assert ChangeType(values[i + 1], s).None?;
        None
      else
        var r := [head.value] + tail.value;
        assert forall i | 1 <= i < |values| :: values[i] == values[1..][i - 1];
        Some(r)
  }

  /** The conversion branch: a flag reads its first value with `ToBool`
      (default true), an array converts each value, anything else converts
      the values joined by single spaces. */
  function Convert(values: seq<string>, k: Kind): (r: Option<Value>)
    ensures r.Some? ==> Fits(r.value, k)
    ensures k.Flag? ==> r == Some(FlagValue(ToBool(if values == [] then None else Some(values[0]), true)))
    ensures k.ArrayOf? && r.Some? ==> |r.value.items| == |values|
    ensures k.ArrayOf? ==> (r.None? <==> exists i | 0 <= i < |values| :: ChangeType(values[i], k.element).None?)
    ensures k.Single? ==> r == ChangeType(JoinWith(values, ' '), k.scalar)
  {
    match k
    case Flag => Some(FlagValue(ToBool(if values == [] then None else Some(values[0]), true)))
    case ArrayOf(s) =>
      var items := ConvertAll(values, s);
      if items.None? then None
      else
        assert forall x | x in items.value :: exists i | 0 <= i < |values| :: ChangeType(values[i], s) == Some(x);
        Some(ListValue(items.value))
    case Single(s) => ChangeType(JoinWith(values, ' '), s)
  }

  /** What `trySetValue` does to one member. */
  datatype Outcome = Untouched | Set(setting: Setting) | Fails

  /** `trySetValue`, for a member the loop reaches. The `hook` is the
      options type's `IConvertOptions.Convert` (constantly false for a type
      without one). */
  function Assign(options: Options, m: Member, hook: (string, seq<string>) -> bool): (r: Outcome)
    requires m.name != ""
    ensures r.Untouched? <==> FindKey(options, m).None? || FindKey(options, m).value == ""
    ensures r == Set(Hooked) <==> FindKey(options, m).Some? && FindKey(options, m).value != "" && hook(m.name, options[FindKey(options, m).value])
    ensures r.Set? && r.setting.Assigned? ==> Fits(r.setting.value, m.kind)
  {
    var key := FindKey(options, m);
    if key.None? || key.value == "" then Untouched
    else if hook(m.name, options[key.value]) then Set(Hooked)
    else
      var v := Convert(options[key.value], m.kind);
      if v.None? then Fails else Set(Assigned(v.value))
  }

  /** A member not writable is skipped (`CanWrite == false`). */
  function OutcomeOf(options: Options, m: Member, hook: (string, seq<string>) -> bool): Outcome
    requires m.name != ""
  {
    if m.canWrite then Assign(options, m, hook) else Untouched
  }

  // ------------------------------------------------------ ParseOptions

  predicate Named(members: seq<Member>) {
    forall m | m in members :: m.name != ""
  }

  predicate DistinctNames(members: seq<Member>) {
    forall i, j | 0 <= i < j < |members| :: members[i].name != members[j].name
  }

  /** The member loops from `settings` on: `None` when a conversion throws. */
  function SetAll(settings: map<string, Setting>, options: Options, members: seq<Member>, hook: (string, seq<string>) -> bool): (r: Option<map<string, Setting>>)
    requires Named(members)
    ensures r.Some? ==> settings.Keys <= r.value.Keys
    ensures (forall m | m in members :: !m.canWrite) ==> r == Some(settings)
    decreases |members|
  {
    if members == [] then Some(settings)
    else
      assert members[0] in members;
      assert Named(members[1..]) by {
        assert forall m | m in members[1..] :: m in members;
      }
      match OutcomeOf(options, members[0], hook)
      case Untouched => SetAll(settings, options, members[1..], hook)
      case Set(s) => SetAll(settings[members[0].name := s], options, members[1..], hook)
      case Fails => None
  }

  /** `ParseOptions`: the settings of the members, by name. */
  function Parsed(argv: seq<string>, members: seq<Member>, hook: (string, seq<string>) -> bool): (r: Option<map<string, Setting>>)
    requires Named(members)
    ensures (forall m | m in members :: !m.canWrite) ==> r == Some(map[])
  {
    SetAll(map[], OptionDictionary(argv), members, hook)
  }

  method ParseOptions(argv: seq<string>, members: seq<Member>, hook: (string, seq<string>) -> bool) returns (r: Option<map<string, Setting>>)
    requires Named(members)
    ensures r == Parsed(argv, members, hook)
  {
    var options := CreateOptionDictionary(argv);
    var settings: map<string, Setting> := map[];
    var i := 0;
    while i < |members|
      invariant 0 <= i <= |members|
      invariant Named(members[i..])
      invariant SetAll(settings, options, members[i..], hook) == Parsed(argv, members, hook)
    {
      var outcome := OutcomeOf(options, members[i], hook);
      SetAllNext(settings, options, members, hook, i, outcome);
      if outcome.Fails? {
        return None;
      }
      settings := Record(settings, members[i].name, outcome);
      i := i + 1;
    }
    r := Some(settings);
    assert members[i..] == [];
  }

  /** The settings after a member's outcome: a `Set` records its setting. */
  function Record(settings: map<string, Setting>, name: string, o: Outcome): map<string, Setting> {
    if o.Set? then settings[name := o.setting] else settings
  }

  /** One iteration of the member loop, at position `i`. */
  lemma {:induction false} SetAllNext(settings: map<string, Setting>, options: Options, members: seq<Member>,
                                      hook: (string, seq<string>) -> bool, i: int, o: Outcome)
    requires 0 <= i < |members| && Named(members[i..])
    requires members[i].name != "" && o == OutcomeOf(options, members[i], hook)
    ensures Named(members[i + 1..])
    ensures SetAll(settings, options, members[i..], hook) ==
              if o.Fails? then None
              else SetAll(Record(settings, members[i].name, o), options, members[i + 1..], hook)
  {
    assert members[i] in members[i..];
    assert members[i..][1..] == members[i + 1..];
  }

  lemma {:induction false} RestNamed(members: seq<Member>)
    requires members != [] && Named(members) && DistinctNames(members)
    ensures Named(members[1..]) && DistinctNames(members[1..])
    ensures forall i | 1 <= i < |members| :: members[i] == members[1..][i - 1] && members[i].name != members[0].name
  {
    assert forall x | x in members[1..] :: x in members;
  }

  /** The loops fail exactly when a writable member's conversion throws. */
  lemma {:induction false} SetAllFails(settings: map<string, Setting>, options: Options, members: seq<Member>, hook: (string, seq<string>) -> bool)
    requires Named(members) && DistinctNames(members)
    ensures SetAll(settings, options, members, hook).None? <==>
            exists i | 0 <= i < |members| :: OutcomeOf(options, members[i], hook).Fails?
    decreases |members|
  {
    if members != [] {
      RestNamed(members);
      var o := OutcomeOf(options, members[0], hook);
      var next := if o.Set? then settings[members[0].name := o.setting] else settings;
      SetAllFails(next, options, members[1..], hook);
    }
  }

  /** Otherwise each member holds what its own `trySetValue` set. */
  lemma {:induction false} SetAllSettings(settings: map<string, Setting>, options: Options, members: seq<Member>, hook: (string, seq<string>) -> bool)
    requires Named(members) && DistinctNames(members)
    requires SetAll(settings, options, members, hook).Some?
    ensures forall i | 0 <= i < |members| ::
              var res := SetAll(settings, options, members, hook).value;
              var o := OutcomeOf(options, members[i], hook);
              (members[i].name in res <==> members[i].name in settings || o.Set?) &&
              (o.Set? ==> res[members[i].name] == o.setting)
    decreases |members|
  {
    if members != [] {
      RestNamed(members);
      var m := members[0];
      var o := OutcomeOf(options, m, hook);
      var next := if o.Set? then settings[m.name := o.setting] else settings;
      var res := SetAll(next, options, members[1..], hook);
      assert SetAll(settings, options, members, hook) == res;
      SetAllSettings(next, options, members[1..], hook);
      SetAllKeeps(next, options, members[1..], hook, m.name);
    }
  }

  /** A name no member has keeps its setting through the loops. */
  lemma {:induction false} SetAllKeeps(settings: map<string, Setting>, options: Options, members: seq<Member>, hook: (string, seq<string>) -> bool, k: string)
    requires Named(members) && DistinctNames(members)
    requires SetAll(settings, options, members, hook).Some?
    requires forall i | 0 <= i < |members| :: members[i].name != k
    ensures var res := SetAll(settings, options, members, hook).value;
            (k in res <==> k in settings) && (k in settings ==> res[k] == settings[k])
    decreases |members|
  {
    if members != [] {
      RestNamed(members);
      var o := OutcomeOf(options, members[0], hook);
      var next := if o.Set? then settings[members[0].name := o.setting] else settings;
      SetAllKeeps(next, options, members[1..], hook, k);
    }
  }

  /** And no name outside the members is added. */
  lemma {:induction false} SetAllNames(settings: map<string, Setting>, options: Options, members: seq<Member>, hook: (string, seq<string>) -> bool)
    requires Named(members) && DistinctNames(members)
    requires SetAll(settings, options, members, hook).Some?
    ensures forall k | k in SetAll(settings, options, members, hook).value ::
              k in settings || exists i | 0 <= i < |members| :: members[i].name == k
    decreases |members|
  {
    if members != [] {
      RestNamed(members);
      var m := members[0];
      var o := OutcomeOf(options, m, hook);
      var next := if o.Set? then settings[m.name := o.setting] else settings;
      SetAllNames(next, options, members[1..], hook);
      forall k | k in SetAll(settings, options, members, hook).value
        ensures k in settings || exists i | 0 <= i < |members| :: members[i].name == k
      {
        if k !in settings && k != m.name {
          var i :| 0 <= i < |members[1..]| && members[1..][i].name == k;
          assert members[i + 1].name == k;
        }
      }
    }
  }

  /** `ParseOptions`, member by member: it fails exactly when a writable
      member's conversion throws; otherwise a member is set exactly when it
      is writable and a key for it is found, to what `trySetValue` chose,
      and nothing else is set. */
  lemma {:induction false} ParsedMeaning(argv: seq<string>, members: seq<Member>, hook: (string, seq<string>) -> bool)
    requires Named(members) && DistinctNames(members)
    ensures Parsed(argv, members, hook).None? <==>
            exists i | 0 <= i < |members| :: members[i].canWrite && Assign(OptionDictionary(argv), members[i], hook).Fails?
    ensures Parsed(argv, members, hook).Some? ==>
            forall i | 0 <= i < |members| ::
              var res := Parsed(argv, members, hook).value;
              var o := Assign(OptionDictionary(argv), members[i], hook);
              (members[i].name in res <==> members[i].canWrite && o.Set?) &&
              (members[i].canWrite && o.Set? ==> res[members[i].name] == o.setting)
    ensures Parsed(argv, members, hook).Some? ==>
            forall k | k in Parsed(argv, members, hook).value :: exists i | 0 <= i < |members| :: members[i].name == k
  {
    var options := OptionDictionary(argv);
    SetAllFails(map[], options, members, hook);
    if Parsed(argv, members, hook).Some? {
      SetAllSettings(map[], options, members, hook);
      SetAllNames(map[], options, members, hook);
    }
  }
}
