/**
 The option parser of src/contrib/optparse/OptionParser.cpp: registration of options, the work list
 `_remaining` that `parse_args` consumes, and the default passes.
 */
module OptionParsing {
  import opened CppStrings
  import opened AppendCallback
  import opened TextUtils
  import opened Options
  import opened ArgvDecoding
  import opened Defaults

  // ---------- names ----------

  predicate IsLong(name: string) {
    "--" <= name
  }

  /** `it->substr(1, 1)`: the letter of a short option. */
  function Letter(name: string): string
    requires name != ""
  {
    Substr(name, 1, 1)
  }

  predicate UsableNames(names: seq<string>) {
    "" !in names
  }

  /** The first long name gives the destination, with `-` turned into `_`. */
  function LongDest(names: seq<string>): string {
    if names == [] then ""
    else if IsLong(names[0]) && names[0][2..] != "" then ReplaceAll(names[0][2..], "-", "_")
    else LongDest(names[1..])
  }

  /** Otherwise the first short letter does. */
  function ShortDest(names: seq<string>): string
    requires UsableNames(names)
  {
    if names == [] then ""
    else if !IsLong(names[0]) && Letter(names[0]) != "" then Letter(names[0])
    else ShortDest(names[1..])
  }

  function LongNames(names: seq<string>): set<string> {
    set n | n in names && IsLong(n) :: n[2..]
  }

  function ShortNames(names: seq<string>): set<string>
    requires UsableNames(names)
  {
    set n | n in names && !IsLong(n) :: Letter(n)
  }

  /** The option that `add_option(names)` creates. */
  function NamedOption(names: seq<string>): Option
    requires UsableNames(names)
  {
    NewOption(ShortNames(names), LongNames(names), if LongDest(names) != "" then LongDest(names) else ShortDest(names))
  }

  lemma {:induction false} LongDestSnoc(names: seq<string>, n: string)
    ensures LongDest(names + [n]) == if LongDest(names) != "" then LongDest(names) else LongDest([n])
  {
    if names == [] {
      assert names + [n] == [n];
    } else {
      assert (names + [n])[1..] == names[1..] + [n];
      if IsLong(names[0]) && names[0][2..] != "" {
        EmptyReplaced(names[0][2..]);
      } else {
        LongDestSnoc(names[1..], n);
      }
    }
  }

  lemma {:induction false} ShortDestSnoc(names: seq<string>, n: string)
    requires UsableNames(names + [n])
    ensures UsableNames(names) && UsableNames([n])
    ensures ShortDest(names + [n]) == if ShortDest(names) != "" then ShortDest(names) else ShortDest([n])
  {
    assert forall x | x in names :: x in names + [n];
    if names == [] {
      assert names + [n] == [n];
    } else {
      assert (names + [n])[1..] == names[1..] + [n];
      ShortDestSnoc(names[1..], n);
    }
  }

  lemma NamesSnoc(names: seq<string>, n: string)
    requires UsableNames(names + [n])
    ensures UsableNames(names) && n != ""
    ensures LongNames(names + [n]) == LongNames(names) + (if IsLong(n) then {n[2..]} else {})
    ensures ShortNames(names + [n]) == ShortNames(names) + (if IsLong(n) then {} else {Letter(n)})
  {
    assert forall x :: x in names + [n] <==> x in names || x == n;
  }

  // ---------- the parser ----------

  /** The strings that the callbacks have collected. */
  ghost function Collected(callbacks: seq<StringAppendCallback>): (strs: seq<string>)
    reads callbacks
    ensures |strs| == |callbacks| && forall i | 0 <= i < |strs| :: strs[i] == callbacks[i].str
  {
    if callbacks == [] then [] else [callbacks[0].str] + Collected(callbacks[1..])
  }

  function Binding<T>(names: set<string>, v: T): map<string, T> {
    map s | s in names :: v
  }

  lemma EmptyReplaced(s: string)
    ensures ReplaceAll(s, "-", "_") == "" <==> s == ""
  {
    ReplaceOneChar(s, '-', "_");
  }

  /** The sum over the work list of (length + 1). */
  function Measure(remaining: seq<string>): nat {
    if remaining == [] then 0 else |remaining[0]| + 1 + Measure(remaining[1..])
  }

  /** One long name without dashes of its own. */
  lemma PlainLongName(n: string)
    requires n != "" && '-' !in n
    ensures LongDest(["--" + n]) == n && LongNames(["--" + n]) == {n} && ShortNames(["--" + n]) == {}
  {
    var name := "--" + n;
    assert name[2..] == n && IsLong(name);
    ReplaceOneChar(n, '-', "_");
    MapCharAbsent(n, '-', "_");
    assert forall x :: x in [name] <==> x == name;
  }

  lemma VersionNames()
    ensures NamedOption(["--version"]).WithAction(Version) == VERSION_OPTION
    ensures LongNames(["--version"]) == {"version"} && ShortNames(["--version"]) == {}
  {
    PlainLongName("version");
    assert "--" + "version" == "--version";
  }

  lemma HelpNames()
    ensures NamedOption(["-h", "--help"]).WithAction(Help) == HELP_OPTION
    ensures LongNames(["-h", "--help"]) == {"help"} && ShortNames(["-h", "--help"]) == {"h"}
  {
    PlainLongName("help");
    assert "--" + "help" == "--help";
    assert "-h"[1..2] == "h" && "-h"[1] == 'h';
    NamesSnoc([], "-h");
    NamesSnoc(["-h"], "--help");
    assert [] + ["-h"] == ["-h"] && ["-h"] + ["--help"] == ["-h", "--help"];
    LongDestSnoc(["-h"], "--help");
    assert ["-h"][1..] == [];
  }

  // The options `parse_args` adds itself.
  const HELP_OPTION := NewOption({"h"}, {"help"}, "help").WithAction(Help)
  const VERSION_OPTION := NewOption({}, {"version"}, "version").WithAction(Version)

  function WithStandardOptions(t: Table, version: bool, help: bool): Table {
    var t1 := if version then t.(long := t.long["version" := VERSION_OPTION]) else t;
    if help then t1.(short := t1.short["h" := HELP_OPTION], long := t1.long["help" := HELP_OPTION]) else t1
  }

  /** The result of `parse_args`, or how it ended the process. */
  datatype Parsed = Finished(values: ValuesState, args: seq<string>) | Exited(stop: Stop)

  /** The loop of `add_option` over the given names. */
  method ReadNames(names: seq<string>) returns (shorts: set<string>, longs: set<string>, dest: string)
    requires UsableNames(names)
    ensures shorts == ShortNames(names) && longs == LongNames(names)
    ensures NewOption(shorts, longs, dest) == NamedOption(names)
  {
    hide ReplaceAll;
    shorts, longs, dest := {}, {}, "";
    var destFallback := "";
    for k := 0 to |names|
      invariant UsableNames(names[..k])
      invariant dest == LongDest(names[..k]) && destFallback == ShortDest(names[..k])
      invariant longs == LongNames(names[..k]) && shorts == ShortNames(names[..k])
    {
      var it := names[k];
      assert names[..k + 1] == names[..k] + [it];
      NamesSnoc(names[..k], it);
      LongDestSnoc(names[..k], it);
      ShortDestSnoc(names[..k], it);
      if Substr(it, 0, 2) == "--" {
        var s := it[2..];
        if dest == "" {
          dest := StrReplace(s, "-", "_");
          EmptyReplaced(s);
        }
        longs := longs + {s};
      } else {
        var s := Substr(it, 1, 1);
        if destFallback == "" {
          destFallback := s;
        }
        shorts := shorts + {s};
      }
    }
    assert names[..|names|] == names;
    if dest == "" {
      dest := destFallback;
    }
  }

  class OptionParser {
    var opts: seq<Option>
    var optmapS: map<string, Option>
    var optmapL: map<string, Option>
    var defaults: Layer
    var groups: seq<Group>
    var interspersedArgs: bool
    var addHelpOption: bool
    var addVersionOption: bool
    var version: string
    var remaining: seq<string>
    var leftover: seq<string>
    const values: Values
    const callbacks: seq<StringAppendCallback>
    const scan: Extraction

    /** The callbacks are different objects, and every registered option refers to one of them or none. */
    ghost predicate Valid()
      reads this
    {
      && (forall i, j | 0 <= i < j < |callbacks| :: callbacks[i] != callbacks[j])
      && (forall s | s in optmapS :: HasCallback(optmapS[s]))
      && (forall s | s in optmapL :: HasCallback(optmapL[s]))
    }

    predicate HasCallback(o: Option) {
      o.callback.Some? ==> o.callback.value < |callbacks|
    }

    constructor (callbacks: seq<StringAppendCallback>, scan: Extraction)
      requires forall i, j | 0 <= i < j < |callbacks| :: callbacks[i] != callbacks[j]
      ensures Valid() && fresh(values) && this.callbacks == callbacks && this.scan == scan
      ensures values.State() == ValuesState(map[], map[], {})
      ensures Names() == Table(map[], map[]) && opts == [] && groups == [] && defaults == map[]
      ensures remaining == [] && leftover == [] && version == ""
      ensures interspersedArgs && addHelpOption && addVersionOption
    {
      this.callbacks, this.scan := callbacks, scan;
      values := new Values();
      opts, optmapS, optmapL, defaults, groups := [], map[], map[], map[], [];
      interspersedArgs, addHelpOption, addVersionOption, version := true, true, true, "";
      remaining, leftover := [], [];
    }

    /** The options behind the registered names. */
    ghost function Names(): Table
      reads this
    {
      Table(optmapS, optmapL)
    }

    ghost function State(): ParseState
      reads this, values, callbacks
    {
      ParseState(values.State(), Sinks())
    }

    ghost function Sinks(): seq<string>
      reads this, callbacks
    {
      Collected(callbacks)
    }

    /** What is still to come: the meaning of the rest of the command line. */
    ghost function ToCome(): Outcome
      reads this, values, callbacks
    {
      Meaning(Names(), scan, interspersedArgs, remaining, State(), leftover)
    }

    // ---------- registration ----------

    /** `add_option(names)` with the fluent setters called on its result (`setters`). */
    method AddOption(names: seq<string>, setters: Option -> Option)
      requires Valid() && UsableNames(names) && HasCallback(setters(NamedOption(names)))
      modifies this`opts, this`optmapS, this`optmapL
      ensures Valid()
      ensures var o := setters(NamedOption(names));
              && opts == old(opts) + [o]
              && optmapL == old(optmapL) + Binding(LongNames(names), o)
              && optmapS == old(optmapS) + Binding(ShortNames(names), o)
    {
      hide LongNames, ShortNames, NamedOption;
      var shorts, longs, dest := ReadNames(names);
      var o := setters(NewOption(shorts, longs, dest));
      optmapL := optmapL + Binding(longs, o);
      optmapS := optmapS + Binding(shorts, o);
      opts := opts + [o];
    }

    /** `add_option_group`: the group's options become reachable under their names. */
    method AddOptionGroup(group: Group)
      requires Valid() && forall o | o in group.options :: HasCallback(o)
      modifies this`optmapS, this`optmapL, this`groups
      ensures Valid() && groups == old(groups) + [group]
      ensures Names() == GroupNames(old(Names()), group.options)
    {
      for k := 0 to |group.options|
        invariant Valid() && groups == old(groups)
        invariant Names() == GroupNames(old(Names()), group.options[..k])
      {
        var option := group.options[k];
        assert group.options[..k + 1][..k] == group.options[..k];
        optmapS := optmapS + Binding(option.shortOpts, option);
        optmapL := optmapL + Binding(option.longOpts, option);
      }
      assert group.options[..|group.options|] == group.options;
      groups := groups + [group];
    }

    /** `add_option(names).action(a)`, moved to the front of the list. */
    method AddStandardOption(names: seq<string>, a: Action)
      requires Valid() && UsableNames(names)
      modifies this`opts, this`optmapS, this`optmapL
      ensures Valid()
      ensures var o := NamedOption(names).WithAction(a);
              && opts == [o] + old(opts)
              && optmapL == old(optmapL) + Binding(LongNames(names), o)
              && optmapS == old(optmapS) + Binding(ShortNames(names), o)
    {
      AddOption(names, (o: Option) => o.WithAction(a));
      opts := [opts[|opts| - 1]] + opts[..|opts| - 1];
    }

    // ---------- parsing ----------

    method CallBack(handle: nat, value: string)
      requires Valid() && handle < |callbacks|
      modifies callbacks[handle]
      ensures var st := old(State());
              State() == st.(sinks := st.sinks[handle := Appended(st.sinks[handle], value)])
    {
      callbacks[handle].Call(value);
      assert forall k | 0 <= k < |callbacks| && k != handle :: callbacks[k] != callbacks[handle];
      assert Sinks() == old(Sinks())[handle := Appended(old(Sinks())[handle], value)];
    }

    /** `_values[d] = v`, set by the user. */
    method SetValue(d: string, v: string)
      modifies values
      ensures State() == Put(old(State()), d, v)
    {
      values.Assign(d, v);
      values.SetByUser(d, true);
    }

    /** The same, and `v` joins the list of all values of `d`. */
    method PushValue(d: string, v: string)
      modifies values
      ensures State() == Push(old(State()), d, v)
    {
      values.Assign(d, v);
      values.PushBack(d, v);
      values.SetByUser(d, true);
    }

    /** `_values[d] = str_inc(_values[d])`. */
    method CountUp(d: string)
      modifies values
      ensures State() == Put(old(State()), d, StrInc(Get(old(values.table), d)))
    {
      hide StrInc;
      var current := values.Subscript(d);
      values.Assign(d, StrInc(current));
      values.SetByUser(d, true);
      assert values.table == old(values.table)[d := StrInc(current)];
    }

    /** `process_opt`. */
    method ProcessOpt(o: Option, opt: string, value: string) returns (stop: Maybe<Stop>)
      requires Valid() && HasCallback(o)
      modifies values, callbacks
      ensures match Process(scan, o, opt, value, old(State()))
              case Halt(why) => stop == Some(why)
              case Next(st) => stop == None && State() == st
    {
      stop := None;
      match o.action {
        case Store =>
          if !TypeOk(scan, o, value) {
            return Some(BadValue(opt, value));
          }
          SetValue(o.dest, value);
        case StoreConst =>
          SetValue(o.dest, o.constant);
        case StoreTrue =>
          SetValue(o.dest, "1");
        case StoreFalse =>
          SetValue(o.dest, "0");
        case Append =>
          if !TypeOk(scan, o, value) {
            return Some(BadValue(opt, value));
          }
          PushValue(o.dest, value);
        case AppendConst =>
          PushValue(o.dest, o.constant);
        case Count =>
          CountUp(o.dest);
        case Help =>
          return Some(HelpShown);
        case Version =>
          return Some(VersionShown);
        case Callback =>
          if o.callback.Some? {
            CallBack(o.callback.value, value);
          }
        case Other(_) =>
      }
    }

    /** `process_opt` on the event just decoded: what follows it is still to come. */
    method TakeEvent(o: Option, opt: string, value: string, ghost before: Outcome) returns (stop: Maybe<Stop>)
      requires Valid() && HasCallback(o)
      requires before == Conclude(scan, After(Event(o, opt, value), Decode(Names(), interspersedArgs, remaining)),
                                  State(), leftover)
      modifies values, callbacks
      ensures stop.None? ==> ToCome() == before
      ensures stop.Some? ==> before == Stopped(stop.value)
    {
      hide Process, Decode;
      ConcludeAfter(scan, Event(o, opt, value), Decode(Names(), interspersedArgs, remaining), State(), leftover);
      stop := ProcessOpt(o, opt, value);
    }

    /** `handle_short_opt`: consumes one short option and pushes the rest of its cluster back. */
    method HandleShortOpt(opt: string, arg: string) returns (stop: Maybe<Stop>)
      requires Valid() && remaining != [] && remaining[0] == arg
      requires |arg| > 1 && arg[0] == '-' && arg[1] != '-' && opt == arg[1..2]
      modifies this`remaining, values, callbacks
      ensures stop.None? ==> ToCome() == old(ToCome()) && Measure(remaining) < Measure(old(remaining))
      ensures stop.Some? ==> old(ToCome()) == Stopped(stop.value)
    {
      hide Meaning, Decode, Conclude, Process;
      ghost var rest, letters, before := remaining[1..], arg[1..], ToCome();
      assert letters[..1] == opt && letters[1..] == arg[2..];
      assert arg == "-" + letters;
      assert remaining == [arg] + rest;
      MeaningOfShort(Names(), scan, interspersedArgs, letters, rest, State(), leftover);
      remaining := remaining[1..];
      var value := "";
      if opt !in optmapS {
        return Some(NoSuchOption("-" + opt));
      }
      var option := optmapS[opt];
      if option.nargs == 1 {
        value := arg[2..];
        if value == "" {
          if remaining == [] {
            return Some(MissingArgument("-" + opt));
          }
          value := remaining[0];
          remaining := remaining[1..];
        }
      } else {
        if |arg| > 2 {
          remaining := ["-" + arg[2..]] + remaining;
          assert remaining[1..] == rest;
        }
      }
      stop := TakeEvent(option, "-" + opt, value, before);
    }

    /** `handle_long_opt`. */
    method HandleLongOpt(optstr: string) returns (stop: Maybe<Stop>)
      requires Valid() && remaining != [] && remaining[0] == "--" + optstr && optstr != ""
      modifies this`remaining, values, callbacks
      ensures stop.None? ==> ToCome() == old(ToCome()) && Measure(remaining) < Measure(old(remaining))
      ensures stop.Some? ==> old(ToCome()) == Stopped(stop.value)
    {
      hide Meaning, Decode, Conclude, Process;
      ghost var before := ToCome();
      assert remaining == ["--" + optstr] + remaining[1..];
      MeaningOfLong(Names(), scan, interspersedArgs, optstr, remaining[1..], State(), leftover);
      remaining := remaining[1..];
      var opt, value := optstr, "";
      var delim := IndexOf(optstr, "=", 0);
      if delim.Some? {
        opt := optstr[..delim.value];
        value := optstr[delim.value + 1..];
      }
      if opt !in optmapL {
        return Some(NoSuchOption("--" + opt));
      }
      var option := optmapL[opt];
      ghost var rest := remaining;
      if option.nargs == 1 && delim.None? {
        if remaining != [] {
          value := remaining[0];
          remaining := remaining[1..];
        }
      }
      if option.nargs == 1 && value == "" {
        if opt != EMPTY_VALUE_OPTION {
          return Some(MissingArgument("--" + opt));
        }
      }
      assert (value, remaining) == LongValue(option, optstr, rest);
      stop := TakeEvent(option, "--" + opt, value, before);
    }

    /** A positional is set aside. */
    method TakePositional(arg: string)
      requires remaining != [] && remaining[0] == arg && (!("-" <= arg) || |arg| == 1)
      modifies this`remaining, this`leftover
      ensures remaining == old(remaining)[1..] && leftover == old(leftover) + [arg]
      ensures Measure(remaining) < Measure(old(remaining))
      ensures if interspersedArgs then ToCome() == old(ToCome()) else old(ToCome()) == Done(State(), leftover + remaining)
    {
      hide Decode, Process, Fold, Meaning;
      ghost var rest := remaining[1..];
      PositionalMeaning(Names(), scan, interspersedArgs, arg, rest, State(), leftover);
      assert remaining == [arg] + rest;
      remaining := remaining[1..];
      leftover := leftover + [arg];
    }

    /** The `--` that ends the options is dropped. */
    method TakeDashes()
      requires remaining != [] && remaining[0] == "--"
      modifies this`remaining
      ensures remaining == old(remaining)[1..]
      ensures old(ToCome()) == Done(State(), leftover + remaining)
    {
      hide Decode, Process, Fold, Meaning;
      ghost var rest := remaining[1..];
      MeaningOfEnd(Names(), scan, interspersedArgs, rest, State(), leftover);
      assert remaining == ["--"] + rest;
      remaining := remaining[1..];
    }

    lemma NothingToCome()
      requires remaining == []
      ensures ToCome() == Done(State(), leftover + remaining)
    {
      hide Decode, Process, Fold, Meaning;
      MeaningOfEnd(Names(), scan, interspersedArgs, [], State(), leftover);
    }

    /** The main loop of `parse_args`: options and positionals until `--` or the end. */
    method ConsumeOptions() returns (stop: Maybe<Stop>)
      requires Valid()
      modifies this`remaining, this`leftover, values, callbacks
      ensures stop.Some? ==> old(ToCome()) == Stopped(stop.value)
      ensures stop.None? ==> old(ToCome()) == Done(State(), leftover + remaining)
    {
      hide ToCome, Measure;
      ghost var before := ToCome();
      while remaining != []
        invariant ToCome() == before
        decreases Measure(remaining)
      {
        var arg := remaining[0];
        if arg == "--" {
          TakeDashes();
          return None;
        }
        if Substr(arg, 0, 2) == "--" {
          assert arg == "--" + arg[2..];
          stop := HandleLongOpt(arg[2..]);
          if stop.Some? {
            return;
          }
        } else if Substr(arg, 0, 1) == "-" && |arg| > 1 {
          stop := HandleShortOpt(Substr(arg, 1, 1), arg);
          if stop.Some? {
            return;
          }
        } else {
          TakePositional(arg);
          if !interspersedArgs {
            return None;
          }
        }
      }
      NothingToCome();
      stop := None;
    }

    /** One default pass over a map: only missing destinations are filled. */
    method FillFromMap(layer: Layer)
      modifies values`table
      ensures values.table == layer + old(values.table)
    {
      var todo := layer.Keys;
      while todo != {}
        invariant todo <= layer.Keys
        invariant values.table == (map d | d in layer && d !in todo :: layer[d]) + old(values.table)
        decreases |todo|
      {
        var d :| d in todo;
        if !values.IsSet(d) {
          values.Assign(d, layer[d]);
        }
        todo := todo - {d};
      }
      assert (map d | d in layer && d !in todo :: layer[d]) == layer;
    }

    /** One default pass over a list of options. */
    method FillFromOptions(options: seq<Option>, ghost chain: seq<Layer>)
      requires values.table == Overlay(chain)
      modifies values`table
      ensures values.table == Overlay(chain + OptionLayers(options))
    {
      assert chain + OptionLayers([]) == chain;
      hide OptionLayers, Overlay;
      for k := 0 to |options|
        invariant values.table == Overlay(chain + OptionLayers(options[..k]))
      {
        var o := options[k];
        assert options[..k + 1] == options[..k] + [o];
        OverlayNextOption(chain, options[..k], o);
        FillIn(values.table, o.dest, o.dflt);
        if o.dflt != "" && !values.IsSet(o.dest) {
          values.Assign(o.dest, o.dflt);
        }
      }
      assert options[..|options|] == options;
    }

    /** The default pass over the groups. */
    method FillFromGroups(ghost chain: seq<Layer>)
      requires values.table == Overlay(chain)
      modifies values`table
      ensures values.table == Overlay(chain + GroupLayers(groups))
    {
      assert chain + GroupLayers([]) == chain;
      hide Overlay, OptionLayers, GroupLayers;
      for k := 0 to |groups|
        invariant values.table == Overlay(chain + GroupLayers(groups[..k]))
      {
        var g := groups[k];
        ghost var before := chain + GroupLayers(groups[..k]);
        OverlaySnoc(before, g.defaults);
        FillFromMap(g.defaults);
        FillFromOptions(g.options, before + [g.defaults]);
        assert groups[..k + 1] == groups[..k] + [g];
        GroupLayersSnoc(groups[..k], g);
        Assoc4(chain, GroupLayers(groups[..k]), [g.defaults], OptionLayers(g.options));
        Assoc(GroupLayers(groups[..k]), [g.defaults], OptionLayers(g.options));
      }
      assert groups[..|groups|] == groups;
    }

    /** The three default passes, in the order of the source. */
    method FillDefaults()
      modifies values`table
      ensures values.table == Overlay([old(values.table)] + Chain(defaults, opts, groups))
    {
      ghost var start := [values.table];
      OverlayOne(values.table);
      OverlaySnoc(start, defaults);
      Assoc4(start, [defaults], OptionLayers(opts), GroupLayers(groups));
      hide Overlay, OptionLayers, GroupLayers;
      FillFromMap(defaults);
      FillFromOptions(opts, start + [defaults]);
      FillFromGroups(start + [defaults] + OptionLayers(opts));
    }

    method AddVersionOption()
      requires Valid()
      modifies this`opts, this`optmapS, this`optmapL
      ensures Valid()
      ensures optmapL == old(optmapL)["version" := VERSION_OPTION] && optmapS == old(optmapS)
      ensures OptionLayers(opts) == OptionLayers(old(opts))
    {
      VersionNames();
      hide LongNames, ShortNames, NamedOption;
      AddStandardOption(["--version"], Version);
      assert opts[1..] == old(opts);
    }

    method AddHelpOption()
      requires Valid()
      modifies this`opts, this`optmapS, this`optmapL
      ensures Valid()
      ensures optmapL == old(optmapL)["help" := HELP_OPTION] && optmapS == old(optmapS)["h" := HELP_OPTION]
      ensures OptionLayers(opts) == OptionLayers(old(opts))
    {
      HelpNames();
      hide LongNames, ShortNames, NamedOption;
      AddStandardOption(["-h", "--help"], Help);
      assert opts[1..] == old(opts);
    }

    /** `parse_args` first adds `--version` (if there is a version text) and `-h`, `--help`. */
    method AddStandardOptions()
      requires Valid()
      modifies this`opts, this`optmapS, this`optmapL
      ensures Valid()
      ensures Names() == WithStandardOptions(old(Names()), addVersionOption && version != "", addHelpOption)
      ensures OptionLayers(opts) == OptionLayers(old(opts))
    {
      hide OptionLayers;
      if addVersionOption && version != "" {
        AddVersionOption();
      }
      if addHelpOption {
        AddHelpOption();
      }
    }

    method Begin(v: seq<string>)
      requires Valid()
      modifies this
      ensures Valid() && leftover == old(leftover)
      ensures ToCome() == old(ToComeFor(v))
      ensures Chain(defaults, opts, groups) == old(Chain(defaults, opts, groups))
    {
      hide OptionLayers, Meaning;
      remaining := v;
      AddStandardOptions();
    }

    /** The second loop of `parse_args`: what the first one left is positional. */
    method TakeRest()
      modifies this`remaining, this`leftover
      ensures leftover == old(leftover) + old(remaining)
    {
      while remaining != []
        invariant leftover + remaining == old(leftover) + old(remaining)
        decreases |remaining|
      {
        var arg := remaining[0];
        assert leftover + remaining == (leftover + [arg]) + remaining[1..];
        remaining := remaining[1..];
        leftover := leftover + [arg];
      }
    }

    /** Both loops of `parse_args`. */
    method ConsumeAll() returns (stop: Maybe<Stop>)
      requires Valid()
      modifies this`remaining, this`leftover, values, callbacks
      ensures Valid()
      ensures stop.Some? ==> old(ToCome()) == Stopped(stop.value)
      ensures stop.None? ==> old(ToCome()) == Done(State(), leftover)
    {
      hide Meaning;
      stop := ConsumeOptions();
      if stop.None? {
        TakeRest();
      }
    }

    /**
     `parse_args`: the decoded command line, processed event by event, with the default layers behind
     what the user has set.
     */
    method ParseArgs(v: seq<string>) returns (result: Parsed)
      requires Valid()
      modifies this, values, callbacks
      ensures Valid()
      ensures result == old(Expected(v))
      ensures result.Finished? ==> values.State() == result.values && leftover == result.args
      ensures result.Finished? ==> Sinks() == old(SinksAfter(v))
    {
      hide Meaning, Chain, Overlay, WithStandardOptions, OptionLayers, Valid, Names;
      ghost var meant := ToComeFor(v);
      ghost var chain := Chain(defaults, opts, groups);
      Begin(v);
      var stop := ConsumeAll();
      if stop.Some? {
        return Exited(stop.value);
      }
      ghost var table := values.table;
      FillDefaults();
      assert values.table == Overlay([table] + chain);
      result := Finished(values.State(), leftover);
    }

    ghost function ToComeFor(v: seq<string>): Outcome
      reads this, values, callbacks
    {
      Meaning(WithStandardOptions(Names(), addVersionOption && version != "", addHelpOption),
              scan, interspersedArgs, v, State(), leftover)
    }

    /** What `parse_args(v)` should return. */
    ghost function Expected(v: seq<string>): Parsed
      reads this, values, callbacks
    {
      match ToComeFor(v)
      case Stopped(stop) => Exited(stop)
      case Done(st, left) =>
        Finished(st.values.(table := Overlay([st.values.table] + Chain(defaults, opts, groups))), left)
    }

    /** What the callbacks should have collected after `parse_args(v)`. */
    ghost function SinksAfter(v: seq<string>): seq<string>
      reads this, values, callbacks
    {
      match ToComeFor(v)
      case Stopped(_) => []
      case Done(st, _) => st.sinks
    }
  }

  /** The names known after the options of a group are added, one by one. */
  function GroupNames(t: Table, options: seq<Option>): Table {
    if options == [] then t
    else
      var o := options[|options| - 1];
      var u := GroupNames(t, options[..|options| - 1]);
      Table(u.short + Binding(o.shortOpts, o), u.long + Binding(o.longOpts, o))
  }
}
