/**
 What users of the command line rely on: different spellings mean the same, rendered settings come
 back, the last value wins, counting counts, and defaults never override the user.
 */
module ArgvTheorems {
  import opened CppStrings
  import opened AppendCallback
  import opened Options
  import opened ArgvDecoding
  import opened Defaults

  // ---------- spellings ----------

  predicate TakesShort(t: Table, letter: char) {
    [letter] in t.short && t.short[[letter]].nargs == 1
  }

  /** `-aTAIL` is `-a -TAIL` exactly when `-a` takes no value; the tail may even begin with `-`. */
  lemma ClusterSplits(t: Table, interspersed: bool, letter: char, tail: string, rest: seq<string>)
    requires letter != '-' && tail != "" && [letter] in t.short
    ensures Decode(t, interspersed, ["-" + [letter] + tail] + rest) ==
            Decode(t, interspersed, ["-" + [letter], "-" + tail] + rest)
            <==> !TakesShort(t, letter)
  {
    var letters := [letter] + tail;
    assert "-" + letters == "-" + [letter] + tail;
    assert letters[..1] == [letter] && letters[1..] == tail;
    DecodesAsCluster(t, interspersed, letters, rest);
    assert ["-" + [letter], "-" + tail] + rest == ["-" + [letter]] + (["-" + tail] + rest);
    DecodesAsCluster(t, interspersed, [letter], ["-" + tail] + rest);
    assert [letter][..1] == [letter] && [letter][1..] == "";
    TailIsToken(t, interspersed, tail, rest);
    if TakesShort(t, letter) {
      assert Decode(t, interspersed, ["-" + [letter] + tail] + rest).events[0].value == tail;
      assert Decode(t, interspersed, ["-" + [letter], "-" + tail] + rest).events[0].value == "-" + tail;
      assert |"-" + tail| != |tail|;
    }
  }

  /** `-fV` is `-f V`. */
  lemma ShortValueDetaches(t: Table, interspersed: bool, letter: char, value: string, rest: seq<string>)
    requires letter != '-' && TakesShort(t, letter) && value != ""
    ensures Decode(t, interspersed, ["-" + [letter] + value] + rest) ==
            Decode(t, interspersed, ["-" + [letter], value] + rest)
  {
    var letters := [letter] + value;
    assert "-" + letters == "-" + [letter] + value;
    assert letters[..1] == [letter] && letters[1..] == value;
    DecodesAsCluster(t, interspersed, letters, rest);
    assert ["-" + [letter], value] + rest == ["-" + [letter]] + ([value] + rest);
    DecodesAsCluster(t, interspersed, [letter], [value] + rest);
    assert [letter][..1] == [letter] && [letter][1..] == "";
    assert ([value] + rest)[1..] == rest;
  }

  lemma LongNameOf(name: string, value: string)
    requires '=' !in name
    ensures LongName(name) == name && IndexOf(name, "=", 0) == None
    ensures LongName(name + "=" + value) == name
    ensures IndexOf(name + "=" + value, "=", 0) == Some(|name|) && (name + "=" + value)[|name| + 1..] == value
  {
    assert name[0..] == name;
    NotFoundChar(name, '=', 0);
    var body := name + "=" + value;
    assert body[0..|name|] == name && body[|name|] == '=';
    FoundChar(body, '=', 0, |name|);
    assert body[..|name|] == name;
  }

  /** `--o=V` is `--o V`, for every `V` (an empty one is refused in both) and also when `o` is unknown. */
  lemma LongValueDetaches(t: Table, interspersed: bool, name: string, value: string, rest: seq<string>)
    requires name != "" && '=' !in name && (name in t.long ==> t.long[name].nargs == 1)
    ensures Decode(t, interspersed, ["--" + name + "=" + value] + rest) ==
            Decode(t, interspersed, ["--" + name, value] + rest)
  {
    LongNameOf(name, value);
    assert "--" + (name + "=" + value) == "--" + name + "=" + value;
    DecodesAsLong(t, interspersed, name + "=" + value, rest);
    assert ["--" + name, value] + rest == ["--" + name] + ([value] + rest);
    DecodesAsLong(t, interspersed, name, [value] + rest);
    assert ([value] + rest)[0] == value && ([value] + rest)[1..] == rest;
  }

  // ---------- option boundaries ----------

  /** How many tokens `--body` takes. */
  function LongTokens(t: Table, body: string): nat {
    var name := LongName(body);
    if name in t.long && t.long[name].nargs == 1 && IndexOf(body, "=", 0).None? then 2 else 1
  }

  /** How many tokens a cluster takes; 0 if it ends the options. */
  function ClusterTokens(t: Table, letters: string): nat
    decreases |letters|
  {
    if letters == "" then 1
    else if letters == "-" then 0
    else if "-" <= letters then LongTokens(t, letters[1..])
    else if letters[..1] !in t.short then 1
    else if t.short[letters[..1]].nargs == 1 then (if |letters| > 1 then 1 else 2)
    else ClusterTokens(t, letters[1..])
  }

  /** How many tokens the first option or positional takes; 0 if nothing after it is an option any more. */
  function FirstTokens(t: Table, interspersed: bool, arg: string): nat {
    if arg == "--" then 0
    else if "--" <= arg then LongTokens(t, arg[2..])
    else if "-" <= arg && |arg| > 1 then ClusterTokens(t, arg[1..])
    else if interspersed then 1 else 0
  }

  /** What follows `pre` is read from a fresh start: no option in it waits for a value, none ends the options. */
  ghost predicate Boundary(t: Table, interspersed: bool, pre: seq<string>) {
    pre == [] ||
    (var n := FirstTokens(t, interspersed, pre[0]);
     0 < n <= |pre| && Boundary(t, interspersed, pre[n..]))
  }

  /** Two decodings one after the other; an error ends the first. */
  function Then(d: Decoded, e: Decoded): Decoded {
    if d.failure.Some? then d else Decoded(d.events + e.events, d.positionals + e.positionals, e.failure)
  }

  lemma AfterThen(e: Event, d: Decoded, f: Decoded)
    ensures Then(After(e, d), f) == After(e, Then(d, f))
  {
    Assoc([e], d.events, f.events);
  }

  lemma FailedThen(stop: Stop, d: Decoded)
    ensures Then(Failed(stop), d) == Failed(stop)
  {
  }

  /** A boundary cuts the decoding in two. */
  lemma {:induction false} DecodeAtBoundary(t: Table, interspersed: bool, pre: seq<string>, rest: seq<string>)
    requires Boundary(t, interspersed, pre)
    ensures Decode(t, interspersed, pre + rest) == Then(Decode(t, interspersed, pre), Decode(t, interspersed, rest))
    decreases |pre|, 0
  {
    hide DecodeLong, DecodeCluster, LongTokens, ClusterTokens;
    if pre == [] {
      assert pre + rest == rest;
    } else {
      var arg, more := pre[0], pre[1..];
      assert (pre + rest)[1..] == more + rest && (pre + rest)[0] == arg;
      if "--" <= arg {
        LongAtBoundary(t, interspersed, arg[2..], more, rest);
      } else if "-" <= arg && |arg| > 1 {
        ClusterAtBoundary(t, interspersed, arg[1..], more, rest);
      } else {
        DecodeAtBoundary(t, interspersed, more, rest);
        var d, e := Decode(t, interspersed, more), Decode(t, interspersed, rest);
        Assoc([arg], d.positionals, e.positionals);
      }
    }
  }

  lemma {:induction false} LongAtBoundary(t: Table, interspersed: bool, body: string, more: seq<string>, rest: seq<string>)
    requires LongTokens(t, body) <= |more| + 1 && Boundary(t, interspersed, more[LongTokens(t, body) - 1..])
    ensures DecodeLong(t, interspersed, body, more + rest) ==
            Then(DecodeLong(t, interspersed, body, more), Decode(t, interspersed, rest))
    decreases |more|, 1
  {
    hide Then, After, Failed, Decode, IndexOf, LongName, Boundary;
    var name := LongName(body);
    FailedThen(NoSuchOption("--" + name), Decode(t, interspersed, rest));
    FailedThen(MissingArgument("--" + name), Decode(t, interspersed, rest));
    if name in t.long {
      var o := t.long[name];
      var (value, left) := LongValue(o, body, more);
      DecodeAtBoundary(t, interspersed, left, rest);
      assert LongTokens(t, body) == 2 ==> more + rest == [more[0]] + (more[1..] + rest);
      assert LongValue(o, body, more + rest) == (value, left + rest);
      AfterThen(Event(o, "--" + name, value), Decode(t, interspersed, left), Decode(t, interspersed, rest));
    }
  }

  lemma {:induction false} ClusterAtBoundary(t: Table, interspersed: bool, letters: string, more: seq<string>, rest: seq<string>)
    requires letters != "" && letters[0] != '-'
    requires 0 < ClusterTokens(t, letters) <= |more| + 1
    requires Boundary(t, interspersed, more[ClusterTokens(t, letters) - 1..])
    ensures DecodeCluster(t, interspersed, letters, more + rest) ==
            Then(DecodeCluster(t, interspersed, letters, more), Decode(t, interspersed, rest))
    decreases |more|, 2 * |letters| + 1
  {
    hide Then, After, Failed, Decode, DecodeTail, DecodeLong, IndexOf, LongName, Boundary, LongTokens;
    var name, tail := letters[..1], letters[1..];
    var e := Decode(t, interspersed, rest);
    FailedThen(NoSuchOption("-" + name), e);
    if name in t.short {
      var o := t.short[name];
      if o.nargs == 1 && tail != "" {
        DecodeAtBoundary(t, interspersed, more, rest);
        AfterThen(Event(o, "-" + name, tail), Decode(t, interspersed, more), e);
      } else if o.nargs == 1 {
        assert more + rest == [more[0]] + (more[1..] + rest);
        assert (more + rest)[1..] == more[1..] + rest;
        DecodeAtBoundary(t, interspersed, more[1..], rest);
        AfterThen(Event(o, "-" + name, more[0]), Decode(t, interspersed, more[1..]), e);
      } else {
        TailAtBoundary(t, interspersed, tail, more, rest);
        AfterThen(Event(o, "-" + name, ""), DecodeTail(t, interspersed, tail, more), e);
      }
    }
  }

  lemma {:induction false} TailAtBoundary(t: Table, interspersed: bool, tail: string, more: seq<string>, rest: seq<string>)
    requires 0 < ClusterTokens(t, tail) <= |more| + 1
    requires Boundary(t, interspersed, more[ClusterTokens(t, tail) - 1..])
    ensures DecodeTail(t, interspersed, tail, more + rest) ==
            Then(DecodeTail(t, interspersed, tail, more), Decode(t, interspersed, rest))
    decreases |more|, 2 * |tail| + 2
  {
    if tail == "" {
      DecodeAtBoundary(t, interspersed, more, rest);
    } else if "-" <= tail {
      LongAtBoundary(t, interspersed, tail[1..], more, rest);
    } else {
      ClusterAtBoundary(t, interspersed, tail, more, rest);
    }
  }

  /** Spellings that decode alike can be exchanged at any boundary: the whole outcome stays the same. */
  lemma SpellingsExchange(t: Table, scan: Extraction, interspersed: bool, pre: seq<string>, x: seq<string>, y: seq<string>,
                          st: ParseState, leftover: seq<string>)
    requires Boundary(t, interspersed, pre)
    requires Decode(t, interspersed, x) == Decode(t, interspersed, y)
    ensures Meaning(t, scan, interspersed, pre + x, st, leftover) == Meaning(t, scan, interspersed, pre + y, st, leftover)
  {
    DecodeAtBoundary(t, interspersed, pre, x);
    DecodeAtBoundary(t, interspersed, pre, y);
  }

  /** The whole outcome of a command line, for two spellings of what follows a boundary. */
  ghost predicate Same(t: Table, scan: Extraction, interspersed: bool, pre: seq<string>, x: seq<string>, y: seq<string>,
                       rest: seq<string>, st: ParseState, leftover: seq<string>) {
    Meaning(t, scan, interspersed, pre + (x + rest), st, leftover) == Meaning(t, scan, interspersed, pre + (y + rest), st, leftover)
  }

  /**
   Spelling invariance at any option boundary, whatever follows: a cluster splits behind an option without
   a value, and a value may stand in the same token or in the next one.
   */
  lemma SpellingInvariance(t: Table, scan: Extraction, interspersed: bool, pre: seq<string>, rest: seq<string>,
                           st: ParseState, leftover: seq<string>, letter: char, name: string, text: string)
    requires Boundary(t, interspersed, pre) && letter != '-' && name != "" && '=' !in name
    ensures text != "" && [letter] in t.short && !TakesShort(t, letter) ==>
              Same(t, scan, interspersed, pre, ["-" + [letter] + text], ["-" + [letter], "-" + text], rest, st, leftover)
    ensures text != "" && TakesShort(t, letter) ==>
              Same(t, scan, interspersed, pre, ["-" + [letter] + text], ["-" + [letter], text], rest, st, leftover)
    ensures (name in t.long ==> t.long[name].nargs == 1) ==>
              Same(t, scan, interspersed, pre, ["--" + name + "=" + text], ["--" + name, text], rest, st, leftover)
  {
    hide Decode, Meaning, Boundary;
    var cluster := ["-" + [letter] + text] + rest;
    if text != "" && [letter] in t.short && !TakesShort(t, letter) {
      ClusterSplits(t, interspersed, letter, text, rest);
      SpellingsExchange(t, scan, interspersed, pre, cluster, ["-" + [letter], "-" + text] + rest, st, leftover);
    }
    if text != "" && TakesShort(t, letter) {
      ShortValueDetaches(t, interspersed, letter, text, rest);
      SpellingsExchange(t, scan, interspersed, pre, cluster, ["-" + [letter], text] + rest, st, leftover);
    }
    if name in t.long ==> t.long[name].nargs == 1 {
      LongValueDetaches(t, interspersed, name, text, rest);
      SpellingsExchange(t, scan, interspersed, pre, ["--" + name + "=" + text] + rest, ["--" + name, text] + rest, st, leftover);
    }
  }

  // ---------- rendering settings ----------

  datatype Spelling = LongEquals | LongNext | LongFlag | ShortJoined | ShortNext | ShortFlag

  datatype Setting = Setting(name: string, spelling: Spelling, value: string)

  function Render(s: Setting): seq<string> {
    match s.spelling
    case LongEquals => ["--" + s.name + "=" + s.value]
    case LongNext => ["--" + s.name, s.value]
    case LongFlag => ["--" + s.name]
    case ShortJoined => ["-" + s.name + s.value]
    case ShortNext => ["-" + s.name, s.value]
    case ShortFlag => ["-" + s.name]
  }

  function RenderAll(settings: seq<Setting>): seq<string> {
    if settings == [] then [] else Render(settings[0]) + RenderAll(settings[1..])
  }

  predicate IsLongSpelling(s: Spelling) {
    s.LongEquals? || s.LongNext? || s.LongFlag?
  }

  /** The setting names an option that takes a value exactly if one is given, and a non-empty one where needed. */
  predicate Renderable(t: Table, s: Setting) {
    && (if IsLongSpelling(s.spelling) then s.name != "" && '=' !in s.name && s.name in t.long
        else |s.name| == 1 && s.name != "-" && s.name in t.short)
    && (match s.spelling
        case LongEquals => t.long[s.name].nargs == 1 && (s.value != "" || s.name == EMPTY_VALUE_OPTION)
        case LongNext => t.long[s.name].nargs == 1 && (s.value != "" || s.name == EMPTY_VALUE_OPTION)
        case LongFlag => t.long[s.name].nargs != 1 && s.value == ""
        case ShortJoined => t.short[s.name].nargs == 1 && s.value != ""
        case ShortNext => t.short[s.name].nargs == 1
        case ShortFlag => t.short[s.name].nargs != 1 && s.value == "")
  }

  function EventOf(t: Table, s: Setting): Event
    requires Renderable(t, s)
  {
    if IsLongSpelling(s.spelling) then Event(t.long[s.name], "--" + s.name, s.value)
    else Event(t.short[s.name], "-" + s.name, s.value)
  }

  function EventsOf(t: Table, settings: seq<Setting>): seq<Event>
    requires forall s | s in settings :: Renderable(t, s)
  {
    if settings == [] then []
    else assert settings[0] in settings; [EventOf(t, settings[0])] + EventsOf(t, settings[1..])
  }

  lemma RenderedLong(t: Table, interspersed: bool, s: Setting, rest: seq<string>)
    requires Renderable(t, s) && IsLongSpelling(s.spelling)
    ensures Decode(t, interspersed, Render(s) + rest) == After(EventOf(t, s), Decode(t, interspersed, rest))
  {
    LongNameOf(s.name, s.value);
    if s.spelling.LongEquals? {
      LongValueDetaches(t, interspersed, s.name, s.value, rest);
    }
    var after := if s.spelling.LongFlag? then rest else [s.value] + rest;
    DecodesAsLong(t, interspersed, s.name, after);
    assert ["--" + s.name, s.value] + rest == ["--" + s.name] + ([s.value] + rest);
    assert ([s.value] + rest)[1..] == rest;
  }

  lemma RenderedShort(t: Table, interspersed: bool, s: Setting, rest: seq<string>)
    requires Renderable(t, s) && !IsLongSpelling(s.spelling)
    ensures Decode(t, interspersed, Render(s) + rest) == After(EventOf(t, s), Decode(t, interspersed, rest))
  {
    assert s.name == [s.name[0]];
    if s.spelling.ShortJoined? {
      ShortValueDetaches(t, interspersed, s.name[0], s.value, rest);
    }
    var after := if s.spelling.ShortFlag? then rest else [s.value] + rest;
    DecodesAsCluster(t, interspersed, s.name, after);
    assert s.name[..1] == s.name && s.name[1..] == "";
    assert ["-" + s.name, s.value] + rest == ["-" + s.name] + ([s.value] + rest);
    assert ([s.value] + rest)[1..] == rest;
  }

  /** Rendered settings decode to their events, whatever follows. */
  lemma {:induction false} RenderedDecodes(t: Table, interspersed: bool, settings: seq<Setting>, rest: seq<string>)
    requires forall s | s in settings :: Renderable(t, s)
    ensures var d := Decode(t, interspersed, rest);
            Decode(t, interspersed, RenderAll(settings) + rest) == d.(events := EventsOf(t, settings) + d.events)
  {
    var d := Decode(t, interspersed, rest);
    if settings == [] {
      assert RenderAll(settings) + rest == rest;
      assert EventsOf(t, settings) + d.events == d.events;
    } else {
      var s, more := settings[0], settings[1..];
      Assoc(Render(s), RenderAll(more), rest);
      if IsLongSpelling(s.spelling) {
        RenderedLong(t, interspersed, s, RenderAll(more) + rest);
      } else {
        RenderedShort(t, interspersed, s, RenderAll(more) + rest);
      }
      RenderedDecodes(t, interspersed, more, rest);
      Assoc([EventOf(t, s)], EventsOf(t, more), d.events);
    }
  }

  // ---------- storing ----------

  /** The value that an event leaves in its destination, for the actions that store one. */
  function StoredValue(e: Event): string {
    match e.option.action
    case StoreConst => e.option.constant
    case AppendConst => e.option.constant
    case StoreTrue => "1"
    case StoreFalse => "0"
    case _ => e.value
  }

  predicate Appends(e: Event) {
    e.option.action.Append? || e.option.action.AppendConst?
  }

  /** The event stores or appends, and its value passes the type check where there is one. */
  predicate Stores(scan: Extraction, e: Event) {
    || ((e.option.action.Store? || e.option.action.Append?) && TypeOk(scan, e.option, e.value))
    || e.option.action.StoreConst? || e.option.action.StoreTrue? || e.option.action.StoreFalse?
    || e.option.action.AppendConst?
  }

  /** The value of the last event for `d`. */
  function LastValue(events: seq<Event>, d: string): Maybe<string> {
    if events == [] then None
    else if events[|events| - 1].option.dest == d then Some(StoredValue(events[|events| - 1]))
    else LastValue(events[..|events| - 1], d)
  }

  /** The values of all append events for `d`, in order. */
  function AppendedValues(events: seq<Event>, d: string): seq<string> {
    if events == [] then []
    else
      var e := events[|events| - 1];
      AppendedValues(events[..|events| - 1], d) + (if Appends(e) && e.option.dest == d then [StoredValue(e)] else [])
  }

  function Dests(events: seq<Event>): set<string> {
    set e | e in events :: e.option.dest
  }

  /** The state after storing: last value wins, all appended values in order, every destination user-set. */
  ghost predicate Stored(events: seq<Event>, st: ParseState, st': ParseState) {
    && (forall d :: Lookup(st'.values.table, d) ==
                    if LastValue(events, d).Some? then LastValue(events, d) else Lookup(st.values.table, d))
    && (forall d :: GetList(st'.values.appended, d) == GetList(st.values.appended, d) + AppendedValues(events, d))
    && st'.values.userSet == st.values.userSet + Dests(events)
    && st'.sinks == st.sinks
  }

  lemma {:induction false} FoldSnoc(scan: Extraction, events: seq<Event>, e: Event, st: ParseState)
    ensures Fold(scan, events + [e], st) ==
            match Fold(scan, events, st)
            case Halt(stop) => Halt(stop)
            case Next(st') => Process(scan, e.option, e.opt, e.value, st')
    decreases |events|
  {
    if events == [] {
      assert events + [e] == [e] && [e][1..] == [];
    } else {
      assert (events + [e])[1..] == events[1..] + [e] && (events + [e])[0] == events[0];
      match Process(scan, events[0].option, events[0].opt, events[0].value, st)
      case Halt(_) =>
      case Next(st') => FoldSnoc(scan, events[1..], e, st');
    }
  }

  /** What one storing or appending event does. */
  lemma ProcessStores(scan: Extraction, e: Event, st: ParseState)
    requires Stores(scan, e)
    ensures var r := Process(scan, e.option, e.opt, e.value, st);
            && r.Next? && r.state.sinks == st.sinks
            && r.state.values.table == st.values.table[e.option.dest := StoredValue(e)]
            && r.state.values.userSet == st.values.userSet + {e.option.dest}
            && r.state.values.appended ==
               if Appends(e)
               then st.values.appended[e.option.dest := GetList(st.values.appended, e.option.dest) + [StoredValue(e)]]
               else st.values.appended
  {
  }

  lemma DestsSnoc(events: seq<Event>, e: Event)
    ensures Dests(events + [e]) == Dests(events) + {e.option.dest}
  {
    assert forall x :: x in events + [e] <==> x in events || x == e;
  }

  lemma StoredSnoc(scan: Extraction, events: seq<Event>, e: Event, st: ParseState, mid: ParseState)
    requires Stored(events, st, mid) && Stores(scan, e)
    ensures var r := Process(scan, e.option, e.opt, e.value, mid);
            r.Next? && Stored(events + [e], st, r.state)
  {
    hide Process, Stores, StoredValue, Dests, Appends;
    ProcessStores(scan, e, mid);
    DestsSnoc(events, e);
    var st' := Process(scan, e.option, e.opt, e.value, mid).state;
    var all := events + [e];
    assert all[..|all| - 1] == events && all[|all| - 1] == e;
    assert (st.values.userSet + Dests(events)) + {e.option.dest} == st.values.userSet + (Dests(events) + {e.option.dest});
    forall d
      ensures GetList(st'.values.appended, d) == GetList(st.values.appended, d) + AppendedValues(all, d)
      ensures Lookup(st'.values.table, d) ==
              if LastValue(all, d).Some? then LastValue(all, d) else Lookup(st.values.table, d)
    {
      assert LastValue(all, d) == if e.option.dest == d then Some(StoredValue(e)) else LastValue(events, d);
      var more := if Appends(e) && e.option.dest == d then [StoredValue(e)] else [];
      Assoc(GetList(st.values.appended, d), AppendedValues(events, d), more);
      assert GetList(mid.values.appended, d) == GetList(st.values.appended, d) + AppendedValues(events, d);
    }
  }

  /** Processing storing and appending events never fails and leaves exactly the described state. */
  lemma {:induction false} FoldStores(scan: Extraction, events: seq<Event>, st: ParseState)
    requires forall e | e in events :: Stores(scan, e)
    ensures var r := Fold(scan, events, st); r.Next? && Stored(events, st, r.state)
    decreases |events|
  {
    if events != [] {
      var front, e := events[..|events| - 1], events[|events| - 1];
      assert events == front + [e];
      assert e in events;
      FoldStores(scan, front, st);
      FoldSnoc(scan, front, e, st);
      StoredSnoc(scan, front, e, st, Fold(scan, front, st).state);
    }
  }

  /**
   Argv round trip: settings rendered in any spelling, then `--` and any positionals, come back as
   exactly those settings and those positionals.
   */
  lemma ArgvRoundTrip(t: Table, scan: Extraction, interspersed: bool, settings: seq<Setting>, positionals: seq<string>,
                      st: ParseState, leftover: seq<string>)
    requires forall s | s in settings :: Renderable(t, s)
    requires forall e | e in EventsOf(t, settings) :: Stores(scan, e)
    ensures var r := Meaning(t, scan, interspersed, RenderAll(settings) + ["--"] + positionals, st, leftover);
            r.Done? && r.leftover == leftover + positionals && Stored(EventsOf(t, settings), st, r.state)
  {
    Assoc(RenderAll(settings), ["--"], positionals);
    RenderedDecodes(t, interspersed, settings, ["--"] + positionals);
    assert (["--"] + positionals)[1..] == positionals;
    assert EventsOf(t, settings) + [] == EventsOf(t, settings);
    FoldStores(scan, EventsOf(t, settings), st);
  }

  // ---------- stopping ----------

  /** The value of an option that stores it fails its declared type. */
  predicate BadlyTyped(scan: Extraction, e: Event) {
    (e.option.action.Store? || e.option.action.Append?) &&
    match e.option.valueType
    case Scanned(name) => !scan(name, e.value)
    case Choice(choices) => e.value !in choices
    case Unchecked(_) => false
  }

  /** The occurrence of the option ends the process. */
  predicate Stops(scan: Extraction, e: Event) {
    BadlyTyped(scan, e) || e.option.action.Help? || e.option.action.Version?
  }

  lemma ProcessStopsIff(scan: Extraction, e: Event, st: ParseState)
    ensures var r := Process(scan, e.option, e.opt, e.value, st);
            && (r.Halt? <==> Stops(scan, e))
            && (BadlyTyped(scan, e) ==> r == Halt(BadValue(e.opt, e.value)))
            && (e.option.action.Help? ==> r == Halt(HelpShown))
            && (e.option.action.Version? ==> r == Halt(VersionShown))
  {
    hide StrInc, Appended;
  }

  /** The events are processed to their end exactly if none of them stops the process. */
  lemma {:induction false} FoldFinishesIff(scan: Extraction, events: seq<Event>, st: ParseState)
    ensures Fold(scan, events, st).Next? <==> forall e | e in events :: !Stops(scan, e)
    decreases |events|
  {
    hide Process, Stops;
    if events != [] {
      ProcessStopsIff(scan, events[0], st);
      assert events[0] in events && forall e :: e in events <==> e == events[0] || e in events[1..];
      var r := Process(scan, events[0].option, events[0].opt, events[0].value, st);
      if r.Next? {
        FoldFinishesIff(scan, events[1..], r.state);
      }
    }
  }

  /** The first event that stops the process decides, whatever is behind it. */
  lemma {:induction false} FoldStopsAt(scan: Extraction, before: seq<Event>, e: Event, behind: seq<Event>, st: ParseState)
    requires (forall b | b in before :: !Stops(scan, b)) && Stops(scan, e)
    ensures var r := Fold(scan, before + [e] + behind, st);
            r == Halt(if e.option.action.Help? then HelpShown
                      else if e.option.action.Version? then VersionShown
                      else BadValue(e.opt, e.value))
    decreases |before|
  {
    hide Process;
    var events := before + [e] + behind;
    if before == [] {
      assert events[0] == e;
      ProcessStopsIff(scan, e, st);
    } else {
      assert events[0] == before[0] && events[1..] == before[1..] + [e] + behind;
      assert before[0] in before;
      ProcessStopsIff(scan, before[0], st);
      FoldStopsAt(scan, before[1..], e, behind, Process(scan, before[0].option, before[0].opt, before[0].value, st).state);
    }
  }

  /** A command line finishes exactly if it decodes without an error and none of its events stops the process. */
  lemma FinishesIff(t: Table, scan: Extraction, interspersed: bool, args: seq<string>, st: ParseState, leftover: seq<string>)
    ensures var r, d := Meaning(t, scan, interspersed, args, st, leftover), Decode(t, interspersed, args);
            && (r.Done? <==> d.failure.None? && forall e | e in d.events :: !Stops(scan, e))
            && (r.Done? ==> r.leftover == leftover + d.positionals)
            && (d.failure.Some? && (forall e | e in d.events :: !Stops(scan, e)) ==> r == Stopped(d.failure.value))
  {
    hide Decode, Fold, Stops;
    FoldFinishesIff(scan, Decode(t, interspersed, args).events, st);
  }

  /** Behind any boundary that does not stop, a setting that does decides what the whole command line means. */
  lemma SettingStops(t: Table, scan: Extraction, interspersed: bool, pre: seq<string>, s: Setting, rest: seq<string>,
                     st: ParseState, leftover: seq<string>)
    requires Boundary(t, interspersed, pre) && Decode(t, interspersed, pre).failure.None?
    requires forall e | e in Decode(t, interspersed, pre).events :: !Stops(scan, e)
    requires Renderable(t, s) && Stops(scan, EventOf(t, s))
    ensures Meaning(t, scan, interspersed, pre + (Render(s) + rest), st, leftover) ==
            Stopped(if EventOf(t, s).option.action.Help? then HelpShown
                    else if EventOf(t, s).option.action.Version? then VersionShown
                    else BadValue(EventOf(t, s).opt, s.value))
  {
    hide Fold, Stops, Render, Renderable, Boundary;
    var e, d, f := EventOf(t, s), Decode(t, interspersed, pre), Decode(t, interspersed, rest);
    DecodeAtBoundary(t, interspersed, pre, Render(s) + rest);
    if IsLongSpelling(s.spelling) {
      RenderedLong(t, interspersed, s, rest);
    } else {
      RenderedShort(t, interspersed, s, rest);
    }
    Assoc(d.events, [e], f.events);
    FoldStopsAt(scan, d.events, e, f.events, st);
    hide Decode;
  }

  /**
   A badly typed value stops the parse: behind any boundary that does not stop, a value that cannot be extracted,
   or is no choice of its option, ends the process with that option's spelling and that value.
   */
  lemma BadValueStops(t: Table, scan: Extraction, interspersed: bool, pre: seq<string>, s: Setting, rest: seq<string>,
                      st: ParseState, leftover: seq<string>)
    requires Boundary(t, interspersed, pre) && Decode(t, interspersed, pre).failure.None?
    requires forall e | e in Decode(t, interspersed, pre).events :: !Stops(scan, e)
    requires Renderable(t, s)
    requires var o := if IsLongSpelling(s.spelling) then t.long[s.name] else t.short[s.name];
             && (o.action == Store || o.action == Append)
             && ((o.valueType.Scanned? && !scan(o.valueType.name, s.value)) ||
                 (o.valueType.Choice? && s.value !in o.valueType.choices))
    ensures Meaning(t, scan, interspersed, pre + (Render(s) + rest), st, leftover) ==
            Stopped(BadValue((if IsLongSpelling(s.spelling) then "--" else "-") + s.name, s.value))
  {
    hide Meaning, Decode, Render, Boundary;
    SettingStops(t, scan, interspersed, pre, s, rest, st, leftover);
  }

  /** Rendered settings, `--` and positionals finish exactly if no setting stops the process. */
  lemma RenderedFinishesIff(t: Table, scan: Extraction, interspersed: bool, settings: seq<Setting>, positionals: seq<string>,
                            st: ParseState, leftover: seq<string>)
    requires forall s | s in settings :: Renderable(t, s)
    ensures Meaning(t, scan, interspersed, RenderAll(settings) + ["--"] + positionals, st, leftover).Done?
            <==> forall s | s in settings :: !Stops(scan, EventOf(t, s))
  {
    hide Meaning, Stops, EventOf, Renderable;
    var args := RenderAll(settings) + ["--"] + positionals;
    Assoc(RenderAll(settings), ["--"], positionals);
    RenderedDecodes(t, interspersed, settings, ["--"] + positionals);
    assert Decode(t, interspersed, ["--"] + positionals) == Decoded([], (["--"] + positionals)[1..], None);
    assert EventsOf(t, settings) + [] == EventsOf(t, settings);
    hide Decode;
    FinishesIff(t, scan, interspersed, args, st, leftover);
    EventsOfSettings(t, settings);
  }

  lemma {:induction false} EventsOfSettings(t: Table, settings: seq<Setting>)
    requires forall s | s in settings :: Renderable(t, s)
    ensures forall e :: e in EventsOf(t, settings) <==> exists s | s in settings :: e == EventOf(t, s)
  {
    hide EventOf, Renderable;
    if settings != [] {
      assert settings[0] in settings;
      EventsOfSettings(t, settings[1..]);
      assert forall s :: s in settings <==> s == settings[0] || s in settings[1..];
    }
  }

  // ---------- what stays ----------

  /** A destination that no event writes keeps its value and its list, and whether the user has set it. */
  lemma {:induction false} UnwrittenStays(scan: Extraction, events: seq<Event>, st: ParseState, d: string)
    requires forall e | e in events :: !Writes(e.option, d)
    ensures var r := Fold(scan, events, st);
            r.Next? ==>
              && Lookup(r.state.values.table, d) == Lookup(st.values.table, d)
              && GetList(r.state.values.appended, d) == GetList(st.values.appended, d)
              && (d in r.state.values.userSet <==> d in st.values.userSet)
    decreases |events|
  {
    hide Process, Fold, Writes, Lookup, GetList;
    if events == [] {
      FoldNone(scan, st);
    } else {
      FoldFirst(scan, events, st);
      assert events[0] in events && forall e | e in events[1..] :: e in events;
      ProcessKeeps(scan, events[0], st, d);
      var r := Process(scan, events[0].option, events[0].opt, events[0].value, st);
      if r.Next? {
        UnwrittenStays(scan, events[1..], r.state, d);
      }
    }
  }

  lemma ProcessKeeps(scan: Extraction, e: Event, st: ParseState, d: string)
    requires !Writes(e.option, d)
    ensures var r := Process(scan, e.option, e.opt, e.value, st);
            r.Next? ==>
              && Lookup(r.state.values.table, d) == Lookup(st.values.table, d)
              && GetList(r.state.values.appended, d) == GetList(st.values.appended, d)
              && (d in r.state.values.userSet <==> d in st.values.userSet)
  {
    hide StrInc, TypeOk, Appended;
  }

  lemma FoldNone(scan: Extraction, st: ParseState)
    ensures Fold(scan, [], st) == Next(st)
  {
  }

  lemma FoldFirst(scan: Extraction, events: seq<Event>, st: ParseState)
    requires events != []
    ensures var r := Process(scan, events[0].option, events[0].opt, events[0].value, st);
            Fold(scan, events, st) == if r.Halt? then r else Fold(scan, events[1..], r.state)
  {
  }

  // ---------- counting ----------

  /** Whether processing `o` writes the value of `d`. */
  predicate Writes(o: Option, d: string) {
    o.dest == d && !(o.action.Help? || o.action.Version? || o.action.Callback? || o.action.Other?)
  }

  function Counts(events: seq<Event>, d: string): nat {
    if events == [] then 0
    else (if Writes(events[0].option, d) then 1 else 0) + Counts(events[1..], d)
  }

  /** What `k` occurrences of a count option leave behind. */
  function Counted(k: nat): Maybe<string> {
    if k == 0 then None else Some(Decimal(k))
  }

  lemma CountStep(scan: Extraction, e: Event, st: ParseState, d: string, j: nat)
    requires Lookup(st.values.table, d) == Counted(j) && j <= LONG_MAX
    requires Writes(e.option, d) ==> e.option.action.Count?
    ensures match Process(scan, e.option, e.opt, e.value, st)
            case Halt(_) => true
            case Next(after) =>
              Lookup(after.values.table, d) == Counted(j + if Writes(e.option, d) then 1 else 0)
  {
    hide StrInc, Decimal, TypeOk;
    StrIncCounts(j);
  }

  /** A destination written only by `count` options holds the decimal number of their occurrences. */
  lemma {:induction false} CountOptionsCount(scan: Extraction, events: seq<Event>, st: ParseState, d: string, j: nat)
    requires Lookup(st.values.table, d) == Counted(j)
    requires forall e | e in events && Writes(e.option, d) :: e.option.action.Count?
    requires j + Counts(events, d) <= LONG_MAX
    ensures var r := Fold(scan, events, st);
            r.Next? ==> Lookup(r.state.values.table, d) == Counted(j + Counts(events, d))
    decreases |events|
  {
    hide Counted, StrInc, Decimal, Process;
    if events != [] {
      var e := events[0];
      assert e in events;
      CountStep(scan, e, st, d, j);
      var r := Process(scan, e.option, e.opt, e.value, st);
      if r.Next? {
        CountOptionsCount(scan, events[1..], r.state, d, j + if Writes(e.option, d) then 1 else 0);
      }
    }
  }

  // ---------- defaults ----------

  /** Before the default passes, what is set is what the user set. */
  lemma {:induction false} SetIsSetByUser(scan: Extraction, events: seq<Event>, st: ParseState)
    requires st.values.table.Keys == st.values.userSet
    ensures match Fold(scan, events, st)
            case Halt(_) => true
            case Next(st') => st'.values.table.Keys == st'.values.userSet
    decreases |events|
  {
    if events != [] {
      match Process(scan, events[0].option, events[0].opt, events[0].value, st)
      case Halt(_) =>
      case Next(st') => SetIsSetByUser(scan, events[1..], st');
    }
  }

  /**
   Default layering on a fresh parser: a destination the user set keeps the user's value; any other has
   the first value in the chain of defaults, or none.
   */
  lemma DefaultsNeverOverride(scan: Extraction, events: seq<Event>, sinks: seq<string>, chain: seq<Layer>, d: string)
    ensures var r := Fold(scan, events, ParseState(ValuesState(map[], map[], {}), sinks));
            r.Next? ==>
              Lookup(Overlay([r.state.values.table] + chain), d) ==
              if d in r.state.values.userSet then Lookup(r.state.values.table, d) else FirstIn(chain, d)
  {
    var empty := ParseState(ValuesState(map[], map[], {}), sinks);
    SetIsSetByUser(scan, events, empty);
    var r := Fold(scan, events, empty);
    if r.Next? {
      var table := r.state.values.table;
      OverlayIsFirstMatch([table] + chain, d);
      assert ([table] + chain)[1..] == chain;
      assert d in table.Keys <==> d in r.state.values.userSet;
    }
  }
}
