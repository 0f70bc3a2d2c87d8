/**
 What a whole parser promises beyond the meaning of its command line: which names reach an option, that `--help` and
 `--version` work, that repeated flags count, and which default a destination gets.
 */
module ParserTheorems {
  import opened CppStrings
  import opened TextUtils
  import opened Options
  import opened ArgvDecoding
  import opened ArgvTheorems
  import opened OptionParsing
  import opened Defaults

  // ---------- registered names ----------

  lemma {:induction false} MapCharPointwise(s: string, c: char, r: char)
    ensures |MapChar(s, c, [r])| == |s|
    ensures forall k | 0 <= k < |s| :: MapChar(s, c, [r])[k] == if s[k] == c then r else s[k]
  {
    if s != [] {
      MapCharPointwise(s[1..], c, r);
      assert forall k | 1 <= k < |s| :: s[k] == s[1..][k - 1];
      assert MapChar(s, c, [r]) == [if s[0] == c then r else s[0]] + MapChar(s[1..], c, [r]);
    }
  }

  /** The first long name with letters gives the destination, with every `-` turned into `_`. */
  lemma {:induction false} DestOfLong(names: seq<string>, i: nat, n: string)
    requires UsableNames(names) && i < |names| && names[i] == "--" + n && n != ""
    requires forall j | 0 <= j < i :: "--" <= names[j] ==> names[j] == "--"
    ensures var dest := NamedOption(names).dest;
            |dest| == |n| && forall k | 0 <= k < |n| :: dest[k] == if n[k] == '-' then '_' else n[k]
  {
    hide ReplaceAll, MapChar;
    LongDestAt(names, i, n);
    ReplaceOneChar(n, '-', "_");
    MapCharPointwise(n, '-', '_');
  }

  lemma {:induction false} LongDestAt(names: seq<string>, i: nat, n: string)
    requires i < |names| && names[i] == "--" + n && n != ""
    requires forall j | 0 <= j < i :: "--" <= names[j] ==> names[j] == "--"
    ensures LongDest(names) == ReplaceAll(n, "-", "_")
  {
    hide ReplaceAll;
    assert names[i][2..] == n;
    if i > 0 {
      assert names[0] == "--" ==> names[0][2..] == "";
      LongDestAt(names[1..], i - 1, n);
    }
  }

  /** Without a long name the first short letter gives the destination. */
  lemma {:induction false} DestOfShort(names: seq<string>, i: nat)
    requires UsableNames(names) && i < |names| && |names[i]| > 1
    requires forall j | 0 <= j < |names| :: !("--" <= names[j])
    requires forall j | 0 <= j < i :: |names[j]| == 1
    ensures NamedOption(names).dest == [names[i][1]]
  {
    NoLongDest(names);
    ShortDestAt(names, i);
  }

  lemma {:induction false} NoLongDest(names: seq<string>)
    requires forall j | 0 <= j < |names| :: !("--" <= names[j])
    ensures LongDest(names) == ""
  {
    if names != [] {
      NoLongDest(names[1..]);
    }
  }

  lemma {:induction false} ShortDestAt(names: seq<string>, i: nat)
    requires UsableNames(names) && i < |names| && |names[i]| > 1
    requires forall j | 0 <= j <= i :: !("--" <= names[j])
    requires forall j | 0 <= j < i :: |names[j]| == 1
    ensures ShortDest(names) == [names[i][1]]
  {
    if i > 0 {
      ShortDestAt(names[1..], i - 1);
    }
  }

  /** The names that reach an option are exactly the long ones without their dashes and the letters of the short ones. */
  lemma NamesReached(names: seq<string>, n: string, letter: char)
    requires UsableNames(names)
    ensures n in LongNames(names) <==> "--" + n in names
    ensures [letter] in ShortNames(names) <==> exists s :: s in names && |s| > 1 && s[1] == letter && !("--" <= s)
  {
    assert ("--" + n)[2..] == n;
    assert forall s: string :: "--" <= s ==> s == "--" + s[2..];
    assert forall s: string :: |s| > 1 ==> s[1..2] == [s[1]];
  }

  lemma GroupSnoc(t: Table, options: seq<Option>, n: string)
    requires options != []
    ensures var u, v, o := GroupNames(t, options[..|options| - 1]), GroupNames(t, options), options[|options| - 1];
            && Lookup(v.long, n) == (if n in o.longOpts then Some(o) else Lookup(u.long, n))
            && Lookup(v.short, n) == (if n in o.shortOpts then Some(o) else Lookup(u.short, n))
  {
  }

  /** A name that no option of a group has is as it was. */
  lemma {:induction false} GroupKeeps(t: Table, options: seq<Option>, n: string)
    ensures var u := GroupNames(t, options);
            && ((forall o | o in options :: n !in o.longOpts) ==> Lookup(u.long, n) == Lookup(t.long, n))
            && ((forall o | o in options :: n !in o.shortOpts) ==> Lookup(u.short, n) == Lookup(t.short, n))
  {
    if options != [] {
      GroupSnoc(t, options, n);
      GroupKeeps(t, options[..|options| - 1], n);
      hide GroupNames, Lookup;
      assert options[|options| - 1] in options && forall o | o in options[..|options| - 1] :: o in options;
    }
  }

  /** A name that options of a group have reaches the last of them. */
  lemma {:induction false} GroupBinds(t: Table, options: seq<Option>, n: string, i: nat)
    requires i < |options|
    ensures var u := GroupNames(t, options);
            && (n in options[i].longOpts && (forall j | i < j < |options| :: n !in options[j].longOpts) ==>
                  Lookup(u.long, n) == Some(options[i]))
            && (n in options[i].shortOpts && (forall j | i < j < |options| :: n !in options[j].shortOpts) ==>
                  Lookup(u.short, n) == Some(options[i]))
  {
    hide GroupNames, Lookup;
    GroupSnoc(t, options, n);
    if i + 1 < |options| {
      GroupBinds(t, options[..|options| - 1], n, i);
    }
  }

  // ---------- help and version ----------

  /** `--help` and `-h`, and `--version`, take no value and end the process; all other names are as they were. */
  lemma StandardNames(t: Table, version: bool, help: bool)
    ensures var u := WithStandardOptions(t, version, help);
            && (help ==> "help" in u.long && "h" in u.short && u.long["help"] == u.short["h"] &&
                         u.long["help"].action == Help && u.long["help"].nargs == 0)
            && (version ==> "version" in u.long && u.long["version"].action == Version && u.long["version"].nargs == 0)
            && (forall n :: !(help && n == "help") && !(version && n == "version") ==> Lookup(u.long, n) == Lookup(t.long, n))
            && (forall n :: !(help && n == "h") ==> Lookup(u.short, n) == Lookup(t.short, n))
  {
    assert "help" != "version";
  }

  /** Behind any boundary that does not stop, `--help` and `-h` show the help and end the process, whatever follows. */
  lemma HelpStops(t: Table, scan: Extraction, interspersed: bool, version: bool, pre: seq<string>, rest: seq<string>,
                  st: ParseState, leftover: seq<string>)
    requires var u := WithStandardOptions(t, version, true);
             && Boundary(u, interspersed, pre) && Decode(u, interspersed, pre).failure.None?
             && forall e | e in Decode(u, interspersed, pre).events :: !Stops(scan, e)
    ensures var u := WithStandardOptions(t, version, true);
            && Meaning(u, scan, interspersed, pre + (["--help"] + rest), st, leftover) == Stopped(HelpShown)
            && Meaning(u, scan, interspersed, pre + (["-h"] + rest), st, leftover) == Stopped(HelpShown)
  {
    hide Decode, Meaning, Boundary, WithStandardOptions;
    var u := WithStandardOptions(t, version, true);
    StandardNames(t, version, true);
    var long, short := Setting("help", LongFlag, ""), Setting("h", ShortFlag, "");
    SettingStops(u, scan, interspersed, pre, long, rest, st, leftover);
    SettingStops(u, scan, interspersed, pre, short, rest, st, leftover);
    assert "--" + "help" == "--help" && "-" + "h" == "-h";
    assert Render(long) == ["--help"] && Render(short) == ["-h"];
  }

  /** The same for `--version`. */
  lemma VersionStops(t: Table, scan: Extraction, interspersed: bool, help: bool, pre: seq<string>, rest: seq<string>,
                     st: ParseState, leftover: seq<string>)
    requires var u := WithStandardOptions(t, true, help);
             && Boundary(u, interspersed, pre) && Decode(u, interspersed, pre).failure.None?
             && forall e | e in Decode(u, interspersed, pre).events :: !Stops(scan, e)
    ensures Meaning(WithStandardOptions(t, true, help), scan, interspersed, pre + (["--version"] + rest), st, leftover) ==
            Stopped(VersionShown)
  {
    hide Decode, Meaning, Boundary, WithStandardOptions;
    var u := WithStandardOptions(t, true, help);
    StandardNames(t, true, help);
    var long := Setting("version", LongFlag, "");
    SettingStops(u, scan, interspersed, pre, long, rest, st, leftover);
    assert "--" + "version" == "--version";
    assert Render(long) == ["--version"];
  }

  // ---------- repeated flags ----------

  function Repeated(letter: char, k: nat): string {
    if k == 0 then "" else [letter] + Repeated(letter, k - 1)
  }

  function Occurrences(e: Event, k: nat): seq<Event> {
    if k == 0 then [] else [e] + Occurrences(e, k - 1)
  }

  lemma {:induction false} RepeatedDecodes(t: Table, interspersed: bool, letter: char, k: nat, rest: seq<string>)
    requires letter != '-' && [letter] in t.short && t.short[[letter]].nargs == 0 && k > 0
    ensures var d := Decode(t, interspersed, rest);
            DecodeCluster(t, interspersed, Repeated(letter, k), rest) ==
            d.(events := Occurrences(Event(t.short[[letter]], "-" + [letter], ""), k) + d.events)
  {
    hide Decode;
    var e, d := Event(t.short[[letter]], "-" + [letter], ""), Decode(t, interspersed, rest);
    var letters := Repeated(letter, k);
    assert letters[..1] == [letter] && letters[1..] == Repeated(letter, k - 1);
    Assoc([e], Occurrences(e, k - 1), d.events);
    if k == 1 {
      assert Occurrences(e, 0) + d.events == d.events;
    } else {
      assert Repeated(letter, k - 1)[0] == letter;
      RepeatedDecodes(t, interspersed, letter, k - 1, rest);
    }
  }

  lemma {:induction false} OccurrencesCount(e: Event, k: nat)
    requires e.option.action == Count
    ensures Counts(Occurrences(e, k), e.option.dest) == k && forall x | x in Occurrences(e, k) :: x == e
  {
    if k > 0 {
      OccurrencesCount(e, k - 1);
      assert ([e] + Occurrences(e, k - 1))[1..] == Occurrences(e, k - 1);
    }
  }

  /** `-vvv`: the letter of an option declared with the action `count`, k times, leaves the decimal k behind. */
  lemma RepeatedFlagCounts(t: Table, scan: Extraction, interspersed: bool, letter: char, base: Option, k: nat,
                           st: ParseState, leftover: seq<string>)
    requires letter != '-' && Lookup(t.short, [letter]) == Some(base.WithAction(Count)) && 0 < k <= LONG_MAX
    requires base.dest !in st.values.table
    ensures var r := Meaning(t, scan, interspersed, ["-" + Repeated(letter, k)], st, leftover);
            r.Done? && r.leftover == leftover && Lookup(r.state.values.table, base.dest) == Some(Decimal(k))
  {
    hide Decode, Fold, StrInc, Decimal;
    var e := Event(t.short[[letter]], "-" + [letter], "");
    var letters, events := Repeated(letter, k), Occurrences(e, k);
    DecodesAsCluster(t, interspersed, letters, []);
    assert ["-" + letters] + [] == ["-" + letters];
    RepeatedDecodes(t, interspersed, letter, k, []);
    NothingLeft(t, interspersed);
    assert events + [] == events && leftover + [] == leftover;
    OccurrencesCount(e, k);
    FoldFinishesIff(scan, events, st);
    CountOptionsCount(scan, events, st, base.dest, 0);
  }

  lemma NothingLeft(t: Table, interspersed: bool)
    ensures Decode(t, interspersed, []) == Decoded([], [], None)
  {
  }

  // ---------- which default ----------

  /** No option in the list has a default for `d`. */
  predicate NoDefault(options: seq<Option>, d: string) {
    forall o | o in options :: o.dest == d ==> o.dflt == ""
  }

  /** Option number `i` is the first in the list that has a default for `d`. */
  predicate Provides(options: seq<Option>, d: string, i: nat) {
    && i < |options| && options[i].dest == d && options[i].dflt != ""
    && forall j | 0 <= j < i :: options[j].dest == d ==> options[j].dflt == ""
  }

  predicate Silent(g: Group, d: string) {
    d !in g.defaults && NoDefault(g.options, d)
  }

  lemma {:induction false} OptionsSilent(options: seq<Option>, rest: seq<Layer>, d: string)
    requires NoDefault(options, d)
    ensures FirstIn(OptionLayers(options) + rest, d) == FirstIn(rest, d)
  {
    if options == [] {
      assert OptionLayers(options) + rest == rest;
    } else {
      assert options[0] in options && forall o | o in options[1..] :: o in options;
      OptionsSilent(options[1..], rest, d);
      OptionHead(options, rest, d);
    }
  }

  lemma OptionHead(options: seq<Option>, rest: seq<Layer>, d: string)
    requires options != []
    ensures FirstIn(OptionLayers(options) + rest, d) ==
            if options[0].dest == d && options[0].dflt != "" then Some(options[0].dflt)
            else FirstIn(OptionLayers(options[1..]) + rest, d)
  {
    var o, more := options[0], OptionLayers(options[1..]) + rest;
    var first := if o.dflt != "" then [map[o.dest := o.dflt]] else [];
    assert OptionLayers(options) + rest == first + more by {
      Assoc(first, OptionLayers(options[1..]), rest);
    }
    hide OptionLayers, FirstIn;
    if o.dflt != "" {
      FirstLayer(map[o.dest := o.dflt], more, d);
    } else {
      assert first + more == more;
    }
  }

  lemma {:induction false} OptionProvides(options: seq<Option>, rest: seq<Layer>, d: string, i: nat)
    requires Provides(options, d, i)
    ensures FirstIn(OptionLayers(options) + rest, d) == Some(options[i].dflt)
    decreases i
  {
    OptionHead(options, rest, d);
    if i > 0 {
      OptionProvides(options[1..], rest, d, i - 1);
    }
  }

  lemma GroupHead(groups: seq<Group>, d: string)
    requires groups != []
    ensures FirstIn(GroupLayers(groups), d) ==
            if d in groups[0].defaults then Some(groups[0].defaults[d])
            else FirstIn(OptionLayers(groups[0].options) + GroupLayers(groups[1..]), d)
  {
    var g := groups[0];
    var more := OptionLayers(g.options) + GroupLayers(groups[1..]);
    assert GroupLayers(groups) == [g.defaults] + more;
    assert ([g.defaults] + more)[1..] == more;
  }

  lemma {:induction false} GroupsSilent(groups: seq<Group>, d: string)
    requires forall g | g in groups :: Silent(g, d)
    ensures FirstIn(GroupLayers(groups), d) == None
  {
    if groups != [] {
      assert groups[0] in groups && forall g | g in groups[1..] :: g in groups;
      GroupHead(groups, d);
      OptionsSilent(groups[0].options, GroupLayers(groups[1..]), d);
      GroupsSilent(groups[1..], d);
    }
  }

  lemma {:induction false} GroupProvides(groups: seq<Group>, d: string, g: nat, i: nat)
    requires g < |groups| && forall h | 0 <= h < g :: Silent(groups[h], d)
    requires d in groups[g].defaults || Provides(groups[g].options, d, i)
    ensures FirstIn(GroupLayers(groups), d) ==
            Some(if d in groups[g].defaults then groups[g].defaults[d] else groups[g].options[i].dflt)
    decreases g
  {
    GroupHead(groups, d);
    if g == 0 {
      if d !in groups[0].defaults {
        OptionProvides(groups[0].options, GroupLayers(groups[1..]), d, i);
      }
    } else {
      OptionsSilent(groups[0].options, GroupLayers(groups[1..]), d);
      GroupProvides(groups[1..], d, g - 1, i);
    }
  }

  /** The chain of defaults: the parser's own come first, then the first option with one, then group by group the same. */
  lemma ChainFirst(defaults: Layer, options: seq<Option>, groups: seq<Group>, d: string, g: nat, i: nat)
    ensures var first := FirstIn(Chain(defaults, options, groups), d);
            && (d in defaults ==> first == Some(defaults[d]))
            && (d !in defaults && Provides(options, d, i) ==> first == Some(options[i].dflt))
            && (d !in defaults && NoDefault(options, d) ==>
                  && ((forall x | x in groups :: Silent(x, d)) ==> first == None)
                  && (g < |groups| && (forall h | 0 <= h < g :: Silent(groups[h], d)) ==>
                        && (d in groups[g].defaults ==> first == Some(groups[g].defaults[d]))
                        && (d !in groups[g].defaults && Provides(groups[g].options, d, i) ==>
                              first == Some(groups[g].options[i].dflt))))
  {
    hide FirstIn, OptionLayers, GroupLayers, Provides, NoDefault, Silent;
    var layers, rest := OptionLayers(options), GroupLayers(groups);
    Assoc([defaults], layers, rest);
    FirstLayer(defaults, layers + rest, d);
    if d !in defaults && Provides(options, d, i) {
      OptionProvides(options, rest, d, i);
    }
    if NoDefault(options, d) {
      OptionsSilent(options, rest, d);
      if forall x | x in groups :: Silent(x, d) {
        GroupsSilent(groups, d);
      }
      if g < |groups| && (forall h | 0 <= h < g :: Silent(groups[h], d)) &&
         (d in groups[g].defaults || Provides(groups[g].options, d, i)) {
        GroupProvides(groups, d, g, i);
      }
    }
  }

  lemma FirstLayer(layer: Layer, chain: seq<Layer>, d: string)
    ensures FirstIn([layer] + chain, d) == if d in layer then Some(layer[d]) else FirstIn(chain, d)
  {
    assert ([layer] + chain)[1..] == chain;
  }

  /**
   Default layering: after `parse_args` on a fresh parser a destination the user set has the user's value; any
   other has the first value among the parser's defaults, its options' and those of its groups, or none.
   */
  lemma ParsedDefaults(parser: OptionParser, v: seq<string>, d: string)
    requires parser.values.State() == ValuesState(map[], map[], {})
    ensures var meant, result := parser.ToComeFor(v), parser.Expected(v);
            && (meant.Stopped? ==> result == Exited(meant.stop))
            && (meant.Done? ==>
                  var user := meant.state.values;
                  && result.Finished? && result.args == meant.leftover
                  && result.values.userSet == user.userSet && result.values.appended == user.appended
                  && Lookup(result.values.table, d) ==
                     if d in user.userSet then Lookup(user.table, d)
                     else FirstIn(Chain(parser.defaults, parser.opts, parser.groups), d))
  {
    hide Decode, Fold, Overlay, Chain, FirstIn, WithStandardOptions;
    var t := WithStandardOptions(parser.Names(), parser.addVersionOption && parser.version != "", parser.addHelpOption);
    var events := Decode(t, parser.interspersedArgs, v).events;
    DefaultsNeverOverride(parser.scan, events, parser.Sinks(), Chain(parser.defaults, parser.opts, parser.groups), d);
  }

  /** The same in terms of the parser's own defaults, options and groups; `g` and `i` are any group and option. */
  lemma ParsedFirstMatch(parser: OptionParser, v: seq<string>, d: string, g: nat, i: nat)
    requires parser.values.State() == ValuesState(map[], map[], {})
    ensures var result := parser.Expected(v);
            result.Finished? && d !in result.values.userSet ==>
              var got, groups := Lookup(result.values.table, d), parser.groups;
              && (d in parser.defaults ==> got == Some(parser.defaults[d]))
              && (d !in parser.defaults && Provides(parser.opts, d, i) ==> got == Some(parser.opts[i].dflt))
              && (d !in parser.defaults && NoDefault(parser.opts, d) ==>
                    && ((forall x | x in groups :: Silent(x, d)) ==> got == None)
                    && (g < |groups| && (forall h | 0 <= h < g :: Silent(groups[h], d)) ==>
                          && (d in groups[g].defaults ==> got == Some(groups[g].defaults[d]))
                          && (d !in groups[g].defaults && Provides(groups[g].options, d, i) ==>
                                got == Some(groups[g].options[i].dflt))))
  {
    hide Meaning, Chain, Overlay, FirstIn, WithStandardOptions, Provides, NoDefault, Silent;
    ParsedDefaults(parser, v, d);
    ChainFirst(parser.defaults, parser.opts, parser.groups, d, g, i);
  }
}
