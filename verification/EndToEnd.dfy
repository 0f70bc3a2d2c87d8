/**
 From the command line to the message: `--msg-content-map-item NAME=VALUE` and `--msg-content-list-item ENTRY`
 options, the callbacks that collect them, and the map or list that the sender puts into the body.
 */
module EndToEnd {
  import opened CppStrings
  import opened AppendCallback
  import opened Options
  import opened ArgvDecoding
  import opened ArgvTheorems
  import opened OptionParsing
  import opened Defaults
  import opened MessageContent

  // The options' names, as SenderOptionsParser registers them.
  const MAP_ITEM := "msg-content-map-item"
  const LIST_ITEM := "msg-content-list-item"

  /** The command line that passes each item in an option of its own. */
  function ItemArguments(name: string, items: seq<string>): seq<string> {
    if items == [] then [] else ["--" + name, items[0]] + ItemArguments(name, items[1..])
  }

  function ItemSettings(name: string, items: seq<string>): seq<Setting> {
    if items == [] then [] else [Setting(name, LongNext, items[0])] + ItemSettings(name, items[1..])
  }

  /** The table has an option of this name with callback `handle`, taking one value. */
  predicate HasItemOption(t: Table, name: string, handle: nat) {
    && name != "" && '=' !in name && name in t.long
    && var o := t.long[name];
       o.action == Callback && o.nargs == 1 && o.callback == Some(handle)
  }

  /** Only one option takes an empty item. */
  predicate Passable(name: string, items: seq<string>) {
    name == EMPTY_VALUE_OPTION || forall x | x in items :: x != ""
  }

  lemma {:induction false} ItemArgumentsAreRendered(t: Table, name: string, handle: nat, items: seq<string>)
    requires HasItemOption(t, name, handle) && Passable(name, items)
    ensures ItemArguments(name, items) == RenderAll(ItemSettings(name, items))
    ensures forall s | s in ItemSettings(name, items) :: Renderable(t, s)
    decreases |items|
  {
    if items != [] {
      var s := Setting(name, LongNext, items[0]);
      assert items[0] in items && forall x | x in items[1..] :: x in items;
      assert Renderable(t, s);
      ItemArgumentsAreRendered(t, name, handle, items[1..]);
      assert ItemSettings(name, items)[0] == s && ItemSettings(name, items)[1..] == ItemSettings(name, items[1..]);
    }
  }

  /** Processing the events appends every item to the callback's string and touches nothing else. */
  lemma {:induction false} ItemEventsAppend(t: Table, scan: Extraction, name: string, handle: nat, items: seq<string>,
                                            st: ParseState)
    requires HasItemOption(t, name, handle) && handle < |st.sinks|
    requires forall s | s in ItemSettings(name, items) :: Renderable(t, s)
    ensures var r := Fold(scan, EventsOf(t, ItemSettings(name, items)), st);
            r == Next(st.(sinks := st.sinks[handle := AppendedAll(st.sinks[handle], items)]))
    decreases |items|
  {
    hide Appended, Renderable, Process, Fold;
    if items == [] {
      FoldNone(scan, st);
      assert st.sinks[handle := st.sinks[handle]] == st.sinks;
    } else {
      var settings, item := ItemSettings(name, items), items[0];
      assert settings[0] in settings && settings[1..] == ItemSettings(name, items[1..]);
      var events := EventsOf(t, settings);
      assert events[0] == Event(t.long[name], "--" + name, item) && events[1..] == EventsOf(t, settings[1..]);
      var next := st.(sinks := st.sinks[handle := Appended(st.sinks[handle], item)]);
      FoldFirst(scan, events, st);
      CallAppends(scan, events[0], st, handle);
      ItemEventsAppend(t, scan, name, handle, items[1..], next);
      var all := AppendedAll(st.sinks[handle], items);
      assert next.sinks[handle := all] == st.sinks[handle := all];
    }
  }

  lemma CallAppends(scan: Extraction, e: Event, st: ParseState, handle: nat)
    requires Calls(e, handle) && handle < |st.sinks|
    ensures Process(scan, e.option, e.opt, e.value, st) ==
            Next(st.(sinks := st.sinks[handle := Appended(st.sinks[handle], e.value)]))
  {
  }

  /** What such a command line means: no positionals, and all items collected in order. */
  lemma ItemArgumentsMean(t: Table, scan: Extraction, interspersed: bool, name: string, handle: nat, items: seq<string>,
                          st: ParseState, leftover: seq<string>)
    requires HasItemOption(t, name, handle) && Passable(name, items) && handle < |st.sinks|
    ensures Meaning(t, scan, interspersed, ItemArguments(name, items), st, leftover) ==
            Done(st.(sinks := st.sinks[handle := AppendedAll(st.sinks[handle], items)]), leftover)
  {
    var settings := ItemSettings(name, items);
    ItemArgumentsAreRendered(t, name, handle, items);
    RenderedDecodes(t, interspersed, settings, []);
    assert RenderAll(settings) + [] == RenderAll(settings);
    assert EventsOf(t, settings) + [] == EventsOf(t, settings);
    ItemEventsAppend(t, scan, name, handle, items, st);
    assert leftover + [] == leftover;
  }

  /** The help and version options do not get in the way. */
  lemma StandardOptionsKeepItemOption(t: Table, version: bool, help: bool, name: string, handle: nat)
    requires HasItemOption(t, name, handle) && name != "version" && name != "help"
    ensures HasItemOption(WithStandardOptions(t, version, help), name, handle)
  {
  }

  /** `add_option("--name").action("callback").callback(...)`. */
  method AddItemOption(parser: OptionParser, name: string, handle: nat)
    requires parser.Valid() && handle < |parser.callbacks| && name != "" && '=' !in name
    modifies parser`opts, parser`optmapS, parser`optmapL
    ensures parser.Valid() && HasItemOption(parser.Names(), name, handle)
  {
    hide NamedOption, ShortNames;
    ItemOptionNames(name);
    parser.AddOption(["--" + name], (o: Option) => o.WithAction(Callback).(callback := Some(handle)));
  }

  lemma ItemOptionNames(n: string)
    requires n != ""
    ensures UsableNames(["--" + n]) && LongNames(["--" + n]) == {n}
    ensures NamedOption(["--" + n]).nargs == 1
  {
    var name := "--" + n;
    assert name[2..] == n && name[..2] == "--";
    assert forall x :: x in [name] <==> x == name;
  }

  // ---------- any command line ----------

  predicate Calls(e: Event, handle: nat) {
    e.option.action == Callback && e.option.callback == Some(handle)
  }

  /** The values that a command line's events hand to a callback, in order. */
  function CollectedValues(events: seq<Event>, handle: nat): seq<string> {
    if events == [] then []
    else (if Calls(events[0], handle) then [events[0].value] else []) + CollectedValues(events[1..], handle)
  }

  /** Whatever else the events do, a callback's string ends up with the values handed to it appended. */
  lemma {:induction false} FoldCollects(scan: Extraction, events: seq<Event>, st: ParseState, handle: nat)
    requires handle < |st.sinks|
    ensures var r := Fold(scan, events, st);
            r.Next? ==>
              && |r.state.sinks| == |st.sinks|
              && r.state.sinks[handle] == AppendedAll(st.sinks[handle], CollectedValues(events, handle))
    decreases |events|
  {
    hide Process, Appended, Fold;
    if events == [] {
      FoldNone(scan, st);
    } else {
      var e, rest := events[0], CollectedValues(events[1..], handle);
      FoldFirst(scan, events, st);
      ProcessCollects(scan, e, st, handle);
      var r := Process(scan, e.option, e.opt, e.value, st);
      if r.Next? {
        FoldCollects(scan, events[1..], r.state, handle);
        if Calls(e, handle) {
          assert ([e.value] + rest)[1..] == rest;
        } else {
          assert [] + rest == rest;
        }
      }
    }
  }

  lemma ProcessCollects(scan: Extraction, e: Event, st: ParseState, handle: nat)
    requires handle < |st.sinks|
    ensures var r := Process(scan, e.option, e.opt, e.value, st);
            r.Next? ==>
              && |r.state.sinks| == |st.sinks|
              && r.state.sinks[handle] ==
                 if Calls(e, handle) then Appended(st.sinks[handle], e.value) else st.sinks[handle]
  {
    hide Appended, StrInc;
  }

  /** The values that settings give to the options of a callback, in order. */
  function ValuesFor(t: Table, settings: seq<Setting>, handle: nat): seq<string>
    requires forall s | s in settings :: Renderable(t, s)
  {
    CollectedValues(EventsOf(t, settings), handle)
  }

  /** Settings in any spelling, `--` and positionals hand over exactly the values of the settings. */
  lemma RenderedCollected(t: Table, interspersed: bool, settings: seq<Setting>, positionals: seq<string>, handle: nat)
    requires forall s | s in settings :: Renderable(t, s)
    ensures CollectedValues(Decode(t, interspersed, RenderAll(settings) + ["--"] + positionals).events, handle) ==
            ValuesFor(t, settings, handle)
  {
    Assoc(RenderAll(settings), ["--"], positionals);
    RenderedDecodes(t, interspersed, settings, ["--"] + positionals);
    assert (["--"] + positionals)[1..] == positionals;
    assert EventsOf(t, settings) + [] == EventsOf(t, settings);
  }

  /** What the callbacks of a parser hold when `parse_args(v)` returns. */
  lemma ParseCollects(parser: OptionParser, v: seq<string>, handle: nat)
    requires handle < |parser.callbacks| && parser.callbacks[handle].str == ""
    ensures var t := WithStandardOptions(parser.Names(), parser.addVersionOption && parser.version != "", parser.addHelpOption);
            parser.Expected(v).Finished? ==>
              && handle < |parser.SinksAfter(v)|
              && parser.SinksAfter(v)[handle] ==
                 AppendedAll("", CollectedValues(Decode(t, parser.interspersedArgs, v).events, handle))
  {
    hide Decode, Fold, AppendedAll, CollectedValues, WithStandardOptions, Overlay, Chain;
    var t := WithStandardOptions(parser.Names(), parser.addVersionOption && parser.version != "", parser.addHelpOption);
    FoldCollects(parser.scan, Decode(t, parser.interspersedArgs, v).events, parser.State(), handle);
  }

  /**
   The sender's path from argv to the body, for any command line: if the parse returns, collected list items are the
   body, as the strings they are exactly when all are plain, whatever map items there are beside them. Without list items
   encodable map items, in any spelling and among any other arguments, give the map in which the last value of a
   name wins. Without either the body is the plain content.
   */
  method BodyFromArguments(parser: OptionParser, listHandle: nat, mapHandle: nat, arguments: seq<string>,
                           ghost items: seq<string>, ghost mapItems: seq<string>, ghost pairs: seq<Pair>)
    returns (result: Parsed, body: Body)
    requires parser.Valid() && listHandle < |parser.callbacks| && mapHandle < |parser.callbacks|
    requires parser.callbacks[listHandle].str == "" && parser.callbacks[mapHandle].str == ""
    requires var t := WithStandardOptions(parser.Names(), parser.addVersionOption && parser.version != "", parser.addHelpOption);
             var events := Decode(t, parser.interspersedArgs, arguments).events;
             CollectedValues(events, listHandle) == items && CollectedValues(events, mapHandle) == mapItems
    requires |AppendedAll("", items)| <= MAX_SIZE && |AppendedAll("", mapItems)| <= MAX_SIZE
    modifies parser, parser.values, parser.callbacks
    ensures result == old(parser.Expected(arguments))
    ensures result.Finished? && items != [] ==> (body == ListBody(Texts(items)) <==> forall x | x in items :: PlainItem(x))
    ensures (result.Finished? && items == [] && pairs != [] && mapItems == ItemsOf(pairs) &&
             forall p | p in pairs :: Encodable(p)) ==>
              body == MapBody(LastWins(map[], pairs))
    ensures result.Finished? && items == [] && mapItems == [] ==> body == TextBody(Get(result.values.table, "msg-content"))
  {
    hide Decode, Fold, AppendedAll, CollectedValues, Items, MapItems, ListItems, LastWins, WithStandardOptions, Meaning,
         PlainItem, Encodable, Texts, ItemsOf;
    ParseCollects(parser, arguments, listHandle);
    ParseCollects(parser, arguments, mapHandle);
    result := parser.ParseArgs(arguments);
    if result.Exited? {
      return result, TextBody("");
    }
    var content := Get(result.values.table, "msg-content");
    BodyArrives(items, mapItems, pairs, content);
    body := SetMessageContent(parser.callbacks[listHandle], parser.callbacks[mapHandle], content);
  }

  lemma PairItems(pairs: seq<Pair>)
    ensures |ItemsOf(pairs)| == |pairs| && forall x | x in ItemsOf(pairs) :: x != ""
  {
    if pairs != [] {
      assert ItemOf(pairs[0])[|pairs[0].0|] == '=';
      PairItems(pairs[1..]);
    }
  }

  /** For a command line of nothing but detached map items, which always parses. */
  method MapFromArguments(parser: OptionParser, listHandle: nat, mapHandle: nat, arguments: seq<string>,
                          ghost pairs: seq<Pair>)
    returns (body: Body)
    requires parser.Valid() && listHandle < |parser.callbacks| && mapHandle < |parser.callbacks| && listHandle != mapHandle
    requires parser.callbacks[listHandle].str == "" && parser.callbacks[mapHandle].str == ""
    requires HasItemOption(parser.Names(), MAP_ITEM, mapHandle)
    requires forall p | p in pairs :: Encodable(p)
    requires arguments == ItemArguments(MAP_ITEM, ItemsOf(pairs)) && |AppendedAll("", ItemsOf(pairs))| <= MAX_SIZE
    modifies parser, parser.values, parser.callbacks
    ensures pairs != [] ==> body == MapBody(LastWins(map[], pairs))
    ensures pairs == [] ==> body.TextBody?
  {
    hide Meaning, AppendedAll, Items, MapItems, LastWins, WithStandardOptions, Decode, CollectedValues, ItemArguments;
    ghost var items := ItemsOf(pairs);
    PairItems(pairs);
    CollectedIsEmpty("", []);
    ItemArgumentsParse(parser, MAP_ITEM, mapHandle, listHandle, items);
    var result;
    result, body := BodyFromArguments(parser, listHandle, mapHandle, arguments, [], items, pairs);
  }

  /** The same for detached list items, empty ones included. */
  method ListFromArguments(parser: OptionParser, listHandle: nat, mapHandle: nat, arguments: seq<string>,
                           ghost items: seq<string>)
    returns (body: Body)
    requires parser.Valid() && listHandle < |parser.callbacks| && mapHandle < |parser.callbacks| && listHandle != mapHandle
    requires parser.callbacks[listHandle].str == "" && parser.callbacks[mapHandle].str == ""
    requires HasItemOption(parser.Names(), LIST_ITEM, listHandle)
    requires arguments == ItemArguments(LIST_ITEM, items) && |AppendedAll("", items)| <= MAX_SIZE
    modifies parser, parser.values, parser.callbacks
    ensures items != [] ==> (body == ListBody(Texts(items)) <==> forall x | x in items :: PlainItem(x))
    ensures items == [] ==> body.TextBody?
  {
    hide Meaning, AppendedAll, Items, MapItems, LastWins, WithStandardOptions, Decode, CollectedValues, ItemArguments;
    CollectedIsEmpty("", []);
    ItemArgumentsParse(parser, LIST_ITEM, listHandle, mapHandle, items);
    var result;
    result, body := BodyFromArguments(parser, listHandle, mapHandle, arguments, items, [], []);
  }

  /** A parse of nothing but detached items returns, and hands them to the callback of their option only. */
  lemma ItemArgumentsParse(parser: OptionParser, name: string, handle: nat, other: nat, items: seq<string>)
    requires HasItemOption(parser.Names(), name, handle) && Passable(name, items) && name != "version" && name != "help"
    requires handle < |parser.callbacks| && other != handle
    ensures var t := WithStandardOptions(parser.Names(), parser.addVersionOption && parser.version != "", parser.addHelpOption);
            var events := Decode(t, parser.interspersedArgs, ItemArguments(name, items)).events;
            && parser.Expected(ItemArguments(name, items)).Finished?
            && CollectedValues(events, handle) == items && CollectedValues(events, other) == []
  {
    hide Meaning, AppendedAll, WithStandardOptions, Decode, CollectedValues, ItemArguments;
    var version, help := parser.addVersionOption && parser.version != "", parser.addHelpOption;
    var t := WithStandardOptions(parser.Names(), version, help);
    StandardOptionsKeepItemOption(parser.Names(), version, help, name, handle);
    ItemArgumentsMean(t, parser.scan, parser.interspersedArgs, name, handle, items, parser.State(), parser.leftover);
    ItemArgumentsCollected(t, parser.interspersedArgs, name, other, handle, items);
  }

  /** Detached items are handed over in order, and only to the callback of their option. */
  lemma ItemArgumentsCollected(t: Table, interspersed: bool, name: string, other: nat, handle: nat, items: seq<string>)
    requires HasItemOption(t, name, handle) && Passable(name, items) && other != handle
    ensures var events := Decode(t, interspersed, ItemArguments(name, items)).events;
            CollectedValues(events, handle) == items && CollectedValues(events, other) == []
  {
    hide Decode;
    var settings := ItemSettings(name, items);
    ItemArgumentsAreRendered(t, name, handle, items);
    RenderedDecodes(t, interspersed, settings, []);
    NothingToDecode(t, interspersed);
    assert RenderAll(settings) + [] == RenderAll(settings);
    assert EventsOf(t, settings) + [] == EventsOf(t, settings);
    ItemSettingsCollected(t, name, other, handle, items);
  }

  lemma NothingToDecode(t: Table, interspersed: bool)
    ensures Decode(t, interspersed, []) == Decoded([], [], None)
  {
  }

  lemma {:induction false} ItemSettingsCollected(t: Table, name: string, other: nat, handle: nat, items: seq<string>)
    requires HasItemOption(t, name, handle) && other != handle
    requires forall s | s in ItemSettings(name, items) :: Renderable(t, s)
    ensures ValuesFor(t, ItemSettings(name, items), handle) == items && ValuesFor(t, ItemSettings(name, items), other) == []
    decreases |items|
  {
    if items != [] {
      var settings := ItemSettings(name, items);
      assert settings[0] in settings && settings[1..] == ItemSettings(name, items[1..]);
      ItemSettingsCollected(t, name, other, handle, items[1..]);
      var events := EventsOf(t, settings);
      assert events[1..] == EventsOf(t, settings[1..]) && events[0] == Event(t.long[name], "--" + name, items[0]);
      assert items == [items[0]] + items[1..];
    }
  }
}
