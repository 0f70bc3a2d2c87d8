/**
 What a command line means, without a work list: it decodes to a list of option events and a list of
 positionals (or ends in an error), and the events are then processed in order.
 */
module ArgvDecoding {
  import opened CppStrings
  import opened Options

  /** The options a name refers to (`_optmap_s` and `_optmap_l`). */
  datatype Table = Table(short: map<string, Option>, long: map<string, Option>)

  datatype Event = Event(option: Option, opt: string, value: string)

  datatype Decoded = Decoded(events: seq<Event>, positionals: seq<string>, failure: Maybe<Stop>)

  function Failed(stop: Stop): Decoded {
    Decoded([], [], Some(stop))
  }

  function After(e: Event, d: Decoded): Decoded {
    d.(events := [e] + d.events)
  }

  // The one long option for which an empty value is accepted.
  const EMPTY_VALUE_OPTION := "msg-content-list-item"

  function Decode(t: Table, interspersed: bool, args: seq<string>): Decoded
    decreases |args|, 0
  {
    if args == [] then Decoded([], [], None)
    else
      var arg, rest := args[0], args[1..];
      if arg == "--" then Decoded([], rest, None)
      else if "--" <= arg then DecodeLong(t, interspersed, arg[2..], rest)
      else if "-" <= arg && |arg| > 1 then DecodeCluster(t, interspersed, arg[1..], rest)
      else if interspersed then
        var d := Decode(t, interspersed, rest);
        d.(positionals := [arg] + d.positionals)
      else Decoded([], args, None)
  }

  /** The option name of `--body`: everything before the first `=`. */
  function LongName(body: string): string {
    match IndexOf(body, "=", 0)
    case Some(i) => body[..i]
    case None => body
  }

  /** The value of `--body`, from behind its `=` or from the next token, and the tokens that are left. */
  function LongValue(o: Option, body: string, rest: seq<string>): (r: (string, seq<string>))
    ensures |r.1| <= |rest|
  {
    match IndexOf(body, "=", 0)
    case Some(i) => (body[i + 1..], rest)
    case None => if o.nargs == 1 && rest != [] then (rest[0], rest[1..]) else ("", rest)
  }

  /** `--body`, followed by `rest`. */
  function DecodeLong(t: Table, interspersed: bool, body: string, rest: seq<string>): Decoded
    decreases |rest|, 1
  {
    var name := LongName(body);
    if name !in t.long then Failed(NoSuchOption("--" + name))
    else
      var o := t.long[name];
      var (value, left) := LongValue(o, body, rest);
      if o.nargs == 1 && value == "" && name != EMPTY_VALUE_OPTION then Failed(MissingArgument("--" + name))
      else After(Event(o, "--" + name, value), Decode(t, interspersed, left))
  }

  /** The short options `letters` of one token, the last of which may take a value from `rest`. */
  function DecodeCluster(t: Table, interspersed: bool, letters: string, rest: seq<string>): Decoded
    requires letters != []
    decreases |rest|, 2 * |letters| + 1
  {
    var name, tail := letters[..1], letters[1..];
    if name !in t.short then Failed(NoSuchOption("-" + name))
    else
      var o := t.short[name];
      if o.nargs == 1 then
        if tail != "" then After(Event(o, "-" + name, tail), Decode(t, interspersed, rest))
        else if rest == [] then Failed(MissingArgument("-" + name))
        else After(Event(o, "-" + name, rest[0]), Decode(t, interspersed, rest[1..]))
      else After(Event(o, "-" + name, ""), DecodeTail(t, interspersed, tail, rest))
  }

  /** What is left of a cluster after an option without a value: a tail that begins with `-` is a long option. */
  function DecodeTail(t: Table, interspersed: bool, tail: string, rest: seq<string>): Decoded
    decreases |rest|, 2 * |tail| + 2
  {
    if tail == "" then Decode(t, interspersed, rest)
    else if tail == "-" then Decoded([], rest, None)
    else if "-" <= tail then DecodeLong(t, interspersed, tail[1..], rest)
    else DecodeCluster(t, interspersed, tail, rest)
  }

  lemma DecodesAsLong(t: Table, interspersed: bool, body: string, rest: seq<string>)
    requires body != ""
    ensures Decode(t, interspersed, ["--" + body] + rest) == DecodeLong(t, interspersed, body, rest)
  {
    var arg := "--" + body;
    assert arg[2..] == body && ([arg] + rest)[1..] == rest;
  }

  lemma DecodesAsCluster(t: Table, interspersed: bool, letters: string, rest: seq<string>)
    requires letters != "" && letters[0] != '-'
    ensures Decode(t, interspersed, ["-" + letters] + rest) == DecodeCluster(t, interspersed, letters, rest)
  {
    var arg := "-" + letters;
    assert arg[1] == letters[0] && arg[1..] == letters && ([arg] + rest)[1..] == rest;
  }

  /** The tail of a cluster means what the token `-tail` would mean in front of `rest`. */
  lemma TailIsToken(t: Table, interspersed: bool, tail: string, rest: seq<string>)
    requires tail != ""
    ensures DecodeTail(t, interspersed, tail, rest) == Decode(t, interspersed, ["-" + tail] + rest)
  {
    var token := "-" + tail;
    assert ([token] + rest)[1..] == rest;
    assert token[1..] == tail && token[2..] == tail[1..];
    assert token[1] == tail[0] && token[0] == '-';
    assert "--" <= token <==> "-" <= tail;
    assert token == "--" <==> tail == "-";
  }

  // ---------- processing the events ----------

  function Fold(scan: Extraction, events: seq<Event>, st: ParseState): Processed
    decreases |events|
  {
    if events == [] then Next(st)
    else
      match Process(scan, events[0].option, events[0].opt, events[0].value, st)
      case Halt(stop) => Halt(stop)
      case Next(st') => Fold(scan, events[1..], st')
  }

  datatype Outcome = Done(state: ParseState, leftover: seq<string>) | Stopped(stop: Stop)

  /** Process the decoded events from `st`; the first thing that stops the process decides. */
  function Conclude(scan: Extraction, d: Decoded, st: ParseState, leftover: seq<string>): Outcome {
    match Fold(scan, d.events, st)
    case Halt(stop) => Stopped(stop)
    case Next(st') => if d.failure.Some? then Stopped(d.failure.value) else Done(st', leftover + d.positionals)
  }

  /** The meaning of `args` for a parser in state `st` that has already set aside `leftover`. */
  function Meaning(t: Table, scan: Extraction, interspersed: bool, args: seq<string>,
                   st: ParseState, leftover: seq<string>): Outcome {
    Conclude(scan, Decode(t, interspersed, args), st, leftover)
  }

  lemma ConcludeAfter(scan: Extraction, e: Event, d: Decoded, st: ParseState, leftover: seq<string>)
    ensures Conclude(scan, After(e, d), st, leftover) ==
            match Process(scan, e.option, e.opt, e.value, st)
            case Halt(stop) => Stopped(stop)
            case Next(st') => Conclude(scan, d, st', leftover)
  {
    assert ([e] + d.events)[1..] == d.events;
  }

  lemma ConcludePositional(scan: Extraction, arg: string, d: Decoded, st: ParseState, leftover: seq<string>)
    ensures Conclude(scan, d.(positionals := [arg] + d.positionals), st, leftover) ==
            Conclude(scan, d, st, leftover + [arg])
  {
    Assoc(leftover, [arg], d.positionals);
  }

  /** What a long option in front of `rest` means. */
  lemma MeaningOfLong(t: Table, scan: Extraction, interspersed: bool, body: string, rest: seq<string>,
                      st: ParseState, leftover: seq<string>)
    requires body != ""
    ensures var name := LongName(body);
            Meaning(t, scan, interspersed, ["--" + body] + rest, st, leftover) ==
            if name !in t.long then Stopped(NoSuchOption("--" + name))
            else
              var o := t.long[name];
              var (value, left) := LongValue(o, body, rest);
              if o.nargs == 1 && value == "" && name != EMPTY_VALUE_OPTION then Stopped(MissingArgument("--" + name))
              else Conclude(scan, After(Event(o, "--" + name, value), Decode(t, interspersed, left)), st, leftover)
  {
    DecodesAsLong(t, interspersed, body, rest);
  }

  /** What a cluster of short options in front of `rest` means: its first option, then the rest of it. */
  lemma MeaningOfShort(t: Table, scan: Extraction, interspersed: bool, letters: string, rest: seq<string>,
                       st: ParseState, leftover: seq<string>)
    requires letters != "" && letters[0] != '-'
    ensures var name, tail := letters[..1], letters[1..];
            Meaning(t, scan, interspersed, ["-" + letters] + rest, st, leftover) ==
            if name !in t.short then Stopped(NoSuchOption("-" + name))
            else
              var o := t.short[name];
              if o.nargs == 1 && tail == "" && rest == [] then Stopped(MissingArgument("-" + name))
              else
                var value := if o.nargs != 1 then "" else if tail != "" then tail else rest[0];
                var left := if o.nargs != 1 then (if tail != "" then ["-" + tail] + rest else rest)
                            else if tail != "" then rest else rest[1..];
                Conclude(scan, After(Event(o, "-" + name, value), Decode(t, interspersed, left)), st, leftover)
  {
    DecodesAsCluster(t, interspersed, letters, rest);
    if letters[1..] != "" {
      TailIsToken(t, interspersed, letters[1..], rest);
    }
  }

  /** What `--`, or no argument at all, means: all that follows is positional. */
  lemma MeaningOfEnd(t: Table, scan: Extraction, interspersed: bool, rest: seq<string>, st: ParseState, leftover: seq<string>)
    ensures Meaning(t, scan, interspersed, ["--"] + rest, st, leftover) == Done(st, leftover + rest)
    ensures Meaning(t, scan, interspersed, [], st, leftover) == Done(st, leftover + [])
  {
    assert (["--"] + rest)[1..] == rest;
  }

  /** What a positional argument in front of `rest` means. */
  lemma PositionalMeaning(t: Table, scan: Extraction, interspersed: bool, arg: string, rest: seq<string>,
                          st: ParseState, leftover: seq<string>)
    requires !("-" <= arg) || |arg| == 1
    ensures Meaning(t, scan, interspersed, [arg] + rest, st, leftover) ==
            if interspersed then Meaning(t, scan, interspersed, rest, st, leftover + [arg])
            else Done(st, leftover + [arg] + rest)
  {
    assert ([arg] + rest)[1..] == rest;
    ConcludePositional(scan, arg, Decode(t, interspersed, rest), st, leftover);
    Assoc(leftover, [arg], rest);
  }
}
