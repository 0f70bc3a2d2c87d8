# Verified model of cli-cpp

cli-cpp is a family of command-line messaging clients built on Qpid Proton. This project models the parts
of it that decide what the clients do, and proves what they do on every input and in every run:

- **The option parser.** `OptionParsing` is the work-list machine of `parse_args` as a class that pops and
  pushes `remaining`, writes its values and calls its callbacks. `ArgvDecoding` says what a command line
  *means* without any work list: decode it to option events and positionals, then process the events in
  order. The machine is proved to compute that meaning for every argument vector and option table, and
  `ArgvTheorems` proves spelling invariance, the argv round trip, counting and default layering about it.
  `Options` and `Defaults` hold the option values and the chain of defaults; `ParserTheorems` is about what is registered:
  names, groups, `--help` and `--version`, repeated flags, and which default wins.
- **The reactor handlers.** `Sending` and `Receiving` are the sender and the receiver as state machines in an
  environment that picks the order of events, the credit, and how late scheduled work runs. Every theorem
  there is about all sequences of events. `SenderHandling` and `ReceiverHandling` are the handlers as objects
  whose callbacks update fields; each callback is proved to be a step of the machine. `Timers` is the countdown.
- **The text codecs.** `AppendCallback` (`;`-separated lists), `StlUtils` (`split` and its maps),
  `MessageContent` (`name=value` and `name~value` items), `Uris`/`UriTheorems`/`UriExactness`/`UriSlashless` (the URI
  parser with its `npos` arithmetic, and exactly which URIs it returns), `DictFormatting`/`DictTheorems`/`DictTexts`
  (the Python-dict printer, a reader for it, and exactly which values its text determines), `TextUtils`
  (`str_replace`, `str_format`).
- **The whole path.** `EndToEnd` composes them from `--msg-content-map-item name=value` and `--msg-content-list-item entry`
  options, among any other arguments, to the body of the message. `ReceiverOptions` is the way of the action size to the receiver.

`CppStrings` gives the meaning of the C++ library calls: `find`, `substr`, stream output and extraction of
integers, and `size_t` arithmetic that wraps at 2^64.

Each loop or callback of the program is a method that is proved against a specification function, and the
theorems are about those functions. Where a plain promise is false of the code, the exact condition under
which it holds is proved instead:

- `str_format` keeps its text exactly when the first word of every paragraph fits the line. Otherwise
  `pos - linestart - 1` wraps and the rest of the text is printed early, and then again.
- `UriParser::parse` throws `std::out_of_range` exactly when there is a `]`, no `/` behind the scheme, and the
  first `:` after the `]` lies before the host, as in `a]:b@c`.
- A URI with a `/` behind its authority is returned component by component exactly when a non-empty user has a
  password and the tail holds none of the delimiters that the parser searches for in the whole text: `://` without a
  scheme, `?` in the fragment without a query, `@` without user information (unless the host happens to be
  repeated behind it), `]` with a port and no IP literal, `:` without a port (unless it precedes a `]` of the tail
  and the host is no IP literal). `s://h/q:1` is read with the host `h/q`, and the user of
  `amqp://guest@localhost:5672/q` is lost.
- A URL without a `/` never comes back with its port: `localhost:5672` has the port field `:5672`, the text from as many
  characters on as the host has.
- A command line finishes exactly when it decodes without an error and no option on it shows help or the version or has a
  value that fails its type.
- The collected items of a `StringAppendCallback` come back exactly when none has a `;` or is the text `''`.
- List items arrive as the strings they are exactly when none of them is one of these or has a `=` or `~`; a
  map item exactly when neither part has a `;` and its name has no `=`.
- A handler's timer ends in an uncaught exception in some run exactly when the timeout is below `FOREVER`, which
  `--timeout -2` can make it.
- The printed text of a list determines it, among the lists of any kinds of scalars, exactly when none of its elements
  prints like another scalar of these kinds. Among nulls, INT, LONG, UINT and ULONG integers and strings only null
  and the empty string print alike; a backslash at the end of a string does no harm. With the other types,
  a floating-point 5 prints like the integer, and a SHORT 5 or a symbol `a`, which are quoted, like a string.
- The text of a map determines it exactly when it is empty, or has one entry with such a value and a key that does
  not hold a whole other entry: keys are printed without escaping, so `{"a': 1, 'b": 2}` prints like
  `{"a": 1, "b": 2}`. Two maps whose keys have no quote print alike only if their keys agree and
  their values print alike.

## Model

| member | source | states |
|---|---|---|
| OptionParsing.OptionParser.ParseArgs | src/contrib/optparse/OptionParser.cpp:264-325 | For every argv: values, append lists, user-set set, leftovers, callback strings, or the error or exit, are those of "decode argv to events and positionals, then fold the events", with the chain of defaults laid behind the user's values |
| OptionParsing.OptionParser.ConsumeOptions | src/contrib/optparse/OptionParser.cpp:277-295 | Each round keeps the meaning of what is still to come; the loop ends because the sum of (length + 1) over the work list drops in every round, also when a cluster tail is pushed back |
| OptionParsing.OptionParser.HandleShortOpt | src/contrib/optparse/OptionParser.cpp:190-210 | One short option is consumed: the meaning of the whole is kept, the measure falls, and an error is the one the meaning has |
| OptionParsing.OptionParser.HandleLongOpt | src/contrib/optparse/OptionParser.cpp:230-257 | The same for a long option, with the value behind `=` or in the next token and the one option that accepts an empty value |
| OptionParsing.OptionParser.ProcessOpt | src/contrib/optparse/OptionParser.cpp:327-375 | All actions: new values, append lists, user-set set and callback strings, or why the process stops |
| OptionParsing.OptionParser.TakeRest | src/contrib/optparse/OptionParser.cpp:296-300 | Everything left in the work list is positional, in order |
| OptionParsing.OptionParser.FillFromMap | src/contrib/optparse/OptionParser.cpp:302-305 | A pass over a map of defaults fills exactly the missing destinations, whatever the order of iteration |
| OptionParsing.OptionParser.FillFromOptions | src/contrib/optparse/OptionParser.cpp:307-310 | A pass over options puts one layer per non-empty default behind what is there: the first option in the list wins |
| OptionParsing.OptionParser.FillFromGroups | src/contrib/optparse/OptionParser.cpp:312-322 | Group by group, its defaults and then its options are put behind all earlier layers |
| OptionParsing.OptionParser.FillDefaults | src/contrib/optparse/OptionParser.cpp:302-322 | The three passes together are the overlay of the whole chain of layers |
| OptionParsing.OptionParser.AddOption | src/contrib/optparse/OptionParser.cpp:147-169 | The new option is reachable under exactly the given names, its destination is the first long name with `-` as `_`, else the first letter |
| OptionParsing.ReadNames | src/contrib/optparse/OptionParser.cpp:147-169 | The loop over the names, for any list of them, finds those names and that destination |
| OptionParsing.OptionParser.AddOptionGroup | src/contrib/optparse/OptionParser.cpp:171-181 | The group's options take over the names they have, later ones over earlier ones |
| OptionParsing.OptionParser.AddStandardOptions | src/contrib/optparse/OptionParser.cpp:268-275 | Exactly `--version` (with a version text) and `-h`, `--help` are added, in front, and no default layer changes |
| ParserTheorems.DestOfLong | src/contrib/optparse/OptionParser.cpp:153-168 | The first long name with letters gives the destination, character by character, with `_` for every `-` |
| ParserTheorems.DestOfShort | src/contrib/optparse/OptionParser.cpp:153-168 | Without a long name the destination is the first short letter |
| ParserTheorems.NamesReached | src/contrib/optparse/OptionParser.cpp:147-169 | An option is reached by exactly its long names without their dashes and the letters of its short ones |
| ParserTheorems.GroupKeeps | src/contrib/optparse/OptionParser.cpp:171-181 | A name that no option of a group has is as it was before the group was added |
| ParserTheorems.GroupBinds | src/contrib/optparse/OptionParser.cpp:171-181 | A name that options of a group have reaches the last of them |
| ParserTheorems.StandardNames | src/contrib/optparse/OptionParser.cpp:268-275 | `--help`, `-h` and `--version` reach options that take no value, and every other name is as it was |
| ParserTheorems.HelpStops | src/contrib/optparse/OptionParser.cpp:364-367 | Behind any boundary that does not stop, `--help` and `-h` end the process with the help, whatever follows |
| ParserTheorems.VersionStops | src/contrib/optparse/OptionParser.cpp:368-371 | The same for `--version` |
| ParserTheorems.RepeatedFlagCounts | src/contrib/optparse/OptionParser.cpp:190-210 | `-vvv`: the letter of a `count` option, k times in one cluster, leaves the decimal k and no positional |
| Options.Values.Subscript | src/contrib/optparse/OptionParser.h:111-113 | Reading a missing destination through the non-const `[]` creates it, with an empty value |
| Options.Values.PushBack | src/contrib/optparse/OptionParser.h:120-121 | A value joins the end of the list of its destination only |
| Options.Values.SetByUser | src/contrib/optparse/OptionParser.cpp:473-478 | The user-set set gains or loses exactly this destination |
| ArgvDecoding.TailIsToken | src/contrib/optparse/OptionParser.cpp:204-207 | The tail of a cluster means what the pushed-back token `-tail` means, also when the tail begins with `-` |
| ArgvDecoding.MeaningOfShort | src/contrib/optparse/OptionParser.cpp:190-210 | What a cluster in front of any rest means, with its errors |
| ArgvDecoding.MeaningOfLong | src/contrib/optparse/OptionParser.cpp:230-257 | What a long option in front of any rest means, with its errors |
| ArgvDecoding.PositionalMeaning | src/contrib/optparse/OptionParser.cpp:289-294 | A positional is set aside; without interspersed arguments it ends the options |
| ArgvDecoding.MeaningOfEnd | src/contrib/optparse/OptionParser.cpp:280-283 | Behind `--` everything is positional |
| ArgvTheorems.ClusterSplits | src/contrib/optparse/OptionParser.cpp:190-210 | `-aTAIL` decodes as `-a -TAIL` if and only if `-a` takes no value, for every non-empty tail and rest |
| ArgvTheorems.ShortValueDetaches | src/contrib/optparse/OptionParser.cpp:195-203 | `-fV` is `-f V`, whatever follows |
| ArgvTheorems.LongValueDetaches | src/contrib/optparse/OptionParser.cpp:230-257 | `--o=V` is `--o V`, also for an empty `V` and for an unknown option, whatever follows |
| ArgvTheorems.DecodeAtBoundary | src/contrib/optparse/OptionParser.cpp:277-295 | At an option boundary the decoding of a command line is that of the two parts, one after the other |
| ArgvTheorems.SpellingsExchange | src/contrib/optparse/OptionParser.cpp:277-295 | Two spellings that decode alike give the same whole outcome, errors included, behind any boundary |
| ArgvTheorems.SpellingInvariance | src/contrib/optparse/OptionParser.cpp:190-295 | The three spelling laws at any option boundary and in front of any rest, for the whole outcome |
| ArgvTheorems.RenderedDecodes | src/contrib/optparse/OptionParser.cpp:190-295 | Option settings rendered in any mix of spellings decode to their events, whatever follows |
| ArgvTheorems.FoldStores | src/contrib/optparse/OptionParser.cpp:327-359 | Processing storing and appending events never fails; last value wins, appended values are all there in order, every destination is user-set and no other changes |
| ArgvTheorems.ArgvRoundTrip | src/contrib/optparse/OptionParser.cpp:264-300 | Rendered settings, `--` and any positionals give back exactly those settings and those positionals in order |
| ArgvTheorems.FinishesIff | src/contrib/optparse/OptionParser.cpp:264-375 | Any command line finishes if and only if it decodes without an error and none of its events is a help or version option or has a badly typed value; then its positionals join the leftovers, and a decoding error behind harmless events is the outcome |
| ArgvTheorems.FoldStopsAt | src/contrib/optparse/OptionParser.cpp:327-369 | The first event that stops the process decides, with its own reason: help, version, or the option as it was spelled with its bad value |
| ArgvTheorems.SettingStops | src/contrib/optparse/OptionParser.cpp:264-375 | Behind any boundary that does not stop, a help option, a version option or a badly typed value ends the whole parse, whatever follows |
| ArgvTheorems.BadValueStops | src/contrib/optparse/OptionParser.cpp:328-331 | A value of a `store` or `append` option that cannot be extracted as its type, or is none of its choices, stops the parse with exactly that spelling and value |
| ArgvTheorems.RenderedFinishesIff | src/contrib/optparse/OptionParser.cpp:264-375 | A rendered command line finishes if and only if none of its settings stops the process |
| ArgvTheorems.UnwrittenStays | src/contrib/optparse/OptionParser.cpp:327-375 | A destination that no event writes keeps its value, its list and its user-set mark; callbacks and unknown actions write none |
| ArgvTheorems.CountOptionsCount | src/contrib/optparse/OptionParser.cpp:360-363 | A destination written only by `count` options holds the decimal number of their occurrences, among any other events |
| ArgvTheorems.SetIsSetByUser | src/contrib/optparse/OptionParser.cpp:327-375 | On a fresh parser exactly the user-set destinations have a value before the default passes |
| ParserTheorems.ParsedDefaults | src/contrib/optparse/OptionParser.cpp:264-325 | What `parse_args` returns on a fresh parser: a user-set destination has the user's value, any other the first match in the chain of defaults; leftovers, append lists and the user-set set are the user's |
| ParserTheorems.ParsedFirstMatch | src/contrib/optparse/OptionParser.cpp:302-322 | That first match, directly: the parser's own default; else that of its first option with one; else, of the first group that has any, the group's own or that of its first option with one; else none |
| ParserTheorems.ChainFirst | src/contrib/optparse/OptionParser.cpp:302-322 | The same for any defaults, options and groups |
| ArgvTheorems.DefaultsNeverOverride | src/contrib/optparse/OptionParser.cpp:302-322 | Behind what any events leave on a fresh parser, no chain of layers changes a user-set value, and the first match fills any other |
| Defaults.OverlayIsFirstMatch | src/contrib/optparse/OptionParser.cpp:302-322 | Overlaying a chain of layers gives each destination its first match |
| Defaults.OverlaySnoc | src/contrib/optparse/OptionParser.cpp:302-305 | One more default pass is one more layer at the end of the chain |
| Defaults.OverlayNextOption | src/contrib/optparse/OptionParser.cpp:307-310 | One more option in the list fills its destination only if every earlier layer leaves it open |
| TextUtils.StrReplace | src/contrib/optparse/OptionParser.cpp:48-58 | In-place replacement ends for every non-empty pattern, also if the replacement contains it, and replaces exactly the leftmost non-overlapping matches |
| TextUtils.Pieces | src/contrib/optparse/OptionParser.cpp:48-58 | What lies between those matches rejoins to the text, each cut is at the leftmost match, and no match is left over |
| TextUtils.PiecesOfJoin | src/contrib/optparse/OptionParser.cpp:48-58 | There is only one such decomposition |
| TextUtils.ReplacedIs | src/contrib/optparse/OptionParser.cpp:48-58 | The replacement stands between the pieces of that one decomposition, for every pattern |
| TextUtils.ReplaceOneChar | src/contrib/optparse/OptionParser.cpp:48-58 | For a one-character pattern it is the per-character map |
| TextUtils.StrFormat | src/contrib/optparse/OptionParser.cpp:64-93 | The lines rejoin to the input, one dropped blank per break, if and only if each paragraph's first word fits; then a line is broken for width only if the next word would not have fit, and, if all words fit, no such line is too wide; indentation |
| TextUtils.PrintedIs | src/contrib/optparse/OptionParser.cpp:83-92 | What is printed is every line, its prefix first, with a newline behind it |
| TextUtils.WideFirstWordIsLost | src/contrib/optparse/OptionParser.cpp:83-88 | An input that is not conserved: `ab c` on lines of width 1 |
| TextUtils.Emission | src/contrib/optparse/OptionParser.cpp:83-88 | One emission, with the wrapping `size_t` count, keeps the account of what has been printed |
| TextUtils.LastLine | src/contrib/optparse/OptionParser.cpp:91-92 | The last line completes the account, or shows that no choice of dropped blanks conserves the text |
| CppStrings.StrIncCounts | src/contrib/optparse/OptionParser.cpp:94-101 | The increment takes the decimal of `k` (or the empty string for 0) to the decimal of `k + 1` |
| CppStrings.ScanDecimal | src/contrib/optparse/OptionParser.cpp:94-101 | Extracting a printed integer gives it back, clamped to `long` |
| CppStrings.ScanReads | src/contrib/optparse/OptionParser.cpp:94-101 | Blanks, an optional sign and digits are read as that number, limited to `long`, whatever follows; without digits it is zero |
| CppStrings.DecimalIs | src/api/qpid-proton/reactor/handler/SenderHandler.cpp:326-327 | A printed number is its decimal digits without leading zeros, behind a minus sign if it is negative |
| CppStrings.DecimalInjective | src/api/qpid-proton/reactor/handler/SenderHandler.cpp:326-327 | Different numbers print differently |
| Timers.Timer.Reset | src/common/Timer.cpp:27-29 | The countdown starts over |
| Timers.Timer.Decrement | src/common/Timer.cpp:39-60 | One step down and whether it throws; `FOREVER` stays |
| Timers.GuardedTickIsSafe | src/common/Timer.cpp:31-60 | From a countdown in 0..timeout a guarded tick throws if and only if the timeout is below `FOREVER`; otherwise it goes down by one and stays in range |
| Sending.StepKeepsInv | src/api/qpid-proton/reactor/handler/SenderHandler.cpp:103-361 | Every event keeps all invariants of the sender at once |
| Sending.SenderSafety | src/api/qpid-proton/reactor/handler/SenderHandler.cpp:197-215 | In every run: never more than `count` sent, `ready` only while messages are missing, at most one check pending, and exactly one while messages are missing |
| Sending.SenderCredit | src/api/qpid-proton/reactor/handler/SenderHandler.cpp:210-215 | In every run messages sent plus credit left never exceed the credit granted, also over link resets |
| Sending.SenderCloses | src/api/qpid-proton/reactor/handler/SenderHandler.cpp:218-232 | Closed at most once, and if and only if exactly `count` messages were sent and all were accepted |
| Sending.SenderPacing | src/api/qpid-proton/reactor/handler/SenderHandler.cpp:192-207 | With a pace of 1000 * duration / count > 0 milliseconds, by time t at most floor(t / pace) + 1 messages are sent, and floor(t / pace) in before-send mode, however often on_sendable fires |
| Sending.SenderInStep | src/api/qpid-proton/reactor/handler/SenderHandler.cpp:293-303 | With credit whenever a check runs, every check sends a message until all are sent, and the handler never waits for on_sendable |
| Sending.SenderKeepsUp | src/api/qpid-proton/reactor/handler/SenderHandler.cpp:192-207 | The lower bound: with credit, and checks that run when they are due, at time t all are sent or t is at most `sent` paces, and one more in before-send mode |
| Sending.SenderSendsIff | src/api/qpid-proton/reactor/handler/SenderHandler.cpp:210-303 | After any run an event sends a message, and then one, if and only if it is a check with credit while messages are missing, or an on_sendable after a check that found no credit with nothing sent since |
| Sending.SenderTimeout | src/api/qpid-proton/reactor/handler/SenderHandler.cpp:103-116 | For timeout >= 0 no run throws, and all idle ticks are at most timeout * (1 + count) |
| Sending.SenderCountdown | src/api/qpid-proton/reactor/handler/SenderHandler.cpp:103-361 | Counted from the events alone: the countdown is the timeout less the timer events since a message last went out, and the process has exited if and only if that number is timeout + 1 |
| Sending.SenderEndsBy | src/api/qpid-proton/reactor/handler/SenderHandler.cpp:103-285 | After any run, what each event does to the process: exit 1 by a rejection or a closed transport without reconnect, exit 0 by the timer after `timeout` timer events without a message, the exception below `FOREVER`, or nothing |
| Sending.SenderClock | src/api/qpid-proton/reactor/handler/SenderHandler.cpp:103-116 | Timer events are a second apart: n of them take at least n - 1 seconds, and if they run when due the next one is due after exactly n seconds |
| Sending.SenderExitsInTime | src/api/qpid-proton/reactor/handler/SenderHandler.cpp:103-116 | The sender has exited by timer event number timeout * (1 + max(0, count)) + 1 at the latest |
| Sending.TimerEventsCounted | src/api/qpid-proton/reactor/handler/SenderHandler.cpp:103-116 | Over any run every timer event is an idle tick or the exit |
| Sending.SenderForever | src/common/Timer.cpp:31-37 | With `FOREVER` no timer event of any run exits or throws |
| Sending.SenderThrowsIff | src/common/Timer.cpp:39-60 | Some run ends in the timer's uncaught exception if and only if the timeout is below `FOREVER` |
| Sending.SentBodies | src/api/qpid-proton/reactor/handler/SenderHandler.cpp:305-362 | In every run message i on the wire is the unchanged template with its first `%d` replaced by i |
| Sending.NumberedBodies | src/api/qpid-proton/reactor/handler/SenderHandler.cpp:319-331 | In every run of a template `front%dback` with no earlier `%d`, message i is `front`, the decimal of i, `back`, for i = 0 .. sent - 1 |
| Sending.PlainBodies | src/api/qpid-proton/reactor/handler/SenderHandler.cpp:319-331 | A text without `%d`, and a body that is no text, goes out unchanged every time |
| Sending.FirstBodies | src/api/qpid-proton/reactor/handler/SenderHandler.cpp:319-331 | The first two messages of `m%d` are `m0` and `m1` |
| Sending.SentBodiesDiffer | src/api/qpid-proton/reactor/handler/SenderHandler.cpp:319-331 | The bodies of a run are pairwise different if and only if the template has a placeholder or fewer than two were sent |
| Sending.NextSend | src/api/qpid-proton/reactor/handler/SenderHandler.cpp:210-303 | From every state that keeps the invariants, one more credit leads to the next message |
| Sending.CanFinish | src/api/qpid-proton/reactor/handler/SenderHandler.cpp:210-303 | From every such state all messages can still be sent and accepted and the connection closed |
| Sending.NeverStuck | src/api/qpid-proton/reactor/handler/SenderHandler.cpp:210-303 | Every run in which the handler lives can be continued to a complete one |
| SenderHandling.SenderHandler.OnContainerStart | src/api/qpid-proton/reactor/handler/SenderHandler.cpp:188-207 | The interval is computed; one timer event and one check are scheduled, the check after one interval in before-send mode |
| SenderHandling.SenderHandler.TimerEvent | src/api/qpid-proton/reactor/handler/SenderHandler.cpp:103-116 | Exit, uncaught exception, or one tick and the next event in a second |
| SenderHandling.SenderHandler.OnSendable | src/api/qpid-proton/reactor/handler/SenderHandler.cpp:210-215 | A message goes out only if the handler is ready |
| SenderHandling.SenderHandler.OnTrackerAccept | src/api/qpid-proton/reactor/handler/SenderHandler.cpp:218-232 | Counts the acceptance and closes at `count` |
| SenderHandling.SenderHandler.CheckIfCanSend | src/api/qpid-proton/reactor/handler/SenderHandler.cpp:293-303 | Reschedules itself while messages are missing, and sends or becomes ready |
| SenderHandling.SenderHandler.Send | src/api/qpid-proton/reactor/handler/SenderHandler.cpp:305-362 | The numbered message, one credit less, timer reset, not ready; the template stays |
| SenderHandling.SenderHandler.Dispatch | src/api/qpid-proton/reactor/handler/SenderHandler.cpp:103-303 | Each enabled event changes the object as the state machine's step does |
| Receiving.ReceiverAccounts | src/api/qpid-proton/reactor/handler/ReceiverHandler.cpp:368-438 | After any run all outside effects are a function of the messages that arrived |
| Receiving.ReceiverSettles | src/api/qpid-proton/reactor/handler/ReceiverHandler.cpp:323-399 | "ack" accepts, "reject" rejects and "release" releases exactly the messages whose number the action size divides, floor(n / size) of them; any other action settles none |
| Receiving.MultiplesAre | src/api/qpid-proton/reactor/handler/ReceiverHandler.cpp:397-399 | Those settlements are the multiples, in order, and as many as the quotient says |
| Receiving.ReceiverReplies | src/api/qpid-proton/reactor/handler/ReceiverHandler.cpp:343-366 | The cache holds exactly the distinct non-empty reply-to addresses, each opened once; one reply per such message, in order, through its own sender |
| Receiving.FirstSeenIs | src/api/qpid-proton/reactor/handler/ReceiverHandler.cpp:347-358 | First appearances are the distinct non-empty addresses, without repetition |
| Receiving.RepliesAre | src/api/qpid-proton/reactor/handler/ReceiverHandler.cpp:360-366 | Replies are exactly those to messages with an address, in order |
| Receiving.ReceiverEndsOnce | src/api/qpid-proton/reactor/handler/ReceiverHandler.cpp:421-438 | Drain is queued at most once; close or detach happens at most once, only at message `count`, never with reply-to processing, and detach if and only if the subscriber is durable; the connection is closed exactly then |
| Receiving.ReceiverFaultsIff | src/api/qpid-proton/reactor/handler/ReceiverHandler.cpp:397-399 | The handler on its own, given any action size: it faults if and only if the size is zero and a message arrived |
| ReceiverOptions.ActionSize | src/common/options/modern/ReceiverOptionsParser.cpp:146-149 | The size the client runs with is at least 1; every smaller one ends the process before the handler exists |
| ReceiverOptions.DecimalSize | src/api/qpid-proton/reactor/ReceivingClient.cpp:100-103 | A decimal argument is accepted if and only if it is positive, and then it is the action size; without the option it is 1 |
| ReceiverOptions.AcceptedOptionsNeverFault | src/common/options/modern/ReceiverOptionsParser.cpp:146-149 | With accepted options no run of the receiver divides by zero, and a known action settles floor(n / size) messages |
| Receiving.ReceiverTimeout | src/api/qpid-proton/reactor/handler/ReceiverHandler.cpp:122-143 | In every run idle ticks are at most timeout * (1 + messages), a timeout from `FOREVER` on never throws, and exactly one timer event is pending while running |
| Receiving.MessageResets | src/api/qpid-proton/reactor/handler/ReceiverHandler.cpp:426-437 | A message starts the countdown over unless it ends the link or faults |
| Receiving.ReceiverCountdown | src/api/qpid-proton/reactor/handler/ReceiverHandler.cpp:122-438 | Counted from the events alone: while running the countdown is the timeout less the timer events since the last message that did not end the link; timer event number timeout + 1 behind it is the exit |
| Receiving.ReceiverEndsBy | src/api/qpid-proton/reactor/handler/ReceiverHandler.cpp:122-468 | After any run, what each event does to the process: a fault, exit 1 or 0 by a closed transport, exit 0 by the timer if and only if `timeout` timer events have passed since such a message, the exception below `FOREVER`, or nothing |
| Receiving.ReceiverClock | src/api/qpid-proton/reactor/handler/ReceiverHandler.cpp:122-143 | Timer events are a second apart: n of them take at least n - 1 seconds, and if they run when due the next one is due after exactly n seconds |
| Receiving.TimerEventsCounted | src/api/qpid-proton/reactor/handler/ReceiverHandler.cpp:122-143 | Over any run every timer event is an idle tick, except that the last may be the exit |
| Receiving.ReceiverExitsInTime | src/api/qpid-proton/reactor/handler/ReceiverHandler.cpp:122-143 | There are at most timeout * (1 + messages) + 1 timer events, and the last possible one is the exit |
| Receiving.ReceiverForever | src/common/Timer.cpp:31-37 | With `FOREVER` every timer event of any run is a tick: none exits or throws |
| Receiving.ReceiverThrowsIff | src/common/Timer.cpp:39-60 | Some run ends in the timer's uncaught exception if and only if the timeout is below `FOREVER` |
| ReceiverHandling.ReceiverHandler.TimerEvent | src/api/qpid-proton/reactor/handler/ReceiverHandler.cpp:122-143 | Exit, uncaught exception, or one tick and the next event in a second |
| ReceiverHandling.ReceiverHandler.DoMessageAction | src/api/qpid-proton/reactor/handler/ReceiverHandler.cpp:323-341 | Exactly one outcome for a known action, none for an unknown one |
| ReceiverHandling.ReceiverHandler.DoProcessReplyTo | src/api/qpid-proton/reactor/handler/ReceiverHandler.cpp:343-366 | The reply leaves through the cached sender of its address, which is opened only if missing; every cached handle belongs to its address |
| ReceiverHandling.ReceiverHandler.OnMessage | src/api/qpid-proton/reactor/handler/ReceiverHandler.cpp:368-438 | Count, action, reply, drain, close or timer reset, in this order |
| ReceiverHandling.ReceiverHandler.FinishMessage | src/api/qpid-proton/reactor/handler/ReceiverHandler.cpp:421-437 | Drain at the credit window; at the count close or detach and then close the connection, else the timer starts over |
| ReceiverHandling.ReceiverHandler.OnTransportClose | src/api/qpid-proton/reactor/handler/ReceiverHandler.cpp:460-468 | Exit 1 without reconnect, exit 0 at the count, else nothing |
| ReceiverHandling.ReceiverHandler.Dispatch | src/api/qpid-proton/reactor/handler/ReceiverHandler.cpp:122-468 | Each enabled event changes the object as the state machine's step does |
| AppendCallback.StringAppendCallback.Append | src/common/options/modern/StringAppendCallback.cpp:27-35 | The item and a `;`, or the marker `''` for an empty one, join the end of the string |
| AppendCallback.StringAppendCallback.GetStrings | src/common/options/modern/StringAppendCallback.cpp:37-64 | The loop, whose `start` wraps around at npos, returns the items of the pieces between separators |
| AppendCallback.ItemsOfAppends | src/common/options/modern/StringAppendCallback.cpp:27-64 | After any sequence of appends the result is the concatenation of what each append contributes |
| AppendCallback.ItemsOfText | src/common/options/modern/StringAppendCallback.cpp:37-64 | What any text is decoded to: its pieces between separators, without the empty ones and with `''` for the empty string; a text without a separator is one item as it is |
| AppendCallback.ItemsAreClean | src/common/options/modern/StringAppendCallback.cpp:45-58 | No returned item has a separator or is the marker |
| AppendCallback.RoundTripIffClean | src/common/options/modern/StringAppendCallback.cpp:27-64 | Appended items come back unchanged if and only if none has a `;` or is the marker `''` |
| StlUtils.Split | src/common/STLUtils.h:38-49 | Returns the fields between separator characters, without the empty one behind a trailing separator |
| StlUtils.SplitRejoins | src/common/STLUtils.h:38-49 | The result is never empty, has no separator inside, and rejoins to the input up to one trailing separator |
| StlUtils.ConvertToMap | src/common/STLUtils.h:60-68 | Even elements are keys of the elements behind them; later pairs win; an odd last key is dropped |
| StlUtils.PairsWritten | src/common/STLUtils.h:60-68 | Keys and values in turn give the last-wins map of the pairs, also with a lonely last key |
| StlUtils.ConvertPropertiesToMap | src/common/STLUtils.h:78-86 | Every property is split and put into the map, in order; `size() - 1` never wraps here |
| StlUtils.PropertyParts | src/common/STLUtils.h:38-49 | A delimiter-free `k:v` splits into both parts, or only the key for an empty value |
| StlUtils.PropertyTextRoundTrip | src/common/STLUtils.h:38-86 | Delimiter-free `k:v;k:v` text maps back to its last-wins map of the pairs with a non-empty value |
| MessageContent.NameVal | src/api/qpid-proton/reactor/SendingClient.cpp:92-120 | The first `=`, or without one the first `~`, cuts name and value; an empty value is reported as none and leaves the out-parameter as it was |
| MessageContent.NameValueRoundTrip | src/api/qpid-proton/reactor/SendingClient.cpp:92-120 | `name=value` gives back both parts for every value and every name without `=` |
| MessageContent.SetMessageMapItem | src/api/qpid-proton/reactor/SendingClient.cpp:209-249 | Exactly one entry is set, with a string or an auto-cast value |
| MessageContent.SetMessageMap | src/api/qpid-proton/reactor/SendingClient.cpp:273-284 | The body is the fold of the collected items, in order |
| MessageContent.SetMessageListItem | src/api/qpid-proton/reactor/SendingClient.cpp:164-207 | Exactly one value joins the list; an item with `=` is cut to its name |
| MessageContent.SetMessageList | src/api/qpid-proton/reactor/SendingClient.cpp:260-271 | One value per collected item, in order |
| MessageContent.SetMessageContent | src/api/qpid-proton/reactor/SendingClient.cpp:497-506 | List items go before map items, and without either the body is the plain content |
| MessageContent.BodyArrives | src/api/qpid-proton/reactor/SendingClient.cpp:497-506 | The body for any collected items: list items first, as the strings they are if and only if all are plain; else the last-wins map of encodable pairs; else the plain content |
| MessageContent.CastDecimal | src/api/qpid-proton/reactor/SendingClient.cpp:222-240 | A printed integer is cast back to that integer, clamped to `long` |
| MessageContent.TypedValueRoundTrip | src/api/qpid-proton/reactor/SendingClient.cpp:216-240 | `name~integer` puts that integer under that name |
| MessageContent.CastKinds | src/api/qpid-proton/reactor/SendingClient.cpp:219-240 | The cast of a value by its text: `true` and `false` in any case are booleans, others with `.`, `e` or `E` doubles, the rest longs |
| MessageContent.TypedItems | src/api/qpid-proton/reactor/SendingClient.cpp:164-249 | What `name~value` puts into a map and into a list, in all cases |
| MessageContent.UntypedItems | src/api/qpid-proton/reactor/SendingClient.cpp:164-249 | `name=value`, `name~` and `name` put a text under the name; a list gets the name alone |
| MessageContent.TypedInstances | src/api/qpid-proton/reactor/SendingClient.cpp:219-240 | `n~False` is a boolean, `n~1.5` a double |
| MessageContent.CollectedPairsArrive | src/api/qpid-proton/reactor/SendingClient.cpp:273-284 | Appended `name=value` pairs arrive as their last-wins map, empty values included |
| MessageContent.OnePairArrivesIff | src/api/qpid-proton/reactor/SendingClient.cpp:209-284 | One pair arrives as itself if and only if neither part has a `;` and the name has no `=` |
| MessageContent.ListItemsArriveIff | src/api/qpid-proton/reactor/SendingClient.cpp:164-271 | Any sequence of list items arrives as those strings, in order, if and only if none has a `;`, `=` or `~` or is `''` |
| MessageContent.OneListItemArrivesIff | src/api/qpid-proton/reactor/SendingClient.cpp:164-271 | A list item arrives as that string if and only if it has no `;`, `=` or `~` and is not `''` |
| Uris.UriParser.Parse | src/common/UriParser.cpp:39-101 | For every input: throws if and only if the port slice is out of range, else all fields are as specified without npos; every other `substr` is in bounds under wrap-around |
| Uris.UriParser.ParseUser | src/common/UriParser.cpp:53-58 | User and password before `@`, and the colon looked for again behind it |
| Uris.UriParser.ParseAuthority | src/common/UriParser.cpp:68-78 | Host and port in all four cases, and when the slice throws |
| Uris.UriParser.ParseTail | src/common/UriParser.cpp:80-100 | Path, query and fragment in all cases |
| UriTheorems.UriRoundTrip | src/common/UriParser.cpp:39-101 | A composed URI with a `/` behind its authority, IP literals with or without a port included, gives back every component (sections 3.1 to 3.5 of RFC 3986) and keeps what it does not have, unless it has a user without a password or its tail holds a delimiter that is searched for in the whole text |
| UriExactness.UriRoundTripIff | src/common/UriParser.cpp:39-101 | The exact condition: a fresh parser returns every component if and only if a non-empty user has a password and no delimiter of the tail is taken for one of the authority, or the host is repeated behind a stray `@` |
| UriExactness.LonelyUser | src/common/UriParser.cpp:46-58 | A non-empty user without a password is never returned |
| UriExactness.UserWithoutPasswordIsLost | src/common/UriParser.cpp:46-58 | An input that is not returned: `amqp://guest@localhost:5672/q` |
| UriTheorems.LonelyUserIsKept | src/common/UriParser.cpp:46-58 | Whatever follows `scheme://user@`, the fields for user and password stay as they were |
| UriTheorems.PortWithoutSlash | src/common/UriParser.cpp:73-76 | Without a `/`, what is taken for the port is never what follows the port's colon |
| UriSlashless.SlashlessReturns | src/common/UriParser.cpp:39-101 | Without a `/`, for any scheme, user information, host or IP literal, port, query and fragment: nothing is thrown; scheme, user, password, query and fragment come back and what is absent stays; the host comes back if a port or nothing follows it; the port field is the text from as many characters on as the host has |
| UriSlashless.SlashlessRoundTripIff | src/common/UriParser.cpp:73-78 | A fresh parser returns such a URL if and only if it is no more than scheme, user with password and host |
| UriSlashless.BrokerWithoutSlash | src/common/UriParser.cpp:73-76 | `localhost:5672` has the host `localhost` and the port field `:5672` |
| UriExactness.LateScheme | src/common/UriParser.cpp:43-44 | A `://` behind the start of a URI without a scheme is always read as one |
| UriExactness.LateQuestion | src/common/UriParser.cpp:80-88 | A `?` in the fragment of a URI without a query always spoils the path |
| UriExactness.WrongHost | src/common/UriParser.cpp:64-78 | A colon of the tail without a port, or a `]` of the tail with one, always spoils the host |
| UriExactness.StrayReturns | src/common/UriParser.cpp:53-78 | An `@` in the tail of a URI without user information is harmless if and only if no colon precedes it and the host is repeated behind it |
| UriExactness.PathColonIsMisread | src/common/UriParser.cpp:46-72 | An input that is not returned: `s://h/q:1` |
| UriExactness.LiteralWithoutPortReturns | src/common/UriParser.cpp:64-72 | `amqp://[::1]/queue` is returned |
| UriExactness.EchoReturns | src/common/UriParser.cpp:53-78 | An instance of the coincidence: `s://h/x@h` |
| UriExactness.BareColonIsAmbiguous | src/common/UriParser.cpp:43-44 | A text that begins with `://` is returned with an empty scheme, so not as one that has none |
| UriTheorems.ThrowsOnEarlyColon | src/common/UriParser.cpp:64-78 | An input that throws: `a]:b@c` |
| UriTheorems.ThrowsIff | src/common/UriParser.cpp:64-78 | It throws if and only if there is a `]`, no `/` behind the scheme, and the first `:` behind the `]` lies before the host; hence never without `]` |
| UriTheorems.PositionsFound | src/common/UriParser.cpp:43-51 | In a composed URI every delimiter is found at its own place |
| UriTheorems.PortColonFound | src/common/UriParser.cpp:53-66 | The colon of the port is found past user information and IP literals, or none |
| DictFormatting.EscapeQuotes | src/common/formatter/DictFormatter.cpp:179-189 | The in-place loop equals the per-character map and `str_replace` of `'` by `\'` |
| DictFormatting.FormatList | src/common/formatter/DictFormatter.cpp:58-76 | The text of a list, with commas between its elements only |
| DictFormatting.FormatMap | src/common/formatter/DictFormatter.cpp:78-96 | The text of a map, with commas between its entries only and keys as they are |
| DictFormatting.GetValue | src/common/formatter/DictFormatter.cpp:120-177 | Which text each kind of value has: INT, LONG, UINT, ULONG, FLOAT and DOUBLE bare, every other scalar quoted |
| DictTheorems.UnescapedEscaped | src/common/formatter/DictFormatter.cpp:179-189 | Escaping is undone by dropping the backslash in front of every quote |
| DictTheorems.EscapingIsInjective | src/common/formatter/DictFormatter.cpp:179-189 | Two different strings are never escaped alike |
| DictTheorems.ScalarRoundTripIff | src/common/formatter/DictFormatter.cpp:120-177 | This reader, which takes every `\'` for a quote, recovers exactly null, integers, and non-empty strings without a backslash at their end |
| DictTheorems.ListRoundTripIff | src/common/formatter/DictFormatter.cpp:58-76 | The same reader recovers exactly the lists of such elements |
| DictTheorems.MapRoundTripIff | src/common/formatter/DictFormatter.cpp:78-96 | The same reader recovers exactly the maps of such values with keys that have no quote |
| DictTheorems.ValueRoundTripIff | src/common/formatter/DictFormatter.cpp:120-177 | What `getValue` prints for any value is recovered by the same reader exactly for readable scalars, and lists and maps of them |
| DictTheorems.ValueTextsAlike | src/common/formatter/DictFormatter.cpp:120-177 | Two values print alike if and only if they are of one kind and print alike as scalars, lists or maps |
| DictTexts.TokensUnique | src/common/formatter/DictFormatter.cpp:58-96 | Without any reader: a text is cut into bare words and quoted strings, each quote of which follows a backslash, in one way only |
| DictTexts.OutOfPhase | src/common/formatter/DictFormatter.cpp:58-96 | Two readings of one text never disagree about which quote opens and which closes |
| DictTexts.ScalarTextsAlike | src/common/formatter/DictFormatter.cpp:120-177 | Which different scalars print alike: null and the empty string, an integer and a floating-point number with its decimal, and a string and another scalar whose text is the escaped string |
| DictTexts.ListTextsAlike | src/common/formatter/DictFormatter.cpp:58-76 | Two lists print alike if and only if they are as long and their elements do, one by one, strings with a backslash at their end included |
| DictTexts.ListTextDetermines | src/common/formatter/DictFormatter.cpp:58-76 | Among the lists of any kinds of scalars the text determines one if and only if no element prints like another scalar of these kinds |
| DictTexts.AloneAmongSimple | src/common/formatter/DictFormatter.cpp:120-177 | Among nulls, integers and strings these are all but null and the empty string |
| DictTexts.AloneAmongTame | src/common/formatter/DictFormatter.cpp:120-177 | Among all types these are only the floating-point numbers that do not print as an integer, and an empty quoted text |
| DictTexts.QuotedSwallowsNext | src/common/formatter/DictFormatter.cpp:167-173 | The unescaped text of another type can print like two elements |
| DictTexts.MapTextsAlike | src/common/formatter/DictFormatter.cpp:78-96 | Two maps whose keys have no quote print alike if and only if their keys agree and their values print alike, one by one |
| DictTexts.MapTextDetermines | src/common/formatter/DictFormatter.cpp:78-96 | Among the maps with any keys to any kinds of scalars, the text determines one if and only if it is empty, or has one entry whose value prints like no other of these kinds and whose key does not hold a whole entry and a later key |
| EndToEnd.BodyFromArguments | src/api/qpid-proton/reactor/SendingClient.cpp:497-506 | For any command line: parser, callbacks and body give the collected list items as a list of exactly these strings if and only if all are plain, whatever map items there are beside them; without list items, encodable map items give exactly the last-wins map; without either, the plain content |
| EndToEnd.MapFromArguments | src/api/qpid-proton/reactor/SendingClient.cpp:497-506 | The same for detached `--msg-content-map-item name=value` arguments, which always parse |
| EndToEnd.ListFromArguments | src/api/qpid-proton/reactor/SendingClient.cpp:497-499 | Detached `--msg-content-list-item entry` arguments, empty ones included, always parse and give that list if and only if all entries are plain |
| EndToEnd.ItemArgumentsParse | src/contrib/optparse/OptionParser.cpp:230-257 | A command line of detached items parses and hands them to the callback of their option only |
| EndToEnd.FoldCollects | src/common/options/modern/StringAppendCallback.cpp:22-35 | Whatever else the events of a command line do, a callback ends up with exactly the values handed to it, in order |
| EndToEnd.ParseCollects | src/contrib/optparse/OptionParser.cpp:372-374 | What a callback of a parser holds when `parse_args` returns, for every argument vector |
| EndToEnd.RenderedCollected | src/contrib/optparse/OptionParser.cpp:190-300 | Settings in any mix of spellings, `--` and positionals hand over exactly the settings' values |
| EndToEnd.AddItemOption | src/common/options/modern/SenderOptionsParser.cpp:99-103 | Registering the option makes its name call the callback with one value |
| EndToEnd.ItemArgumentsMean | src/contrib/optparse/OptionParser.cpp:230-257 | Detached items leave no positionals and are collected in order, leaving every value alone |
| EndToEnd.ItemEventsAppend | src/contrib/optparse/OptionParser.cpp:372-374 | Processing callback options appends each item to the one string and touches nothing else |

## Left out

- Proton itself: SASL, SSL, reconnect, link negotiation and encoding. The link is an environment that grants and drops credit, accepts each message at most once and runs scheduled work no earlier than asked.
- `on_transport_error` and `on_connection_error`, whose exits depend on broker texts, P2P listen mode and the `run` methods: plumbing with straight-line branches.
- Wall clock, sleeping (`sleep4next`) and message logging in the handlers: time is an integer that the environment advances.
- The code without `__REACTOR_HAS_TIMER`: only the build with timers is modelled.
- 32-bit overflow of the message counters and of `duration_time * SECOND`: they are unbounded integers here.
- The receiver's start-up (`createSubscriptionName`, browse, unsubscribe): a run starts when its timer event has been scheduled.
- `senders[address].send`: proton queues a reply without credit; only that it is handed over is modelled.
- Help, usage and version printing, program names and translations: they end the process, which is all the model keeps.
- `check_type` for numbers: whether a stream extraction succeeds is a parameter; choices are concrete.
- Options as pointers: an option is a value that is complete when registered, and a group is a value taken when it is added, so later changes through the pointers are not modelled. Callbacks are `StringAppendCallback` objects.
- The "ambiguous option" branch of `lookup_long_opt`: names are compared exactly and are unique keys, so it cannot happen.
- ReadNames: an empty option name makes `substr(1, 1)` throw during registration, which the model rules out with a precondition.
- StrReplace: does not model an empty pattern, for which the loop of the source never ends.
- CountOptionsCount: stops at LONG_MAX, beyond which `i+1` is undefined behaviour in the source.
- StrFormat: the two widths are below 2^32, because the callers pass `unsigned int`; strings are at most the largest a `std::string` can hold.
- `setMessageProperty`: the same branches as a map item, on another container.
- Floating-point casts: a value with `.`, `e` or `E` is kept as its text, `atof` is not evaluated.
- ConvertToMap: only for string values and not for an empty vector, where `size() - 1` wraps; `split` never returns one.
- UriRoundTripIff: is about URIs with a `/` behind the authority; the others are in SlashlessReturns and SlashlessRoundTripIff. Components whose text begins with `://` although they have no scheme are ruled out: BareColonIsAmbiguous shows what they are read as.
- SlashlessReturns: a query or fragment behind an authority without a `/` must itself have no `/`, `:`, `@` or `]`; for all other texts there are Parse, ThrowsIff and PortWithoutSlash.
- ValueRoundTripIff: about the same reader as the next ones; ValueTextsAlike, ScalarTextsAlike, ListTextsAlike and MapTextsAlike say what the text itself keeps.
- ScalarRoundTripIff: about one reader; ScalarTextsAlike says what the text itself keeps.
- ListRoundTripIff: about the same reader; ListTextsAlike and ListTextDetermines need none.
- MapRoundTripIff: about the same reader; MapTextsAlike and MapTextDetermines need none.
- ListTextsAlike: the texts of other AMQP types, which are printed as they are, must have no quote without a backslash; QuotedSwallowsNext shows why.
- MapTextsAlike: the same, and the keys must have no quote; MapTextDetermines has no condition on the keys.
- ListTextDetermines: the same condition on the texts of other AMQP types.
- MapTextDetermines: the same condition on the texts of other AMQP types.
- The digits of a FLOAT or DOUBLE: any text that a stream can print for one, given with the value.
- BodyFromArguments: message properties and the other options of the message are not part of the body.
- The checks of `validate` other than that of the action size.
- An `atoi` beyond `int` is undefined in the standard; the model cuts it to its low 32 bits.
- `formatProperties` (the same loop as `formatMap`), `formatString`, `printMessageInterop`, the header layout and nested values of the dict printer.
- A `std::map` passed to the dict printer is the list of its entries in iteration order.
