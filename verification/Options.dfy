/**
 Options, their values, and what one occurrence of an option does
 (src/contrib/optparse/OptionParser.h and `process_opt` in OptionParser.cpp).
 */
module Options {
  import opened CppStrings
  import opened AppendCallback

  datatype Action =
    | Store | StoreConst | StoreTrue | StoreFalse | Append | AppendConst
    | Count | Help | Version | Callback | Other(name: string)

  // "int", "long", "float", "double" and "complex" are read with stream extraction.
  datatype ValueType = Scanned(name: string) | Choice(choices: seq<string>) | Unchecked(name: string)

  /** `callback` is the position of the callback object among the parser's callbacks. */
  datatype Option = Option(
    shortOpts: set<string>, longOpts: set<string>, action: Action, valueType: ValueType,
    dest: string, dflt: string, nargs: nat, constant: string, callback: Maybe<nat>)
  {
    /** `Option::action`: the actions that take no value also set `nargs` to 0. */
    function WithAction(a: Action): Option {
      var o := this.(action := a);
      if a.StoreConst? || a.StoreTrue? || a.StoreFalse? || a.AppendConst? || a.Count? || a.Help? || a.Version?
      then o.(nargs := 0) else o
    }
  }

  /** A freshly constructed option with the given names and destination. */
  function NewOption(shorts: set<string>, longs: set<string>, dest: string): Option {
    Option(shorts, longs, Store, Unchecked("string"), dest, "", 1, "", None)
  }

  /** Whether `istringstream(value) >> t` succeeds for the named type. */
  type Extraction = (string, string) -> bool

  /** `check_type` finds nothing to complain about. */
  predicate TypeOk(scan: Extraction, o: Option, value: string) {
    match o.valueType
    case Scanned(name) => scan(name, value)
    case Choice(choices) => value in choices
    case Unchecked(_) => true
  }

  // Why a parse ends the process.
  datatype Stop =
    | HelpShown | VersionShown
    | NoSuchOption(opt: string) | MissingArgument(opt: string) | BadValue(opt: string, value: string)

  // ---------- values ----------

  datatype ValuesState = ValuesState(
    table: map<string, string>, appended: map<string, seq<string>>, userSet: set<string>)

  function Get(table: map<string, string>, d: string): string {
    if d in table then table[d] else ""
  }

  function GetList(appended: map<string, seq<string>>, d: string): seq<string> {
    if d in appended then appended[d] else []
  }

  class Values {
    var table: map<string, string>
    var appended: map<string, seq<string>>
    var userSet: set<string>

    constructor ()
      ensures State() == ValuesState(map[], map[], {})
    {
      table, appended, userSet := map[], map[], {};
    }

    /** A copy of the values, as `parse_args` hands it to its caller. */
    function State(): ValuesState
      reads this
    {
      ValuesState(table, appended, userSet)
    }

    predicate IsSet(d: string)
      reads this
    {
      d in table
    }

    /** The non-const `operator[]`: looking up a missing destination creates it. */
    method Subscript(d: string) returns (v: string)
      modifies this`table
      ensures v == Get(old(table), d)
      ensures table == old(table)[d := v]
    {
      if d !in table {
        table := table[d := ""];
      }
      v := table[d];
    }

    method Assign(d: string, v: string)
      modifies this`table
      ensures table == old(table)[d := v]
    {
      table := table[d := v];
    }

    /** `all(d).push_back(v)`. */
    method PushBack(d: string, v: string)
      modifies this`appended
      ensures appended == old(appended)[d := GetList(old(appended), d) + [v]]
    {
      appended := appended[d := GetList(appended, d) + [v]];
    }

    method SetByUser(d: string, yes: bool)
      modifies this`userSet
      ensures userSet == if yes then old(userSet) + {d} else old(userSet) - {d}
    {
      userSet := if yes then userSet + {d} else userSet - {d};
    }
  }

  // ---------- one occurrence of an option ----------

  /** Everything a parse accumulates: the values, and the strings collected by the callbacks. */
  datatype ParseState = ParseState(values: ValuesState, sinks: seq<string>)

  datatype Processed = Next(state: ParseState) | Halt(stop: Stop)

  function Put(st: ParseState, d: string, v: string): ParseState {
    var vs := st.values;
    st.(values := vs.(table := vs.table[d := v], userSet := vs.userSet + {d}))
  }

  function Push(st: ParseState, d: string, v: string): ParseState {
    var vs := st.values;
    Put(st.(values := vs.(appended := vs.appended[d := GetList(vs.appended, d) + [v]])), d, v)
  }

  /** The meaning of one occurrence of `o`, spelled `opt`, with `value`. */
  function Process(scan: Extraction, o: Option, opt: string, value: string, st: ParseState): Processed {
    match o.action
    case Store => if TypeOk(scan, o, value) then Next(Put(st, o.dest, value)) else Halt(BadValue(opt, value))
    case StoreConst => Next(Put(st, o.dest, o.constant))
    case StoreTrue => Next(Put(st, o.dest, "1"))
    case StoreFalse => Next(Put(st, o.dest, "0"))
    case Append => if TypeOk(scan, o, value) then Next(Push(st, o.dest, value)) else Halt(BadValue(opt, value))
    case AppendConst => Next(Push(st, o.dest, o.constant))
    case Count => Next(Put(st, o.dest, StrInc(Get(st.values.table, o.dest))))
    case Help => Halt(HelpShown)
    case Version => Halt(VersionShown)
    case Callback =>
      if o.callback.Some? && o.callback.value < |st.sinks|
      then Next(st.(sinks := st.sinks[o.callback.value := Appended(st.sinks[o.callback.value], value)]))
      else Next(st)
    case Other(_) => Next(st)
  }
}
