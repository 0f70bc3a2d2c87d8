/**
 The Python-dict text of message contents (src/common/formatter/DictFormatter.cpp), for flat values, and
 a reader that takes it back.
 */
module DictFormatting {
  import opened CppStrings
  import opened TextUtils

  predicate IsFloatText(t: string) {
    t != "" && forall c | c in t :: IsDigit(c) || c in "+-.einfa"
  }

  /** What a stream prints for a floating-point number: digits, sign, point and exponent, or `nan` and `inf`. */
  type FloatText = t: string | IsFloatText(t) witness "0"

  /**
   `Number` is an INT, LONG, UINT or ULONG, `Floating` a FLOAT or DOUBLE. `Quoted` is any other scalar, also an
   integer of 8 or 16 bits; the text is the one that proton prints.
   */
  datatype Scalar = Null | Number(n: int) | Floating(digits: FloatText) | Str(s: string) | Quoted(text: string)

  // The entries of a map are listed in the order of iteration.
  datatype Value = Single(s: Scalar) | ListValue(l: seq<Scalar>) | MapValue(m: seq<(string, Scalar)>) | ArrayOrDescribed

  // ---------- printing ----------

  function Escaped(s: string): string {
    MapChar(s, '\'', "\\'")
  }

  function ScalarText(v: Scalar): string {
    match v
    case Null => "None"
    case Number(n) => Decimal(n)
    case Str(s) => if s == "" then "None" else "'" + Escaped(s) + "'"
    case Floating(digits) => digits
    case Quoted(text) => "'" + text + "'"
  }

  function ListBody(l: seq<Scalar>): string {
    if l == [] then ""
    else if |l| == 1 then ScalarText(l[0])
    else ScalarText(l[0]) + ", " + ListBody(l[1..])
  }

  function ListText(l: seq<Scalar>): string {
    "[" + ListBody(l) + "]"
  }

  function EntryText(e: (string, Scalar)): string {
    "'" + e.0 + "': " + ScalarText(e.1)
  }

  function MapBody(m: seq<(string, Scalar)>): string {
    if m == [] then ""
    else if |m| == 1 then EntryText(m[0])
    else EntryText(m[0]) + ", " + MapBody(m[1..])
  }

  function MapText(m: seq<(string, Scalar)>): string {
    "{" + MapBody(m) + "}"
  }

  function ValueText(v: Value): string {
    match v
    case Single(s) => ScalarText(s)
    case ListValue(l) => ListText(l)
    case MapValue(m) => MapText(m)
    case ArrayOrDescribed => ""
  }

  /** `escapeQuotes`: the quotes are replaced in place, from left to right. */
  method EscapeQuotes(s: string) returns (retVal: string)
    ensures retVal == Escaped(s)
    ensures retVal == ReplaceAll(s, "'", "\\'")
  {
    hide Escaped, IndexOf, ReplaceAll;
    ReplaceOneChar(s, '\'', "\\'");
    EscapeStart(s);
    retVal := s;
    ghost var done: nat := 0;
    var indexOfQuote := IndexOf(retVal, "'", 0);
    while indexOfQuote.Some?
      invariant done <= |retVal| && indexOfQuote == IndexOf(retVal, "'", done)
      invariant retVal[..done] + Escaped(retVal[done..]) == Escaped(s)
      decreases |retVal| - done
    {
      var i := indexOfQuote.value;
      EscapeStep(retVal, done, i);
      retVal := retVal[..i] + "\\'" + retVal[i + 1..];
      done := i + 2;
      indexOfQuote := IndexOf(retVal, "'", i + 2);
    }
    EscapeEnd(retVal, done);
  }

  lemma EscapeStart(s: string)
    ensures s[..0] + Escaped(s[0..]) == Escaped(s) == MapChar(s, '\'', "\\'")
  {
    assert s[0..] == s;
  }

  lemma EscapeEnd(t: string, done: nat)
    requires done <= |t| && IndexOf(t, "'", done) == None
    ensures t[..done] + Escaped(t[done..]) == t
  {
    FindChar(t, '\'', done);
    MapCharAbsent(t[done..], '\'', "\\'");
    assert t == t[..done] + t[done..];
  }

  lemma EscapeStep(t: string, done: nat, i: nat)
    requires done <= |t| && IndexOf(t, "'", done) == Some(i)
    ensures var t' := t[..i] + "\\'" + t[i + 1..];
            t'[..i + 2] + Escaped(t'[i + 2..]) == t[..done] + Escaped(t[done..])
  {
    var t' := t[..i] + "\\'" + t[i + 1..];
    var u := t[done..];
    FindChar(t, '\'', done);
    assert u[0..i - done] == t[done..i];
    MapCharAt(u, '\'', "\\'", i - done);
    assert u[i - done + 1..] == t[i + 1..] && u[..i - done] == t[done..i];
    assert t'[i + 2..] == t[i + 1..];
    assert t'[..i + 2] == t[..done] + (t[done..i] + "\\'");
    Assoc(t[..done], t[done..i] + "\\'", Escaped(t[i + 1..]));
  }

  /** `getValue` of a scalar. */
  method GetScalar(v: Scalar) returns (text: string)
    ensures text == ScalarText(v)
  {
    match v {
      case Null => text := "None";
      case Number(n) => text := Decimal(n);
      case Str(s) =>
        if s == "" {
          text := "None";
        } else {
          var escaped := EscapeQuotes(s);
          text := "'" + escaped + "'";
        }
      case Floating(digits) => text := digits;
      case Quoted(t) => text := "'" + t + "'";
    }
  }

  /** Texts with a comma after all but the last. */
  function Commas(texts: seq<string>): string {
    if texts == [] then ""
    else if |texts| == 1 then texts[0]
    else texts[0] + ", " + Commas(texts[1..])
  }

  lemma {:induction false} CommasSnoc(texts: seq<string>, text: string)
    ensures Commas(texts + [text]) == (if texts == [] then "" else Commas(texts) + ", ") + text
  {
    if texts == [] {
      assert texts + [text] == [text];
    } else {
      assert (texts + [text])[1..] == texts[1..] + [text];
      CommasSnoc(texts[1..], text);
      if |texts| > 1 {
        assert texts[0] + ", " + ((Commas(texts[1..]) + ", ") + text) == (texts[0] + ", " + Commas(texts[1..]) + ", ") + text;
      } else {
        assert texts[1..] == [];
      }
    }
  }

  function ScalarTexts(l: seq<Scalar>): (texts: seq<string>)
    ensures |texts| == |l| && forall i | 0 <= i < |l| :: texts[i] == ScalarText(l[i])
  {
    seq(|l|, i requires 0 <= i < |l| => ScalarText(l[i]))
  }

  function EntryTexts(m: seq<(string, Scalar)>): (texts: seq<string>)
    ensures |texts| == |m| && forall i | 0 <= i < |m| :: texts[i] == EntryText(m[i])
  {
    seq(|m|, i requires 0 <= i < |m| => EntryText(m[i]))
  }

  lemma {:induction false} ListBodyCommas(l: seq<Scalar>)
    ensures ListBody(l) == Commas(ScalarTexts(l))
  {
    if |l| > 1 {
      ListBodyCommas(l[1..]);
      assert ScalarTexts(l)[1..] == ScalarTexts(l[1..]);
    }
  }

  lemma {:induction false} MapBodyCommas(m: seq<(string, Scalar)>)
    ensures MapBody(m) == Commas(EntryTexts(m))
  {
    if |m| > 1 {
      MapBodyCommas(m[1..]);
      assert EntryTexts(m)[1..] == EntryTexts(m[1..]);
    }
  }

  /** What the loops of `formatList` and `formatMap` have written after the first `k` elements. */
  function Written(bracket: string, texts: seq<string>, k: nat): string
    requires k <= |texts|
  {
    bracket + Commas(texts[..k]) + if 0 < k < |texts| then ", " else ""
  }

  lemma WrittenNext(bracket: string, texts: seq<string>, k: nat)
    requires k < |texts|
    ensures Written(bracket, texts, k + 1) ==
            if k + 1 < |texts| then Written(bracket, texts, k) + texts[k] + ", " else Written(bracket, texts, k) + texts[k]
  {
    assert texts[..k + 1] == texts[..k] + [texts[k]];
    CommasSnoc(texts[..k], texts[k]);
    var sep := if k == 0 then "" else ", ";
    var before := Commas(texts[..k]);
    assert bracket + ((before + sep) + texts[k]) == (bracket + before + sep) + texts[k];
  }

  lemma WrittenAll(bracket: string, texts: seq<string>)
    ensures Written(bracket, texts, 0) == bracket && Written(bracket, texts, |texts|) == bracket + Commas(texts)
  {
    assert texts[..|texts|] == texts;
  }

  method FormatList(l: seq<Scalar>) returns (oss: string)
    ensures oss == ListText(l)
  {
    hide ScalarText, ScalarTexts, Written, Commas, ListBody;
    ghost var texts := ScalarTexts(l);
    WrittenAll("[", texts);
    ListBodyCommas(l);
    oss := "[";
    var index := 0;
    for k := 0 to |l|
      invariant index == k && oss == Written("[", texts, k)
    {
      WrittenNext("[", texts, k);
      var text := GetScalar(l[k]);
      oss := oss + text;
      index := index + 1;
      if index < |l| {
        oss := oss + ", ";
      }
    }
    oss := oss + "]";
  }

  method FormatMap(m: seq<(string, Scalar)>) returns (oss: string)
    ensures oss == MapText(m)
  {
    hide ScalarText, EntryTexts, Written, Commas, MapBody;
    ghost var texts := EntryTexts(m);
    WrittenAll("{", texts);
    MapBodyCommas(m);
    oss := "{";
    var index := 0;
    for k := 0 to |m|
      invariant index == k && oss == Written("{", texts, k)
    {
      WrittenNext("{", texts, k);
      var text := GetScalar(m[k].1);
      oss := oss + ("'" + m[k].0 + "': " + text);
      index := index + 1;
      if index < |m| {
        oss := oss + ", ";
      }
    }
    oss := oss + "}";
  }

  /** `getValue`. */
  method GetValue(v: Value) returns (text: string)
    ensures text == ValueText(v)
  {
    match v {
      case Single(s) => text := GetScalar(s);
      case ListValue(l) => text := FormatList(l);
      case MapValue(m) => text := FormatMap(m);
      case ArrayOrDescribed => text := "";
    }
  }

  // ---------- reading ----------

  /** The content of a quoted string up to its closing quote, and what follows; `\'` stands for a quote. */
  function ReadQuoted(t: string): Maybe<(string, string)>
    decreases |t|
  {
    if t == "" then None
    else if t[0] == '\'' then Some(("", t[1..]))
    else
      var n := if "\\'" <= t then 2 else 1;
      match ReadQuoted(t[n..])
      case None => None
      case Some(r) => Some(([if n == 2 then '\'' else t[0]] + r.0, r.1))
  }

  function ReadNumber(t: string): Maybe<(Scalar, string)> {
    var negative := t != "" && t[0] == '-';
    var u := if negative then t[1..] else t;
    var d := DigitRun(u);
    if d == "" then None
    else
      var n: int := NatOf(d);
      Some((Number(if negative then -n else n), u[|d|..]))
  }

  function ReadScalar(t: string): Maybe<(Scalar, string)> {
    if "None" <= t then Some((Null, t[4..]))
    else if "'" <= t then
      match ReadQuoted(t[1..])
      case None => None
      case Some(r) => if r.0 == "" then None else Some((Str(r.0), r.1))
    else ReadNumber(t)
  }

  lemma {:induction false} QuotedRest(t: string)
    ensures ReadQuoted(t).Some? ==> |ReadQuoted(t).value.1| < |t|
    decreases |t|
  {
    if t != "" && t[0] != '\'' {
      QuotedRest(t[if "\\'" <= t then 2 else 1..]);
    }
  }

  lemma ScalarRest(t: string)
    ensures ReadScalar(t).Some? ==> |ReadScalar(t).value.1| < |t|
  {
    if "'" <= t {
      QuotedRest(t[1..]);
    }
  }

  /** Scalars separated by commas, up to the closing bracket. */
  function ReadItems(t: string): Maybe<(seq<Scalar>, string)>
    decreases |t|
  {
    ScalarRest(t);
    match ReadScalar(t)
    case None => None
    case Some(r) =>
      if "]" <= r.1 then Some(([r.0], r.1[1..]))
      else if ", " <= r.1 then
        match ReadItems(r.1[2..])
        case None => None
        case Some(q) => Some(([r.0] + q.0, q.1))
      else None
  }

  function ReadList(t: string): Maybe<seq<Scalar>> {
    if t == "[]" then Some([])
    else if "[" <= t then
      match ReadItems(t[1..])
      case None => None
      case Some(r) => if r.1 == "" then Some(r.0) else None
    else None
  }

  /** `'key': scalar`; the key is everything up to the next quote. */
  function ReadEntry(t: string): (r: Maybe<((string, Scalar), string)>)
    ensures r.Some? ==> |r.value.1| < |t| && '\'' !in r.value.0.0
  {
    var q := if t == "" then None else IndexOf(t, "'", 1);
    if !("'" <= t) || q.None? || !("': " <= t[q.value..]) then None
    else
      FindChar(t, '\'', 1);
      ScalarRest(t[q.value + 3..]);
      match ReadScalar(t[q.value + 3..])
      case None => None
      case Some(r) => Some(((t[1..q.value], r.0), r.1))
  }

  function ReadEntries(t: string): Maybe<(seq<(string, Scalar)>, string)>
    decreases |t|
  {
    match ReadEntry(t)
    case None => None
    case Some(r) =>
      if "}" <= r.1 then Some(([r.0], r.1[1..]))
      else if ", " <= r.1 then
        match ReadEntries(r.1[2..])
        case None => None
        case Some(q) => Some(([r.0] + q.0, q.1))
      else None
  }

  function ReadMap(t: string): Maybe<seq<(string, Scalar)>> {
    if t == "{}" then Some([])
    else if "{" <= t then
      match ReadEntries(t[1..])
      case None => None
      case Some(r) => if r.1 == "" then Some(r.0) else None
    else None
  }

  /** Any text of `getValue`: its first character tells lists, maps and scalars apart; no text is an array. */
  function ReadValue(t: string): Maybe<Value> {
    if t == "" then Some(ArrayOrDescribed)
    else if t[0] == '[' then
      match ReadList(t)
      case None => None
      case Some(l) => Some(ListValue(l))
    else if t[0] == '{' then
      match ReadMap(t)
      case None => None
      case Some(m) => Some(MapValue(m))
    else
      match ReadScalar(t)
      case None => None
      case Some(r) => if r.1 == "" then Some(Single(r.0)) else None
  }
}
