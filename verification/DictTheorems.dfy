/**
 What the reader of module DictFormatting makes of the Python-dict text: exactly which flat values it
 recovers. Module DictTexts says what the text itself keeps.
 */
module DictTheorems {
  import opened CppStrings
  import opened DictFormatting

  // ---------- escaping ----------

  /** Dropping the backslash in front of every quote. */
  function Unescaped(t: string): string {
    if t == "" then ""
    else if "\\'" <= t then "'" + Unescaped(t[2..])
    else [t[0]] + Unescaped(t[1..])
  }

  lemma EscapedFirst(s: string)
    ensures Escaped(s) == "" <==> s == ""
    ensures s != "" ==> Escaped(s)[0] != '\''
    ensures s != "" ==> Escaped(s) == (if s[0] == '\'' then "\\'" else [s[0]]) + Escaped(s[1..])
  {
  }

  lemma {:induction false} UnescapedEscaped(s: string)
    ensures Unescaped(Escaped(s)) == s
    decreases |s|
  {
    EscapedFirst(s);
    if s != "" {
      var t, rest := Escaped(s), Escaped(s[1..]);
      EscapedFirst(s[1..]);
      UnescapedEscaped(s[1..]);
      if s[0] == '\'' {
        assert t[..2] == "\\'" && t[2..] == rest;
      } else {
        assert t[0] == s[0] && t[1..] == rest;
        assert !("\\'" <= t) by { assert |t| > 1 ==> t[1] == rest[0]; }
      }
    }
  }

  /** Escaping is injective on all strings. */
  lemma EscapingIsInjective(a: string, b: string)
    requires Escaped(a) == Escaped(b)
    ensures a == b
  {
    UnescapedEscaped(a);
    UnescapedEscaped(b);
  }

  // ---------- scalars ----------

  predicate NoTrailingBackslash(s: string) {
    s == "" || s[|s| - 1] != '\\'
  }

  /** The scalars whose text says what they are. */
  predicate Readable(v: Scalar) {
    match v
    case Null => true
    case Number(_) => true
    case Str(s) => s != "" && NoTrailingBackslash(s)
    case Floating(_) => false
    case Quoted(_) => false
  }

  lemma {:induction false} QuotedRoundTrip(s: string, rest: string)
    requires NoTrailingBackslash(s)
    ensures ReadQuoted(Escaped(s) + "'" + rest) == Some((s, rest))
    decreases |s|
  {
    hide Escaped;
    var t := Escaped(s) + "'" + rest;
    EscapedFirst(s);
    if s == "" {
      assert t[0] == '\'' && t[1..] == rest;
    } else {
      var more := Escaped(s[1..]) + "'" + rest;
      EscapedFirst(s[1..]);
      QuotedRoundTrip(s[1..], rest);
      Assoc(if s[0] == '\'' then "\\'" else [s[0]], Escaped(s[1..]), "'");
      Assoc(if s[0] == '\'' then "\\'" else [s[0]], Escaped(s[1..]) + "'", rest);
      if s[0] == '\'' {
        assert t == "\\'" + more;
        assert t[2..] == more && "\\'" <= t;
      } else {
        assert t == [s[0]] + more;
        assert t[1..] == more && t[0] == s[0];
        assert !("\\'" <= t) by { assert s[1..] != "" ==> t[1] == Escaped(s[1..])[0]; }
      }
      assert s == [s[0]] + s[1..];
    }
  }

  /** No string is read with a backslash at its end: that backslash would have escaped the quote. */
  lemma {:induction false} QuotedIsReadable(t: string)
    ensures ReadQuoted(t).Some? ==> NoTrailingBackslash(ReadQuoted(t).value.0)
    decreases |t|
  {
    if t != "" && t[0] != '\'' {
      var n := if "\\'" <= t then 2 else 1;
      QuotedIsReadable(t[n..]);
      EmptyIsClosed(t[n..]);
    }
  }

  /** Only a closing quote ends a quoted string at once. */
  lemma EmptyIsClosed(t: string)
    ensures ReadQuoted(t).Some? && ReadQuoted(t).value.0 == "" ==> t != "" && t[0] == '\''
  {
  }

  lemma ScalarIsReadable(t: string)
    ensures ReadScalar(t).Some? ==> Readable(ReadScalar(t).value.0)
  {
    if "'" <= t {
      QuotedIsReadable(t[1..]);
    }
  }

  /** A readable scalar comes back, whatever follows that does not begin with a digit. */
  lemma ScalarRoundTrip(v: Scalar, rest: string)
    requires Readable(v) && (rest == "" || !IsDigit(rest[0]))
    ensures ReadScalar(ScalarText(v) + rest) == Some((v, rest))
  {
    hide ReadQuoted, ReadNumber, Escaped, Decimal;
    var t := ScalarText(v) + rest;
    match v
    case Null =>
      assert t[..4] == "None" && t[4..] == rest;
    case Number(n) =>
      NumberRoundTrip(n, rest);
      assert t[0] == Decimal(n)[0];
    case Str(s) =>
      var quoted := Escaped(s) + "'" + rest;
      assert t == "'" + quoted;
      assert t[1..] == quoted && t[0] == '\'';
      QuotedRoundTrip(s, rest);
    case Floating(_) =>
    case Quoted(_) =>
  }

  lemma NumberRoundTrip(n: int, rest: string)
    requires rest == "" || !IsDigit(rest[0])
    ensures ReadNumber(Decimal(n) + rest) == Some((Number(n), rest))
  {
    hide Digits, NatOf, DigitRun;
    var d := Digits(if n < 0 then -n else n);
    DigitRunStops(d, rest);
    NumberText(n < 0, d, rest);
  }

  lemma NumberText(negative: bool, d: string, rest: string)
    requires d != "" && IsDigit(d[0])
    ensures var t := (if negative then "-" + d else d) + rest;
            && t != "" && (t[0] == '-' <==> negative)
            && (if negative then t[1..] == d + rest else t == d + rest)
            && (d + rest)[|d|..] == rest
  {
  }

  /** On its own, a scalar comes back from its text exactly when it is readable. */
  lemma ScalarRoundTripIff(v: Scalar)
    ensures ReadScalar(ScalarText(v)) == Some((v, "")) <==> Readable(v)
  {
    ScalarIsReadable(ScalarText(v));
    if Readable(v) {
      ScalarRoundTrip(v, "");
      assert ScalarText(v) + "" == ScalarText(v);
    }
  }

  // ---------- lists ----------

  predicate AllReadable(l: seq<Scalar>) {
    forall v | v in l :: Readable(v)
  }

  lemma {:induction false} ItemsRoundTrip(l: seq<Scalar>, rest: string)
    requires l != [] && AllReadable(l)
    ensures ReadItems(ListBody(l) + "]" + rest) == Some((l, rest))
    decreases |l|
  {
    hide ScalarText, ReadScalar, Readable;
    assert l[0] in l;
    if |l| == 1 {
      var tail := "]" + rest;
      assert ListBody(l) + "]" + rest == ScalarText(l[0]) + tail;
      ScalarRoundTrip(l[0], tail);
      assert tail[1..] == rest && l == [l[0]];
    } else {
      var more := ListBody(l[1..]) + "]" + rest;
      var tail := ", " + more;
      assert ListBody(l) + "]" + rest == ScalarText(l[0]) + tail;
      ScalarRoundTrip(l[0], tail);
      assert tail[2..] == more && tail[..2] == ", " && tail[0] == ',';
      ItemsRoundTrip(l[1..], rest);
      assert l == [l[0]] + l[1..];
    }
  }

  lemma {:induction false} ItemsAreReadable(t: string)
    ensures ReadItems(t).Some? ==> AllReadable(ReadItems(t).value.0)
    decreases |t|
  {
    ScalarRest(t);
    ScalarIsReadable(t);
    var r := ReadScalar(t);
    if r.Some? && ", " <= r.value.1 {
      ItemsAreReadable(r.value.1[2..]);
    }
  }

  lemma TextIsNotEmpty(v: Scalar)
    ensures ScalarText(v) != ""
  {
  }

  /** A list is recovered from its text exactly when every element is readable. */
  lemma ListRoundTripIff(l: seq<Scalar>)
    ensures ReadList(ListText(l)) == Some(l) <==> AllReadable(l)
  {
    hide ScalarText, ReadItems, Readable;
    var t := ListText(l);
    ItemsAreReadable(t[1..]);
    if l == [] {
      assert t == "[]";
    } else {
      TextIsNotEmpty(l[0]);
      assert |t| > 2;
      assert t[1..] == ListBody(l) + "]" + "";
      if AllReadable(l) {
        ItemsRoundTrip(l, "");
      }
    }
  }

  // ---------- maps ----------

  predicate ReadableEntry(e: (string, Scalar)) {
    '\'' !in e.0 && Readable(e.1)
  }

  predicate AllEntriesReadable(m: seq<(string, Scalar)>) {
    forall e | e in m :: ReadableEntry(e)
  }

  lemma EntryRoundTrip(e: (string, Scalar), rest: string)
    requires ReadableEntry(e) && (rest == "" || !IsDigit(rest[0]))
    ensures ReadEntry(EntryText(e) + rest) == Some((e, rest))
  {
    hide ScalarText, ReadScalar, Readable, IndexOf;
    var text := ScalarText(e.1) + rest;
    var t := EntryText(e) + rest;
    assert t == "'" + e.0 + ("': " + text);
    var q := 1 + |e.0|;
    assert t[1..q] == e.0 && t[q] == '\'' && t[q..] == "': " + text && t[q + 3..] == text;
    FoundChar(t, '\'', 1, q);
    ScalarRoundTrip(e.1, rest);
    assert ("': " + text)[..3] == "': ";
  }

  lemma EntryIsReadable(t: string)
    ensures ReadEntry(t).Some? ==> ReadableEntry(ReadEntry(t).value.0)
  {
    var q := if t == "" then None else IndexOf(t, "'", 1);
    if "'" <= t && q.Some? && "': " <= t[q.value..] {
      ScalarIsReadable(t[q.value + 3..]);
    }
  }

  lemma {:induction false} EntriesRoundTrip(m: seq<(string, Scalar)>, rest: string)
    requires m != [] && AllEntriesReadable(m)
    ensures ReadEntries(MapBody(m) + "}" + rest) == Some((m, rest))
    decreases |m|
  {
    hide EntryText, ReadEntry, ReadableEntry;
    assert m[0] in m;
    if |m| == 1 {
      var tail := "}" + rest;
      assert MapBody(m) + "}" + rest == EntryText(m[0]) + tail;
      EntryRoundTrip(m[0], tail);
      assert tail[1..] == rest && m == [m[0]];
    } else {
      var more := MapBody(m[1..]) + "}" + rest;
      var tail := ", " + more;
      assert MapBody(m) + "}" + rest == EntryText(m[0]) + tail;
      EntryRoundTrip(m[0], tail);
      assert tail[2..] == more && tail[..2] == ", " && tail[0] == ',';
      EntriesRoundTrip(m[1..], rest);
      assert m == [m[0]] + m[1..];
    }
  }

  lemma {:induction false} EntriesAreReadable(t: string)
    ensures ReadEntries(t).Some? ==> AllEntriesReadable(ReadEntries(t).value.0)
    decreases |t|
  {
    EntryIsReadable(t);
    var r := ReadEntry(t);
    if r.Some? && ", " <= r.value.1 {
      EntriesAreReadable(r.value.1[2..]);
    }
  }

  lemma EntryIsNotEmpty(e: (string, Scalar))
    ensures EntryText(e) != ""
  {
  }

  /** A map is recovered from its text exactly when every value is readable and no key has a quote. */
  lemma MapRoundTripIff(m: seq<(string, Scalar)>)
    ensures ReadMap(MapText(m)) == Some(m) <==> AllEntriesReadable(m)
  {
    hide EntryText, ReadEntries, ReadableEntry;
    var t := MapText(m);
    EntriesAreReadable(t[1..]);
    if m == [] {
      assert t == "{}";
    } else {
      EntryIsNotEmpty(m[0]);
      assert |t| > 2;
      assert t[1..] == MapBody(m) + "}" + "";
      if AllEntriesReadable(m) {
        EntriesRoundTrip(m, "");
      }
    }
  }

  // ---------- any value ----------

  lemma TextBegins(v: Value)
    ensures var t := ValueText(v);
            match v
            case Single(_) => t != "" && t[0] != '[' && t[0] != '{'
            case ListValue(_) => t != "" && t[0] == '['
            case MapValue(_) => t != "" && t[0] == '{'
            case ArrayOrDescribed => t == ""
  {
    hide Escaped, ListBody, MapBody, Decimal;
    if v.Single? && v.s.Floating? {
      assert v.s.digits[0] in v.s.digits;
    }
  }

  /** What `getValue` prints is recovered exactly for readable scalars, and for lists and maps of them. */
  lemma ValueRoundTripIff(v: Value)
    ensures ReadValue(ValueText(v)) == Some(v) <==>
            match v
            case Single(s) => Readable(s)
            case ListValue(l) => AllReadable(l)
            case MapValue(m) => AllEntriesReadable(m)
            case ArrayOrDescribed => true
  {
    hide ScalarText, ListText, MapText, ReadScalar, ReadList, ReadMap, Readable;
    TextBegins(v);
    match v
    case Single(s) => ScalarRoundTripIff(s);
    case ListValue(l) => ListRoundTripIff(l);
    case MapValue(m) => MapRoundTripIff(m);
    case ArrayOrDescribed =>
  }

  /** Two values print alike exactly if they are of one kind and print alike as scalars, lists or maps. */
  lemma ValueTextsAlike(v: Value, w: Value)
    ensures ValueText(v) == ValueText(w) <==>
            || (v.Single? && w.Single? && ScalarText(v.s) == ScalarText(w.s))
            || (v.ListValue? && w.ListValue? && ListText(v.l) == ListText(w.l))
            || (v.MapValue? && w.MapValue? && MapText(v.m) == MapText(w.m))
            || (v.ArrayOrDescribed? && w.ArrayOrDescribed?)
  {
    hide ScalarText, ListText, MapText;
    TextBegins(v);
    TextBegins(w);
  }
}
