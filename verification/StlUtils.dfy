/**
 src/common/STLUtils.h: splitting text at separator characters and reading `k:v;k:v` properties into a map.
 */
module StlUtils {
  import opened CppStrings

  /** `input.find_first_of(sep, from)`. */
  function FirstSeparator(input: string, sep: string, from: nat): (r: Maybe<nat>)
    ensures r.Some? ==> from <= r.value < |input| && input[r.value] in sep
    decreases |input| - from
  {
    if from >= |input| then None
    else if input[from] in sep then Some(from)
    else FirstSeparator(input, sep, from + 1)
  }

  predicate Free(s: string, sep: string) {
    forall c | c in s :: c !in sep
  }

  lemma {:induction false} FirstSeparatorIs(input: string, sep: string, from: nat, i: nat)
    requires from <= i <= |input| && Free(input[from..i], sep) && (i < |input| ==> input[i] in sep)
    ensures FirstSeparator(input, sep, from) == if i < |input| then Some(i) else None
    decreases i - from
  {
    if from < i {
      assert input[from..i] == [input[from]] + input[from + 1..i];
      FirstSeparatorIs(input, sep, from + 1, i);
    }
  }

  lemma {:induction false} FreeBeforeSeparator(input: string, sep: string, from: nat)
    requires from <= |input|
    ensures var r := FirstSeparator(input, sep, from);
            Free(input[from..if r.Some? then r.value else |input|], sep)
    decreases |input| - from
  {
    if from < |input| && input[from] !in sep {
      FreeBeforeSeparator(input, sep, from + 1);
      var r := FirstSeparator(input, sep, from);
      var to := if r.Some? then r.value else |input|;
      assert input[from..to] == [input[from]] + input[from + 1..to];
    }
  }

  /** All fields of the text from `from` on, also an empty one behind a trailing separator. */
  function Fields(input: string, sep: string, from: nat): seq<string>
    requires from <= |input|
    decreases |input| - from
  {
    match FirstSeparator(input, sep, from)
    case None => [input[from..]]
    case Some(i) => [input[from..i]] + Fields(input, sep, i + 1)
  }

  predicate EndsInSeparator(input: string, sep: string) {
    input != "" && input[|input| - 1] in sep
  }

  /** What `split` returns: an empty field behind a trailing separator is dropped. */
  function Parts(input: string, sep: string): seq<string> {
    var fields := Fields(input, sep, 0);
    if EndsInSeparator(input, sep) then fields[..|fields| - 1] else fields
  }

  /** The end of the splitting loop, where everything but the text from `curr` on is already split off. */
  lemma SplitEnds(input: string, sep: string, curr: nat, result: seq<string>)
    requires curr <= |input| && FirstSeparator(input, sep, curr) == None
    requires result + Fields(input, sep, curr) == Fields(input, sep, 0)
    requires curr > 0 ==> input[curr - 1] in sep
    ensures Parts(input, sep) == if curr == 0 || curr < |input| then result + [input[curr..]] else result
  {
    FreeBeforeSeparator(input, sep, curr);
    assert input[curr..|input|] == input[curr..];
    assert curr < |input| ==> input[|input| - 1] == input[curr..][|input| - 1 - curr];
    assert (result + [input[curr..]])[..|result|] == result;
  }

  method Split(input: string, sep: string) returns (result: seq<string>)
    ensures result == Parts(input, sep)
  {
    hide FirstSeparator, Parts;
    result := [];
    var curr: nat := 0;
    var next := FirstSeparator(input, sep, curr);
    while next.Some?
      invariant curr <= |input| && next == FirstSeparator(input, sep, curr)
      invariant result + Fields(input, sep, curr) == Fields(input, sep, 0)
      invariant curr > 0 ==> input[curr - 1] in sep
      decreases |input| - curr
    {
      ghost var before, field := result, [input[curr..next.value]];
      assert Fields(input, sep, curr) == field + Fields(input, sep, next.value + 1);
      result := result + [input[curr..next.value]];
      curr := next.value + 1;
      Assoc(before, field, Fields(input, sep, curr));
      next := FirstSeparator(input, sep, curr);
    }
    SplitEnds(input, sep, curr, result);
    if curr == 0 || curr < |input| {
      result := result + [input[curr..]];
    }
  }

  // ---------- what split returns ----------

  /** The separators of the text, in order. */
  function Separators(input: string, sep: string, from: nat): string
    requires from <= |input|
    decreases |input| - from
  {
    match FirstSeparator(input, sep, from)
    case None => ""
    case Some(i) => [input[i]] + Separators(input, sep, i + 1)
  }

  lemma {:induction false} FieldsRejoin(input: string, sep: string, from: nat)
    requires from <= |input|
    ensures var fields, seps := Fields(input, sep, from), Separators(input, sep, from);
            && |fields| == |seps| + 1
            && Weave(fields, seps) == input[from..]
            && (forall f | f in fields :: Free(f, sep))
    decreases |input| - from
  {
    hide FirstSeparator, Weave;
    FreeBeforeSeparator(input, sep, from);
    var r := FirstSeparator(input, sep, from);
    if r.Some? {
      var i := r.value;
      FieldsRejoin(input, sep, i + 1);
      WeaveCons(input[from..i], input[i], Fields(input, sep, i + 1), Separators(input, sep, i + 1));
      assert input[from..] == input[from..r.value] + [input[r.value]] + input[r.value + 1..];
    } else {
      assert input[from..|input|] == input[from..];
      WeaveOne(input[from..]);
    }
  }

  lemma WeaveOne(piece: string)
    ensures Weave([piece], "") == piece
  {
  }

  lemma {:induction false} TrailingFieldIsEmpty(input: string, sep: string, from: nat)
    requires from < |input| && EndsInSeparator(input, sep)
    ensures var fields := Fields(input, sep, from);
            |fields| >= 2 && fields[|fields| - 1] == ""
    decreases |input| - from
  {
    FreeBeforeSeparator(input, sep, from);
    assert input[from..|input|][|input| - 1 - from] == input[|input| - 1];
    var r := FirstSeparator(input, sep, from);
    assert r.Some?;
    if r.value + 1 < |input| {
      TrailingFieldIsEmpty(input, sep, r.value + 1);
    } else {
      assert input[r.value + 1..] == "";
      assert FirstSeparator(input, sep, r.value + 1) == None;
    }
  }

  /**
   `split` never returns an empty vector; its separator-free parts, woven with the separators of the
   input, are the input, up to the one empty part behind a trailing separator.
   */
  lemma SplitRejoins(input: string, sep: string)
    ensures var parts, seps := Parts(input, sep), Separators(input, sep, 0);
            && parts != []
            && (forall p | p in parts :: Free(p, sep))
            && |parts| + (if EndsInSeparator(input, sep) then 1 else 0) == |seps| + 1
            && Weave(if EndsInSeparator(input, sep) then parts + [""] else parts, seps) == input
  {
    FieldsRejoin(input, sep, 0);
    assert input[0..] == input;
    var fields := Fields(input, sep, 0);
    if EndsInSeparator(input, sep) {
      TrailingFieldIsEmpty(input, sep, 0);
      assert Parts(input, sep) + [""] == fields;
    }
  }

  // ---------- maps ----------

  /** Every even element is the key of the element behind it; a last key without a value is dropped. */
  function PairsInto(output: map<string, string>, input: seq<string>): map<string, string>
    decreases |input|
  {
    if |input| < 2 then output else PairsInto(output[input[0] := input[1]], input[2..])
  }

  /** `convertToMap`: `input.size() - 1` wraps for an empty vector, which the callers never pass. */
  method ConvertToMap(input: seq<string>, output: map<string, string>) returns (result: map<string, string>)
    requires 0 < |input| <= MAX_SIZE
    ensures result == PairsInto(output, input)
  {
    result := output;
    var i: nat := 0;
    while i < Wrapped(|input| - 1)
      invariant i <= |input|
      invariant PairsInto(result, input[i..]) == PairsInto(output, input)
    {
      var key, value := input[i], input[i + 1];
      assert input[i..][2..] == input[i + 2..];
      result := result[key := value];
      i := i + 2;
    }
  }

  function PropertiesInto(output: map<string, string>, properties: seq<string>, sep: string): map<string, string>
    decreases |properties|
  {
    if properties == [] then output
    else PropertiesInto(PairsInto(output, Parts(properties[0], sep)), properties[1..], sep)
  }

  method ConvertPropertiesToMap(properties: seq<string>, output: map<string, string>, sep: string)
    returns (result: map<string, string>)
    requires forall p | p in properties :: |p| < MAX_SIZE
    ensures result == PropertiesInto(output, properties, sep)
  {
    result := output;
    for i := 0 to |properties|
      invariant PropertiesInto(result, properties[i..], sep) == PropertiesInto(output, properties, sep)
    {
      var parts := Split(properties[i], sep);
      SplitRejoins(properties[i], sep);
      PartsAreFew(properties[i], sep);
      assert properties[i..][1..] == properties[i + 1..];
      result := ConvertToMap(parts, result);
    }
  }

  lemma {:induction false} FieldsAreFew(input: string, sep: string, from: nat)
    requires from <= |input|
    ensures 0 < |Fields(input, sep, from)| <= |input| - from + 1
    decreases |input| - from
  {
    var r := FirstSeparator(input, sep, from);
    if r.Some? {
      FieldsAreFew(input, sep, r.value + 1);
    }
  }

  lemma PartsAreFew(input: string, sep: string)
    ensures |Parts(input, sep)| <= |input| + 1
  {
    FieldsAreFew(input, sep, 0);
  }

  // ---------- k:v;k:v ----------

  type Pair = (string, string)

  /** The last value of each name. */
  function LastWins(start: map<string, string>, pairs: seq<Pair>): map<string, string>
    decreases |pairs|
  {
    if pairs == [] then start else LastWins(start[pairs[0].0 := pairs[0].1], pairs[1..])
  }

  /** Keys and values in turn. */
  function Flat(pairs: seq<Pair>): seq<string> {
    if pairs == [] then [] else [pairs[0].0, pairs[0].1] + Flat(pairs[1..])
  }

  /** Converting keys and values in turn writes every pair, later ones over earlier ones, and drops a last key without a value. */
  lemma {:induction false} PairsWritten(output: map<string, string>, pairs: seq<Pair>, key: string)
    ensures PairsInto(output, Flat(pairs)) == LastWins(output, pairs)
    ensures PairsInto(output, Flat(pairs) + [key]) == LastWins(output, pairs)
    decreases |pairs|
  {
    if pairs == [] {
      assert Flat(pairs) + [key] == [key];
    } else {
      var first, rest := [pairs[0].0, pairs[0].1], Flat(pairs[1..]);
      assert (first + rest)[2..] == rest;
      assert (first + rest + [key])[2..] == rest + [key];
      PairsWritten(output[pairs[0].0 := pairs[0].1], pairs[1..], key);
    }
  }

  function WithValue(pairs: seq<Pair>): seq<Pair> {
    if pairs == [] then []
    else (if pairs[0].1 != "" then [pairs[0]] else []) + WithValue(pairs[1..])
  }

  function PropertyOf(p: Pair): string {
    p.0 + ":" + p.1
  }

  function PropertyText(pairs: seq<Pair>): string
    requires pairs != []
  {
    if |pairs| == 1 then PropertyOf(pairs[0]) else PropertyOf(pairs[0]) + ";" + PropertyText(pairs[1..])
  }

  function Properties(pairs: seq<Pair>): seq<string> {
    if pairs == [] then [] else [PropertyOf(pairs[0])] + Properties(pairs[1..])
  }

  predicate DelimiterFree(p: Pair) {
    Free(p.0, ":;") && Free(p.1, ":;")
  }

  /** One property splits into its key and its value, or only its key when the value is empty. */
  lemma PropertyParts(p: Pair)
    requires DelimiterFree(p)
    ensures Parts(PropertyOf(p), ":") == if p.1 == "" then [p.0] else [p.0, p.1]
  {
    var s, i := PropertyOf(p), |p.0|;
    assert s[0..i] == p.0 && s[i] == ':' && s[i + 1..] == p.1;
    FirstSeparatorIs(s, ":", 0, i);
    assert s[i + 1..|s|] == p.1;
    FirstSeparatorIs(s, ":", i + 1, |s|);
    assert Fields(s, ":", 0) == [p.0] + [p.1];
    if p.1 != "" {
      assert s[|s| - 1] == p.1[|p.1| - 1];
      assert s[|s| - 1] in p.1;
    }
  }

  lemma ItemIsFree(p: Pair)
    requires DelimiterFree(p)
    ensures Free(PropertyOf(p), ";")
  {
  }

  lemma LastField(pre: string, item: string)
    requires Free(item, ";")
    ensures Fields(pre + item, ";", |pre|) == [item]
  {
    var s := pre + item;
    assert s[|pre|..|s|] == item && s[|pre|..] == item;
    FirstSeparatorIs(s, ";", |pre|, |s|);
  }

  lemma NextField(pre: string, item: string, rest: string)
    requires Free(item, ";")
    ensures var s := pre + item + ";" + rest;
            Fields(s, ";", |pre|) == [item] + Fields(s, ";", |pre + item + ";"|)
  {
    var s, i := pre + item + ";" + rest, |pre| + |item|;
    assert s[|pre|..i] == item && s[i] == ';';
    FirstSeparatorIs(s, ";", |pre|, i);
  }

  /** The fields of the text are its properties. */
  lemma {:induction false} TextFields(pairs: seq<Pair>, pre: string)
    requires pairs != [] && forall p | p in pairs :: DelimiterFree(p)
    ensures Fields(pre + PropertyText(pairs), ";", |pre|) == Properties(pairs)
    decreases |pairs|
  {
    hide PropertyOf, FirstSeparator;
    var item := PropertyOf(pairs[0]);
    assert pairs[0] in pairs;
    ItemIsFree(pairs[0]);
    if |pairs| == 1 {
      LastField(pre, item);
      assert Properties(pairs) == [item] + Properties(pairs[1..]) == [item];
    } else {
      var rest := PropertyText(pairs[1..]);
      assert pre + (item + ";" + rest) == pre + item + ";" + rest;
      NextField(pre, item, rest);
      TextFields(pairs[1..], pre + item + ";");
    }
  }

  lemma {:induction false} TextEndsInValue(pairs: seq<Pair>)
    requires pairs != [] && forall p | p in pairs :: DelimiterFree(p)
    ensures !EndsInSeparator(PropertyText(pairs), ";")
    decreases |pairs|
  {
    assert pairs[0] in pairs;
    if |pairs| == 1 {
      var s, p := PropertyOf(pairs[0]), pairs[0];
      assert s[|s| - 1] == if p.1 == "" then ':' else p.1[|p.1| - 1];
      assert p.1 != "" ==> p.1[|p.1| - 1] in p.1;
    } else {
      TextEndsInValue(pairs[1..]);
      var rest := PropertyText(pairs[1..]);
      assert rest != "" by { assert ':' in PropertyOf(pairs[1..][0]); }
    }
  }

  lemma {:induction false} PropertiesMap(start: map<string, string>, pairs: seq<Pair>)
    requires forall p | p in pairs :: DelimiterFree(p)
    ensures PropertiesInto(start, Properties(pairs), ":") == LastWins(start, WithValue(pairs))
    decreases |pairs|
  {
    if pairs != [] {
      var p := pairs[0];
      assert p in pairs;
      PropertyParts(p);
      var next := PairsInto(start, Parts(PropertyOf(p), ":"));
      assert next == if p.1 == "" then start else start[p.0 := p.1] by {
        var kv := [p.0, p.1];
        assert kv[2..] == [];
        assert PairsInto(start, kv) == PairsInto(start[kv[0] := kv[1]], kv[2..]);
      }
      assert Properties(pairs)[1..] == Properties(pairs[1..]);
      PropertiesMap(next, pairs[1..]);
      if p.1 == "" {
        assert WithValue(pairs) == WithValue(pairs[1..]);
      } else {
        assert WithValue(pairs) == [p] + WithValue(pairs[1..]);
        assert ([p] + WithValue(pairs[1..]))[1..] == WithValue(pairs[1..]);
      }
    }
  }

  /** `k:v;k:v` text reads back as its last-wins map; pairs with an empty value leave no trace. */
  lemma PropertyTextRoundTrip(start: map<string, string>, pairs: seq<Pair>)
    requires forall p | p in pairs :: DelimiterFree(p)
    ensures var text := if pairs == [] then "" else PropertyText(pairs);
            PropertiesInto(start, Parts(text, ";"), ":") == LastWins(start, WithValue(pairs))
  {
    if pairs == [] {
      assert Fields("", ";", 0) == [""] && Fields("", ":", 0) == [""];
      assert Parts("", ";") == [""] && [""][1..] == [];
    } else {
      TextFields(pairs, "");
      assert "" + PropertyText(pairs) == PropertyText(pairs);
      TextEndsInValue(pairs);
      PropertiesMap(start, pairs);
    }
  }
}
