/**
 The parts of `std::string` and of stream formatting that the modelled code relies on:
 searching with `npos`, `substr`, `size_t` wrap-around, and printing and reading `long`s.
 */
module CppStrings {

  datatype Maybe<+T> = None | Some(value: T)

  // size_t is 64 bits wide; string::npos is its largest value.
  const SIZE_MODULUS: int := 0x1_0000_0000_0000_0000
  const NPOS: nat := SIZE_MODULUS - 1
  // string::max_size(): no std::string is longer than this.
  const MAX_SIZE: nat := 0x7FFF_FFFF_FFFF_FFFF

  /** The result of `size_t` arithmetic whose exact value is `n`. */
  function Wrapped(n: int): (r: nat)
    ensures r < SIZE_MODULUS
    ensures 0 <= n < SIZE_MODULUS ==> r == n
    ensures -SIZE_MODULUS <= n < 0 ==> r == n + SIZE_MODULUS
    ensures SIZE_MODULUS <= n < 2 * SIZE_MODULUS ==> r == n - SIZE_MODULUS
  {
    n % SIZE_MODULUS
  }

  lemma Assoc<T>(a: seq<T>, b: seq<T>, c: seq<T>)
    ensures (a + b) + c == a + (b + c)
  {
  }

  // ---------- searching ----------

  predicate MatchAt(s: string, pat: string, i: nat) {
    i + |pat| <= |s| && s[i..i + |pat|] == pat
  }

  /** `s.find(pat, from)`, with None for npos. */
  function IndexOf(s: string, pat: string, from: nat): (r: Maybe<nat>)
    ensures r.Some? ==> from <= r.value && r.value + |pat| <= |s|
    decreases |s| - from
  {
    if from + |pat| > |s| then None
    else if MatchAt(s, pat, from) then Some(from)
    else IndexOf(s, pat, from + 1)
  }

  /** `s.find(pat, from)` as the code sees it: a position, or npos. */
  function Find(s: string, pat: string, from: nat): nat {
    match IndexOf(s, pat, from)
    case Some(i) => i
    case None => NPOS
  }

  /** No match begins in [from, to). */
  ghost predicate NoMatch(s: string, pat: string, from: nat, to: nat) {
    forall j: nat | from <= j < to :: !MatchAt(s, pat, j)
  }

  /** `find` returns the first match, and npos only when there is none. */
  lemma {:induction false} FindsFirst(s: string, pat: string, from: nat)
    ensures match IndexOf(s, pat, from)
            case Some(i) => MatchAt(s, pat, i) && NoMatch(s, pat, from, i)
            case None => forall to :: NoMatch(s, pat, from, to)
    decreases |s| - from
  {
    if from + |pat| <= |s| && !MatchAt(s, pat, from) {
      FindsFirst(s, pat, from + 1);
      forall to | NoMatch(s, pat, from + 1, to)
        ensures NoMatch(s, pat, from, to)
      {
      }
    }
  }

  /** The first match is the only position that matches with no match before it. */
  lemma FoundAt(s: string, pat: string, from: nat, i: nat)
    requires from <= i && MatchAt(s, pat, i) && NoMatch(s, pat, from, i)
    ensures IndexOf(s, pat, from) == Some(i)
  {
    FindsFirst(s, pat, from);
    assert !NoMatch(s, pat, from, i + 1);
  }

  lemma CharMatch(s: string, c: char, i: nat)
    ensures MatchAt(s, [c], i) <==> i < |s| && s[i] == c
  {
    if i < |s| {
      assert s[i..i + 1] == [s[i]];
    }
  }

  /** Searching for one character, in terms of the characters passed over. */
  lemma {:induction false} FindChar(s: string, c: char, from: nat)
    ensures match IndexOf(s, [c], from)
            case Some(i) => s[i] == c && c !in s[from..i]
            case None => from <= |s| ==> c !in s[from..]
    decreases |s| - from
  {
    if from < |s| {
      CharMatch(s, c, from);
      if s[from] != c {
        FindChar(s, c, from + 1);
        var r := IndexOf(s, [c], from + 1);
        assert IndexOf(s, [c], from) == r;
        var to := if r.Some? then r.value else |s|;
        assert s[from..to] == [s[from]] + s[from + 1..to];
        assert s[from + 1..] == s[from + 1..|s|] && s[from..] == s[from..|s|];
      }
    }
  }

  lemma {:induction false} FoundChar(s: string, c: char, from: nat, i: nat)
    requires from <= i < |s| && s[i] == c && c !in s[from..i]
    ensures IndexOf(s, [c], from) == Some(i)
    decreases i - from
  {
    CharMatch(s, c, from);
    if from < i {
      assert s[from..i] == [s[from]] + s[from + 1..i];
      FoundChar(s, c, from + 1, i);
    }
  }

  lemma {:induction false} NotFoundChar(s: string, c: char, from: nat)
    requires from <= |s| && c !in s[from..]
    ensures IndexOf(s, [c], from) == None
    decreases |s| - from
  {
    if from < |s| {
      CharMatch(s, c, from);
      assert s[from..] == [s[from]] + s[from + 1..];
      NotFoundChar(s, c, from + 1);
    }
  }

  /** Searching in a suffix is searching the whole from where the suffix begins. */
  lemma {:induction false} IndexOfSuffix(s: string, pat: string, cut: nat, from: nat)
    requires cut <= |s|
    ensures match IndexOf(s[cut..], pat, from)
            case Some(i) => IndexOf(s, pat, cut + from) == Some(cut + i)
            case None => IndexOf(s, pat, cut + from) == None
    decreases |s| - from
  {
    if cut + from + |pat| <= |s| {
      assert s[cut..][from..from + |pat|] == s[cut + from..cut + from + |pat|];
      if !MatchAt(s, pat, cut + from) {
        IndexOfSuffix(s, pat, cut, from + 1);
      }
    }
  }

  lemma IndexOfTail(s: string, pat: string, from: nat)
    requires from <= |s|
    ensures match IndexOf(s[from..], pat, 0)
            case Some(i) => IndexOf(s, pat, from) == Some(from + i)
            case None => IndexOf(s, pat, from) == None
  {
    IndexOfSuffix(s, pat, from, 0);
  }

  // ---------- substr ----------

  /** `s.substr(pos, n)`; the standard throws out_of_range when `pos` is beyond the end. */
  function Substr(s: string, pos: nat, n: nat): string
    requires pos <= |s|
  {
    if n <= |s| - pos then s[pos..pos + n] else s[pos..]
  }

  // ---------- alternating pieces and separators ----------

  /** p0 + q0 + p1 + q1 + ... + pn: the pieces put back with one character between neighbours. */
  function Weave(pieces: seq<string>, seps: string): string
    requires |pieces| == |seps| + 1
  {
    if seps == [] then pieces[0]
    else pieces[0] + [seps[0]] + Weave(pieces[1..], seps[1..])
  }

  lemma WeaveCons(first: string, sep: char, pieces: seq<string>, seps: string)
    requires |pieces| == |seps| + 1
    ensures Weave([first] + pieces, [sep] + seps) == first + [sep] + Weave(pieces, seps)
  {
    assert ([first] + pieces)[1..] == pieces && ([sep] + seps)[1..] == seps;
  }

  lemma {:induction false} WeaveSnoc(pieces: seq<string>, seps: string, sep: char, last: string)
    requires |pieces| == |seps| + 1
    ensures Weave(pieces + [last], seps + [sep]) == Weave(pieces, seps) + [sep] + last
  {
    if seps == [] {
      assert (pieces + [last])[1..] == [last];
      assert (seps + [sep])[1..] == [];
    } else {
      WeaveSnoc(pieces[1..], seps[1..], sep, last);
      assert (pieces + [last])[1..] == pieces[1..] + [last];
      assert (seps + [sep])[1..] == seps[1..] + [sep];
    }
  }

  function Lengths(pieces: seq<string>): nat {
    if pieces == [] then 0 else |pieces[0]| + Lengths(pieces[1..])
  }

  lemma {:induction false} WeaveLength(pieces: seq<string>, seps: string)
    requires |pieces| == |seps| + 1
    ensures |Weave(pieces, seps)| == Lengths(pieces) + |seps|
  {
    if seps != [] {
      WeaveLength(pieces[1..], seps[1..]);
    }
  }

  lemma {:induction false} LengthsSnoc(pieces: seq<string>, last: string)
    ensures Lengths(pieces + [last]) == Lengths(pieces) + |last|
  {
    if pieces == [] {
    } else {
      LengthsSnoc(pieces[1..], last);
      assert (pieces + [last])[1..] == pieces[1..] + [last];
    }
  }

  // ---------- decimal numbers ----------

  const LONG_MAX: int := 0x7FFF_FFFF_FFFF_FFFF
  const LONG_MIN: int := -0x8000_0000_0000_0000

  predicate IsDigit(c: char) {
    '0' <= c <= '9'
  }

  predicate AllDigits(s: string) {
    forall i | 0 <= i < |s| :: IsDigit(s[i])
  }

  /** The decimal digits of `n`, most significant first. */
  function Digits(n: nat): (s: string)
    ensures s != [] && AllDigits(s) && NatOf(s) == n
  {
    if n < 10 then
      assert NatOf([('0' as int + n) as char]) == NatOf([]) * 10 + n by {
        assert [('0' as int + n) as char][..0] == [];
      }
      [('0' as int + n) as char]
    else
      var front := Digits(n / 10);
      var s := front + [('0' as int + n % 10) as char];
      assert s[..|s| - 1] == front;
      s
  }

  function NatOf(s: string): nat
    requires AllDigits(s)
  {
    if s == [] then 0 else NatOf(s[..|s| - 1]) * 10 + (s[|s| - 1] as int - '0' as int)
  }

  /** `ostream << n` for an integer. */
  function Decimal(n: int): (s: string)
    ensures s != []
    ensures s[0] == '-' || IsDigit(s[0])
  {
    if n < 0 then "-" + Digits(-n) else Digits(n)
  }

  lemma DecimalChars(n: int)
    ensures forall i | 0 <= i < |Decimal(n)| :: IsDigit(Decimal(n)[i]) || Decimal(n)[i] == '-'
  {
    hide Digits;
    assert n < 0 ==> Decimal(n)[1..] == Digits(-n);
  }

  /** The longest prefix of `s` made of digits. */
  function DigitRun(s: string): (d: string)
    ensures AllDigits(d) && d <= s
    ensures |d| < |s| ==> !IsDigit(s[|d|])
  {
    if s == [] || !IsDigit(s[0]) then []
    else [s[0]] + DigitRun(s[1..])
  }

  /** Digits followed by something else are read back as exactly those digits. */
  lemma {:induction false} DigitRunStops(d: string, rest: string)
    requires AllDigits(d) && (rest == [] || !IsDigit(rest[0]))
    ensures DigitRun(d + rest) == d
  {
    if d == [] {
      assert d + rest == rest;
    } else {
      DigitRunStops(d[1..], rest);
      assert (d + rest)[1..] == d[1..] + rest;
    }
  }

  /** Two different integers never print the same. */
  lemma DecimalInjective(m: int, n: int)
    requires Decimal(m) == Decimal(n)
    ensures m == n
  {
    assert m < 0 ==> Decimal(m)[0] == '-' && Decimal(m)[1..] == Digits(-m);
    assert n < 0 ==> Decimal(n)[0] == '-' && Decimal(n)[1..] == Digits(-n);
    assert m >= 0 ==> IsDigit(Decimal(m)[0]);
    assert n >= 0 ==> IsDigit(Decimal(n)[0]);
  }

  predicate IsSpace(c: char) {
    c == ' ' || '\t' <= c <= '\r'
  }

  function SkipSpace(s: string): string {
    if s != [] && IsSpace(s[0]) then SkipSpace(s[1..]) else s
  }

  function Clamped(n: int): int {
    if n < LONG_MIN then LONG_MIN else if n > LONG_MAX then LONG_MAX else n
  }

  /** What `istringstream(s) >> i` leaves in a `long`: 0 without digits, the nearest limit on overflow. */
  function ScanLong(s: string): int {
    var t := SkipSpace(s);
    var negative := t != [] && t[0] == '-';
    var u := if t != [] && (t[0] == '-' || t[0] == '+') then t[1..] else t;
    var v: int := NatOf(DigitRun(u));
    Clamped(if negative then -v else v)
  }

  lemma ScanDecimal(n: int)
    ensures ScanLong(Decimal(n)) == Clamped(n)
  {
    var s := Decimal(n);
    assert SkipSpace(s) == s;
    var d := Digits(if n < 0 then -n else n);
    DigitRunStops(d, []);
    assert d + [] == d;
    if n < 0 {
      assert s[1..] == d;
    }
  }

  const INT_MAX := 0x7FFF_FFFF
  const INT_MIN := -0x8000_0000

  /** `atoi(s.c_str())`: what `strtol` reads, cut to its low 32 bits. */
  function Atoi(s: string): (n: int)
    ensures INT_MIN <= n <= INT_MAX
    ensures INT_MIN <= ScanLong(s) <= INT_MAX ==> n == ScanLong(s)
  {
    (ScanLong(s) - INT_MIN) % 0x1_0000_0000 + INT_MIN
  }

  /** Decimal notation, digit by digit: no leading zeros, and a minus sign in front of a negative number. */
  lemma DecimalIs(n: nat, d: nat)
    requires d < 10
    ensures Decimal(d) == ["0123456789"[d]]
    ensures n > 0 ==> Decimal(10 * n + d) == Decimal(n) + ["0123456789"[d]]
    ensures n > 0 ==> Decimal(0 - n) == "-" + Decimal(n)
  {
    assert "0123456789"[d] == ('0' as int + d) as char;
    assert (10 * n + d) / 10 == n && (10 * n + d) % 10 == d;
  }

  lemma {:induction false} SpaceSkipped(space: string, rest: string)
    requires forall i | 0 <= i < |space| :: IsSpace(space[i])
    requires rest == "" || !IsSpace(rest[0])
    ensures SkipSpace(space + rest) == rest
  {
    if space == "" {
      assert space + rest == rest;
    } else {
      assert (space + rest)[1..] == space[1..] + rest && (space + rest)[0] == space[0];
      SpaceSkipped(space[1..], rest);
    }
  }

  lemma SignedDigits(sign: string, d: string, rest: string)
    requires sign == "" || sign == "+" || sign == "-"
    requires AllDigits(d)
    requires sign == "" && d == "" && rest != "" ==> !IsSpace(rest[0]) && rest[0] != '+' && rest[0] != '-'
    ensures var t := sign + d + rest;
            && (t == "" || !IsSpace(t[0]))
            && (t != "" && (t[0] == '-' || t[0] == '+') <==> sign != "")
            && (sign != "" ==> [t[0]] == sign && t[1..] == d + rest)
            && (sign == "" ==> t == d + rest)
  {
    var t := sign + d + rest;
    assert sign != "" ==> t[0] == sign[0];
    assert sign == "" && d != "" ==> t[0] == d[0] && IsDigit(d[0]);
  }

  /** Blanks, a sign and digits are read as the number, whatever follows; without digits the number is zero. */
  lemma ScanReads(space: string, sign: string, d: string, rest: string)
    requires forall i | 0 <= i < |space| :: space[i] == ' ' || '\t' <= space[i] <= '\r'
    requires sign == "" || sign == "+" || sign == "-"
    requires AllDigits(d) && (rest == "" || !('0' <= rest[0] <= '9'))
    requires sign == "" && d == "" && rest != "" ==> rest[0] !in "+- " && !('\t' <= rest[0] <= '\r')
    ensures var n: int := if sign == "-" then 0 - NatOf(d) else NatOf(d);
            ScanLong(space + (sign + d + rest)) == if n < LONG_MIN then LONG_MIN else if n > LONG_MAX then LONG_MAX else n
  {
    hide NatOf, DigitRun, SkipSpace, AllDigits;
    SignedDigits(sign, d, rest);
    SpaceSkipped(space, sign + d + rest);
    DigitRunStops(d, rest);
  }

  /** `str_inc` (the value of a `count` option after one more occurrence). */
  function StrInc(s: string): string {
    Decimal(ScanLong(if s != [] then s else "0") + 1)
  }

  /** Counting: `k` increments from the empty string give the decimal `k`. */
  lemma StrIncCounts(k: nat)
    requires k <= LONG_MAX
    ensures StrInc(if k == 0 then "" else Decimal(k)) == Decimal(k + 1)
  {
    hide Decimal, ScanLong;
    ScanDecimal(k);
    ZeroText();
    assert k > 0 ==> Decimal(k) != [];
  }

  lemma ZeroText()
    ensures Decimal(0) == "0"
  {
  }
}
