/**
 What the printed text of a list or a map says about its value, without any reader: when two values print
 alike. Strings escape their quotes but not their backslashes, and map keys are printed as they are.
 */
module DictTexts {
  import opened CppStrings
  import opened DictFormatting
  import opened DictTheorems

  // ---------- texts as tokens ----------

  /** A bare word (a number or None), or something between quotes. */
  datatype Piece = Bare(word: string) | Between(content: string)

  /** `glue` is `, ` or, before the value of a map entry, `: `. */
  datatype Token = Token(glue: string, piece: Piece)

  /** Every quote follows a backslash, so none ends the quoted string without looking escaped. */
  predicate Guarded(s: string) {
    forall i | 0 <= i < |s| && s[i] == '\'' :: i > 0 && s[i - 1] == '\\'
  }

  predicate WordChar(c: char) {
    c != '\'' && c != '\\' && c != ',' && c != ':'
  }

  predicate Word(s: string) {
    s != "" && forall i | 0 <= i < |s| :: WordChar(s[i])
  }

  predicate ValidPiece(p: Piece) {
    match p
    case Bare(word) => Word(word)
    case Between(content) => Guarded(content)
  }

  predicate Valid(tokens: seq<Token>) {
    forall i | 0 <= i < |tokens| :: (tokens[i].glue == ", " || tokens[i].glue == ": ") && ValidPiece(tokens[i].piece)
  }

  function PieceText(p: Piece): string {
    match p
    case Bare(word) => word
    case Between(content) => "'" + content + "'"
  }

  function TokensText(tokens: seq<Token>): string {
    if tokens == [] then "" else tokens[0].glue + PieceText(tokens[0].piece) + TokensText(tokens[1..])
  }

  lemma FirstToken(tokens: seq<Token>)
    requires Valid(tokens) && tokens != []
    ensures Valid(tokens[1..]) && ValidPiece(tokens[0].piece) && |tokens[0].glue| == 2
    ensures WordChar(tokens[0].glue[1]) && tokens[0].glue[0] in ",:"
    ensures TokensText(tokens) == tokens[0].glue + (PieceText(tokens[0].piece) + TokensText(tokens[1..]))
  {
    Assoc(tokens[0].glue, PieceText(tokens[0].piece), TokensText(tokens[1..]));
  }

  /** What is behind a quoted string's start cannot be cut off at another of its quotes. */
  lemma GuardedRest(c: string, n: nat)
    requires Guarded(c) && n <= |c| && (n < |c| && n > 0 ==> c[n - 1] != '\\')
    ensures Guarded(c[n..])
  {
    forall i | 0 <= i < |c[n..]| && c[n..][i] == '\''
      ensures i > 0 && c[n..][i - 1] == '\\'
    {
      assert c[n + i] == '\'';
    }
  }

  /**
   One reading is between two tokens where the other is inside a quoted string: then every quote opens for
   one and closes for the other, and the text cannot end for both.
   */
  lemma {:induction false} OutOfPhase(a: seq<Token>, c: string, b: seq<Token>)
    requires Valid(a) && Valid(b) && Guarded(c)
    ensures TokensText(a) != c + ("'" + TokensText(b))
    decreases |a| + |b|, |a|
  {
    hide Valid, Guarded, TokensText;
    var quoted := "'" + TokensText(b);
    if a == [] {
      NoText();
    } else if TokensText(a) == c + quoted {
      FirstToken(a);
      var glue, rest := a[0].glue, TokensText(a[1..]);
      match a[0].piece
      case Bare(word) =>
        Assoc(glue, word, rest);
        UpTo(glue + word, rest, c, quoted);
        OutOfPhase(a[1..], c[|glue + word|..], b);
      case Between(content) =>
        QuoteGrouped(content, rest);
        QuoteAfter(glue, content + ("'" + rest), c, TokensText(b));
        OutOfPhase(b, content, a[1..]);
    }
  }

  lemma NoText()
    ensures TokensText([]) == ""
  {
  }

  lemma QuoteGrouped(content: string, rest: string)
    ensures "'" + content + "'" + rest == "'" + (content + ("'" + rest))
  {
  }

  /** The character at a position of two strings put together. */
  lemma CharAt(a: string, b: string, k: nat)
    ensures k < |a| ==> (a + b)[k] == a[k]
    ensures |a| <= k < |a| + |b| ==> (a + b)[k] == b[k - |a|]
  {
  }

  /** Two cuts of one text, the first without quotes, the second before a quote. */
  lemma UpTo(front: string, rest: string, c: string, quoted: string)
    requires front + rest == c + quoted && Guarded(c) && quoted != "" && quoted[0] == '\''
    requires front != "" && '\'' !in front && front[|front| - 1] != '\\'
    ensures |front| <= |c| && Guarded(c[|front|..]) && rest == c[|front|..] + quoted
  {
    var text := front + rest;
    assert forall k | 0 <= k < |front| :: text[k] == front[k];
    assert text[|c|] == '\'';
    assert c == text[..|c|] && front == text[..|front|];
    assert c[|front| - 1] == front[|front| - 1];
    GuardedRest(c, |front|);
    assert rest == text[|front|..] && c[|front|..] == text[|front|..|c|] && quoted == text[|c|..];
  }

  /** A quote behind glue is no escaped one. */
  lemma QuoteAfter(glue: string, more: string, c: string, tail: string)
    requires glue + ("'" + more) == c + ("'" + tail) && Guarded(c)
    requires glue != "" && '\'' !in glue && glue[|glue| - 1] != '\\'
    ensures c == glue && more == tail
  {
    var text := glue + ("'" + more);
    assert forall k | 0 <= k < |glue| :: text[k] == glue[k];
    assert forall k | 0 <= k < |c| :: text[k] == c[k];
    assert text[|glue|] == '\'' && text[|c|] == '\'';
    assert glue == text[..|glue|] && c == text[..|c|];
    assert more == text[|glue| + 1..] && tail == text[|c| + 1..];
  }

  /** No two token lists have the same text. */
  lemma {:induction false} TokensUnique(a: seq<Token>, b: seq<Token>)
    requires Valid(a) && Valid(b) && TokensText(a) == TokensText(b)
    ensures a == b
    decreases |a|
  {
    if a == [] || b == [] {
      if a != [] {
        FirstToken(a);
      }
      if b != [] {
        FirstToken(b);
      }
    } else {
      FirstToken(a);
      FirstToken(b);
      var s, t := PieceText(a[0].piece) + TokensText(a[1..]), PieceText(b[0].piece) + TokensText(b[1..]);
      SamePrefix(a[0].glue, s, b[0].glue, t);
      PieceUnique(a[0].piece, a[1..], b[0].piece, b[1..]);
      TokensUnique(a[1..], b[1..]);
      assert a == [a[0]] + a[1..] && b == [b[0]] + b[1..];
    }
  }

  lemma SamePrefix(p: string, s: string, q: string, t: string)
    requires p + s == q + t && |p| == |q|
    ensures p == q && s == t
  {
    assert p == (p + s)[..|p|] && q == (q + t)[..|q|];
    assert s == (p + s)[|p|..] && t == (q + t)[|q|..];
  }

  lemma PieceUnique(p: Piece, a: seq<Token>, q: Piece, b: seq<Token>)
    requires ValidPiece(p) && ValidPiece(q) && Valid(a) && Valid(b)
    requires PieceText(p) + TokensText(a) == PieceText(q) + TokensText(b)
    ensures p == q && TokensText(a) == TokensText(b)
  {
    hide Valid, TokensText, Guarded;
    var text := PieceText(p) + TokensText(a);
    assert text[0] == PieceText(p)[0] && text[0] == PieceText(q)[0];
    if p.Bare? {
      WordUnique(p.word, a, q.word, b);
    } else {
      AfterQuote(p.content, TokensText(a), q.content, TokensText(b));
      if |p.content| <= |q.content| {
        ContentUnique(p.content, a, q.content, b);
      } else {
        ContentUnique(q.content, b, p.content, a);
      }
    }
  }

  lemma AfterQuote(c: string, s: string, d: string, t: string)
    requires "'" + c + "'" + s == "'" + d + "'" + t
    ensures c + ("'" + s) == d + ("'" + t)
  {
    assert "'" + c + "'" + s == "'" + (c + ("'" + s)) && "'" + d + "'" + t == "'" + (d + ("'" + t));
    SamePrefix("'", c + ("'" + s), "'", d + ("'" + t));
  }

  lemma WordUnique(v: string, a: seq<Token>, w: string, b: seq<Token>)
    requires Word(v) && Word(w) && Valid(a) && Valid(b)
    requires v + TokensText(a) == w + TokensText(b)
    ensures v == w && TokensText(a) == TokensText(b)
  {
    hide Word, TokensText, Valid;
    GlueFirst(a);
    GlueFirst(b);
    NotShorter(v, TokensText(a), w, TokensText(b));
    NotShorter(w, TokensText(b), v, TokensText(a));
    SamePrefix(v, TokensText(a), w, TokensText(b));
  }

  lemma GlueFirst(a: seq<Token>)
    requires Valid(a)
    ensures TokensText(a) == "" || TokensText(a)[0] in ",:"
  {
    if a != [] {
      FirstToken(a);
    }
  }

  /** A word reaches up to the next glue. */
  lemma NotShorter(v: string, s: string, w: string, t: string)
    requires v + s == w + t && Word(w) && (s == "" || s[0] in ",:")
    ensures |v| >= |w|
  {
    CharAt(v, s, |v|);
    CharAt(w, t, |v|);
    assert |v + s| == |w + t|;
  }

  lemma ContentUnique(c: string, a: seq<Token>, d: string, b: seq<Token>)
    requires Guarded(c) && Guarded(d) && Valid(a) && Valid(b) && |c| <= |d|
    requires c + ("'" + TokensText(a)) == d + ("'" + TokensText(b))
    ensures c == d && TokensText(a) == TokensText(b)
  {
    var text := c + ("'" + TokensText(a));
    if |c| < |d| {
      assert d == text[..|d|] && d[|c|] == text[|c|] == '\'';
      GuardedRest(d, |c| + 1);
      assert TokensText(a) == text[|c| + 1..] == d[|c| + 1..] + ("'" + TokensText(b));
      OutOfPhase(a, d[|c| + 1..], b);
    } else {
      SamePrefix(c, "'" + TokensText(a), d, "'" + TokensText(b));
      SamePrefix("'", TokensText(a), "'", TokensText(b));
    }
  }

  // ---------- scalars ----------

  function PieceOf(v: Scalar): Piece {
    match v
    case Null => Bare("None")
    case Number(n) => Bare(Decimal(n))
    case Str(s) => if s == "" then Bare("None") else Between(Escaped(s))
    case Floating(digits) => Bare(digits)
    case Quoted(text) => Between(text)
  }

  /** A text of another type is tame if it has no quote without a backslash. */
  predicate Tame(v: Scalar) {
    v.Quoted? ==> Guarded(v.text)
  }

  lemma {:induction false} EscapedIsGuarded(s: string)
    ensures Guarded(Escaped(s))
  {
    if s != [] {
      EscapedIsGuarded(s[1..]);
      var first, rest := if s[0] == '\'' then "\\'" else [s[0]], Escaped(s[1..]);
      assert Escaped(s) == first + rest;
      EscapedFirst(s[1..]);
      GuardedJoin(first, rest);
    }
  }

  lemma GuardedJoin(a: string, b: string)
    requires Guarded(a) && Guarded(b)
    ensures Guarded(a + b)
  {
    forall i | 0 <= i < |a + b| && (a + b)[i] == '\''
      ensures i > 0 && (a + b)[i - 1] == '\\'
    {
      CharAt(a, b, i);
      if i > 0 {
        CharAt(a, b, i - 1);
      }
    }
  }

  lemma PieceOfText(v: Scalar)
    ensures PieceText(PieceOf(v)) == ScalarText(v)
    ensures Tame(v) ==> ValidPiece(PieceOf(v))
  {
    hide Decimal, Escaped, Guarded;
    match v
    case Null =>
    case Number(n) => DecimalChars(n);
    case Str(s) => EscapedIsGuarded(s);
    case Floating(digits) =>
      assert forall i | 0 <= i < |digits| :: digits[i] in digits;
    case Quoted(_) =>
  }

  /**
   Null and the empty string print alike, an integer and a floating-point number with its decimal, and a string
   and another scalar with its escaped text; nothing else does.
   */
  predicate Alike(v: Scalar, w: Scalar) {
    || v == w
    || (v.Null? && w == Str("")) || (v == Str("") && w.Null?)
    || (v.Str? && w.Quoted? && v.s != "" && w.text == Escaped(v.s))
    || (v.Quoted? && w.Str? && w.s != "" && v.text == Escaped(w.s))
    || (v.Number? && w.Floating? && w.digits == Decimal(v.n)) || (v.Floating? && w.Number? && v.digits == Decimal(w.n))
  }

  lemma ScalarTextsAlike(v: Scalar, w: Scalar)
    ensures ScalarText(v) == ScalarText(w) <==> Alike(v, w)
  {
    PieceOfText(v);
    PieceOfText(w);
    FirstCharOf(v);
    FirstCharOf(w);
    if ScalarText(v) == ScalarText(w) {
      if v.Number? && w.Number? {
        DecimalInjective(v.n, w.n);
      } else if PieceOf(v).Between? && PieceOf(w).Between? {
        var c, d := PieceOf(v).content, PieceOf(w).content;
        assert c == ("'" + c + "'")[1..|c| + 1] && d == ("'" + d + "'")[1..|d| + 1];
        if v.Str? && w.Str? {
          EscapingIsInjective(v.s, w.s);
        }
      }
    }
  }

  lemma FirstCharOf(v: Scalar)
    ensures ScalarText(v) != ""
    ensures PieceOf(v).Between? <==> ScalarText(v)[0] == '\''
    ensures v.Number? || v.Floating? <==> ScalarText(v)[0] != '\'' && ScalarText(v)[0] != 'N'
  {
    if v.Floating? {
      assert v.digits[0] in v.digits;
    }
  }

  // ---------- lists ----------

  function ListTokens(l: seq<Scalar>): seq<Token> {
    if l == [] then [] else [Token(", ", PieceOf(l[0]))] + ListTokens(l[1..])
  }

  lemma {:induction false} ListTokensText(l: seq<Scalar>)
    ensures |ListTokens(l)| == |l| && forall i | 0 <= i < |l| :: ListTokens(l)[i] == Token(", ", PieceOf(l[i]))
    ensures (forall v | v in l :: Tame(v)) ==> Valid(ListTokens(l))
    ensures l != [] ==> TokensText(ListTokens(l)) == ", " + ListBody(l)
  {
    if l != [] {
      ListTokensText(l[1..]);
      PieceOfText(l[0]);
      var tokens := ListTokens(l);
      assert tokens[0] == Token(", ", PieceOf(l[0])) && tokens[1..] == ListTokens(l[1..]);
      assert ", " + ScalarText(l[0]) + TokensText(tokens[1..]) == ", " + (ScalarText(l[0]) + TokensText(tokens[1..]));
      if |l| > 1 {
        Assoc(ScalarText(l[0]), ", ", ListBody(l[1..]));
      } else {
        assert l[1..] == [];
      }
    }
  }

  lemma Brackets(open: string, a: string, b: string, close: string)
    ensures open + a + close == open + b + close <==> a == b
  {
    assert a == (open + a + close)[|open|..|open| + |a|];
    assert b == (open + b + close)[|open|..|open| + |b|];
    assert |open + a + close| == |open| + |a| + |close| && |open + b + close| == |open| + |b| + |close|;
  }

  lemma ListBodyEmpty(l: seq<Scalar>)
    ensures ListBody(l) == "" <==> l == []
  {
    if l != [] {
      FirstCharOf(l[0]);
    }
  }

  /** Two lists print alike exactly if they are as long and their elements print alike, one by one. */
  lemma ListTextsAlike(l: seq<Scalar>, m: seq<Scalar>)
    requires forall v | v in l + m :: Tame(v)
    ensures ListText(l) == ListText(m) <==> |l| == |m| && forall i | 0 <= i < |l| :: Alike(l[i], m[i])
  {
    hide ListBody, Alike, Tame, PieceOf, TokensText;
    assert (forall v | v in l :: v in l + m) && (forall v | v in m :: v in l + m);
    Brackets("[", ListBody(l), ListBody(m), "]");
    ListBodyEmpty(l);
    ListBodyEmpty(m);
    if |l| == |m| {
      forall i | 0 <= i < |l|
        ensures ScalarText(l[i]) == ScalarText(m[i]) <==> Alike(l[i], m[i])
      {
        ScalarTextsAlike(l[i], m[i]);
      }
      if forall i | 0 <= i < |l| :: ScalarText(l[i]) == ScalarText(m[i]) {
        ListBodyCommas(l);
        ListBodyCommas(m);
        assert ScalarTexts(l) == ScalarTexts(m);
      }
    }
    if l != [] && m != [] && ListBody(l) == ListBody(m) {
      ListTokensText(l);
      ListTokensText(m);
      TokensUnique(ListTokens(l), ListTokens(m));
      forall i | 0 <= i < |l|
        ensures ScalarText(l[i]) == ScalarText(m[i])
      {
        assert ListTokens(l)[i] == Token(", ", PieceOf(l[i])) && ListTokens(m)[i] == Token(", ", PieceOf(m[i]));
        PieceOfText(l[i]);
        PieceOfText(m[i]);
      }
    }
  }

  // ---------- which values a text determines ----------

  /** The scalars that are in question. */
  type Kind = Scalar -> bool

  ghost predicate AllTame(kind: Kind) {
    forall v | kind(v) :: Tame(v)
  }

  predicate Among(kind: Kind, l: seq<Scalar>) {
    forall v | v in l :: kind(v)
  }

  /** No other scalar in question prints like `v`. */
  ghost predicate Alone(kind: Kind, v: Scalar) {
    forall w | kind(w) && Alike(w, v) :: w == v
  }

  /** A null, an integer or a string. */
  predicate Simple(v: Scalar) {
    v.Null? || v.Number? || v.Str?
  }

  /** Among nulls, integers and strings only null and the empty string have a double. */
  lemma AloneAmongSimple(v: Scalar)
    requires Simple(v)
    ensures Alone(Simple, v) <==> !v.Null? && v != Str("")
  {
    assert v.Null? ==> Simple(Str("")) && Alike(Str(""), v);
    assert v == Str("") ==> Simple(Null) && Alike(Null, v);
  }

  lemma {:induction false} GuardedIsEscaped(t: string)
    requires Guarded(t)
    ensures Escaped(Unescaped(t)) == t && (Unescaped(t) == "" <==> t == "")
    decreases |t|
  {
    if "\\'" <= t {
      GuardedRest(t, 2);
      GuardedIsEscaped(t[2..]);
      EscapedFirst(Unescaped(t));
      assert Unescaped(t)[1..] == Unescaped(t[2..]) && t == "\\'" + t[2..];
    } else if t != "" {
      assert t[0] != '\'' && Guarded(t[1..]);
      GuardedIsEscaped(t[1..]);
      EscapedFirst(Unescaped(t));
      assert Unescaped(t)[1..] == Unescaped(t[1..]) && t == [t[0]] + t[1..];
    }
  }

  /** The double of a scalar, for those that have one. */
  function Double(v: Scalar): Scalar
    requires Tame(v)
  {
    match v
    case Null => Str("")
    case Number(n) => DecimalChars(n); Floating(Decimal(n))
    case Floating(_) => Null
    case Str(s) => if s == "" then Null else Quoted(Escaped(s))
    case Quoted(text) => Str(Unescaped(text))
  }

  /** Among all tame scalars only a floating-point number that is no integer, and an empty text, stand alone. */
  lemma AloneAmongTame(v: Scalar)
    requires Tame(v)
    ensures Alone(Tame, v) <==> (v.Floating? && forall n :: v.digits != Decimal(n)) || v == Quoted("")
  {
    hide Decimal;
    if v.Floating? {
      if n :| v.digits == Decimal(n) {
        assert Tame(Number(n)) && Alike(Number(n), v);
      }
    } else if v == Quoted("") {
      forall w | Tame(w) && Alike(w, v)
        ensures w == v
      {
        if w.Str? {
          EscapedFirst(w.s);
        }
      }
    } else {
      if v.Str? {
        EscapedIsGuarded(v.s);
      }
      if v.Quoted? {
        GuardedIsEscaped(v.text);
      }
      assert Tame(Double(v)) && Alike(Double(v), v) && Double(v) != v;
    }
  }

  lemma AmongTextsAlike(kind: Kind, l: seq<Scalar>, m: seq<Scalar>)
    requires AllTame(kind) && Among(kind, l) && Among(kind, m)
    ensures ListText(m) == ListText(l) <==> |m| == |l| && forall i | 0 <= i < |m| :: Alike(m[i], l[i])
  {
    assert forall v | v in m + l :: v in m || v in l;
    ListTextsAlike(m, l);
  }

  /** The text of a list determines it among the lists of a kind exactly if every element stands alone. */
  lemma ListTextDetermines(kind: Kind, l: seq<Scalar>)
    requires AllTame(kind) && Among(kind, l)
    ensures (forall m | Among(kind, m) && ListText(m) == ListText(l) :: m == l) <==> forall v | v in l :: Alone(kind, v)
  {
    hide ListText, Alike;
    if forall v | v in l :: Alone(kind, v) {
      forall m | Among(kind, m) && ListText(m) == ListText(l)
        ensures m == l
      {
        AmongTextsAlike(kind, l, m);
        forall i | 0 <= i < |l|
          ensures m[i] == l[i]
        {
          assert Alone(kind, l[i]) && m[i] in m;
        }
      }
    } else {
      var i :| 0 <= i < |l| && !Alone(kind, l[i]);
      var w :| kind(w) && Alike(w, l[i]) && w != l[i];
      OtherPrintsAlike(kind, l, i, w);
    }
  }

  lemma AlikeItself(v: Scalar)
    ensures Alike(v, v)
  {
  }

  lemma OtherPrintsAlike(kind: Kind, l: seq<Scalar>, i: nat, w: Scalar)
    requires AllTame(kind) && Among(kind, l) && i < |l| && kind(w) && Alike(w, l[i]) && w != l[i]
    ensures var m := l[i := w]; Among(kind, m) && m != l && ListText(m) == ListText(l)
  {
    hide ListText, Alike;
    var m := l[i := w];
    assert forall v | v in m :: v in l || v == w;
    assert m[i] != l[i];
    forall k | 0 <= k < |l|
      ensures Alike(m[k], l[k])
    {
      AlikeItself(l[k]);
    }
    AmongTextsAlike(kind, l, m);
  }

  /** A text of another type can hold the end of one string and the start of the next. */
  lemma QuotedSwallowsNext(a: string, b: string)
    ensures ListText([Quoted(a + "', '" + b)]) == ListText([Quoted(a), Quoted(b)])
  {
    assert [Quoted(a), Quoted(b)][1..] == [Quoted(b)];
    assert "'" + (a + "', '" + b) + "'" == "'" + a + "'" + ", " + ("'" + b + "'");
    assert ListBody([Quoted(b)]) == "'" + b + "'";
  }

  // ---------- maps ----------

  type Entry = (string, Scalar)

  function MapTokens(m: seq<Entry>): seq<Token> {
    if m == [] then []
    else [Token(", ", Between(m[0].0)), Token(": ", PieceOf(m[0].1))] + MapTokens(m[1..])
  }

  predicate FreeKeys(m: seq<Entry>) {
    forall e | e in m :: '\'' !in e.0
  }

  lemma {:induction false} MapTokensText(m: seq<Entry>)
    requires m != []
    ensures TokensText(MapTokens(m)) == ", " + MapBody(m)
  {
    hide EntryText, ScalarText, PieceOf;
    PieceOfText(m[0].1);
    var tokens, rest := MapTokens(m), MapTokens(m[1..]);
    assert tokens[0] == Token(", ", Between(m[0].0)) && tokens[1..][0] == Token(": ", PieceOf(m[0].1));
    assert tokens[1..][1..] == rest;
    EntryTokens(m[0], TokensText(rest));
    if |m| > 1 {
      MapTokensText(m[1..]);
      Assoc(EntryText(m[0]), ", ", MapBody(m[1..]));
    } else {
      assert m[1..] == [];
    }
  }

  /** Each entry has its own tokens. */
  lemma {:induction false} MapTokensApart(m: seq<Entry>, n: seq<Entry>)
    requires MapTokens(m) == MapTokens(n)
    ensures |m| == |n| && forall i | 0 <= i < |m| :: m[i].0 == n[i].0 && PieceOf(m[i].1) == PieceOf(n[i].1)
  {
    hide PieceOf;
    if m == [] || n == [] {
      assert |MapTokens(m)| == 0;
    } else {
      var a, b := MapTokens(m), MapTokens(n);
      assert a[0] == Token(", ", Between(m[0].0)) && b[0] == Token(", ", Between(n[0].0));
      assert a[1] == Token(": ", PieceOf(m[0].1)) && b[1] == Token(": ", PieceOf(n[0].1));
      assert a[2..] == MapTokens(m[1..]) && b[2..] == MapTokens(n[1..]);
      MapTokensApart(m[1..], n[1..]);
      assert forall i | 0 < i < |m| :: m[i] == m[1..][i - 1] && n[i] == n[1..][i - 1];
    }
  }

  lemma EntryTokens(e: Entry, rest: string)
    ensures ", " + ("'" + e.0 + "'") + (": " + ScalarText(e.1) + rest) == ", " + (EntryText(e) + rest)
  {
    hide ScalarText;
    assert "'" + e.0 + "'" + ": " == "'" + e.0 + "': ";
  }

  lemma {:induction false} MapTokensValid(m: seq<Entry>)
    requires FreeKeys(m) && forall e | e in m :: Tame(e.1)
    ensures Valid(MapTokens(m))
  {
    if m != [] {
      assert m[0] in m;
      PieceOfText(m[0].1);
      MapTokensValid(m[1..]);
    }
  }

  lemma MapBodyEmpty(m: seq<Entry>)
    ensures MapBody(m) == "" <==> m == []
  {
  }

  /** Keys without quotes: two maps print alike exactly if their keys agree and their values print alike, one by one. */
  lemma MapTextsAlike(m: seq<Entry>, n: seq<Entry>)
    requires FreeKeys(m) && FreeKeys(n) && forall e | e in m + n :: Tame(e.1)
    ensures MapText(m) == MapText(n) <==>
            |m| == |n| && forall i | 0 <= i < |m| :: m[i].0 == n[i].0 && Alike(m[i].1, n[i].1)
  {
    hide MapBody, Alike, Tame, PieceOf, TokensText, MapTokens, FreeKeys;
    assert (forall e | e in m :: e in m + n) && (forall e | e in n :: e in m + n);
    Brackets("{", MapBody(m), MapBody(n), "}");
    MapBodyEmpty(m);
    MapBodyEmpty(n);
    if |m| == |n| {
      forall i | 0 <= i < |m|
        ensures ScalarText(m[i].1) == ScalarText(n[i].1) <==> Alike(m[i].1, n[i].1)
      {
        ScalarTextsAlike(m[i].1, n[i].1);
      }
      if forall i | 0 <= i < |m| :: m[i].0 == n[i].0 && ScalarText(m[i].1) == ScalarText(n[i].1) {
        MapBodyCommas(m);
        MapBodyCommas(n);
        assert EntryTexts(m) == EntryTexts(n);
      }
    }
    if m != [] && n != [] && MapBody(m) == MapBody(n) {
      MapTokensText(m);
      MapTokensText(n);
      MapTokensValid(m);
      MapTokensValid(n);
      TokensUnique(MapTokens(m), MapTokens(n));
      MapTokensApart(m, n);
      forall i | 0 <= i < |m|
        ensures m[i].0 == n[i].0 && ScalarText(m[i].1) == ScalarText(n[i].1)
      {
        PieceOfText(m[i].1);
        PieceOfText(n[i].1);
      }
    }
  }

  // ---------- maps with any keys ----------

  /** The order of the keys in a std::map. */
  predicate Below(a: string, b: string) {
    if a == "" || b == "" then a == "" && b != "" else a[0] < b[0] || (a[0] == b[0] && Below(a[1..], b[1..]))
  }

  /** The entries of a std::map from strings to scalars of a kind, in order. */
  predicate Ordered(kind: Kind, m: seq<Entry>) {
    && (forall e | e in m :: kind(e.1))
    && (forall i | 0 <= i < |m| - 1 :: Below(m[i].0, m[i + 1].0))
  }

  /** The key that holds a whole entry and the start of the next one. */
  function Swallowing(a: string, v: Scalar, b: string): string {
    a + "': " + ScalarText(v) + ", '" + b
  }

  /** The key is one that prints as an entry and a later key. */
  ghost predicate Swallows(kind: Kind, key: string) {
    exists a, v, b :: kind(v) && Below(a, b) && key == Swallowing(a, v, b)
  }

  /** All entries in one, with a key that swallows all but the last. */
  function Merged(m: seq<Entry>): Entry
    requires m != []
  {
    if |m| == 1 then m[0]
    else
      var rest := Merged(m[1..]);
      (Swallowing(m[0].0, m[0].1, rest.0), rest.1)
  }

  lemma SwallowsNext(a: string, v: Scalar, b: string, w: Scalar)
    ensures EntryText((Swallowing(a, v, b), w)) == EntryText((a, v)) + ", " + EntryText((b, w))
  {
    hide ScalarText;
    assert ", '" == ", " + "'";
  }

  lemma OneEntry(e: Entry)
    ensures MapBody([e]) == EntryText(e)
  {
  }

  lemma {:induction false} MergedText(m: seq<Entry>)
    requires m != []
    ensures EntryText(Merged(m)) == MapBody(m)
  {
    hide EntryText;
    if |m| > 1 {
      MergedText(m[1..]);
      var rest := Merged(m[1..]);
      SwallowsNext(m[0].0, m[0].1, rest.0, rest.1);
      assert m[0] == (m[0].0, m[0].1) && rest == (rest.0, rest.1);
    }
  }

  /** The merged key begins with the first one, and the value is the last one. */
  lemma {:induction false} MergedKey(m: seq<Entry>)
    requires m != []
    ensures m[0].0 <= Merged(m).0 && Merged(m).1 == m[|m| - 1].1
  {
    hide ScalarText;
    if |m| > 1 {
      MergedKey(m[1..]);
      var key, rest := m[0].0, Merged(m[1..]);
      assert Merged(m).0 == key + ("': " + ScalarText(m[0].1) + ", '" + rest.0);
    }
  }

  lemma {:induction false} BelowPrefix(a: string, b: string, c: string)
    requires Below(a, b) && b <= c
    ensures Below(a, c)
  {
    if a != "" && b != "" && a[0] == b[0] {
      BelowPrefix(a[1..], b[1..], c[1..]);
    }
  }

  /** Where a shorter key ends, a longer one with the same text cannot go on. */
  lemma KeyUnique(k: string, v: Scalar, n: string, w: Scalar)
    requires Tame(v) && Tame(w) && |k| <= |n| && EntryText((k, v)) == EntryText((n, w))
    ensures k == n && ScalarText(v) == ScalarText(w)
  {
    hide ScalarText;
    var x, y := ScalarText(v), ScalarText(w);
    assert EntryText((k, v)) == ("'" + k) + ("': " + x) && EntryText((n, w)) == ("'" + n) + ("': " + y);
    if |k| == |n| {
      SamePrefix("'" + k, "': " + x, "'" + n, "': " + y);
      SamePrefix("'", k, "'", n);
      SamePrefix("': ", x, "': ", y);
    } else {
      KeyEndsFirst("'" + k, x, "'" + n, y);
      NoInnerKey(v, w, |n| - |k| - 3);
    }
  }

  /** If the key ends earlier in one reading, the end of the other key is inside the value. */
  lemma KeyEndsFirst(k: string, x: string, n: string, y: string)
    requires k + ("': " + x) == n + ("': " + y) && |k| < |n|
    ensures var d := |n| - |k| - 3;
            0 <= d && d + 3 <= |x| && x[d..d + 3] == "': " && x[d + 3..] == y
  {
    var text, inner, outer := k + ("': " + x), "': " + x, "': " + y;
    assert inner[1] == ':' && inner[2] == ' ' && outer[0] == '\'';
    CharAt(k, inner, |k| + 1);
    CharAt(k, inner, |k| + 2);
    CharAt(n, outer, |n|);
    var d := |n| - |k| - 3;
    assert d >= 0;
    assert text[|k| + 3..] == inner[3..] == x && text[|n|..] == outer;
    assert x[d..] == text[|n|..];
    assert outer[..3] == "': " && outer[3..] == y;
    assert x[d..d + 3] == x[d..][..3] && x[d + 3..] == x[d..][3..];
  }

  /** The text of a tame scalar holds no end of a key and a scalar behind it. */
  lemma NoInnerKey(v: Scalar, w: Scalar, d: nat)
    requires Tame(v) && Tame(w)
    ensures var x, y := ScalarText(v), ScalarText(w);
            !(d + 3 <= |x| && x[d..d + 3] == "': " && x[d + 3..] == y)
  {
    hide ScalarText;
    var x, y := ScalarText(v), ScalarText(w);
    PieceOfText(v);
    PieceOfText(w);
    if d + 3 <= |x| && x[d..d + 3] == "': " && x[d + 3..] == y {
      assert x[d] == x[d..d + 3][0] == '\'' && x[d + 2] == x[d..d + 3][2] == ' ';
      match PieceOf(v)
      case Bare(word) =>
        assert false;
      case Between(content) =>
        QuoteInside(content, d + 3, y);
    }
  }

  /** Behind a space inside a quoted string no scalar's text fills the rest. */
  lemma QuoteInside(content: string, n: nat, y: string)
    requires Guarded(content)
    requires var x := "'" + content + "'"; 0 < n <= |x| && x[n - 1] == ' ' && x[n..] == y
    ensures y == "" || (y[|y| - 1] == '\'' && (|y| == 1 || y[0] != '\''))
  {
    var x := "'" + content + "'";
    if n < |x| {
      assert x[|x| - 1] == '\'' && y[|y| - 1] == x[|x| - 1] && y[0] == x[n];
      if n < |x| - 1 {
        assert x[n] == content[n - 1];
        assert n > 1 ==> x[n - 1] == content[n - 2];
      }
    }
  }

  /** A map that prints like a single entry is that entry, up to values that print alike, or the key swallows. */
  lemma PrintsLikeOne(kind: Kind, e: Entry, n: seq<Entry>)
    requires AllTame(kind) && Ordered(kind, [e]) && Ordered(kind, n) && MapText(n) == MapText([e])
    ensures n != [] && (Swallows(kind, e.0) || (|n| == 1 && n[0].0 == e.0 && Alike(n[0].1, e.1)))
  {
    hide ScalarText, EntryText, Alike, MapBody;
    assert e in [e];
    Brackets("{", MapBody(n), MapBody([e]), "}");
    MapBodyEmpty(n);
    MapBodyEmpty([e]);
    MergedText(n);
    MergedKey(n);
    OneEntry(e);
    var merged := Merged(n);
    assert n[|n| - 1] in n;
    if |merged.0| <= |e.0| {
      KeyUnique(merged.0, merged.1, e.0, e.1);
    } else {
      KeyUnique(e.0, e.1, merged.0, merged.1);
    }
    if |n| > 1 {
      assert n[0] in n;
      MergedKey(n[1..]);
      BelowPrefix(n[0].0, n[1].0, Merged(n[1..]).0);
      assert e.0 == Swallowing(n[0].0, n[0].1, Merged(n[1..]).0);
    } else {
      ScalarTextsAlike(merged.1, e.1);
    }
  }

  /** A map with two or more entries prints like a map with one, whose key swallows the others. */
  lemma MergedPrintsAlike(kind: Kind, m: seq<Entry>)
    requires Ordered(kind, m) && m != []
    ensures Ordered(kind, [Merged(m)]) && MapText([Merged(m)]) == MapText(m)
  {
    hide EntryText, MapBody, ScalarText;
    MergedText(m);
    MergedKey(m);
    OneEntry(Merged(m));
    assert m[|m| - 1] in m;
  }

  /** The map that one entry with a swallowing key prints like. */
  lemma SwallowedPrintsAlike(kind: Kind, a: string, v: Scalar, b: string, w: Scalar)
    requires kind(v) && kind(w) && Below(a, b)
    ensures Ordered(kind, [(a, v), (b, w)]) && MapText([(a, v), (b, w)]) == MapText([(Swallowing(a, v, b), w)])
  {
    hide EntryText, ScalarText;
    SwallowsNext(a, v, b, w);
    assert [(a, v), (b, w)][1..] == [(b, w)];
    OneEntry((b, w));
    OneEntry((Swallowing(a, v, b), w));
  }

  /** Another value that prints alike. */
  lemma ValuePrintsAlike(kind: Kind, e: Entry, w: Scalar)
    requires kind(w) && Alike(w, e.1)
    ensures Ordered(kind, [(e.0, w)]) && MapText([(e.0, w)]) == MapText([e])
  {
    hide ScalarText, Alike;
    ScalarTextsAlike(w, e.1);
    OneEntry(e);
    OneEntry((e.0, w));
  }

  /** The text determines the map among all maps from strings to scalars of a kind. */
  ghost predicate MapDetermined(kind: Kind, m: seq<Entry>) {
    forall n: seq<Entry> | Ordered(kind, n) && MapText(n) == MapText(m) :: n == m
  }

  /**
   The text of a map determines it among the maps to scalars of a kind, with any keys, exactly if it is empty, or
   has one entry, whose value stands alone and whose key does not swallow another entry.
   */
  lemma MapTextDetermines(kind: Kind, m: seq<Entry>)
    requires AllTame(kind) && Ordered(kind, m)
    ensures MapDetermined(kind, m) <==> m == [] || (|m| == 1 && Alone(kind, m[0].1) && !Swallows(kind, m[0].0))
  {
    hide MapText, Ordered, Alone, Swallows;
    if m == [] {
      OnlyEmpty(kind);
    } else if |m| > 1 {
      MergedPrintsAlike(kind, m);
      assert |[Merged(m)]| != |m|;
    } else {
      assert m == [m[0]];
      OneEntryDetermines(kind, m[0]);
    }
  }

  lemma OnlyEmpty(kind: Kind)
    ensures MapDetermined(kind, [])
  {
    forall n | Ordered(kind, n) && MapText(n) == MapText([])
      ensures n == []
    {
      Brackets("{", MapBody(n), MapBody([]), "}");
      MapBodyEmpty(n);
    }
  }

  lemma OneEntryDetermines(kind: Kind, e: Entry)
    requires AllTame(kind) && Ordered(kind, [e])
    ensures MapDetermined(kind, [e]) <==> Alone(kind, e.1) && !Swallows(kind, e.0)
  {
    hide MapText, Alike, AllTame;
    assert e in [e];
    if !Alone(kind, e.1) {
      var w :| kind(w) && Alike(w, e.1) && w != e.1;
      ValuePrintsAlike(kind, e, w);
      assert [(e.0, w)][0] != [e][0];
    } else if Swallows(kind, e.0) {
      var a, v, b :| kind(v) && Below(a, b) && e.0 == Swallowing(a, v, b);
      SwallowedPrintsAlike(kind, a, v, b, e.1);
      assert e == (e.0, e.1);
      assert |[(a, v), (b, e.1)]| != |[e]|;
    } else {
      forall n: seq<Entry> | Ordered(kind, n) && MapText(n) == MapText([e])
        ensures n == [e]
      {
        PrintsLikeOne(kind, e, n);
        assert n[0] in n;
        assert n[0] == (n[0].0, n[0].1) && e == (e.0, e.1);
      }
    }
  }
}
