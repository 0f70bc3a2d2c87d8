/**
 The string helpers of src/contrib/optparse/OptionParser.cpp: in-place replacement (`str_replace`)
 and the word wrap used by the help text (`str_format`).
 */
module TextUtils {
  import opened CppStrings

  // ---------- str_replace ----------

  function Join(pieces: seq<string>, sep: string): string
    requires pieces != []
  {
    if |pieces| == 1 then pieces[0] else pieces[0] + sep + Join(pieces[1..], sep)
  }

  /** Every cut but the last is at the leftmost match of what remains, and no match is left over. */
  ghost predicate LeftmostCuts(pieces: seq<string>, patt: string)
    requires pieces != []
  {
    if |pieces| == 1 then IndexOf(pieces[0], patt, 0) == None
    else IndexOf(Join(pieces, patt), patt, 0) == Some(|pieces[0]|) && LeftmostCuts(pieces[1..], patt)
  }

  /** What lies between the matches of `patt`, searched from the left and without overlap. */
  function Pieces(s: string, patt: string): (pieces: seq<string>)
    requires patt != []
    ensures pieces != [] && Join(pieces, patt) == s && LeftmostCuts(pieces, patt)
  {
    match IndexOf(s, patt, 0)
    case None => [s]
    case Some(i) =>
      var rest := Pieces(s[i + |patt|..], patt);
      assert ([s[..i]] + rest)[1..] == rest;
      assert s == s[..i] + patt + s[i + |patt|..] by { FindsFirst(s, patt, 0); }
      [s[..i]] + rest
  }

  /** The decomposition of `Pieces` is the only one with leftmost cuts. */
  lemma {:induction false} PiecesOfJoin(pieces: seq<string>, patt: string)
    requires patt != [] && pieces != [] && LeftmostCuts(pieces, patt)
    ensures Pieces(Join(pieces, patt), patt) == pieces
  {
    if |pieces| > 1 {
      var s, i := Join(pieces, patt), |pieces[0]|;
      assert s[..i] == pieces[0];
      assert s[i + |patt|..] == Join(pieces[1..], patt);
      PiecesOfJoin(pieces[1..], patt);
    }
  }

  /** Replacing puts the replacement between the pieces of the one decomposition with leftmost cuts. */
  lemma ReplacedIs(pieces: seq<string>, patt: string, repl: string)
    requires patt != [] && pieces != [] && LeftmostCuts(pieces, patt)
    ensures ReplaceAll(Join(pieces, patt), patt, repl) == Join(pieces, repl)
  {
    PiecesOfJoin(pieces, patt);
  }

  function ReplaceAll(s: string, patt: string, repl: string): string
    requires patt != []
  {
    Join(Pieces(s, patt), repl)
  }

  /** One round of the replacement loop: everything up to the first match is final. */
  lemma ReplaceFirst(s: string, patt: string, repl: string)
    requires patt != []
    ensures match IndexOf(s, patt, 0)
            case None => ReplaceAll(s, patt, repl) == s
            case Some(i) => ReplaceAll(s, patt, repl) == s[..i] + repl + ReplaceAll(s[i + |patt|..], patt, repl)
  {
    var r := IndexOf(s, patt, 0);
    if r.Some? {
      var rest := Pieces(s[r.value + |patt|..], patt);
      assert ([s[..r.value]] + rest)[1..] == rest;
    }
  }

  /** The slices of `t`, which is `s` with s[i..i + n] replaced. */
  lemma Spliced(s: string, pos: nat, i: nat, n: nat, repl: string, t: string)
    requires pos <= i && i + n <= |s| && t == s[..i] + repl + s[i + n..]
    ensures t[i + |repl|..] == s[i + n..]
    ensures t[..i + |repl|] == s[..pos] + (s[pos..i] + repl)
    ensures s[pos..][..i - pos] == s[pos..i] && s[pos..][i - pos + n..] == s[i + n..]
  {
  }

  /** The same round, seen from position `pos`, with the match replaced in place. */
  lemma ReplaceStep(s: string, patt: string, repl: string, pos: nat, i: nat, t: string)
    requires patt != [] && pos <= |s| && IndexOf(s, patt, pos) == Some(i)
    requires t == s[..i] + repl + s[i + |patt|..]
    ensures s[..pos] + ReplaceAll(s[pos..], patt, repl) == t[..i + |repl|] + ReplaceAll(t[i + |repl|..], patt, repl)
  {
    hide IndexOf, ReplaceAll;
    IndexOfTail(s, patt, pos);
    ReplaceFirst(s[pos..], patt, repl);
    Spliced(s, pos, i, |patt|, repl, t);
    Assoc(s[..pos], s[pos..i] + repl, ReplaceAll(s[i + |patt|..], patt, repl));
  }

  lemma ReplaceDone(s: string, patt: string, repl: string, pos: nat)
    requires patt != [] && pos <= |s| && IndexOf(s, patt, pos) == None
    ensures s[..pos] + ReplaceAll(s[pos..], patt, repl) == s
  {
    IndexOfTail(s, patt, pos);
    ReplaceFirst(s[pos..], patt, repl);
    assert s == s[..pos] + s[pos..];
  }

  /** `str_replace`: terminates for every non-empty pattern, also when `repl` contains `patt`. */
  method StrReplace(s0: string, patt: string, repl: string) returns (s: string)
    requires patt != []
    ensures s == ReplaceAll(s0, patt, repl)
  {
    s := s0;
    var pos: nat := 0;
    var found := IndexOf(s, patt, pos);
    while found.Some?
      invariant pos <= |s| && found == IndexOf(s, patt, pos)
      invariant s[..pos] + ReplaceAll(s[pos..], patt, repl) == ReplaceAll(s0, patt, repl)
      decreases |s| - pos
    {
      var i := found.value;
      ReplaceStep(s, patt, repl, pos, i, s[..i] + repl + s[i + |patt|..]);
      s := s[..i] + repl + s[i + |patt|..];
      pos := i + |repl|;
      found := IndexOf(s, patt, pos);
    }
    ReplaceDone(s, patt, repl, pos);
  }

  /** `s` with every `c` turned into `r`, character by character. */
  function MapChar(s: string, c: char, r: string): string {
    if s == [] then [] else (if s[0] == c then r else [s[0]]) + MapChar(s[1..], c, r)
  }

  lemma {:induction false} MapCharSplit(a: string, b: string, c: char, r: string)
    ensures MapChar(a + b, c, r) == MapChar(a, c, r) + MapChar(b, c, r)
  {
    if a == [] {
      assert a + b == b;
    } else {
      MapCharSplit(a[1..], b, c, r);
      assert (a + b)[1..] == a[1..] + b && (a + b)[0] == a[0];
      Assoc(if a[0] == c then r else [a[0]], MapChar(a[1..], c, r), MapChar(b, c, r));
    }
  }

  lemma {:induction false} MapCharAbsent(s: string, c: char, r: string)
    requires c !in s
    ensures MapChar(s, c, r) == s
  {
    if s != [] {
      MapCharAbsent(s[1..], c, r);
    }
  }

  lemma MapCharAt(s: string, c: char, r: string, i: nat)
    requires i < |s| && s[i] == c && c !in s[0..i]
    ensures MapChar(s, c, r) == s[..i] + r + MapChar(s[i + 1..], c, r)
  {
    assert s == s[..i] + ([c] + s[i + 1..]);
    MapCharSplit(s[..i], [c] + s[i + 1..], c, r);
    assert s[0..i] == s[..i];
    MapCharAbsent(s[..i], c, r);
    assert ([c] + s[i + 1..])[1..] == s[i + 1..];
  }

  /** Replacing a one-character pattern is the per-character map. */
  lemma {:induction false} ReplaceOneChar(s: string, c: char, r: string)
    ensures ReplaceAll(s, [c], r) == MapChar(s, c, r)
    decreases |s|
  {
    FindChar(s, c, 0);
    ReplaceFirst(s, [c], r);
    match IndexOf(s, [c], 0)
    case None =>
      MapCharAbsent(s, c, r);
    case Some(i) =>
      MapCharAt(s, c, r, i);
      ReplaceOneChar(s[i + 1..], c, r);
  }

  // ---------- str_format ----------

  /** One `ss << p << text << endl` of the wrap loop; the stream holds what they print. */
  datatype Line = Line(prefix: string, text: string)

  function Texts(lines: seq<Line>): seq<string> {
    seq(|lines|, i requires 0 <= i < |lines| => lines[i].text)
  }

  function Printed(lines: seq<Line>): string {
    if lines == [] then "" else lines[0].prefix + lines[0].text + "\n" + Printed(lines[1..])
  }

  function FullLines(lines: seq<Line>): seq<string> {
    seq(|lines|, i requires 0 <= i < |lines| => lines[i].prefix + lines[i].text)
  }

  /** What is printed: every line, its prefix first, with a newline behind it. */
  lemma {:induction false} PrintedIs(lines: seq<Line>)
    ensures Printed(lines) == Weave(FullLines(lines) + [""], seq(|lines|, _ => '\n'))
    decreases |lines|
  {
    hide Weave;
    if lines == [] {
      WeaveNone();
      assert FullLines(lines) + [""] == [""] && seq(|lines|, _ => '\n') == "";
    } else {
      PrintedIs(lines[1..]);
      var first, rest := lines[0].prefix + lines[0].text, FullLines(lines[1..]) + [""];
      WeaveCons(first, '\n', rest, seq(|lines| - 1, _ => '\n'));
      assert FullLines(lines) + [""] == [first] + rest;
      assert seq(|lines|, _ => '\n') == ['\n'] + seq(|lines| - 1, _ => '\n');
    }
  }

  lemma WeaveNone()
    ensures Weave([""], "") == ""
  {
  }

  lemma {:induction false} PrintedSnoc(lines: seq<Line>, line: Line)
    ensures Printed(lines + [line]) == Printed(lines) + line.prefix + line.text + "\n"
    decreases |lines|
  {
    if lines == [] {
      assert lines + [line] == [line] && [line][1..] == [];
    } else {
      assert (lines + [line])[1..] == lines[1..] + [line];
      PrintedSnoc(lines[1..], line);
      var first := lines[0].prefix + lines[0].text + "\n";
      assert first + (Printed(lines[1..]) + line.prefix + line.text + "\n") ==
             (first + Printed(lines[1..])) + line.prefix + line.text + "\n";
    }
  }

  function Spaces(n: nat): string {
    seq(n, _ => ' ')
  }

  predicate Blank(c: char) {
    c == ' ' || c == '\n' || c == '\t'
  }

  /** `s.find_first_of(" \n\t", from)`. */
  function FirstBlank(s: string, from: nat): (r: Maybe<nat>)
    ensures r.Some? ==> from <= r.value < |s| && Blank(s[r.value])
    ensures forall j | from <= j < (if r.Some? then r.value else |s|) :: !Blank(s[j])
    decreases |s| - from
  {
    if from >= |s| then None
    else if Blank(s[from]) then Some(from)
    else FirstBlank(s, from + 1)
  }

  predicate ParagraphStart(s: string, i: nat) {
    i <= |s| && (i == 0 || s[i - 1] == '\n')
  }

  predicate WordStart(s: string, i: nat) {
    i <= |s| && (i == 0 || Blank(s[i - 1]))
  }

  /** The word at `i` fits on a line, or nothing but a newline (or the end) follows it. */
  predicate WordFits(s: string, pre: nat, len: nat, i: nat) {
    match FirstBlank(s, i)
    case None => true
    case Some(j) => s[j] == '\n' || j + pre <= i + len
  }

  /** The first word of every paragraph fits. */
  ghost predicate HeadsFit(s: string, pre: nat, len: nat) {
    forall i: nat | ParagraphStart(s, i) :: WordFits(s, pre, len, i)
  }

  ghost predicate WordsFit(s: string, pre: nat, len: nat) {
    forall i: nat | WordStart(s, i) :: WordFits(s, pre, len, i)
  }

  /** The texts, rejoined with one dropped blank at each break, are the input; no text spans a newline. */
  ghost predicate Rejoins(lines: seq<Line>, drops: string, s: string) {
    && |lines| == |drops| + 1
    && Weave(Texts(lines), drops) == s
    && (forall i | 0 <= i < |drops| :: drops[i] in " \n\t")
    && (forall i | 0 <= i < |lines| :: '\n' !in lines[i].text)
  }

  /** Every line broken for width (not at a newline) is within the width. */
  ghost predicate WithinWidth(lines: seq<Line>, drops: string, pre: nat, len: nat)
    requires |lines| == |drops| + 1
  {
    forall i | 0 <= i < |drops| && drops[i] != '\n' :: |lines[i].text| + pre <= len
  }

  /** The length of the word that a line begins with. */
  function FirstWord(text: string): nat {
    if text == "" || text[0] in " \n\t" then 0 else 1 + FirstWord(text[1..])
  }

  lemma {:induction false} FirstWordIs(text: string, n: nat)
    requires n <= |text| && (forall i | 0 <= i < n :: !Blank(text[i])) && (n < |text| ==> Blank(text[n]))
    ensures FirstWord(text) == n
    decreases n
  {
    if n > 0 {
      FirstWordIs(text[1..], n - 1);
    }
  }

  /** A line is broken for width only if the word that begins the next line would not have fit. */
  ghost predicate BrokenLate(lines: seq<Line>, drops: string, pre: nat, len: nat)
    requires |lines| == |drops| + 1
  {
    forall i | 0 <= i < |drops| && drops[i] != '\n' :: |lines[i].text| + 1 + FirstWord(lines[i + 1].text) + pre > len
  }

  lemma TextsSnoc(lines: seq<Line>, line: Line)
    ensures Texts(lines + [line]) == Texts(lines) + [line.text]
  {
  }

  lemma {:induction false} WeaveLast(pieces: seq<string>, seps: string, last: string)
    requires |pieces| == |seps|
    ensures Weave(pieces + [last], seps) == Weave(pieces + [""], seps) + last
  {
    if seps != [] {
      WeaveLast(pieces[1..], seps[1..], last);
      assert (pieces + [last])[1..] == pieces[1..] + [last];
      assert (pieces + [""])[1..] == pieces[1..] + [""];
    }
  }

  /** Emitting s[start..end] and dropping s[end] extends the rejoined prefix of `s` past `end`. */
  lemma EmitKeeps(texts: seq<string>, drops: string, s: string, start: nat, end: nat)
    requires |texts| == |drops| && start <= end < |s|
    requires Weave(texts + [""], drops) == s[..start]
    ensures Weave(texts + [s[start..end]] + [""], drops + [s[end]]) == s[..end + 1]
  {
    hide Weave;
    WeaveLast(texts, drops, s[start..end]);
    WeaveSnoc(texts + [s[start..end]], drops, s[end], "");
    assert s[..end + 1] == s[..start] + s[start..end] + [s[end]] + "";
  }

  // The state of the wrap loop: `texts` are out, the current line began at `linestart`, the next
  // word is looked for at `pos`. `kept` says that no emission so far went past the current word.

  /** Where the loop stands in the input. */
  ghost predicate Scanning(s: string, pre: nat, len: nat, linestart: nat, pos: nat) {
    && linestart <= pos <= |s|
    && (pos == linestart <==> ParagraphStart(s, pos))
    && '\n' !in s[linestart..pos]
    && (pos > linestart ==> Blank(s[pos - 1]))
    && WordStart(s, linestart)
    && (pos > linestart && WordsFit(s, pre, len) ==> pos - 1 + pre <= linestart + len)
  }

  /** What has been emitted is the input up to `linestart`. */
  ghost predicate Emitted(s: string, texts: seq<string>, drops: string, linestart: nat) {
    && |texts| == |drops| && linestart <= |s|
    && Weave(texts + [""], drops) == s[..linestart]
    && (forall i | 0 <= i < |texts| :: '\n' !in texts[i])
    && (forall i | 0 <= i < |drops| :: Blank(drops[i]))
  }

  ghost predicate NarrowSoFar(texts: seq<string>, drops: string, pre: nat, len: nat) {
    |texts| == |drops| && forall i | 0 <= i < |drops| && drops[i] != '\n' :: |texts[i]| + pre <= len
  }

  /** Every break for width was needed; the word behind the last one has been scanned. */
  ghost predicate LateSoFar(s: string, texts: seq<string>, drops: string, pre: nat, len: nat, linestart: nat, pos: nat) {
    && |texts| == |drops|
    && (forall i | 0 <= i < |drops| - 1 && drops[i] != '\n' :: |texts[i]| + 1 + FirstWord(texts[i + 1]) + pre > len)
    && (drops != "" && drops[|drops| - 1] != '\n' ==>
          var word := FirstBlank(s, linestart);
          && word.Some? && word.value < pos
          && |texts[|texts| - 1]| + 1 + (word.value - linestart) + pre > len)
  }

  lemma FirstWordOf(s: string, start: nat, end: nat)
    requires start <= end <= |s| && FirstBlank(s, start).Some? && FirstBlank(s, start).value <= end
    ensures FirstWord(s[start..end]) == FirstBlank(s, start).value - start
  {
    FirstWordIs(s[start..end], FirstBlank(s, start).value - start);
  }

  /** One more line, up to `end`; whether the break behind it was needed is what the last requirement says. */
  lemma LateOn(s: string, texts: seq<string>, drops: string, pre: nat, len: nat, linestart: nat, pos: nat,
               end: nat, drop: char, linestart': nat, pos': nat)
    requires LateSoFar(s, texts, drops, pre, len, linestart, pos)
    requires linestart <= end <= |s| && pos <= end + 1
    requires drop != '\n' ==>
               var word := FirstBlank(s, linestart');
               && word.Some? && word.value < pos'
               && (end - linestart) + 1 + (word.value - linestart') + pre > len
    ensures LateSoFar(s, texts + [s[linestart..end]], drops + [drop], pre, len, linestart', pos')
  {
    hide FirstBlank;
    if drops != "" && drops[|drops| - 1] != '\n' {
      FirstWordOf(s, linestart, end);
    }
  }

  ghost predicate HeadsFitBefore(s: string, pre: nat, len: nat, pos: nat) {
    forall i: nat | i < pos && ParagraphStart(s, i) :: WordFits(s, pre, len, i)
  }

  ghost predicate Wrapping(s: string, pre: nat, len: nat, texts: seq<string>, drops: string, kept: bool,
                           linestart: nat, pos: nat) {
    && Scanning(s, pre, len, linestart, pos)
    && (kept ==> Emitted(s, texts, drops, linestart) && HeadsFitBefore(s, pre, len, pos))
    && (kept ==> LateSoFar(s, texts, drops, pre, len, linestart, pos))
    && (kept && WordsFit(s, pre, len) ==> NarrowSoFar(texts, drops, pre, len))
    && (!kept ==> !HeadsFit(s, pre, len) && Lengths(texts) + |texts| > linestart)
  }

  lemma Advance(s: string, start: nat, pos: nat, next: nat)
    requires start <= pos && FirstBlank(s, pos) == Some(next)
    ensures '\n' !in s[start..pos] ==> '\n' !in s[start..next]
    ensures '\n' !in s[start..pos] && s[next] != '\n' ==> '\n' !in s[start..next + 1]
    ensures !ParagraphStart(s, next + 1) <==> s[next] != '\n'
    ensures forall i | pos < i <= next :: !ParagraphStart(s, i)
  {
    assert s[start..next] == s[start..pos] + s[pos..next];
    assert s[start..next + 1] == s[start..next] + [s[next]];
  }

  /** A line that starts at `start` goes on after the blank at `next`. */
  lemma ScanOn(s: string, pre: nat, len: nat, start: nat, pos: nat, next: nat)
    requires start <= pos <= |s| && WordStart(s, start) && '\n' !in s[start..pos]
    requires FirstBlank(s, pos) == Some(next) && s[next] != '\n'
    requires next + pre <= start + len || start == pos
    ensures Scanning(s, pre, len, start, next + 1)
  {
    Advance(s, start, pos, next);
    assert start == pos && WordsFit(s, pre, len) ==> WordFits(s, pre, len, pos);
  }

  /** Past the blank at `next`, the only paragraph start to account for is `pos` itself. */
  lemma HeadsOn(s: string, pre: nat, len: nat, pos: nat, next: nat)
    requires HeadsFitBefore(s, pre, len, pos) && FirstBlank(s, pos) == Some(next)
    requires ParagraphStart(s, pos) ==> WordFits(s, pre, len, pos)
    ensures HeadsFitBefore(s, pre, len, next + 1)
  {
    Advance(s, pos, pos, next);
  }

  /** The word ending at `next` joins the current line. */
  lemma WordJoins(s: string, pre: nat, len: nat, texts: seq<string>, drops: string, kept: bool,
                  linestart: nat, pos: nat, next: nat)
    requires Wrapping(s, pre, len, texts, drops, kept, linestart, pos)
    requires FirstBlank(s, pos) == Some(next) && s[next] != '\n' && next + pre <= linestart + len
    ensures Wrapping(s, pre, len, texts, drops, kept, linestart, next + 1)
    ensures next < |s|
  {
    ScanOn(s, pre, len, linestart, pos, next);
    if kept {
      HeadsOn(s, pre, len, pos, next);
    }
  }

  /** The line ends at the newline `next`. */
  lemma NewlineBreaks(s: string, pre: nat, len: nat, texts: seq<string>, drops: string, kept: bool,
                      linestart: nat, pos: nat, next: nat)
    requires Wrapping(s, pre, len, texts, drops, kept, linestart, pos)
    requires FirstBlank(s, pos) == Some(next) && s[next] == '\n'
    ensures Wrapping(s, pre, len, texts + [s[linestart..next]], drops + "\n", kept, next + 1, next + 1)
  {
    Advance(s, linestart, pos, next);
    if kept {
      EmitKeeps(texts, drops, s, linestart, next);
      HeadsOn(s, pre, len, pos, next);
      LateOn(s, texts, drops, pre, len, linestart, pos, next, '\n', next + 1, next + 1);
    }
    LengthsSnoc(texts, s[linestart..next]);
  }

  /** The word ending at `next` does not fit and starts the next line. */
  lemma WidthBreaks(s: string, pre: nat, len: nat, texts: seq<string>, drops: string, kept: bool,
                    linestart: nat, pos: nat, next: nat)
    requires Wrapping(s, pre, len, texts, drops, kept, linestart, pos)
    requires FirstBlank(s, pos) == Some(next) && s[next] != '\n' && linestart < pos && next + pre > linestart + len
    ensures Wrapping(s, pre, len, texts + [s[linestart..pos - 1]], drops + [s[pos - 1]], kept, pos, next + 1)
  {
    hide FirstBlank, Weave, FirstWord;
    ScanOn(s, pre, len, pos, pos, next);
    assert s[linestart..pos] == s[linestart..pos - 1] + [s[pos - 1]];
    if kept {
      EmitKeeps(texts, drops, s, linestart, pos - 1);
      HeadsOn(s, pre, len, pos, next);
      LateOn(s, texts, drops, pre, len, linestart, pos, pos - 1, s[pos - 1], pos, next + 1);
    }
    LengthsSnoc(texts, s[linestart..pos - 1]);
  }

  /** The first word of a paragraph does not fit: the count wraps and the whole rest is emitted. */
  lemma HeadOverflows(s: string, pre: nat, len: nat, texts: seq<string>, drops: string, kept: bool,
                      pos: nat, next: nat)
    requires Wrapping(s, pre, len, texts, drops, kept, pos, pos)
    requires FirstBlank(s, pos) == Some(next) && s[next] != '\n' && next + pre > pos + len
    ensures Wrapping(s, pre, len, texts + [s[pos..]], drops + " ", false, pos, next + 1)
  {
    assert !WordFits(s, pre, len, pos);
    LengthsSnoc(texts, s[pos..]);
    WeaveIsLong(s, texts, drops, kept, pos);
    ScanOn(s, pre, len, pos, pos, next);
  }

  /** Any emission of the loop: the text is cut with the code's own `size_t` arithmetic. */
  lemma Emission(s: string, pre: nat, len: nat, texts: seq<string>, drops: string, kept: bool,
                 linestart: nat, pos: nat, next: nat, text: string)
    returns (drops': string, kept': bool)
    requires |s| <= MAX_SIZE && Wrapping(s, pre, len, texts, drops, kept, linestart, pos)
    requires FirstBlank(s, pos) == Some(next) && (s[next] == '\n' || next + pre > linestart + len)
    requires text == Substr(s, linestart, Wrapped((if s[next] == '\n' then next + 1 else pos) - linestart - 1))
    ensures Wrapping(s, pre, len, texts + [text], drops', kept', if s[next] == '\n' then next + 1 else pos, next + 1)
  {
    if s[next] == '\n' {
      NewlineBreaks(s, pre, len, texts, drops, kept, linestart, pos, next);
      drops', kept' := drops + "\n", kept;
    } else if linestart < pos {
      WidthBreaks(s, pre, len, texts, drops, kept, linestart, pos, next);
      drops', kept' := drops + [s[pos - 1]], kept;
    } else {
      HeadOverflows(s, pre, len, texts, drops, kept, pos, next);
      drops', kept' := drops + " ", false;
    }
  }

  /** Conserved or not, the emitted texts account for everything before `linestart`. */
  lemma WeaveIsLong(s: string, texts: seq<string>, drops: string, kept: bool, linestart: nat)
    requires kept ==> Emitted(s, texts, drops, linestart)
    requires !kept ==> Lengths(texts) + |texts| > linestart
    ensures Lengths(texts) + |texts| >= linestart
  {
    if kept {
      WeaveLength(texts + [""], drops);
      LengthsSnoc(texts, "");
    }
  }

  lemma LastLineKept(s: string, pre: nat, len: nat, texts: seq<string>, drops: string, linestart: nat, pos: nat,
                     lines: seq<Line>)
    requires Wrapping(s, pre, len, texts, drops, true, linestart, pos)
    requires FirstBlank(s, pos) == None && Texts(lines) == texts + [s[linestart..]]
    ensures HeadsFit(s, pre, len) && Rejoins(lines, drops, s) && BrokenLate(lines, drops, pre, len)
    ensures WordsFit(s, pre, len) ==> WithinWidth(lines, drops, pre, len)
  {
    hide Weave, WordsFit;
    var last := s[linestart..];
    assert |lines| == |Texts(lines)|;
    assert forall i | 0 <= i < |lines| :: lines[i].text == Texts(lines)[i];
    WeaveLast(texts, drops, last);
    assert s == s[..linestart] + last;
    NoNewlineLeft(s, linestart, pos);
    LastWordLate(s, pre, len, texts, drops, linestart, pos);
  }

  lemma LastWordLate(s: string, pre: nat, len: nat, texts: seq<string>, drops: string, linestart: nat, pos: nat)
    requires linestart <= |s| && LateSoFar(s, texts, drops, pre, len, linestart, pos)
    ensures var all := texts + [s[linestart..]];
            forall i | 0 <= i < |drops| && drops[i] != '\n' :: |all[i]| + 1 + FirstWord(all[i + 1]) + pre > len
  {
    assert s[linestart..] == s[linestart..|s|];
    if drops != "" && drops[|drops| - 1] != '\n' {
      FirstWordOf(s, linestart, |s|);
    }
  }

  lemma NoNewlineLeft(s: string, linestart: nat, pos: nat)
    requires linestart <= pos <= |s| && '\n' !in s[linestart..pos] && FirstBlank(s, pos) == None
    ensures '\n' !in s[linestart..]
  {
    assert s[linestart..] == s[linestart..pos] + s[pos..];
  }

  lemma LastLineLost(s: string, pre: nat, len: nat, texts: seq<string>, drops: string, linestart: nat, pos: nat,
                     lines: seq<Line>)
    requires Wrapping(s, pre, len, texts, drops, false, linestart, pos)
    requires Texts(lines) == texts + [s[linestart..]]
    ensures !HeadsFit(s, pre, len) && forall d :: !Rejoins(lines, d, s)
  {
    hide Weave, HeadsFit, WordsFit;
    LengthsSnoc(texts, s[linestart..]);
    assert |Texts(lines)| == |lines|;
    forall d: string
      ensures !Rejoins(lines, d, s)
    {
      if |lines| == |d| + 1 {
        WeaveLength(Texts(lines), d);
      }
    }
  }

  /** The loop is over: the last line takes what is left. */
  lemma LastLine(s: string, pre: nat, len: nat, texts: seq<string>, drops: string, kept: bool,
                 linestart: nat, pos: nat, lines: seq<Line>)
    requires Wrapping(s, pre, len, texts, drops, kept, linestart, pos)
    requires FirstBlank(s, pos) == None && Texts(lines) == texts + [s[linestart..]]
    ensures kept ==> HeadsFit(s, pre, len) && Rejoins(lines, drops, s) && BrokenLate(lines, drops, pre, len)
    ensures kept && WordsFit(s, pre, len) ==> WithinWidth(lines, drops, pre, len)
    ensures !kept ==> !HeadsFit(s, pre, len) && forall d :: !Rejoins(lines, d, s)
  {
    hide HeadsFit, Rejoins, WordsFit, WithinWidth, BrokenLate, Texts;
    if kept {
      LastLineKept(s, pre, len, texts, drops, linestart, pos, lines);
    } else {
      LastLineLost(s, pre, len, texts, drops, linestart, pos, lines);
    }
  }

  /** Which lines carry the indentation; `p` is the prefix the next line would get. */
  ghost predicate Indented(lines: seq<Line>, p: string, pre: nat, indentFirst: bool) {
    && (if |lines| > 0 then lines[0].prefix else p) == (if indentFirst then Spaces(pre) else "")
    && (|lines| > 1 ==> p == Spaces(pre))
    && (forall k | 1 <= k < |lines| :: lines[k].prefix == Spaces(pre))
  }

  lemma IndentOn(lines: seq<Line>, p: string, pre: nat, indentFirst: bool, text: string)
    requires Indented(lines, p, pre, indentFirst)
    ensures var q := if |lines| == 1 then Spaces(pre) else p;
            Indented(lines, q, pre, indentFirst) && Indented(lines + [Line(q, text)], q, pre, indentFirst)
  {
  }

  /** The whole invariant of the wrap loop. */
  ghost predicate WrapLoop(s: string, pre: nat, len: nat, indentFirst: bool, lines: seq<Line>, p: string,
                           drops: string, kept: bool, linestart: nat, pos: nat) {
    && |s| <= MAX_SIZE && pre < 0x1_0000_0000 && len < 0x1_0000_0000
    && Indented(lines, p, pre, indentFirst)
    && Wrapping(s, pre, len, Texts(lines), drops, kept, linestart, pos)
  }

  lemma WrapStart(s: string, pre: nat, len: nat, indentFirst: bool)
    requires |s| <= MAX_SIZE && pre < 0x1_0000_0000 && len < 0x1_0000_0000
    ensures WrapLoop(s, pre, len, indentFirst, [], if indentFirst then Spaces(pre) else "", "", true, 0, 0)
  {
    assert Texts([]) + [""] == [""];
  }

  /** What one round of the loop does with the prefix. */
  function NextPrefix(lines: seq<Line>, p: string, pre: nat): string {
    if |lines| == 1 then Spaces(pre) else p
  }

  /** The condition under which the code emits a line at the blank `next`. */
  predicate Breaks(s: string, pre: nat, len: nat, linestart: nat, next: nat)
    requires next < |s|
  {
    s[next] == '\n' || Wrapped(next + pre) > Wrapped(linestart + len)
  }

  lemma InBounds(s: string, pre: nat, len: nat, texts: seq<string>, drops: string, kept: bool, linestart: nat, pos: nat)
    requires Wrapping(s, pre, len, texts, drops, kept, linestart, pos)
    ensures linestart <= pos <= |s|
  {
  }

  /** One emission, with everything the loop keeps track of. */
  lemma RoundEmits(s: string, pre: nat, len: nat, indentFirst: bool, lines: seq<Line>, p: string,
                   drops: string, kept: bool, linestart: nat, pos: nat, next: nat, next': nat, text: string)
    returns (drops': string, kept': bool)
    requires WrapLoop(s, pre, len, indentFirst, lines, p, drops, kept, linestart, pos)
    requires FirstBlank(s, pos) == Some(next) && Breaks(s, pre, len, linestart, next)
    requires next' == if s[next] == '\n' then next + 1 else pos
    requires text == Substr(s, linestart, Wrapped(next' - linestart - 1))
    ensures var q := NextPrefix(lines, p, pre);
            WrapLoop(s, pre, len, indentFirst, lines + [Line(q, text)], q, drops', kept',
                     next', next + 1)
  {
    hide Wrapping, Indented, Texts, FirstBlank;
    InBounds(s, pre, len, Texts(lines), drops, kept, linestart, pos);
    IndentOn(lines, p, pre, indentFirst, text);
    TextsSnoc(lines, Line(NextPrefix(lines, p, pre), text));
    drops', kept' := Emission(s, pre, len, Texts(lines), drops, kept, linestart, pos, next, text);
  }

  /** One round without an emission. */
  lemma RoundJoins(s: string, pre: nat, len: nat, indentFirst: bool, lines: seq<Line>, p: string,
                   drops: string, kept: bool, linestart: nat, pos: nat, next: nat)
    requires WrapLoop(s, pre, len, indentFirst, lines, p, drops, kept, linestart, pos)
    requires FirstBlank(s, pos) == Some(next) && !Breaks(s, pre, len, linestart, next)
    ensures WrapLoop(s, pre, len, indentFirst, lines, NextPrefix(lines, p, pre), drops, kept, linestart, next + 1)
  {
    IndentOn(lines, p, pre, indentFirst, "");
    WordJoins(s, pre, len, Texts(lines), drops, kept, linestart, pos, next);
  }

  /** What `str_format` promises of its output lines. */
  ghost predicate Formatted(s: string, pre: nat, len: nat, indentFirst: bool, lines: seq<Line>) {
    && lines != []
    && (HeadsFit(s, pre, len) <==> exists drops :: Rejoins(lines, drops, s))
    && (HeadsFit(s, pre, len) ==>
          exists drops :: && Rejoins(lines, drops, s) && BrokenLate(lines, drops, pre, len)
                          && (WordsFit(s, pre, len) ==> WithinWidth(lines, drops, pre, len)))
    && lines[0].prefix == (if indentFirst then Spaces(pre) else "")
    && (forall k | 1 <= k < |lines| && (k > 1 || |lines| > 2) :: lines[k].prefix == Spaces(pre))
  }

  lemma LastRound(s: string, pre: nat, len: nat, indentFirst: bool, lines: seq<Line>, p: string,
                  drops: string, kept: bool, linestart: nat, pos: nat)
    requires WrapLoop(s, pre, len, indentFirst, lines, p, drops, kept, linestart, pos)
    requires FirstBlank(s, pos) == None
    ensures linestart <= |s|
    ensures Formatted(s, pre, len, indentFirst, lines + [Line(p, s[linestart..])])
  {
    TextsSnoc(lines, Line(p, s[linestart..]));
    LastLine(s, pre, len, Texts(lines), drops, kept, linestart, pos, lines + [Line(p, s[linestart..])]);
    WordsFitHeads(s, pre, len);
  }

  /**
   `str_format`. The text is conserved exactly when the first word of every paragraph fits
   (otherwise `pos - linestart - 1` wraps to npos and the whole rest is printed early).
   */
  method StrFormat(s: string, pre: nat, len: nat, indentFirst: bool) returns (out: string, lines: seq<Line>)
    requires |s| <= MAX_SIZE && pre < 0x1_0000_0000 && len < 0x1_0000_0000
    ensures out == Printed(lines) && Formatted(s, pre, len, indentFirst, lines)
  {
    hide Wrapped, Substr, FirstBlank, Spaces, WrapLoop, Formatted, NextPrefix, Printed;
    NothingPrinted();
    lines, out := [], "";
    var p := if indentFirst then Spaces(pre) else "";
    var pos: nat, linestart: nat := 0, 0;
    ghost var drops, kept := "", true;
    WrapStart(s, pre, len, indentFirst);
    while true
      invariant linestart <= pos <= |s| && out == Printed(lines)
      invariant WrapLoop(s, pre, len, indentFirst, lines, p, drops, kept, linestart, pos)
      decreases |s| - pos
    {
      var found := FirstBlank(s, pos);
      if found.None? {
        break;
      }
      var newPos := found.value;
      ghost var prefix, start := p, pos;
      var wrap := s[newPos] == '\n';
      if wrap {
        pos := newPos + 1;
      }
      p := NextPrefix(lines, p, pre);
      if wrap || Wrapped(newPos + pre) > Wrapped(linestart + len) {
        var text := Substr(s, linestart, Wrapped(pos - linestart - 1));
        drops, kept := RoundEmits(s, pre, len, indentFirst, lines, prefix, drops, kept, linestart, start, newPos, pos, text);
        PrintedSnoc(lines, Line(p, text));
        out := out + p + text + "\n";
        lines := lines + [Line(p, text)];
        linestart := pos;
      } else {
        RoundJoins(s, pre, len, indentFirst, lines, prefix, drops, kept, linestart, start, newPos);
      }
      pos := newPos + 1;
    }
    LastRound(s, pre, len, indentFirst, lines, p, drops, kept, linestart, pos);
    PrintedSnoc(lines, Line(p, s[linestart..]));
    out := out + p + s[linestart..] + "\n";
    lines := lines + [Line(p, s[linestart..])];
  }

  lemma NothingPrinted()
    ensures Printed([]) == ""
  {
  }

  /** Whenever every word fits, so does every paragraph's first word: then nothing is lost. */
  lemma WordsFitHeads(s: string, pre: nat, len: nat)
    ensures WordsFit(s, pre, len) ==> HeadsFit(s, pre, len)
  {
    assert forall i: nat :: ParagraphStart(s, i) ==> WordStart(s, i);
  }

  /** A text that is not conserved: its first word is wider than the line. */
  lemma WideFirstWordIsLost(lines: seq<Line>)
    requires Formatted("ab c", 0, 1, true, lines)
    ensures forall drops :: !Rejoins(lines, drops, "ab c")
  {
    var s := "ab c";
    assert Blank(s[2]) && FirstBlank(s, 0) == Some(2);
    assert ParagraphStart(s, 0) && !WordFits(s, 0, 1, 0);
  }
}
