/**
 src/common/options/modern/StringAppendCallback.cpp: the option callback that collects values in one
 `;`-separated string, and the decoder that takes them apart again.
 */
module AppendCallback {
  import opened CppStrings

  /** What one `append(s)` makes of the collected string. */
  function Appended(str: string, s: string): string {
    if |s| > 0 then str + s + ";" else str + "'';"
  }

  function AppendedAll(str: string, items: seq<string>): string
    decreases items
  {
    if items == [] then str else AppendedAll(Appended(str, items[0]), items[1..])
  }

  /** One piece between separators: `''` stands for the empty string, an empty piece for nothing. */
  function PieceItems(piece: string): seq<string> {
    if piece == "''" then [""] else if piece == "" then [] else [piece]
  }

  /** The items of everything from `start` on, cut at every `;`. */
  function ItemsFrom(str: string, start: nat): seq<string>
    requires start <= |str|
    decreases |str| - start
  {
    match IndexOf(str, ";", start)
    case None => PieceItems(str[start..])
    case Some(i) => PieceItems(str[start..i]) + ItemsFrom(str, i + 1)
  }

  /** What `getStrings` returns: without any separator the string itself, uninterpreted. */
  function Items(str: string): seq<string> {
    if IndexOf(str, ";", 0).None? then (if |str| > 0 then [str] else [])
    else ItemsFrom(str, 0)
  }

  /** What one appended item contributes to the result. */
  function Contribution(item: string): seq<string> {
    if item == "" then [""] else ItemsFrom(item, 0)
  }

  function Contributions(items: seq<string>): seq<string> {
    if items == [] then [] else Contribution(items[0]) + Contributions(items[1..])
  }

  /** One round of the decoding loop, in the code's own `size_t` arithmetic. */
  lemma DecodeRound(str: string, start: nat, colon: nat)
    requires |str| <= MAX_SIZE && start <= |str| && colon == Find(str, ";", start)
    ensures var piece := Substr(str, start, Wrapped(colon - start));
            if colon == NPOS then ItemsFrom(str, start) == PieceItems(piece) + []
            else colon < |str| && Wrapped(colon + 1) == colon + 1
                 && ItemsFrom(str, start) == PieceItems(piece) + ItemsFrom(str, colon + 1)
    ensures colon == NPOS <==> IndexOf(str, ";", start).None?
  {
    FindChar(str, ';', start);
  }

  class StringAppendCallback {
    var str: string

    constructor ()
      ensures str == ""
    {
      str := "";
    }

    method Append(s: string)
      modifies this
      ensures str == Appended(old(str), s)
    {
      if |s| > 0 {
        str := str + s;
        str := str + ";";
      } else {
        str := str + "'';";
      }
    }

    /** `operator()`: the option's value is appended. */
    method Call(val: string)
      modifies this
      ensures str == Appended(old(str), val)
    {
      Append(val);
    }

    method GetStrings() returns (strings: seq<string>)
      requires |str| <= MAX_SIZE
      ensures strings == Items(str)
    {
      hide IndexOf, ItemsFrom, Substr;
      strings := [];
      var colonPosition := Find(str, ";", 0);
      var start: nat := 0;
      DecodeRound(str, 0, colonPosition);
      ghost var rest := ItemsFrom(str, 0);
      if colonPosition != NPOS {
        while colonPosition != NPOS
          invariant colonPosition != NPOS ==> start <= |str|
          invariant rest == if colonPosition == NPOS then [] else ItemsFrom(str, start)
          invariant strings + rest == ItemsFrom(str, 0)
          decreases colonPosition != NPOS, |str| - start
        {
          colonPosition := Find(str, ";", start);
          var length := Wrapped(colonPosition - start);
          DecodeRound(str, start, colonPosition);
          ghost var before, items := strings, PieceItems(Substr(str, start, length));
          if Substr(str, start, length) == "''" {
            strings := strings + [""];
          } else if |Substr(str, start, length)| > 0 {
            strings := strings + [Substr(str, start, length)];
          }
          rest := if colonPosition == NPOS then [] else ItemsFrom(str, colonPosition + 1);
          assert strings == before + items;
          Assoc(before, items, rest);
          start := Wrapped(colonPosition + 1);
        }
      } else if |str| > 0 {
        strings := strings + [str];
      }
    }
  }

  // ---------- round trip ----------

  lemma OneStep(str: string, start: nat)
    requires start <= |str|
    ensures var r := IndexOf(str, ";", start);
            && (r.None? ==> ItemsFrom(str, start) == PieceItems(str[start..]))
            && (r.Some? ==> ItemsFrom(str, start) == PieceItems(str[start..r.value]) + ItemsFrom(str, r.value + 1))
  {
  }

  /** Decoding may start at any boundary: only the tail matters. */
  lemma {:induction false} ItemsOfTail(str: string, start: nat)
    requires start <= |str|
    ensures ItemsFrom(str, start) == ItemsFrom(str[start..], 0)
    decreases |str| - start
  {
    hide IndexOf, ItemsFrom, PieceItems;
    IndexOfTail(str, ";", start);
    var tail := str[start..];
    OneStep(str, start);
    OneStep(tail, 0);
    var r := IndexOf(tail, ";", 0);
    if r.Some? {
      assert tail[0..r.value] == str[start..start + r.value];
      ItemsOfTail(str, start + r.value + 1);
      ItemsOfTail(tail, r.value + 1);
      assert tail[r.value + 1..] == str[start + r.value + 1..];
    } else {
      assert tail[0..] == tail;
    }
  }

  /** Cutting `str` at its first separator, as two strings. */
  lemma ItemsCut(front: string, rest: string)
    requires ';' !in front
    ensures ItemsFrom(front + ";" + rest, 0) == PieceItems(front) + ItemsFrom(rest, 0)
  {
    var str := front + ";" + rest;
    assert str[|front|] == ';' && str[0..|front|] == front && str[|front| + 1..] == rest;
    FoundChar(str, ';', 0, |front|);
    ItemsOfTail(str, |front| + 1);
  }

  /** A complete item followed by `;` decodes to its contribution and then the rest. */
  lemma {:induction false} ItemsOfAppend(item: string, rest: string)
    ensures ItemsFrom(item + ";" + rest, 0) == ItemsFrom(item, 0) + ItemsFrom(rest, 0)
    decreases |item|
  {
    FindChar(item, ';', 0);
    match IndexOf(item, ";", 0)
    case None =>
      assert item[0..] == item;
      ItemsCut(item, rest);
    case Some(i) =>
      var front, back := item[0..i], item[i + 1..];
      assert item == front + ";" + back;
      ItemsCut(front, back);
      assert item + ";" + rest == front + ";" + (back + ";" + rest);
      ItemsCut(front, back + ";" + rest);
      ItemsOfAppend(back, rest);
      Assoc(PieceItems(front), ItemsFrom(back, 0), ItemsFrom(rest, 0));
  }

  lemma AppendedSplits(str: string, item: string)
    ensures Appended(str, item) == str + Appended("", item)
  {
    assert str + "'';" == str + ("" + "'';");
    assert str + item + ";" == str + ("" + item + ";");
  }

  lemma {:induction false} AppendedAllSplits(str: string, items: seq<string>)
    ensures AppendedAll(str, items) == str + AppendedAll("", items)
    decreases items
  {
    if items != [] {
      var first := Appended("", items[0]);
      AppendedSplits(str, items[0]);
      assert str + (first + AppendedAll("", items[1..])) == (str + first) + AppendedAll("", items[1..]);
      AppendedAllSplits(str + first, items[1..]);
      AppendedAllSplits(first, items[1..]);
    }
  }

  /** Something has been collected exactly if an item was handed over. */
  lemma {:induction false} CollectedIsEmpty(str: string, items: seq<string>)
    ensures AppendedAll(str, items) == "" <==> str == "" && items == []
    decreases |items|
  {
    if items != [] {
      CollectedIsEmpty(Appended(str, items[0]), items[1..]);
    }
  }

  lemma ItemsOfFirst(item: string, items: seq<string>)
    ensures ItemsFrom(AppendedAll(Appended("", item), items), 0) == Contribution(item) + ItemsFrom(AppendedAll("", items), 0)
  {
    AppendedAllSplits(Appended("", item), items);
    var text := if item == "" then "''" else item;
    assert Appended("", item) == text + ";";
    ItemsOfAppend(text, AppendedAll("", items));
    if item == "" {
      assert text[0..] == text;
      NotFoundChar(text, ';', 0);
    }
  }

  lemma {:induction false} ItemsFromAppends(items: seq<string>)
    ensures ItemsFrom(AppendedAll("", items), 0) == Contributions(items)
  {
    if items != [] {
      ItemsOfFirst(items[0], items[1..]);
      ItemsFromAppends(items[1..]);
    }
  }

  /** After any sequence of appends `getStrings` is the concatenation of what each append contributes. */
  lemma ItemsOfAppends(items: seq<string>)
    ensures Items(AppendedAll("", items)) == Contributions(items)
  {
    ItemsFromAppends(items);
    var str := AppendedAll("", items);
    if items != [] {
      AppendedAllSplits(Appended("", items[0]), items[1..]);
      var n := |Appended("", items[0])| - 1;
      assert str[n] == ';';
      CharMatch(str, ';', n);
    }
  }

  /** No decoded item contains a separator or is the marker of the empty string. */
  lemma {:induction false} ItemsAreClean(str: string, start: nat)
    requires start <= |str|
    ensures forall x | x in ItemsFrom(str, start) :: ';' !in x && x != "''"
    decreases |str| - start
  {
    FindChar(str, ';', start);
    var r := IndexOf(str, ";", start);
    if r.Some? {
      ItemsAreClean(str, r.value + 1);
    }
  }

  lemma {:induction false} ContributionsAreClean(items: seq<string>)
    ensures forall x | x in Contributions(items) :: ';' !in x && x != "''"
  {
    if items != [] {
      ItemsAreClean(items[0], 0);
      ContributionsAreClean(items[1..]);
    }
  }

  predicate Clean(items: seq<string>) {
    forall x | x in items :: ';' !in x && x != "''"
  }

  /** The collected items come back unchanged exactly when none has a `;` or is the marker `''`. */
  lemma {:induction false} RoundTripIffClean(items: seq<string>)
    ensures Items(AppendedAll("", items)) == items <==> Clean(items)
  {
    ItemsOfAppends(items);
    ContributionsAreClean(items);
    if Clean(items) {
      CleanContributions(items);
    }
  }

  lemma {:induction false} CleanContributions(items: seq<string>)
    requires Clean(items)
    ensures Contributions(items) == items
  {
    if items != [] {
      assert items[0] in items;
      NotFoundChar(items[0], ';', 0);
      assert items[0][0..] == items[0];
      CleanContributions(items[1..]);
    }
  }

  // ---------- any text ----------

  function Joined(pieces: seq<string>): string
    requires pieces != []
  {
    if |pieces| == 1 then pieces[0] else pieces[0] + ";" + Joined(pieces[1..])
  }

  /** The pieces that stand for something: `''` for the empty string, all others but the empty piece for themselves. */
  function Meant(pieces: seq<string>): seq<string> {
    if pieces == [] then []
    else (if pieces[0] == "" then [] else if pieces[0] == "''" then [""] else [pieces[0]]) + Meant(pieces[1..])
  }

  lemma {:induction false} ItemsFromPieces(pieces: seq<string>)
    requires pieces != [] && forall p | p in pieces :: ';' !in p
    ensures ItemsFrom(Joined(pieces), 0) == Meant(pieces)
    decreases |pieces|
  {
    hide IndexOf, ItemsFrom;
    var piece := pieces[0];
    assert piece in pieces;
    if |pieces| == 1 {
      assert piece[0..] == piece && pieces[1..] == [];
      NotFoundChar(piece, ';', 0);
      OneStep(piece, 0);
    } else {
      ItemsCut(piece, Joined(pieces[1..]));
      ItemsFromPieces(pieces[1..]);
    }
  }

  lemma ItemsOfOne(piece: string)
    requires ';' !in piece
    ensures Items(piece) == if piece == "" then [] else [piece]
  {
    assert piece[0..] == piece;
    NotFoundChar(piece, ';', 0);
  }

  lemma ItemsOfMany(piece: string, rest: string)
    requires ';' !in piece
    ensures Items(piece + ";" + rest) == ItemsFrom(piece + ";" + rest, 0)
  {
    hide ItemsFrom;
    var str := piece + ";" + rest;
    assert str[0..|piece|] == piece && str[|piece|] == ';';
    FoundChar(str, ';', 0, |piece|);
  }

  /** What `getStrings` makes of any text: its pieces between separators; a text without a separator is one item as it is. */
  lemma ItemsOfText(pieces: seq<string>)
    requires pieces != [] && forall p | p in pieces :: ';' !in p
    ensures Items(Joined(pieces)) ==
            if |pieces| > 1 then Meant(pieces) else if pieces[0] == "" then [] else pieces
  {
    hide Items, ItemsFrom, Meant;
    ItemsFromPieces(pieces);
    assert pieces[0] in pieces;
    if |pieces| == 1 {
      ItemsOfOne(pieces[0]);
    } else {
      ItemsOfMany(pieces[0], Joined(pieces[1..]));
    }
  }
}
