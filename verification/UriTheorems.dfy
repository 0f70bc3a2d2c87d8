/**
 What the URI parser promises: composed URIs come back component by component, and the only way to an
 exception is a port behind `]` without a slash.
 */
module UriTheorems {
  import opened CppStrings
  import opened Uris

  /** The user before an `@`, with or without a password. */
  datatype UserInfo = UserInfo(user: string, password: Maybe<string>)

  /** The components of a URI with a `/` behind its authority (sections 3.1 to 3.5 of RFC 3986). */
  datatype Components = Components(
    scheme: Maybe<string>, userInfo: Maybe<UserInfo>, host: string, literal: bool, port: Maybe<string>,
    path: string, query: Maybe<string>, fragment: Maybe<string>)

  function Head(c: Components): string {
    if c.scheme.Some? then c.scheme.value + "://" else ""
  }

  function Info(c: Components): string {
    if c.userInfo.Some? then c.userInfo.value.user + PasswordText(c.userInfo.value) + "@" else ""
  }

  function PasswordText(info: UserInfo): string {
    if info.password.Some? then ":" + info.password.value else ""
  }

  /** A bracketed IP literal, or a plain host. */
  function HostText(c: Components): string {
    if c.literal then "[" + c.host + "]" else c.host
  }

  function PortText(c: Components): string {
    if c.port.Some? then ":" + c.port.value else ""
  }

  function QueryText(c: Components): string {
    if c.query.Some? then "?" + c.query.value else ""
  }

  function FragmentText(c: Components): string {
    if c.fragment.Some? then "#" + c.fragment.value else ""
  }

  /** Everything up to the slash. */
  function Front(c: Components): string {
    Head(c) + Info(c) + HostText(c) + PortText(c)
  }

  /** Everything behind the slash. */
  function Tail(c: Components): string {
    c.path + QueryText(c) + FragmentText(c)
  }

  function Compose(c: Components): string {
    Front(c) + "/" + Tail(c)
  }

  predicate Without(s: string, delimiters: string) {
    forall x | x in s :: x !in delimiters
  }

  predicate HasPassword(c: Components) {
    c.userInfo.Some? && c.userInfo.value.password.Some?
  }

  /** Each component is free of what would end it early; without a scheme it does not begin with `://`. */
  predicate WellFormed(c: Components) {
    && (c.scheme.Some? ==> Without(c.scheme.value, ":/@]?#"))
    && (c.userInfo.Some? ==>
          && Without(c.userInfo.value.user, ":/@]?#")
          && (HasPassword(c) ==> Without(c.userInfo.value.password.value, "/@]?#")))
    && Without(c.host, if c.literal then "/@]?#" else ":/@]?#")
    && (c.port.Some? ==> Without(c.port.value, ":/@]?#"))
    && Without(c.path, "?#")
    && (c.query.Some? ==> '#' !in c.query.value)
    && (c.scheme.None? && Front(c) == ":" ==> !("/" <= Tail(c)))
  }

  // What else the parser's searches over the whole text need: the tail may legally hold most delimiters.

  /** Without a scheme there is no `://` later on. */
  predicate SchemeClear(c: Components) {
    c.scheme.None? ==> IndexOf(Compose(c), "://", 0) == None
  }

  /** Without a query there is no `?` in the fragment. */
  predicate QueryClear(c: Components) {
    c.query.None? && c.fragment.Some? ==> '?' !in c.fragment.value
  }

  /** A user without a password is not read at all: the field stays as it was. */
  predicate UserClear(before: Uri, c: Components) {
    c.userInfo.Some? && !HasPassword(c) ==> c.userInfo.value.user == before.user
  }

  /** An `@` of the tail is taken for the end of the user information. */
  predicate Stray(c: Components) {
    c.userInfo.None? && '@' in Tail(c)
  }

  /** The part of the tail in which a colon is looked for: behind its first `]`, unless the host has one. */
  function Searched(c: Components): string {
    var i := IndexOf(Tail(c), "]", 0);
    if !c.literal && i.Some? then Tail(c)[i.value + 1..] else Tail(c)
  }

  /** The colon of the port is found if there is a port, and none otherwise. */
  predicate HostClear(c: Components) {
    if c.port.Some? then c.literal || ']' !in Tail(c) else ':' !in Searched(c)
  }

  // ---------- finding the delimiters ----------

  lemma FindsIn(pre: string, x: char, post: string, from: nat)
    requires from <= |pre| && x !in pre[from..]
    ensures IndexOf(pre + [x] + post, [x], from) == Some(|pre|)
  {
    var s := pre + [x] + post;
    assert s[from..|pre|] == pre[from..];
    FoundChar(s, x, from, |pre|);
  }

  /** The first match of a string is where its first character first occurs, if it matches there. */
  lemma FindsText(pre: string, x: char, text: string, post: string)
    requires text != "" && text[0] == x && x !in pre
    ensures IndexOf(pre + text + post, text, 0) == Some(|pre|)
  {
    var s := pre + text + post;
    assert s[|pre|..|pre| + |text|] == text;
    forall j: nat | j < |pre|
      ensures !MatchAt(s, text, j)
    {
      if j + |text| <= |s| {
        assert s[j] == pre[j] && pre[j] in pre;
        assert s[j..j + |text|][0] == s[j];
      }
    }
    FoundAt(s, text, 0, |pre|);
  }

  /** `Compose`, grouped around each delimiter. */
  lemma Grouped(c: Components)
    ensures Compose(c) == Head(c) + (Info(c) + HostText(c) + PortText(c) + "/" + Tail(c))
    ensures Compose(c) == (Head(c) + Info(c)) + (HostText(c) + PortText(c) + "/" + Tail(c))
    ensures Compose(c) == (Head(c) + Info(c) + HostText(c)) + (PortText(c) + "/" + Tail(c))
    ensures Compose(c) == Front(c) + ("/" + Tail(c))
    ensures Compose(c) == (Front(c) + "/" + c.path) + (QueryText(c) + FragmentText(c))
    ensures Compose(c) == (Front(c) + "/" + c.path + QueryText(c)) + FragmentText(c)
  {
    hide Head, Info, HostText, PortText, QueryText, FragmentText;
  }

  /** A character that occurs in no component of the front occurs nowhere before the slash. */
  lemma FreeFront(c: Components, x: char)
    requires WellFormed(c) && x in "@]?#"
    ensures x !in Head(c) && x !in PortText(c)
    ensures x != '@' ==> x !in Info(c)
    ensures x != ']' || !c.literal ==> x !in HostText(c)
  {
  }

  lemma NowhereIn(s: string, x: char)
    requires x !in s
    ensures IndexOf(s, [x], 0) == None
  {
    assert s[0..] == s;
    NotFoundChar(s, x, 0);
  }

  /** The first `x` of `pre + x... + post` is behind a `pre` without it. */
  lemma FirstBehind(pre: string, x: char, rest: string)
    requires x !in pre && rest != "" && rest[0] == x
    ensures IndexOf(pre + rest, [x], 0) == Some(|pre|)
  {
    assert pre[0..] == pre && pre + rest == pre + [x] + rest[1..];
    FindsIn(pre, x, rest[1..], 0);
  }

  lemma SchemeFound(c: Components)
    requires WellFormed(c) && SchemeClear(c)
    ensures IndexOf(Compose(c), "://", 0) == if c.scheme.Some? then Some(|c.scheme.value|) else None
  {
    hide IndexOf, Info, HostText, PortText, Tail;
    Grouped(c);
    if c.scheme.Some? {
      FindsText(c.scheme.value, ':', "://", Info(c) + HostText(c) + PortText(c) + "/" + Tail(c));
    }
  }

  lemma NoSlashBefore(c: Components)
    requires WellFormed(c)
    ensures '/' !in Info(c) && '/' !in HostText(c) && '/' !in PortText(c)
  {
  }

  lemma SlashFound(c: Components)
    requires WellFormed(c)
    ensures IndexOf(Compose(c), "/", |Head(c)|) == Some(|Front(c)|)
  {
    hide IndexOf, Tail, Head, Info, HostText, PortText, WellFormed;
    NoSlashBefore(c);
    var mid := Info(c) + HostText(c) + PortText(c);
    Assoc(Head(c), Info(c), HostText(c));
    Assoc(Head(c), Info(c) + HostText(c), PortText(c));
    assert Front(c)[|Head(c)|..] == mid;
    FindsIn(Front(c), '/', Tail(c), |Head(c)|);
  }

  /** A character that is not before the tail is found where the tail has it. */
  lemma TailFound(c: Components, x: char)
    requires x !in Front(c) && x != '/'
    ensures match IndexOf(Tail(c), [x], 0)
            case Some(i) => Tail(c)[i] == x && IndexOf(Compose(c), [x], 0) == Some(|Front(c)| + 1 + i)
            case None => x !in Tail(c) && IndexOf(Compose(c), [x], 0) == None
  {
    hide IndexOf, Front, Tail;
    FindChar(Tail(c), x, 0);
    var front := Front(c) + "/";
    match IndexOf(Tail(c), [x], 0)
    case Some(i) =>
      var pre := front + Tail(c)[..i];
      assert Tail(c) == Tail(c)[..i] + Tail(c)[i..];
      Assoc(front, Tail(c)[..i], Tail(c)[i..]);
      FirstBehind(pre, x, Tail(c)[i..]);
    case None =>
      assert Tail(c)[0..] == Tail(c);
      NowhereIn(Compose(c), x);
  }

  /** Where the `@` of the user information is; without any there is none at all. */
  lemma AtFound(c: Components)
    requires WellFormed(c) && !Stray(c)
    ensures IndexOf(Compose(c), "@", 0) == if c.userInfo.Some? then Some(|Head(c)| + |Info(c)| - 1) else None
  {
    hide IndexOf, Compose, HostText, PortText, Tail;
    FreeFront(c, '@');
    if c.userInfo.Some? {
      Grouped(c);
      var rest := HostText(c) + PortText(c) + "/" + Tail(c);
      var user := c.userInfo.value.user + PasswordText(c.userInfo.value);
      assert (Head(c) + Info(c)) + rest == (Head(c) + user) + ("@" + rest);
      FirstBehind(Head(c) + user, '@', "@" + rest);
    } else {
      TailFound(c, '@');
    }
  }

  lemma NoBracketBefore(c: Components)
    requires WellFormed(c) && c.literal
    ensures ']' !in Head(c) + Info(c) + ("[" + c.host)
  {
    FreeFront(c, ']');
    hide Head, Info;
  }

  lemma BracketFound(c: Components)
    requires WellFormed(c) && c.literal
    ensures IndexOf(Compose(c), "]", 0) == Some(|Head(c)| + |Info(c)| + |c.host| + 1)
  {
    hide IndexOf, Tail, Compose, PortText, Head, Info, WellFormed;
    NoBracketBefore(c);
    Grouped(c);
    var before, host, rest := Head(c) + Info(c), "[" + c.host, PortText(c) + "/" + Tail(c);
    assert HostText(c) == host + "]";
    assert (before + HostText(c)) + rest == (before + host) + ("]" + rest);
    FirstBehind(before + host, ']', "]" + rest);
  }

  lemma QuestionFound(c: Components)
    requires WellFormed(c) && QueryClear(c)
    ensures IndexOf(Compose(c), "?", 0) == if c.query.Some? then Some(|Front(c)| + 1 + |c.path|) else None
  {
    hide IndexOf;
    FreeFront(c, '?');
    Grouped(c);
    var pre := Front(c) + "/" + c.path;
    assert '?' !in pre;
    if c.query.Some? {
      FirstBehind(pre, '?', QueryText(c) + FragmentText(c));
    } else {
      NowhereIn(Compose(c), '?');
    }
  }

  lemma HashFound(c: Components)
    requires WellFormed(c)
    ensures IndexOf(Compose(c), "#", 0) ==
            if c.fragment.Some? then Some(|Front(c)| + 1 + |c.path| + |QueryText(c)|) else None
  {
    hide IndexOf;
    FreeFront(c, '#');
    Grouped(c);
    var pre := Front(c) + "/" + c.path + QueryText(c);
    assert '#' !in pre;
    if c.fragment.Some? {
      FirstBehind(pre, '#', FragmentText(c));
    } else {
      assert Compose(c) == pre + "" == pre;
      NowhereIn(pre, '#');
    }
  }

  // ---------- the colons ----------

  /** Where the search for the first colon starts: behind the scheme's own colon. */
  function ColonStart(c: Components): nat {
    if c.scheme.Some? then |c.scheme.value| + 1 else 0
  }

  lemma HeadRest(c: Components)
    requires WellFormed(c)
    ensures ColonStart(c) <= |Head(c)| && ':' !in Head(c)[ColonStart(c)..]
  {
    if c.scheme.Some? {
      assert Head(c)[ColonStart(c)..] == "//";
    }
  }

  /** The first `x` at or behind `from` follows a `pre` that has none there. */
  lemma FirstBehindFrom(pre: string, x: char, rest: string, from: nat)
    requires from <= |pre| && x !in pre[from..] && rest != "" && rest[0] == x
    ensures IndexOf(pre + rest, [x], from) == Some(|pre|)
  {
    assert pre + rest == pre + [x] + rest[1..];
    FindsIn(pre, x, rest[1..], from);
  }

  /** The user information, regrouped around its colon. */
  lemma AroundColon(head: string, u: string, p: string, rest: string)
    ensures (head + (u + (":" + p) + "@")) + rest == (head + u) + (":" + p + "@" + rest)
  {
  }

  /** The user information, regrouped around the password. */
  lemma AroundPassword(head: string, u: string, p: string, rest: string)
    ensures (head + (u + (":" + p) + "@")) + rest == (head + u + ":") + p + ("@" + rest)
  {
  }

  lemma NoColonInUser(c: Components)
    requires WellFormed(c) && c.userInfo.Some?
    ensures ColonStart(c) <= |Head(c)| && ':' !in (Head(c) + c.userInfo.value.user)[ColonStart(c)..]
  {
    hide Head, ColonStart;
    HeadRest(c);
    var u := c.userInfo.value.user;
    assert (Head(c) + u)[ColonStart(c)..] == Head(c)[ColonStart(c)..] + u;
  }

  lemma UserColonFound(c: Components)
    requires WellFormed(c) && HasPassword(c)
    ensures IndexOf(Compose(c), ":", ColonStart(c)) == Some(|Head(c)| + |c.userInfo.value.user|)
  {
    hide IndexOf, Head, HostText, PortText, Tail, Compose, ColonStart, WellFormed;
    NoColonInUser(c);
    Grouped(c);
    var u, p := c.userInfo.value.user, c.userInfo.value.password.value;
    var rest := HostText(c) + PortText(c) + "/" + Tail(c);
    AroundColon(Head(c), u, p, rest);
    FirstBehindFrom(Head(c) + u, ':', ":" + p + "@" + rest, ColonStart(c));
  }

  /** Where a front has no `x`, none is found before its end. */
  lemma NoneBefore(front: string, x: char, rest: string, from: nat)
    requires from <= |front| && x !in front[from..]
    ensures var m := IndexOf(front + rest, [x], from); m.Some? ==> m.value >= |front|
  {
    hide IndexOf;
    FindChar(front + rest, x, from);
    assert forall i | from <= i < |front| :: front[i] == front[from..][i - from];
  }

  /** Without a password no colon is found before the `@`. */
  lemma NoUserColon(c: Components)
    requires WellFormed(c) && c.userInfo.Some? && !HasPassword(c)
    ensures var m := IndexOf(Compose(c), ":", ColonStart(c));
            m.Some? ==> m.value >= |Head(c)| + |Info(c)|
  {
    hide IndexOf, Head, HostText, PortText, Tail, Compose, ColonStart;
    HeadRest(c);
    Grouped(c);
    var front, from := Head(c) + Info(c), ColonStart(c);
    assert Info(c) == c.userInfo.value.user + "@";
    assert front[from..] == Head(c)[from..] + Info(c);
    NoneBefore(front, ':', HostText(c) + PortText(c) + "/" + Tail(c), from);
  }

  /** The end of the host, where the port's colon is if there is one. */
  function HostEnd(c: Components): nat {
    |Head(c)| + |Info(c)| + |HostText(c)|
  }

  /** From any start before the host's end with no colon in between, the search finds the port's colon. */
  lemma PortColonFrom(c: Components, from: nat)
    requires WellFormed(c) && from <= HostEnd(c)
    requires ':' !in (Head(c) + Info(c) + HostText(c))[from..]
    ensures var m := IndexOf(Compose(c), ":", from);
            && (c.port.Some? ==> m == Some(HostEnd(c)))
            && (c.port.None? ==> (m.Some? <==> ':' in Tail(c)) && (m.Some? ==> m.value > |Front(c)|))
  {
    hide IndexOf, Head, Info, HostText, Tail;
    Grouped(c);
    var pre := Head(c) + Info(c) + HostText(c);
    if c.port.Some? {
      FirstBehindFrom(pre, ':', PortText(c) + "/" + Tail(c), from);
    } else {
      var uri := Compose(c);
      FindChar(uri, ':', from);
      assert pre == Front(c) && uri == pre + ("/" + Tail(c));
      assert uri[from..] == pre[from..] + ("/" + Tail(c));
      var m := IndexOf(uri, ":", from);
      if m.Some? {
        assert uri[|pre|] == '/';
        assert uri[m.value] == Tail(c)[m.value - |pre| - 1];
      }
    }
  }

  /** Behind a `]` of the tail only a colon of the tail is found. */
  lemma PortColonBehindBracket(c: Components)
    requires WellFormed(c) && !c.literal
    ensures var bracket := IndexOf(Compose(c), "]", 0);
            && (bracket.Some? <==> ']' in Tail(c)) && (bracket.None? ==> Searched(c) == Tail(c))
            && (bracket.Some? ==>
                  var m := IndexOf(Compose(c), ":", bracket.value + 1);
                  (m.Some? <==> ':' in Searched(c)) && (m.Some? ==> m.value > |Front(c)|))
  {
    hide IndexOf, Tail, HostText, PortText, Info, Head;
    FreeFront(c, ']');
    TailFound(c, ']');
    var uri, i := Compose(c), IndexOf(Tail(c), "]", 0);
    if i.Some? {
      var from := |Front(c)| + 1 + i.value + 1;
      assert uri[from..] == Tail(c)[i.value + 1..];
      FindChar(uri, ':', from);
      var m := IndexOf(uri, ":", from);
      assert m.Some? ==> uri[m.value] == uri[from..][m.value - from];
    }
  }

  /** The positions the parser finds in a composed URI. */
  lemma PositionsFound(c: Components)
    requires WellFormed(c) && SchemeClear(c)
    ensures var p := PositionsOf(Compose(c));
            && p.base == |Head(c)| && p.slash == Some(|Front(c)|)
            && (!Stray(c) ==> p.at == if c.userInfo.Some? then Some(|Head(c)| + |Info(c)| - 1) else None)
            && p.at == IndexOf(Compose(c), "@", 0) && p.bracket == IndexOf(Compose(c), "]", 0)
            && p.question == IndexOf(Compose(c), "?", 0)
            && (c.literal ==> p.bracket == Some(HostEnd(c) - 1))
            && (QueryClear(c) ==> p.question == if c.query.Some? then Some(|Front(c)| + 1 + |c.path|) else None)
            && p.hash == (if c.fragment.Some? then Some(|Front(c)| + 1 + |c.path| + |QueryText(c)|) else None)
            && p.colon0 == IndexOf(Compose(c), ":", ColonStart(c))
  {
    hide IndexOf, Compose, WellFormed, SchemeClear, Stray, QueryClear;
    SchemeFound(c);
    SlashFound(c);
    HashFound(c);
    if !Stray(c) {
      AtFound(c);
    }
    if c.literal {
      BracketFound(c);
    }
    if QueryClear(c) {
      QuestionFound(c);
    }
  }

  /** No colon lies between where the port's colon is searched from and the end of the host. */
  lemma NoColonBetween(c: Components)
    requires WellFormed(c)
    ensures var front := Head(c) + Info(c) + HostText(c);
            && ColonStart(c) <= HostEnd(c) == |front|
            && front[HostEnd(c)..] == ""
            && (HasPassword(c) ==> |Info(c)| > |c.userInfo.value.user| + 1)
            && (!c.literal && HasPassword(c) ==> ':' !in front[|Head(c)| + |Info(c)| - 1..])
            && (!c.literal && !HasPassword(c) ==> ':' !in front[ColonStart(c)..])
  {
    hide Head, ColonStart;
    HeadRest(c);
    var front := Head(c) + Info(c) + HostText(c);
    if !c.literal && HasPassword(c) {
      assert front[|Head(c)| + |Info(c)| - 1..] == "@" + c.host;
    }
    if !c.literal && !HasPassword(c) {
      assert front[ColonStart(c)..] == Head(c)[ColonStart(c)..] + Info(c) + c.host;
    }
  }

  /** With the `@` where it belongs, the user's colon is found, and the port's exactly if the host is clear. */
  lemma PortColonFound(c: Components)
    requires WellFormed(c) && SchemeClear(c) && !Stray(c)
    ensures var p := PositionsOf(Compose(c));
            var m := PortColon(Compose(c), p);
            && (HasUser(p) <==> HasPassword(c))
            && (HasUser(p) ==> p.colon0 == Some(|Head(c)| + |c.userInfo.value.user|))
            && (HostClear(c) ==> m == if c.port.Some? then Some(HostEnd(c)) else None)
            && (!HostClear(c) ==> if m.Some? then m.value > |Front(c)| else c.port.Some?)
  {
    hide IndexOf, PositionsOf, Compose, WellFormed, ColonStart, HostEnd, HostText, Head, Info, Stray, SchemeClear, Tail;
    PositionsFound(c);
    NoColonBetween(c);
    if HasPassword(c) {
      UserColonFound(c);
    } else if c.userInfo.Some? {
      NoUserColon(c);
    }
    if c.literal {
      PortColonFrom(c, HostEnd(c));
    } else {
      PortColonBehindBracket(c);
      PortColonFrom(c, if HasPassword(c) then |Head(c)| + |Info(c)| - 1 else ColonStart(c));
    }
  }

  // ---------- the components ----------

  lemma Slice(a: string, x: string, b: string)
    ensures (a + x + b)[|a|..|a| + |x|] == x && (a + (x + b))[|a|..|a| + |x|] == x && (a + x)[|a|..] == x
  {
  }

  lemma UserSlices(c: Components)
    requires HasPassword(c)
    ensures var uri, n := Compose(c), |Head(c)| + |c.userInfo.value.user|;
            && |Head(c)| <= n < |Head(c)| + |Info(c)| - 1 < |uri|
            && uri[|Head(c)|..n] == c.userInfo.value.user
            && uri[n + 1..|Head(c)| + |Info(c)| - 1] == c.userInfo.value.password.value
  {
    hide Head, HostText, PortText, Tail, Compose;
    Grouped(c);
    var u, p := c.userInfo.value.user, c.userInfo.value.password.value;
    var rest := HostText(c) + PortText(c) + "/" + Tail(c);
    AroundColon(Head(c), u, p, rest);
    Slice(Head(c), u, ":" + p + "@" + rest);
    AroundPassword(Head(c), u, p, rest);
    Slice(Head(c) + u + ":", p, "@" + rest);
  }

  lemma HostSlices(c: Components)
    requires WellFormed(c)
    ensures var uri := Compose(c);
            && HostEnd(c) <= |Front(c)| < |uri|
            && uri[|Head(c)| + |Info(c)|..HostEnd(c)] == HostText(c)
            && (c.port.Some? ==> HostEnd(c) < |Front(c)| && uri[HostEnd(c) + 1..|Front(c)|] == c.port.value)
            && (c.port.None? ==> HostEnd(c) == |Front(c)|)
  {
    hide Tail, WellFormed, Head, Info, HostText, Compose;
    Grouped(c);
    var before, rest := Head(c) + Info(c), "/" + Tail(c);
    Slice(before, HostText(c), PortText(c) + rest);
    Assoc(before + HostText(c), PortText(c), rest);
    if c.port.Some? {
      var pre := before + HostText(c) + ":";
      assert (before + HostText(c)) + (":" + c.port.value + rest) == pre + c.port.value + rest;
      Slice(pre, c.port.value, rest);
    }
  }

  lemma QueryLength(c: Components)
    ensures c.query.None? ==> QueryText(c) == ""
    ensures c.query.Some? ==> QueryText(c) != ""
  {
  }

  lemma FragmentSlice(c: Components)
    ensures var uri, h := Compose(c), |Front(c)| + 1 + |c.path| + |QueryText(c)|;
            && h <= |uri|
            && (c.fragment.Some? ==> h < |uri| && uri[h + 1..] == c.fragment.value)
            && (c.fragment.None? ==> h == |uri|)
  {
    hide Front, QueryText, Compose;
    Grouped(c);
    var pre := Front(c) + "/" + c.path + QueryText(c);
    if c.fragment.Some? {
      assert pre + FragmentText(c) == (pre + "#") + c.fragment.value;
      Slice(pre + "#", c.fragment.value, "");
    }
  }

  lemma QuerySlice(c: Components)
    ensures var uri, q := Compose(c), |Front(c)| + 1 + |c.path|;
            && uri[|Front(c)| + 1..q] == c.path
            && q + |QueryText(c)| <= |uri|
            && (c.query.Some? ==> uri[q + 1..q + |QueryText(c)|] == c.query.value)
  {
    hide Front, FragmentText, Compose;
    Grouped(c);
    var front, rest := Front(c) + "/", FragmentText(c);
    Slice(front, c.path, QueryText(c) + rest);
    if c.query.Some? {
      var pre := front + c.path + "?";
      assert (front + c.path + QueryText(c)) + rest == pre + c.query.value + rest;
      Slice(pre, c.query.value, rest);
    }
  }

  lemma TailSlices(c: Components)
    ensures var uri, n := Compose(c), |Front(c)| + 1;
            var q, h := n + |c.path|, n + |c.path| + |QueryText(c)|;
            && n <= q <= h <= |uri|
            && uri[n..q] == c.path
            && (c.query.Some? ==> uri[q + 1..h] == c.query.value)
            && (c.fragment.Some? ==> h < |uri| && uri[h + 1..] == c.fragment.value)
            && (c.fragment.None? ==> h == |uri|)
            && (c.query.None? ==> q == h)
            && (c.query.Some? ==> q < h)
  {
    hide Front, FragmentText, Compose;
    QueryLength(c);
    FragmentSlice(c);
    QuerySlice(c);
  }

  function Or(m: Maybe<string>, otherwise: string): string {
    if m.Some? then m.value else otherwise
  }

  /** The fields the parser should end up with: each component, or what was there before. */
  function Expected(before: Uri, c: Components): Uri {
    Uri(Or(c.scheme, ""),
        if c.userInfo.Some? then c.userInfo.value.user else before.user,
        if HasPassword(c) then c.userInfo.value.password.value else before.password,
        HostText(c), Or(c.port, before.port), c.path, Or(c.query, before.query), Or(c.fragment, before.fragment))
  }

  lemma HostReturns(c: Components, port: string)
    requires WellFormed(c) && SchemeClear(c) && !Stray(c) && HostClear(c)
    ensures var uri := Compose(c);
            var p := PositionsOf(uri);
            && HostStart(p) <= |uri| && InText(uri, PortColon(uri, p)) && p.slash.Some?
            && HostAndPort(port, uri, HostStart(p), PortColon(uri, p), p.slash) == (HostText(c), Or(c.port, port))
  {
    hide IndexOf, PositionsOf, Compose, PortColon, Front, Head, Info, HostText, WellFormed;
    PositionsFound(c);
    PortColonFound(c);
    HostSlices(c);
    InfoLength(c);
    assert HostStart(PositionsOf(Compose(c))) == |Head(c)| + |Info(c)|;
  }

  /** A user with a password is read; without one both fields stay as they were. */
  lemma UserReturns(c: Components, user: string, password: string)
    requires WellFormed(c) && SchemeClear(c) && !Stray(c)
    ensures var uri := Compose(c);
            var p := PositionsOf(uri);
            && UserOf(user, uri, p) == (if HasPassword(c) then c.userInfo.value.user else user)
            && PasswordOf(password, uri, p) == (if HasPassword(c) then c.userInfo.value.password.value else password)
  {
    hide IndexOf, PositionsOf, Compose, PortColon, Front, Head, Info, HostText, HasUser, WellFormed, HostClear, SchemeClear,
         Stray, HostEnd;
    PositionsFound(c);
    PortColonFound(c);
    if HasPassword(c) {
      UserSlices(c);
    }
  }

  lemma TailReturns(c: Components, path: string, query: string, fragment: string)
    requires WellFormed(c) && SchemeClear(c) && QueryClear(c)
    ensures var uri := Compose(c);
            var p := PositionsOf(uri);
            && PathOf(path, uri, p.slash, p.question, p.hash) == c.path
            && QueryOf(query, uri, p.question, p.hash) == Or(c.query, query)
            && FragmentOf(fragment, uri, p.hash) == Or(c.fragment, fragment)
  {
    hide IndexOf, PositionsOf, Compose, Front, Head, Info, HostText, QueryText, WellFormed, SchemeClear, QueryClear, Stray,
         FragmentText, HostEnd, ColonStart;
    PositionsFound(c);
    TailSlices(c);
    var uri := Compose(c);
    if c.query.Some? {
      var q := |Front(c)| + 1 + |c.path| + 1;
      assert uri[q..] == uri[q..|uri|];
    }
    assert uri[|Front(c)| + 1..] == uri[|Front(c)| + 1..|uri|];
  }

  /** Parsing a composed URI returns each component; on a fresh parser absent ones are empty. */
  lemma UriRoundTrip(before: Uri, c: Components)
    requires WellFormed(c) && SchemeClear(c) && QueryClear(c) && !Stray(c) && HostClear(c) && UserClear(before, c)
    ensures !Throws(Compose(c)) && Parsed(before, Compose(c)) == Expected(before, c)
  {
    hide Compose, PositionsOf, WellFormed, HostText, PortColon, HostStart, HostAndPort, UserOf, PasswordOf, PathOf,
         QueryOf, FragmentOf, SchemeOf, Throws, Parsed;
    ParsedInParts(before, Compose(c));
    SchemeSlice(c);
    HostReturns(c, before.port);
    UserReturns(c, before.user, before.password);
    TailReturns(c, before.path, before.query, before.fragment);
  }

  lemma InfoLength(c: Components)
    ensures c.userInfo.None? ==> Info(c) == ""
  {
  }

  lemma SchemeSlice(c: Components)
    requires WellFormed(c) && SchemeClear(c)
    ensures SchemeOf(Compose(c)) == Or(c.scheme, "")
  {
    hide IndexOf, WellFormed, Info, HostText, PortText, Tail;
    SchemeFound(c);
    Grouped(c);
    if c.scheme.Some? {
      var rest := Info(c) + HostText(c) + PortText(c) + "/" + Tail(c);
      assert Head(c) + rest == c.scheme.value + ("://" + rest);
      Slice("", c.scheme.value, "://" + rest);
    }
  }

  // ---------- a user without a password ----------

  /** Whatever follows the `@`, a user without a password changes neither field. */
  lemma LonelyUserIsKept(before: Uri, scheme: string, user: string, rest: string)
    requires Without(scheme, ":/@]?#") && Without(user, ":/@]?#")
    ensures var uri := scheme + "://" + user + "@" + rest;
            !Throws(uri) ==> Parsed(before, uri).user == before.user && Parsed(before, uri).password == before.password
  {
    hide IndexOf, Throws, PortColon, PositionsOf, Without;
    var uri := scheme + "://" + user + "@" + rest;
    ParsedInParts(before, uri);
    LonelyUserColon(scheme, user, rest);
  }

  lemma LonelyUserColon(scheme: string, user: string, rest: string)
    requires Without(scheme, ":/@]?#") && Without(user, ":/@]?#")
    ensures !HasUser(PositionsOf(scheme + "://" + user + "@" + rest))
  {
    hide IndexOf;
    var front, uri := scheme + "://" + user, scheme + "://" + user + "@" + rest;
    assert uri == scheme + "://" + (user + "@" + rest) && uri == front + ("@" + rest);
    FindsText(scheme, ':', "://", user + "@" + rest);
    FirstBehind(front, '@', "@" + rest);
    var from := |scheme| + 1;
    assert front[from..] == "//" + user;
    NoneBefore(front, ':', "@" + rest, from);
  }

  // ---------- no slash ----------

  /** Without a slash behind the authority, what is taken for the port is never what follows its colon. */
  lemma PortWithoutSlash(before: Uri, uri: string)
    requires !Throws(uri) && PositionsOf(uri).slash.None?
    ensures var m := PortColon(uri, PositionsOf(uri));
            m.Some? ==> m.value < |uri| && Parsed(before, uri).port != uri[m.value + 1..]
  {
    hide IndexOf, PositionsOf, PortColon;
    PortColonInText(uri);
    var p := PositionsOf(uri);
    var m := PortColon(uri, p);
    if m.Some? {
      assert Parsed(before, uri).port == uri[m.value - HostStart(p)..];
    }
  }

  lemma PortColonInText(uri: string)
    ensures InText(uri, PortColon(uri, PositionsOf(uri)))
  {
  }

  // ---------- exceptions ----------

  /**
   `parse` throws exactly for a URI with no `/` behind its scheme that has a `]`, and behind that a `:`
   which lies before the end of the scheme or of the user information.
   */
  lemma ThrowsIff(uri: string)
    ensures var scheme, at, bracket := IndexOf(uri, "://", 0), IndexOf(uri, "@", 0), IndexOf(uri, "]", 0);
            var base := if scheme.Some? then scheme.value + 3 else 0;
            Throws(uri) <==>
            && IndexOf(uri, "/", base).None? && bracket.Some?
            && var colon := IndexOf(uri, ":", bracket.value + 1);
               colon.Some? && colon.value < if at.Some? then at.value + 1 else base
  {
    hide IndexOf;
    PortColonInText(uri);
    var p := PositionsOf(uri);
    var s := IndexOf(uri, "://", 0);
    SchemeColon(uri);
    FindChar(uri, '@', 0);
    FindChar(uri, ':', if s.Some? then s.value + 1 else 0);
    if p.at.Some? {
      FindChar(uri, ':', p.at.value);
    }
  }

  /** A text that makes `parse` throw. */
  lemma ThrowsOnEarlyColon()
    ensures Throws("a]:b@c")
  {
    var uri := "a]:b@c";
    FoundChar(uri, '@', 0, 4);
    FoundChar(uri, ']', 0, 1);
    FoundChar(uri, ':', 2, 2);
    NotFoundChar(uri, '/', 0);
    NoSchemeWithoutSlash(uri);
    ThrowsIff(uri);
  }

  lemma NoSchemeWithoutSlash(uri: string)
    requires '/' !in uri
    ensures IndexOf(uri, "://", 0) == None
  {
    FindsFirst(uri, "://", 0);
    forall i: nat
      ensures !MatchAt(uri, "://", i)
    {
      if i + 3 <= |uri| {
        assert uri[i..i + 3][1] == uri[i + 1];
      }
    }
  }

  /** The first colon searched for lies behind the scheme delimiter. */
  lemma SchemeColon(uri: string)
    ensures var p := PositionsOf(uri);
            p.colon0.Some? ==> p.colon0.value >= p.base
  {
    hide IndexOf;
    var s := IndexOf(uri, "://", 0);
    if s.Some? {
      var from := s.value + 1;
      FindsFirst(uri, "://", 0);
      var delimiter := uri[s.value..s.value + 3];
      assert MatchAt(uri, "://", s.value) && delimiter == "://";
      assert uri[from] == delimiter[1] == '/' && uri[from + 1] == delimiter[2] == '/';
      FindChar(uri, ':', from);
      var m := IndexOf(uri, ":", from);
      if m.Some? {
        assert uri[m.value] == ':' && m.value >= from;
      }
    }
  }
}
