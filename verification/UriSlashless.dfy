/**
 What the URI parser makes of a URL without a `/` behind its authority, such as `localhost:5672`: every field.
 */
module UriSlashless {
  import opened CppStrings
  import opened Uris
  import opened UriTheorems
  import opened UriExactness

  /** The authority, and a query and a fragment if there are any. */
  function Slashless(c: Components): string {
    Front(c) + QueryAndFragment(c)
  }

  function QueryAndFragment(c: Components): string {
    QueryText(c) + FragmentText(c)
  }

  /** There is no path, and what follows the authority has none of the delimiters of one. */
  predicate NoSlash(c: Components) {
    WellFormed(c) && c.path == "" && QueryClear(c) && Without(QueryAndFragment(c), "/:@]")
  }

  // ---------- positions ----------

  /** What is found in a text is found in its beginning, if it lies there. */
  lemma {:induction false} FoundInFront(front: string, rest: string, pat: string, from: nat)
    requires pat != ""
    ensures var m := IndexOf(front + rest, pat, from);
            IndexOf(front, pat, from) == if m.Some? && m.value + |pat| <= |front| then m else None
    decreases |front| + |rest| - from
  {
    var s := front + rest;
    if from + |pat| <= |s| {
      if from + |pat| <= |front| {
        assert s[from..from + |pat|] == front[from..from + |pat|];
      }
      FoundInFront(front, rest, pat, from + 1);
    }
  }

  /** A character that is not in the rest is found where the front has it. */
  lemma NotInRest(front: string, rest: string, x: char, from: nat)
    requires from <= |front| && x !in rest
    ensures IndexOf(front + rest, [x], from) == IndexOf(front, [x], from)
  {
    hide IndexOf;
    FoundInFront(front, rest, [x], from);
    var s := front + rest;
    assert forall i | |front| <= i < |s| :: s[i] == rest[i - |front|];
    FindChar(s, x, from);
  }

  lemma SchemeNotInRest(front: string, rest: string)
    requires '/' !in rest
    ensures IndexOf(front + rest, "://", 0) == IndexOf(front, "://", 0)
  {
    hide IndexOf;
    FoundInFront(front, rest, "://", 0);
    FindsFirst(front + rest, "://", 0);
    var s := front + rest;
    forall i: nat | i + 3 > |front|
      ensures !MatchAt(s, "://", i)
    {
      if i + 3 <= |s| {
        assert s[i..i + 3][2] == s[i + 2] && s[i + 2] == rest[i + 2 - |front|];
      }
    }
  }

  /** The components of the authority alone. */
  function Alone(c: Components): Components {
    c.(path := "", query := None, fragment := None)
  }

  lemma AloneIs(c: Components)
    requires WellFormed(c)
    ensures var a := Alone(c);
            && WellFormed(a) && !Stray(a) && HostClear(a) && Compose(a) == Front(c) + "/"
            && Front(a) == Front(c) && Head(a) == Head(c) && Info(a) == Info(c) && HostText(a) == HostText(c)
            && HostEnd(a) == HostEnd(c)
  {
    var a := Alone(c);
    assert Tail(a) == "";
    assert IndexOf("", "]", 0) == None;
  }

  /** Only a scheme puts a `://` into the authority. */
  lemma AloneIsClear(c: Components)
    requires WellFormed(c)
    ensures SchemeClear(Alone(c))
  {
    hide IndexOf, Info, HostText, PortText, WellFormed, Compose, Alone;
    var s := Front(c) + "/";
    AloneIs(c);
    FrontLengths(c);
    if c.scheme.None? {
      NoSlashBefore(c);
      assert '/' !in Front(c);
      hide Front;
      FindsFirst(s, "://", 0);
      forall i: nat
        ensures !MatchAt(s, "://", i)
      {
        if i + 3 <= |s| {
          assert s[i..i + 3][1] == s[i + 1] && s[i + 1] == Front(c)[i + 1];
        }
      }
    }
  }

  lemma SlashFoundAt(f: string, g: string, scheme: Maybe<nat>, from: nat)
    requires g == f + "/" && scheme == IndexOf(g, "://", 0) && (scheme.Some? ==> scheme.value + 3 <= |f|)
    requires IndexOf(g, "/", from) == Some(|f|)
    ensures IndexOf(f, "://", 0) == scheme && IndexOf(f, "/", from) == None
  {
    hide IndexOf;
    FoundInFront(f, "/", "://", 0);
    FoundInFront(f, "/", "/", from);
  }

  /** A last slash adds nothing but itself to the positions. */
  lemma SlashAdds(f: string, g: string, scheme: Maybe<nat>)
    requires g == f + "/" && PositionsOf(g).slash == Some(|f|)
    requires IndexOf(g, "://", 0) == scheme && (scheme.Some? ==> scheme.value + 3 <= |f|)
    ensures var p, q := PositionsOf(f), PositionsOf(g);
            && p.base == q.base && p.colon0 == q.colon0 && p.at == q.at && p.bracket == q.bracket && p.slash == None
            && IndexOf(f, "://", 0) == scheme
  {
    hide IndexOf;
    SlashFoundAt(f, g, scheme, if scheme.Some? then scheme.value + 3 else 0);
    NotInRest(f, "/", ':', if scheme.Some? then scheme.value + 1 else 0);
    NotInRest(f, "/", '@', 0);
    NotInRest(f, "/", ']', 0);
  }

  lemma SlashKeepsColon(f: string, g: string)
    requires var p, q := PositionsOf(f), PositionsOf(g);
             g == f + "/" && p.colon0 == q.colon0 && p.at == q.at && p.bracket == q.bracket
    ensures PortColon(f, PositionsOf(f)) == PortColon(g, PositionsOf(g)) && HasUser(PositionsOf(f)) == HasUser(PositionsOf(g))
  {
    hide IndexOf, PositionsOf;
    var p := PositionsOf(f);
    if p.bracket.Some? {
      NotInRest(f, "/", ':', p.bracket.value + 1);
    }
    if p.at.Some? {
      NotInRest(f, "/", ':', p.at.value);
    }
  }

  /** The positions in the authority alone. */
  lemma PositionsInFront(c: Components)
    requires WellFormed(c)
    ensures var p, m := PositionsOf(Front(c)), PortColon(Front(c), PositionsOf(Front(c)));
            && IndexOf(Front(c), "://", 0) == (if c.scheme.Some? then Some(|c.scheme.value|) else None)
            && p.base == |Head(c)| && p.slash == None
            && HostStart(p) == |Head(c)| + |Info(c)|
            && (HasUser(p) <==> HasPassword(c))
            && (HasUser(p) ==> p.colon0 == Some(|Head(c)| + |c.userInfo.value.user|) && p.at.Some?
                               && p.at.value == |Head(c)| + |Info(c)| - 1)
            && m == if c.port.Some? then Some(HostEnd(c)) else None
  {
    hide IndexOf, WellFormed, Compose, Front, Head, Info, HostText, Tail, SchemeClear, Stray, HostClear, Alone, PortColon,
         PositionsOf;
    var a := Alone(c);
    AloneIs(c);
    AloneIsClear(c);
    SchemeFound(a);
    PositionsFound(a);
    PortColonFound(a);
    FrontLengths(c);
    SlashAdds(Front(c), Front(c) + "/", IndexOf(Front(c) + "/", "://", 0));
    SlashKeepsColon(Front(c), Front(c) + "/");
  }

  lemma FrontLengths(c: Components)
    ensures Alone(c).scheme == c.scheme && Alone(c).port == c.port && Alone(c).userInfo == c.userInfo
    ensures HasPassword(Alone(c)) <==> HasPassword(c)
    ensures |Front(c)| == HostEnd(c) + |PortText(c)| && (c.port.Some? ==> HostEnd(c) < |Front(c)|)
    ensures |Head(c)| + |Info(c)| <= HostEnd(c) && (c.userInfo.Some? <==> Info(c) != "")
    ensures c.scheme.Some? ==> |c.scheme.value| + 3 == |Head(c)|
    ensures c.scheme.None? ==> Head(c) == ""
    ensures HasPassword(c) ==> |c.userInfo.value.user| + 1 < |Info(c)|
  {
  }

  /** The positions in the whole text, which differ only in the delimiters of the query and the fragment. */
  lemma PositionsBehind(c: Components)
    requires NoSlash(c)
    ensures var f, p, q := Front(c), PositionsOf(Front(c)), PositionsOf(Slashless(c));
            && q.base == p.base && q.colon0 == p.colon0 && q.at == p.at && q.bracket == p.bracket && q.slash == p.slash
            && PortColon(Slashless(c), q) == PortColon(f, p)
            && IndexOf(Slashless(c), "://", 0) == IndexOf(f, "://", 0)
            && q.question == (if c.query.Some? then Some(|f|) else None)
            && q.hash == (if c.fragment.Some? then Some(|f| + |QueryText(c)|) else None)
  {
    hide IndexOf, WellFormed, Front, QueryClear;
    var f, r := Front(c), QueryAndFragment(c);
    var scheme := IndexOf(f, "://", 0);
    SchemeNotInRest(f, r);
    NotInRest(f, r, ':', if scheme.Some? then scheme.value + 1 else 0);
    NotInRest(f, r, '@', 0);
    NotInRest(f, r, ']', 0);
    NotInRest(f, r, '/', if scheme.Some? then scheme.value + 3 else 0);
    var p := PositionsOf(f);
    if p.bracket.Some? {
      NotInRest(f, r, ':', p.bracket.value + 1);
    }
    if p.at.Some? {
      NotInRest(f, r, ':', p.at.value);
    }
    DelimitersBehind(c);
  }

  lemma DelimitersBehind(c: Components)
    requires NoSlash(c)
    ensures IndexOf(Slashless(c), "?", 0) == if c.query.Some? then Some(|Front(c)|) else None
    ensures IndexOf(Slashless(c), "#", 0) == if c.fragment.Some? then Some(|Front(c)| + |QueryText(c)|) else None
  {
    hide IndexOf, Front;
    FreeFrontOf(c, '?');
    FreeFrontOf(c, '#');
    if c.query.Some? {
      FirstBehind(Front(c), '?', QueryAndFragment(c));
    } else {
      NowhereIn(Slashless(c), '?');
    }
    var pre := Front(c) + QueryText(c);
    Assoc(Front(c), QueryText(c), FragmentText(c));
    if c.fragment.Some? {
      FirstBehind(pre, '#', FragmentText(c));
    } else {
      NowhereIn(pre + "", '#');
    }
  }

  // ---------- the fields ----------

  lemma AuthoritySlices(c: Components)
    requires WellFormed(c)
    ensures var uri, start := Slashless(c), |Head(c)| + |Info(c)|;
            && start <= HostEnd(c) <= |uri|
            && uri[start..HostEnd(c)] == HostText(c)
            && (c.port.None? ==> uri[start..] == HostText(c) + QueryAndFragment(c))
  {
    hide Slashless, Head, Info, HostText, WellFormed, QueryAndFragment, PortText;
    SlashlessGrouped(c);
    CutOut(Head(c) + Info(c), HostText(c), PortText(c) + QueryAndFragment(c));
    if c.port.None? {
      NoPortText(c);
      assert PortText(c) + QueryAndFragment(c) == QueryAndFragment(c);
    }
  }

  lemma CutOut(a: string, b: string, c: string)
    ensures var s := (a + b) + c; s[|a|..|a| + |b|] == b && s[|a|..] == b + c && |s| == |a| + |b| + |c|
  {
  }

  lemma SlashlessGrouped(c: Components)
    ensures Slashless(c) == ((Head(c) + Info(c)) + HostText(c)) + (PortText(c) + QueryAndFragment(c))
  {
    hide Head, Info, HostText, PortText, QueryAndFragment;
    Assoc((Head(c) + Info(c)) + HostText(c), PortText(c), QueryAndFragment(c));
  }

  lemma NoPortText(c: Components)
    requires c.port.None?
    ensures PortText(c) == ""
  {
  }

  lemma SchemeFirst(c: Components)
    ensures c.scheme.Some? ==> |c.scheme.value| <= |Slashless(c)| && Slashless(c)[..|c.scheme.value|] == c.scheme.value
  {
    hide Info, HostText, PortText, QueryAndFragment;
    if c.scheme.Some? {
      var more := "://" + Info(c) + HostText(c) + PortText(c) + QueryAndFragment(c);
      assert Slashless(c) == c.scheme.value + more;
    }
  }

  lemma InfoSlices(c: Components)
    requires HasPassword(c)
    ensures var uri, n := Slashless(c), |Head(c)| + |c.userInfo.value.user|;
            && n < |Head(c)| + |Info(c)| - 1 < |uri|
            && uri[|Head(c)|..n] == c.userInfo.value.user
            && uri[n + 1..|Head(c)| + |Info(c)| - 1] == c.userInfo.value.password.value
  {
    hide Head, HostText, PortText, QueryAndFragment;
    var u, p := c.userInfo.value.user, c.userInfo.value.password.value;
    var rest := HostText(c) + PortText(c) + QueryAndFragment(c);
    assert Slashless(c) == (Head(c) + Info(c)) + rest;
    AroundColon(Head(c), u, p, rest);
    Slice(Head(c), u, ":" + p + "@" + rest);
    AroundPassword(Head(c), u, p, rest);
    Slice(Head(c) + u + ":", p, "@" + rest);
  }

  lemma RestSlices(c: Components)
    ensures var uri, q := Slashless(c), |Front(c)|;
            var h := q + |QueryText(c)|;
            && h <= |uri|
            && (c.query.Some? ==> q < h && uri[q + 1..h] == c.query.value)
            && (c.fragment.Some? ==> h < |uri| && uri[h + 1..] == c.fragment.value)
            && (c.fragment.None? ==> h == |uri|)
  {
    hide Front;
    if c.query.Some? {
      assert Slashless(c) == (Front(c) + "?") + c.query.value + FragmentText(c);
      Slice(Front(c) + "?", c.query.value, FragmentText(c));
    }
    if c.fragment.Some? {
      var pre := Front(c) + QueryText(c) + "#";
      assert Slashless(c) == pre + c.fragment.value;
      Slice(pre, c.fragment.value, "");
    }
  }

  /**
   Without a `/`, for any scheme, user information, host or IP literal, and port: nothing is thrown; scheme, user,
   password, query and fragment come back, and what is not there stays as it was. The host comes back if there is a
   port or nothing follows it. What is taken for the port is the text from as many characters on as the host has.
   */
  lemma SlashlessReturns(before: Uri, c: Components)
    requires NoSlash(c)
    ensures var uri := Slashless(c);
            && !Throws(uri)
            && |HostText(c)| <= |uri|
            && Parsed(before, uri) == Uri(
                 Or(c.scheme, ""),
                 if HasPassword(c) then c.userInfo.value.user else before.user,
                 if HasPassword(c) then c.userInfo.value.password.value else before.password,
                 if c.port.Some? then HostText(c) else HostText(c) + QueryText(c) + FragmentText(c),
                 if c.port.Some? then uri[|HostText(c)|..] else before.port,
                 before.path, Or(c.query, before.query), Or(c.fragment, before.fragment))
  {
    hide IndexOf, WellFormed, Front, HostText, QueryAndFragment, PositionsOf, PortColon, NoSlash, Slashless, Throws, Parsed,
         HostAndPort, UserOf, PasswordOf, PathOf, QueryOf, FragmentOf, SchemeOf, QueryText, FragmentText, HostStart;
    ParsedInParts(before, Slashless(c));
    SlashlessHost(c, before.port);
    SlashlessUser(c, before.user, before.password);
    SlashlessTail(c, before.path, before.query, before.fragment);
  }

  lemma SlashlessHost(c: Components, port: string)
    requires NoSlash(c)
    ensures var uri := Slashless(c);
            var p := PositionsOf(uri);
            && !Throws(uri)
            && |HostText(c)| <= |uri|
            && HostAndPort(port, uri, HostStart(p), PortColon(uri, p), p.slash) ==
               (if c.port.Some? then HostText(c) else HostText(c) + QueryText(c) + FragmentText(c),
                if c.port.Some? then uri[|HostText(c)|..] else port)
  {
    hide IndexOf, WellFormed, Front, Head, Info, HostText, QueryText, FragmentText, PositionsOf, PortColon, HasUser, Slashless;
    PositionsInFront(c);
    PositionsBehind(c);
    AuthoritySlices(c);
    FrontLengths(c);
    Assoc(HostText(c), QueryText(c), FragmentText(c));
  }

  lemma SlashlessUser(c: Components, user: string, password: string)
    requires NoSlash(c)
    ensures var uri := Slashless(c);
            var p := PositionsOf(uri);
            && SchemeOf(uri) == Or(c.scheme, "")
            && UserOf(user, uri, p) == (if HasPassword(c) then c.userInfo.value.user else user)
            && PasswordOf(password, uri, p) == (if HasPassword(c) then c.userInfo.value.password.value else password)
  {
    hide IndexOf, WellFormed, Front, Head, Info, HostText, QueryAndFragment, PositionsOf, PortColon, HasUser, Slashless;
    PositionsInFront(c);
    PositionsBehind(c);
    SameUser(c);
    SchemeFirst(c);
    if HasPassword(c) {
      InfoSlices(c);
    }
  }

  lemma SlashlessTail(c: Components, path: string, query: string, fragment: string)
    requires NoSlash(c)
    ensures var uri := Slashless(c);
            var p := PositionsOf(uri);
            && PathOf(path, uri, p.slash, p.question, p.hash) == path
            && QueryOf(query, uri, p.question, p.hash) == Or(c.query, query)
            && FragmentOf(fragment, uri, p.hash) == Or(c.fragment, fragment)
  {
    hide IndexOf, WellFormed, Front, HostText, QueryText, FragmentText, PositionsOf, PortColon, Slashless;
    PositionsInFront(c);
    PositionsBehind(c);
    RestSlices(c);
    var uri := Slashless(c);
    if c.query.Some? {
      assert uri[|Front(c)| + 1..] == uri[|Front(c)| + 1..|uri|];
    }
  }

  lemma SameUser(c: Components)
    requires NoSlash(c)
    ensures HasUser(PositionsOf(Slashless(c))) == HasUser(PositionsOf(Front(c)))
  {
    hide PositionsOf, Slashless, Front;
    PositionsBehind(c);
  }

  /** A fresh parser returns such a URL as it is exactly if it is no more than scheme, user information and host. */
  lemma SlashlessRoundTripIff(c: Components)
    requires NoSlash(c)
    ensures !Throws(Slashless(c)) && Parsed(FRESH, Slashless(c)) == Expected(FRESH, c)
            <==> c.port.None? && c.query.None? && c.fragment.None? && UserClear(FRESH, c)
  {
    hide Throws, Parsed, HostText, WellFormed;
    SlashlessReturns(FRESH, c);
    assert c.port.Some? ==> |Slashless(c)[|HostText(c)|..]| > |c.port.value|;
    assert c.port.None? ==> (|HostText(c) + QueryText(c) + FragmentText(c)| == |HostText(c)|
                             <==> c.query.None? && c.fragment.None?);
  }

  const BROKER := Components(None, None, "localhost", false, Some("5672"), "", None, None)

  lemma AlphanumericIsPlain(s: string)
    requires forall i | 0 <= i < |s| :: 'a' <= s[i] <= 'z' || IsDigit(s[i])
    ensures Without(s, ":/@]?#")
  {
  }

  lemma BrokerIsPlain()
    ensures NoSlash(BROKER)
  {
    hide Slashless, Front, IndexOf, Without;
    AlphanumericIsPlain("localhost");
    AlphanumericIsPlain("5672");
    EmptyIsPlain();
  }

  lemma EmptyIsPlain()
    ensures Without("", "?#") && QueryAndFragment(BROKER) == "" && Without("", "/:@]")
  {
  }

  lemma BrokerText()
    ensures Slashless(BROKER) == "localhost" + ":5672" && HostText(BROKER) == "localhost"
  {
    hide IndexOf;
    assert ":" + "5672" == ":5672";
    assert Front(BROKER) == "" + "" + "localhost" + ":5672";
  }

  /** The broker URL `localhost:5672`: the host is right, the port is not. */
  lemma BrokerWithoutSlash()
    ensures !Throws("localhost" + ":5672")
    ensures Parsed(FRESH, "localhost" + ":5672") == Uri("", "", "", "localhost", ":5672", "", "", "")
  {
    hide Throws, Parsed, NoSlash, Slashless, HostText;
    BrokerText();
    BrokerIsPlain();
    SlashlessReturns(FRESH, BROKER);
    assert ("localhost" + ":5672")[|"localhost"|..] == ":5672";
  }
}
