/**
 Exactly which composed URIs a fresh parser returns. The parser looks for most delimiters in the whole text,
 so some that the tail may legally hold are taken for those of the authority.
 */
module UriExactness {
  import opened CppStrings
  import opened Uris
  import opened UriTheorems

  const FRESH := Uri("", "", "", "", "", "", "", "")

  /** A fresh parser returns every component. */
  predicate Returns(c: Components) {
    !Throws(Compose(c)) && Parsed(FRESH, Compose(c)) == Expected(FRESH, c)
  }

  /** The coincidence in which a stray `@` does no harm: what follows it is the host once more. */
  predicate Echo(c: Components) {
    var at := IndexOf(Tail(c), "@", 0);
    && at.Some? && c.port.None? && ':' !in HostText(c) && ':' !in Tail(c)[..at.value]
    && (Tail(c)[at.value + 1..] == HostText(c) || Tail(c)[at.value + 1..] == HostText(c) + ":")
  }

  predicate Recoverable(c: Components) {
    SchemeClear(c) && QueryClear(c) && if Stray(c) then Echo(c) else HostClear(c) && UserClear(FRESH, c)
  }

  // ---------- a later `://` ----------

  /** A text without a scheme does not begin with `://`. */
  lemma NoSchemeAtStart(c: Components)
    requires WellFormed(c) && c.scheme.None?
    ensures IndexOf(Compose(c), "://", 0) != Some(0)
  {
    hide Tail;
    NoSlashBefore(c);
    var uri := Compose(c);
    assert |uri| >= 3 ==> uri[0..3] == [uri[0], uri[1], uri[2]];
    FindsFirst(uri, "://", 0);
  }

  lemma LateScheme(c: Components)
    requires WellFormed(c) && !SchemeClear(c)
    ensures !Returns(c)
  {
    hide IndexOf, Compose, PositionsOf, Throws;
    NoSchemeAtStart(c);
    ParsedInParts(FRESH, Compose(c));
  }

  // ---------- a `?` of the fragment ----------

  lemma LateQuestion(c: Components)
    requires WellFormed(c) && SchemeClear(c) && !QueryClear(c)
    ensures !Returns(c)
  {
    hide IndexOf, Compose, PositionsOf, Throws, WellFormed, SchemeClear, Front, Tail;
    ParsedInParts(FRESH, Compose(c));
    PositionsFound(c);
    QuestionBehindPath(c);
    var uri, p := Compose(c), PositionsOf(Compose(c));
    assert |uri[p.slash.value + 1..p.question.value]| > |c.path|;
  }

  lemma NoQuestionBefore(c: Components)
    requires WellFormed(c)
    ensures '?' !in Front(c) + "/" + c.path
  {
    FreeFrontOf(c, '?');
    hide Front;
  }

  /** A character that is in `t` but does not begin it is found in `pre + t` behind where `t` begins. */
  lemma FoundInside(pre: string, t: string, x: char)
    requires x !in pre && x in t && t[0] != x
    ensures var m := IndexOf(pre + t, [x], 0); m.Some? && m.value > |pre|
  {
    hide IndexOf;
    FindChar(t, x, 0);
    assert t[0..] == t;
    var i := IndexOf(t, [x], 0).value;
    FirstBehind(pre + t[..i], x, t[i..]);
    assert pre + t == (pre + t[..i]) + t[i..];
  }

  lemma QuestionBehindPath(c: Components)
    requires WellFormed(c) && !QueryClear(c)
    ensures var m := IndexOf(Compose(c), "?", 0); m.Some? && m.value > |Front(c)| + 1 + |c.path|
  {
    hide IndexOf, Front, WellFormed, Compose;
    NoQuestionBefore(c);
    Grouped(c);
    var pre, fragment := Front(c) + "/" + c.path, FragmentText(c);
    assert QueryText(c) + fragment == fragment;
    FoundInside(pre, fragment, '?');
  }

  lemma FreeFrontOf(c: Components, x: char)
    requires WellFormed(c) && x in "]?#"
    ensures x != ']' || !c.literal ==> x !in Front(c)
  {
    FreeFront(c, x);
    hide Head, Info, HostText, PortText;
  }

  // ---------- a colon or bracket of the tail ----------

  lemma WrongHost(c: Components)
    requires WellFormed(c) && SchemeClear(c) && !Stray(c) && !HostClear(c)
    ensures !Returns(c)
  {
    hide IndexOf, Compose, PositionsOf, Throws, WellFormed, SchemeClear, Stray, HostClear, PortColon, Head, HostText, Tail;
    ParsedInParts(FRESH, Compose(c));
    PositionsFound(c);
    PortColonFound(c);
    InfoLength(c);
    var uri, p := Compose(c), PositionsOf(Compose(c));
    var start, m := HostStart(p), PortColon(uri, p);
    assert start == |Head(c)| + |Info(c)|;
    var end := if m.Some? then m.value else |Front(c)|;
    assert |uri[start..end]| > |HostText(c)|;
  }

  /** A user that comes without a password is never returned. */
  lemma LonelyUser(c: Components)
    requires WellFormed(c) && SchemeClear(c) && !UserClear(FRESH, c)
    ensures !Returns(c)
  {
    hide IndexOf, Compose, PositionsOf, Throws, WellFormed, SchemeClear, PortColon, Head, HostText, Tail;
    ParsedInParts(FRESH, Compose(c));
    UserReturns(c, "", "");
  }

  // ---------- a stray `@` ----------

  /** Where the first `@` of the tail is, and what follows it. */
  function AtOf(c: Components): (at: nat)
    requires '@' in Tail(c)
    ensures at < |Tail(c)| && Tail(c)[at] == '@'
  {
    FindChar(Tail(c), '@', 0);
    IndexOf(Tail(c), "@", 0).value
  }

  function Rest(c: Components): string
    requires '@' in Tail(c)
  {
    Tail(c)[AtOf(c) + 1..]
  }

  lemma StrayAt(c: Components)
    requires WellFormed(c) && Stray(c)
    ensures var at := |Front(c)| + 1 + AtOf(c);
            IndexOf(Compose(c), "@", 0) == Some(at) && at < |Compose(c)| && Compose(c)[at] == '@' && Compose(c)[at + 1..] == Rest(c)
  {
    hide Tail, Head, HostText, PortText;
    FreeFront(c, '@');
    TailFound(c, '@');
  }

  /** A colon before the stray `@` is one of the port, of the host or of the tail. */
  lemma ColonsBefore(c: Components)
    requires WellFormed(c) && Stray(c)
    ensures var at := |Front(c)| + 1 + AtOf(c);
            && ColonStart(c) <= at <= |Compose(c)|
            && (':' in Compose(c)[ColonStart(c)..at] <==>
                c.port.Some? || ':' in HostText(c) || ':' in Tail(c)[..AtOf(c)])
  {
    hide Head, HostText, PortText, Tail, ColonStart, Compose;
    HeadRest(c);
    PortTextColon(c);
    BeforeAt(c);
  }

  lemma PortTextColon(c: Components)
    requires WellFormed(c)
    ensures ':' in PortText(c) <==> c.port.Some?
  {
  }

  lemma BeforeAt(c: Components)
    requires Stray(c) && ColonStart(c) <= |Head(c)|
    ensures var at := |Front(c)| + 1 + AtOf(c);
            && at <= |Compose(c)|
            && Compose(c)[ColonStart(c)..at] ==
               Head(c)[ColonStart(c)..] + HostText(c) + PortText(c) + "/" + Tail(c)[..AtOf(c)]
  {
    hide Head, HostText, PortText, Tail, ColonStart;
    assert Head(c) + Info(c) == Head(c);
    var tail, t := Tail(c), AtOf(c);
    var mid := HostText(c) + PortText(c) + "/" + tail[..t];
    assert tail == tail[..t] + tail[t..];
    assert Compose(c) == (Head(c) + mid) + tail[t..];
    assert (Head(c) + mid)[ColonStart(c)..] == Head(c)[ColonStart(c)..] + mid;
  }

  /** With a colon before the stray `@`, a user and a password are made up, one of them not empty. */
  lemma StrayUser(c: Components)
    requires WellFormed(c) && SchemeClear(c) && Stray(c)
    ensures var uri, p := Compose(c), PositionsOf(Compose(c));
            HasUser(p) ==> UserOf("", uri, p) != "" || PasswordOf("", uri, p) != ""
  {
    hide IndexOf, Compose, PositionsOf, WellFormed, SchemeClear, Stray, Front, Tail, Head;
    PositionsFound(c);
    StrayAt(c);
    var uri, p := Compose(c), PositionsOf(Compose(c));
    SchemeColon(uri);
    FindChar(uri, ':', ColonStart(c));
    SlashThere(c);
    HeadInFront(c);
    if HasUser(p) {
      assert p.colon0.value != p.slash.value;
      assert |uri[p.base..p.colon0.value]| > 0 || |uri[p.colon0.value + 1..p.at.value]| > 0;
    }
  }

  lemma HeadInFront(c: Components)
    ensures |Head(c)| <= |Front(c)|
  {
  }

  lemma SlashThere(c: Components)
    ensures |Front(c)| < |Compose(c)| && Compose(c)[|Front(c)|] == '/'
  {
  }

  /** Without one, the user information is left alone and the port's colon is looked for behind the `@`. */
  lemma ColonAfter(c: Components)
    requires WellFormed(c) && SchemeClear(c) && Stray(c)
    requires var at := |Front(c)| + 1 + AtOf(c);
             ColonStart(c) <= at <= |Compose(c)| && ':' !in Compose(c)[ColonStart(c)..at]
    ensures var uri, at := Compose(c), |Front(c)| + 1 + AtOf(c);
            var p := PositionsOf(uri);
            var m := PortColon(uri, p);
            && !HasUser(p)
            && (m.Some? ==> at < m.value < |uri| && uri[m.value] == ':')
            && (c.literal || ']' !in Rest(c) ==> m.Some? || ':' !in Rest(c))
  {
    hide IndexOf, Compose, PositionsOf, WellFormed, SchemeClear, Front, Tail, Head;
    PositionsFound(c);
    StrayAt(c);
    var uri, at := Compose(c), |Front(c)| + 1 + AtOf(c);
    FirstColonIsAfter(uri, ColonStart(c), at);
    var bracket := IndexOf(uri, "]", 0);
    BracketBehindHead(c);
    if bracket.Some? {
      FirstColonFrom(uri, ColonStart(c), at, bracket.value + 1);
      FindChar(uri, ']', 0);
      if c.literal {
        LiteralBracket(c);
      } else if bracket.value > at {
        assert uri[bracket.value] == Rest(c)[bracket.value - at - 1];
      }
    }
  }

  /** The bracket of an IP literal is before the slash. */
  lemma LiteralBracket(c: Components)
    requires WellFormed(c) && c.literal
    ensures var m := IndexOf(Compose(c), "]", 0); m.Some? && m.value < |Front(c)|
  {
    hide Head, Info, PortText;
    BracketFound(c);
  }

  lemma BracketBehindHead(c: Components)
    requires WellFormed(c)
    ensures var m := IndexOf(Compose(c), "]", 0); m.Some? ==> m.value + 1 >= ColonStart(c)
  {
    hide IndexOf, HostText, PortText, Tail, Info;
    FreeFront(c, ']');
    HeadRest(c);
    var uri := Compose(c);
    FindChar(uri, ']', 0);
    var m := IndexOf(uri, "]", 0);
  }

  lemma FirstColonIsAfter(uri: string, from: nat, at: nat)
    requires from <= at < |uri| && uri[at] != ':' && ':' !in uri[from..at]
    ensures var m := IndexOf(uri, ":", from); m.Some? ==> at < m.value && uri[m.value] == ':'
    ensures IndexOf(uri, ":", from).None? ==> ':' !in uri[at + 1..]
  {
    FirstColonFrom(uri, from, at, from);
  }

  /** A search that starts behind `from` finds nothing up to `at`. */
  lemma FirstColonFrom(uri: string, from: nat, at: nat, start: nat)
    requires from <= start <= |uri| && from <= at < |uri| && uri[at] != ':' && ':' !in uri[from..at]
    ensures var m := IndexOf(uri, ":", start); m.Some? ==> at < m.value && uri[m.value] == ':'
    ensures start <= at + 1 && IndexOf(uri, ":", start).None? ==> ':' !in uri[at + 1..]
  {
    hide IndexOf;
    FindChar(uri, ':', start);
    var m := IndexOf(uri, ":", start);
    if m.None? && start <= at + 1 {
      assert uri[at + 1..] == uri[start..][at + 1 - start..];
    }
  }

  /** What host and port come out as, when the user information is left alone. */
  lemma StrayHost(c: Components)
    requires WellFormed(c) && SchemeClear(c) && Stray(c)
    requires var at := |Front(c)| + 1 + AtOf(c);
             ColonStart(c) <= at <= |Compose(c)| && ':' !in Compose(c)[ColonStart(c)..at]
    ensures var uri, p := Compose(c), PositionsOf(Compose(c));
            && HostStart(p) <= |uri| && InText(uri, PortColon(uri, p)) && p.slash.Some?
            && (HostAndPort("", uri, HostStart(p), PortColon(uri, p), p.slash) == (HostText(c), "") <==>
                Rest(c) == HostText(c) || Rest(c) == HostText(c) + ":")
  {
    hide IndexOf, Compose, PositionsOf, Throws, WellFormed, SchemeClear, Front, Tail, Head, HostText, PortColon, Rest;
    PositionsFound(c);
    StrayAt(c);
    ColonAfter(c);
    ColonsBefore(c);
    HostBrackets(c);
    var uri, p := Compose(c), PositionsOf(Compose(c));
    var start, m, rest := HostStart(p), PortColon(uri, p), Rest(c);
    assert rest == uri[start..] && p.slash.value < start;
    if m.Some? {
      CutAtColon(uri, start, m.value, HostText(c));
    } else {
      EndsInColon(HostText(c));
    }
  }

  lemma EndsInColon(host: string)
    ensures ':' in host + ":"
  {
    assert (host + ":")[|host|] == ':';
  }

  /** Cutting the rest at one of its colons gives the host and nothing, exactly if the rest is the host and a colon. */
  lemma CutAtColon(uri: string, start: nat, k: nat, host: string)
    requires start <= k < |uri| && uri[k] == ':' && ':' !in host
    ensures uri[start..k] == host && uri[k + 1..] == "" <==> uri[start..] == host || uri[start..] == host + ":"
  {
    var rest := uri[start..];
    assert rest == uri[start..k] + ":" + uri[k + 1..] && rest[k - start] == ':';
    if rest == host + ":" {
      assert k - start == |host|;
      assert uri[start..k] == rest[..k - start] == host;
    }
  }

  /** A host that is not an IP literal has no bracket. */
  lemma HostBrackets(c: Components)
    requires WellFormed(c)
    ensures c.literal || (']' !in HostText(c) && ']' !in HostText(c) + ":")
  {
  }

  lemma StrayReturns(c: Components)
    requires WellFormed(c) && SchemeClear(c) && QueryClear(c) && Stray(c)
    ensures Returns(c) <==> Echo(c)
  {
    hide IndexOf, Compose, PositionsOf, Throws, WellFormed, SchemeClear, QueryClear, Tail, HostText, PortColon, UserOf,
         PasswordOf, HostStart, HostAndPort, PathOf, QueryOf, FragmentOf, Parsed, SchemeOf, Front, Rest, ColonStart;
    ParsedInParts(FRESH, Compose(c));
    PositionsFound(c);
    SchemeSlice(c);
    TailReturns(c, "", "", "");
    StrayUser(c);
    ColonsBefore(c);
    var uri, p := Compose(c), PositionsOf(Compose(c));
    var colonBefore := ':' in uri[ColonStart(c)..|Front(c)| + 1 + AtOf(c)];
    EchoIs(c);
    if colonBefore {
      StrayHasUser(c);
    } else {
      StrayHost(c);
      ColonAfter(c);
      UserUntouched(uri, p);
    }
  }

  lemma UserUntouched(uri: string, p: Positions)
    requires p == PositionsOf(uri) && !HasUser(p)
    ensures UserOf("", uri, p) == "" && PasswordOf("", uri, p) == ""
  {
  }

  lemma EchoIs(c: Components)
    requires Stray(c)
    ensures Echo(c) <==>
            && !(c.port.Some? || ':' in HostText(c) || ':' in Tail(c)[..AtOf(c)])
            && (Rest(c) == HostText(c) || Rest(c) == HostText(c) + ":")
  {
    hide Tail, HostText;
    FindChar(Tail(c), '@', 0);
  }

  lemma StrayHasUser(c: Components)
    requires WellFormed(c) && SchemeClear(c) && Stray(c)
    requires var at := |Front(c)| + 1 + AtOf(c);
             ColonStart(c) <= at <= |Compose(c)| && ':' in Compose(c)[ColonStart(c)..at]
    ensures HasUser(PositionsOf(Compose(c)))
  {
    hide IndexOf, Compose, PositionsOf, WellFormed, SchemeClear, Front, Tail, Head;
    PositionsFound(c);
    StrayAt(c);
    var uri, from, at := Compose(c), ColonStart(c), |Front(c)| + 1 + AtOf(c);
    FindChar(uri, ':', from);
    var m := IndexOf(uri, ":", from);
    var k :| 0 <= k < at - from && uri[from..at][k] == ':';
    assert uri[from..][k] == ':';
  }

  // ---------- the exact condition ----------

  /**
   A fresh parser returns every component of a composed URI exactly if, without a scheme, there is no `://`
   later on; without a query, no `?` in the fragment; without user information, no `@` in the tail (or the
   host is repeated behind it); with a port, no `]` in the tail unless the host has one; without a port, no
   colon where the port's would be looked for; and without a password, no user but an empty one.
   */
  lemma UriRoundTripIff(c: Components)
    requires WellFormed(c)
    ensures Returns(c) <==> Recoverable(c)
  {
    hide WellFormed, SchemeClear, QueryClear, Stray, HostClear, Compose, Throws, Parsed, Expected, Echo;
    if !SchemeClear(c) {
      LateScheme(c);
    } else if !QueryClear(c) {
      LateQuestion(c);
    } else if Stray(c) {
      StrayReturns(c);
    } else if !HostClear(c) {
      WrongHost(c);
    } else if !UserClear(FRESH, c) {
      LonelyUser(c);
    } else {
      UriRoundTrip(FRESH, c);
    }
  }

  /** A legal `:` in the path of a URI without a port ends up in the host. */
  lemma PathColonIsMisread()
    ensures var c := Components(Some("s"), None, "h", false, None, "q:1", None, None);
            Compose(c) == "s://h/q:1" && WellFormed(c) && !Returns(c)
  {
    hide IndexOf, Returns;
    var c := Components(Some("s"), None, "h", false, None, "q:1", None, None);
    assert Tail(c) == "q:1" && "q:1"[1] == ':';
    NowhereIn("q:1", ']');
    UriRoundTripIff(c);
  }

  /** A user without a password is lost, although nothing behind the slash is in the way. */
  lemma UserWithoutPasswordIsLost()
    ensures var c := Components(Some("amqp"), Some(UserInfo("guest", None)), "localhost", false, Some("5672"), "q", None, None);
            Compose(c) == "amqp://guest@localhost:5672/q" && WellFormed(c) && !Returns(c)
  {
    hide IndexOf, Returns, Compose, Recoverable, Without;
    var c := Components(Some("amqp"), Some(UserInfo("guest", None)), "localhost", false, Some("5672"), "q", None, None);
    LonelyUserText();
    LonelyUserParts();
    LonelyUser(c);
  }

  lemma LonelyUserParts()
    ensures Without("amqp", ":/@]?#") && Without("guest", ":/@]?#") && Without("localhost", ":/@]?#")
    ensures Without("5672", ":/@]?#") && Without("q", "?#")
  {
  }

  lemma LonelyUserText()
    ensures Compose(Components(Some("amqp"), Some(UserInfo("guest", None)), "localhost", false, Some("5672"), "q", None, None))
            == "amqp://guest@localhost:5672/q"
  {
    var c := Components(Some("amqp"), Some(UserInfo("guest", None)), "localhost", false, Some("5672"), "q", None, None);
    assert Tail(c) == "q" && Info(c) == "guest@" && PortText(c) == ":5672" && Head(c) == "amqp://";
  }

  /** An IP literal needs no port. */
  lemma LiteralWithoutPortReturns()
    ensures var c := Components(Some("amqp"), None, "::1", true, None, "queue", None, None);
            Compose(c) == "amqp://[::1]/queue" && Returns(c)
  {
    hide IndexOf, Returns, Compose;
    var c := Components(Some("amqp"), None, "::1", true, None, "queue", None, None);
    PlainTailReturns(c);
    LiteralText();
  }

  lemma LiteralText()
    ensures Compose(Components(Some("amqp"), None, "::1", true, None, "queue", None, None)) == "amqp://[::1]/queue"
  {
    var c := Components(Some("amqp"), None, "::1", true, None, "queue", None, None);
    assert Tail(c) == "queue" && HostText(c) == "[::1]";
  }

  /** A tail that is only a path without delimiters does no harm. */
  lemma PlainTailReturns(c: Components)
    requires WellFormed(c) && UserClear(FRESH, c) && c.scheme.Some? && c.query.None? && c.fragment.None?
    requires ':' !in c.path && '@' !in c.path && ']' !in c.path
    ensures Returns(c)
  {
    hide IndexOf, Returns, WellFormed;
    assert Tail(c) == c.path;
    NowhereIn(c.path, ']');
    UriRoundTripIff(c);
  }

  /** The coincidence: the host repeated behind the stray `@`. */
  lemma EchoReturns()
    ensures var c := Components(Some("s"), None, "h", false, None, "x@h", None, None);
            Compose(c) == "s://h/x@h" && Stray(c) && Returns(c)
  {
    hide IndexOf, Returns;
    var c := Components(Some("s"), None, "h", false, None, "x@h", None, None);
    assert Tail(c) == "x@h" && "x@h"[1] == '@';
    FoundChar("x@h", '@', 0, 1);
    assert Tail(c)[2..] == "h";
    UriRoundTripIff(c);
  }

  /** A text that begins with `://` is read with an empty scheme, so components without one are not returned. */
  lemma BareColonIsAmbiguous(host: string, path: string)
    requires Without(host, ":/@]?#") && Without(path, ":@]?#")
    ensures var c := Components(None, None, "", false, Some(""), "/" + host + "/" + path, None, None);
            var d := Components(Some(""), None, host, false, None, path, None, None);
            Compose(c) == Compose(d) && Returns(d) && (host != "" ==> !Returns(c))
  {
    hide IndexOf, Parsed, Throws, Compose;
    var c := Components(None, None, "", false, Some(""), "/" + host + "/" + path, None, None);
    var d := Components(Some(""), None, host, false, None, path, None, None);
    PlainTailReturns(d);
    SameText(host, path);
  }

  lemma SameText(host: string, path: string)
    ensures Compose(Components(None, None, "", false, Some(""), "/" + host + "/" + path, None, None)) ==
            Compose(Components(Some(""), None, host, false, None, path, None, None))
  {
    hide Compose;
    var slashed := "/" + host + "/" + path;
    var c := Components(None, None, "", false, Some(""), slashed, None, None);
    var d := Components(Some(""), None, host, false, None, path, None, None);
    BareFront(c);
    SchemeFront(d);
    assert ":" + "/" + ("/" + host + "/" + path) == "://" + host + "/" + path;
  }

  lemma BareFront(c: Components)
    requires c.scheme.None? && c.userInfo.None? && c.host == "" && !c.literal && c.port == Some("")
    requires c.query.None? && c.fragment.None?
    ensures Compose(c) == ":" + "/" + c.path
  {
    assert Front(c) == ":" && Tail(c) == c.path;
    hide Front, Tail;
  }

  lemma SchemeFront(d: Components)
    requires d.scheme == Some("") && d.userInfo.None? && !d.literal && d.port.None?
    requires d.query.None? && d.fragment.None?
    ensures Compose(d) == "://" + d.host + "/" + d.path
  {
    assert Front(d) == "://" + d.host && Tail(d) == d.path;
    hide Front, Tail;
  }
}
