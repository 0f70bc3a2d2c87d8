/**
 src/common/UriParser.cpp: taking a broker URL apart with positions that may be npos.
 */
module Uris {
  import opened CppStrings

  /** The fields of the parser; a second `parse` keeps what the new URI does not have. */
  datatype Uri = Uri(
    scheme: string, user: string, password: string, host: string, port: string,
    path: string, query: string, fragment: string)

  // ---------- parsing, without npos ----------

  /** `substr(from, to - from)`: when `to` lies before `from` the count wraps and everything is taken. */
  function Between(s: string, from: nat, to: nat): string
    requires from <= |s|
  {
    if from <= to <= |s| then s[from..to] else s[from..]
  }

  predicate InText(s: string, m: Maybe<nat>) {
    m.Some? ==> m.value < |s|
  }

  /** The positions the parser works with. */
  datatype Positions = Positions(
    base: nat, colon0: Maybe<nat>, at: Maybe<nat>, bracket: Maybe<nat>, slash: Maybe<nat>,
    question: Maybe<nat>, hash: Maybe<nat>)

  function PositionsOf(uri: string): (p: Positions)
    ensures p.base <= |uri| && InText(uri, p.colon0) && InText(uri, p.at) && InText(uri, p.bracket)
    ensures InText(uri, p.slash) && InText(uri, p.question) && InText(uri, p.hash)
  {
    var scheme := IndexOf(uri, "://", 0);
    var base := if scheme.Some? then scheme.value + 3 else 0;
    Positions(base, IndexOf(uri, ":", if scheme.Some? then scheme.value + 1 else 0),
              IndexOf(uri, "@", 0), IndexOf(uri, "]", 0), IndexOf(uri, "/", base),
              IndexOf(uri, "?", 0), IndexOf(uri, "#", 0))
  }

  predicate HasUser(p: Positions) {
    p.at.Some? && p.colon0.Some? && p.colon0.value < p.at.value
  }

  /** The colon before the port: behind `]` if there is one, else behind `@` if there is user information. */
  function PortColon(uri: string, p: Positions): (m: Maybe<nat>)
    ensures InText(uri, p.colon0) ==> InText(uri, m)
  {
    if p.bracket.Some? then IndexOf(uri, ":", p.bracket.value + 1)
    else if HasUser(p) then IndexOf(uri, ":", p.at.value)
    else p.colon0
  }

  function HostStart(p: Positions): nat {
    if p.at.Some? then p.at.value + 1 else p.base
  }

  /** The one position that can be out of range: the port slice of a URI without a `/` after the authority. */
  predicate Throws(uri: string) {
    var p := PositionsOf(uri);
    var colon := PortColon(uri, p);
    p.slash.None? && colon.Some? && colon.value < HostStart(p)
  }

  /** Host and port, from the first character of the host, the port colon and the slash. */
  function HostAndPort(port: string, uri: string, start: nat, colon: Maybe<nat>, slash: Maybe<nat>): (string, string)
    requires start <= |uri| && InText(uri, colon) && InText(uri, slash)
    requires colon.Some? && slash.None? ==> start <= colon.value
  {
    if colon.Some? && slash.Some? then
      (Between(uri, start, colon.value), Between(uri, colon.value + 1, slash.value))
    else if slash.Some? then (Between(uri, start, slash.value), port)
    else if colon.Some? then (Between(uri, start, colon.value), uri[colon.value - start..])
    else (uri[start..], port)
  }

  function SchemeOf(uri: string): string {
    match IndexOf(uri, "://", 0)
    case Some(i) => uri[..i]
    case None => ""
  }

  function UserOf(user: string, uri: string, p: Positions): string
    requires p == PositionsOf(uri)
  {
    if HasUser(p) then Between(uri, p.base, p.colon0.value) else user
  }

  function PasswordOf(password: string, uri: string, p: Positions): string
    requires p == PositionsOf(uri)
  {
    if HasUser(p) then Between(uri, p.colon0.value + 1, p.at.value) else password
  }

  function PathOf(path: string, uri: string, slash: Maybe<nat>, question: Maybe<nat>, hash: Maybe<nat>): string
    requires InText(uri, slash) && InText(uri, question) && InText(uri, hash)
  {
    if slash.None? then path
    else if question.Some? then Between(uri, slash.value + 1, question.value)
    else if hash.Some? then Between(uri, slash.value + 1, hash.value)
    else uri[slash.value + 1..]
  }

  function QueryOf(query: string, uri: string, question: Maybe<nat>, hash: Maybe<nat>): string
    requires InText(uri, question) && InText(uri, hash)
  {
    if question.None? then query
    else if hash.Some? then Between(uri, question.value + 1, hash.value)
    else uri[question.value + 1..]
  }

  function FragmentOf(fragment: string, uri: string, hash: Maybe<nat>): string
    requires InText(uri, hash)
  {
    if hash.Some? then uri[hash.value + 1..] else fragment
  }

  /** The fields after `parse(uri)` when it does not throw. */
  function Parsed(before: Uri, uri: string): Uri
    requires !Throws(uri)
  {
    var p := PositionsOf(uri);
    var (host, port) := HostAndPort(before.port, uri, HostStart(p), PortColon(uri, p), p.slash);
    Uri(SchemeOf(uri), UserOf(before.user, uri, p), PasswordOf(before.password, uri, p),
        host, port, PathOf(before.path, uri, p.slash, p.question, p.hash),
        QueryOf(before.query, uri, p.question, p.hash), FragmentOf(before.fragment, uri, p.hash))
  }

  // ---------- parsing, as written ----------

  function NposOf(m: Maybe<nat>): nat {
    if m.Some? then m.value else NPOS
  }

  lemma SubstrIsBetween(s: string, from: nat, to: nat)
    requires |s| <= MAX_SIZE && from <= |s| && to <= |s|
    ensures Substr(s, from, Wrapped(to - from)) == Between(s, from, to)
  {
  }

  lemma SchemeAsWritten(u: string)
    requires |u| <= MAX_SIZE
    ensures var d := Find(u, "://", 0);
            && (d != NPOS ==> d <= |u|)
            && SchemeOf(u) == (if d != NPOS then Substr(u, 0, d) else "")
  {
  }

  /** The reassigned `ampersand_position` and `colon_position`, as positions of the specification. */
  lemma AuthorityAsWritten(u: string, schemeDelimiter: nat, ampersand: nat, rightbracket: nat, colon: nat)
    requires |u| <= MAX_SIZE && schemeDelimiter == Find(u, "://", 0)
    requires var p := PositionsOf(u);
             && ampersand == NposOf(p.at) && rightbracket == NposOf(p.bracket)
             && colon == NposOf(if HasUser(p) then IndexOf(u, ":", p.at.value) else p.colon0)
    ensures var p := PositionsOf(u);
            var amp := if ampersand == NPOS && schemeDelimiter != NPOS then schemeDelimiter + 2 else ampersand;
            var c := if rightbracket != NPOS then Find(u, ":", rightbracket + 1) else colon;
            && Wrapped(amp + 1) == HostStart(p) <= |u| && amp <= NPOS
            && c == NposOf(PortColon(u, p)) && InText(u, PortColon(u, p))
  {
    hide IndexOf, Wrapped;
  }

  lemma ParsedInParts(before: Uri, u: string)
    ensures var p := PositionsOf(u);
            && (Throws(u) <==> p.slash.None? && PortColon(u, p).Some? && PortColon(u, p).value < HostStart(p))
            && (!Throws(u) ==>
                  var r := Parsed(before, u);
                  && r.scheme == SchemeOf(u) && r.user == UserOf(before.user, u, p)
                  && r.password == PasswordOf(before.password, u, p)
                  && (r.host, r.port) == HostAndPort(before.port, u, HostStart(p), PortColon(u, p), p.slash)
                  && r.path == PathOf(before.path, u, p.slash, p.question, p.hash)
                  && r.query == QueryOf(before.query, u, p.question, p.hash)
                  && r.fragment == FragmentOf(before.fragment, u, p.hash))
  {
  }

  lemma SubstrIsRest(s: string, from: nat)
    requires |s| <= MAX_SIZE && from <= |s|
    ensures Substr(s, from, NPOS) == s[from..]
  {
  }

  class UriParser {
    var uri: string
    var scheme: string
    var user: string
    var password: string
    var host: string
    var port: string
    var path: string
    var query: string
    var fragment: string

    constructor ()
      ensures Fields() == Uri("", "", "", "", "", "", "", "")
    {
      uri, scheme, user, password, host, port, path, query, fragment := "", "", "", "", "", "", "", "", "";
    }

    function Fields(): Uri
      reads this
    {
      Uri(scheme, user, password, host, port, path, query, fragment)
    }

    /** The user information, if there is any; returns where the host's colon is looked for next. */
    method ParseUser(schemeDelimiter: nat, colon: nat, ampersand: nat, ghost p: Positions) returns (colonPosition: nat)
      requires |uri| <= MAX_SIZE && p == PositionsOf(uri)
      requires colon == NposOf(p.colon0) && ampersand == NposOf(p.at)
      requires p.base == if schemeDelimiter != NPOS then schemeDelimiter + 3 else 0
      modifies this`user, this`password
      ensures user == UserOf(old(user), uri, p)
      ensures password == PasswordOf(old(password), uri, p)
      ensures colonPosition == NposOf(if HasUser(p) then IndexOf(uri, ":", p.at.value) else p.colon0)
    {
      colonPosition := colon;
      if ampersand != NPOS && colonPosition != NPOS && colonPosition < ampersand {
        SubstrIsBetween(uri, p.base, colon);
        SubstrIsBetween(uri, colon + 1, ampersand);
        user := if schemeDelimiter != NPOS
                then Substr(uri, schemeDelimiter + 3, Wrapped(colonPosition - schemeDelimiter - 3))
                else Substr(uri, 0, colonPosition);
        password := Substr(uri, colonPosition + 1, Wrapped(ampersand - colonPosition - 1));
        colonPosition := Find(uri, ":", ampersand);
      }
    }

    /** Host and port; the port slice without a slash is the one `substr` that can throw. */
    method ParseAuthority(colon: nat, slash: nat, ampersand: nat, ghost start: nat, ghost c: Maybe<nat>, ghost l: Maybe<nat>)
      returns (thrown: bool)
      requires |uri| <= MAX_SIZE && start <= |uri| && start == Wrapped(ampersand + 1) && ampersand <= NPOS
      requires InText(uri, c) && InText(uri, l) && colon == NposOf(c) && slash == NposOf(l)
      modifies this`host, this`port
      ensures thrown <==> l.None? && c.Some? && c.value < start
      ensures !thrown ==> (host, port) == HostAndPort(old(port), uri, start, c, l)
    {
      assert Wrapped(colon - ampersand - 1) == Wrapped(colon - start);
      assert Wrapped(slash - ampersand - 1) == Wrapped(slash - start);
      var from := Wrapped(ampersand + 1);
      if colon != NPOS && slash != NPOS {
        SubstrIsBetween(uri, start, colon);
        SubstrIsBetween(uri, colon + 1, slash);
        host := Substr(uri, from, Wrapped(colon - ampersand - 1));
        port := Substr(uri, colon + 1, Wrapped(slash - colon - 1));
      } else if colon == NPOS && slash != NPOS {
        SubstrIsBetween(uri, start, slash);
        host := Substr(uri, from, Wrapped(slash - ampersand - 1));
      } else if colon != NPOS && slash == NPOS {
        SubstrIsBetween(uri, start, colon);
        host := Substr(uri, from, Wrapped(colon - ampersand - 1));
        if Wrapped(colon - ampersand - 1) > |uri| {
          return true;
        }
        port := Substr(uri, Wrapped(colon - ampersand - 1), NPOS);
      } else {
        host := Substr(uri, from, NPOS);
      }
      thrown := false;
    }

    /** Path, query and fragment. */
    method ParseTail(slash: nat, question: nat, hash: nat, ghost l: Maybe<nat>, ghost q: Maybe<nat>, ghost h: Maybe<nat>)
      requires |uri| <= MAX_SIZE && InText(uri, l) && InText(uri, q) && InText(uri, h)
      requires slash == NposOf(l) && question == NposOf(q) && hash == NposOf(h)
      modifies this`path, this`query, this`fragment
      ensures path == PathOf(old(path), uri, l, q, h)
      ensures query == QueryOf(old(query), uri, q, h)
      ensures fragment == FragmentOf(old(fragment), uri, h)
    {
      hide Substr, Between, Wrapped;
      if slash != NPOS {
        if question != NPOS {
          SubstrIsBetween(uri, slash + 1, question);
          path := Substr(uri, slash + 1, Wrapped(question - slash - 1));
        } else if hash != NPOS {
          SubstrIsBetween(uri, slash + 1, hash);
          path := Substr(uri, slash + 1, Wrapped(hash - slash - 1));
        } else {
          SubstrIsRest(uri, slash + 1);
          path := Substr(uri, slash + 1, NPOS);
        }
      }
      if question != NPOS {
        if hash != NPOS {
          SubstrIsBetween(uri, question + 1, hash);
          query := Substr(uri, question + 1, Wrapped(hash - question - 1));
        } else {
          SubstrIsRest(uri, question + 1);
          query := Substr(uri, question + 1, NPOS);
        }
      }
      if hash != NPOS {
        SubstrIsRest(uri, hash + 1);
        fragment := Substr(uri, hash + 1, NPOS);
      }
    }

    /** The searches at the head of `parse`. */
    method Locate(schemeDelimiter: nat, ghost p: Positions)
      returns (colon: nat, ampersand: nat, rightbracket: nat, slash: nat, question: nat, hash: nat)
      requires |uri| <= MAX_SIZE && p == PositionsOf(uri) && schemeDelimiter == Find(uri, "://", 0)
      ensures p.base == if schemeDelimiter != NPOS then schemeDelimiter + 3 else 0
      ensures colon == NposOf(p.colon0) && ampersand == NposOf(p.at) && rightbracket == NposOf(p.bracket)
      ensures slash == NposOf(p.slash) && question == NposOf(p.question) && hash == NposOf(p.hash)
    {
      colon := if schemeDelimiter != NPOS then Find(uri, ":", schemeDelimiter + 1) else Find(uri, ":", 0);
      ampersand := Find(uri, "@", 0);
      rightbracket := Find(uri, "]", 0);
      slash := if schemeDelimiter != NPOS then Find(uri, "/", schemeDelimiter + 3) else Find(uri, "/", 0);
      question := Find(uri, "?", 0);
      hash := Find(uri, "#", 0);
    }

    /** `parse`, with the source's npos positions and wrapping counts; `thrown` is std::out_of_range. */
    method Parse(u: string) returns (thrown: bool)
      requires |u| <= MAX_SIZE
      modifies this
      ensures uri == u
      ensures thrown <==> Throws(u)
      ensures !thrown ==> Fields() == Parsed(old(Fields()), u)
    {
      hide Find, IndexOf, Substr, Wrapped, Between, PositionsOf, HasUser, PortColon, HostStart, SchemeOf,
           UserOf, PasswordOf, HostAndPort, PathOf, QueryOf, FragmentOf, Parsed, Throws;
      ghost var p := PositionsOf(u);
      uri := u;
      SchemeAsWritten(u);
      var schemeDelimiter := Find(uri, "://", 0);
      scheme := if schemeDelimiter != NPOS then Substr(uri, 0, schemeDelimiter) else "";
      var colonPosition, ampersandPosition, rightbracketPosition, slashPosition, questionmarkPosition, hashPosition :=
        Locate(schemeDelimiter, p);
      colonPosition := ParseUser(schemeDelimiter, colonPosition, ampersandPosition, p);
      AuthorityAsWritten(u, schemeDelimiter, ampersandPosition, rightbracketPosition, colonPosition);
      if ampersandPosition == NPOS && schemeDelimiter != NPOS {
        ampersandPosition := schemeDelimiter + 2;
      }
      if rightbracketPosition != NPOS {
        colonPosition := Find(uri, ":", rightbracketPosition + 1);
      }
      ParsedInParts(old(Fields()), u);
      thrown := ParseAuthority(colonPosition, slashPosition, ampersandPosition, HostStart(p), PortColon(u, p), p.slash);
      if thrown {
        return;
      }
      ParseTail(slashPosition, questionmarkPosition, hashPosition, p.slash, p.question, p.hash);
    }
  }
}
