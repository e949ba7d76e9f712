/** The handshake interceptor of the STOMP endpoints: where the bearer token
    is looked for (the Authorization header as in section 2.1 of RFC 6750,
    else a `token` query parameter, read from the already percent-decoded query
    string and not named `access_token` as in section 2.3 of RFC 6750), and when the connection is
    accepted. Token checking itself belongs to the JWT service and is a
    parameter here. */
module Handshake {
  import opened Wrappers
  import opened Strings

  /** The two parts of the upgrade request the interceptor reads; None is null.
      The query is the value URI.getQuery() returns, so percent-escapes are
      already decoded ("token=a%3Db" arrives here as "token=a=b"). */
  datatype HandshakeRequest = HandshakeRequest(authorization: Option<string>, query: Option<string>)

  /** jwtService.extractSubject (None when it throws) and isTokenValid (false
      also stands for a throw, which the interceptor turns into a rejection). */
  datatype JwtService = JwtService(extractSubject: string -> Option<string>, isTokenValid: (string, string) -> bool)

  const BearerPrefix := "Bearer "
  const TokenKey := "token"
  const PrincipalKey := "principal"

  // ------------------------------------------------------------ header

  /** The header's token: everything after a case-sensitive "Bearer ". */
  function HeaderToken(authorization: Option<string>): (token: Option<string>)
    ensures token.Some? <==> authorization.Some? && BearerPrefix <= authorization.value
    ensures token.Some? ==> authorization.value == BearerPrefix + token.value
  {
    if authorization.Some? && BearerPrefix <= authorization.value then
      Some(authorization.value[|BearerPrefix|..])
    else None
  }

  // ------------------------------------------------------------- query

  /** The token a single `key=value` pair yields, if it is the token pair. */
  function TokenOfPair(pair: string): (token: Option<string>)
    ensures token.Some? ==> token.value != [] && '=' !in token.value
  {
    var kv := JavaSplit(pair, '=');
    if |kv| == 2 && kv[0] == TokenKey then Some(kv[1]) else None
  }

  /** The first pair that yields a token, as the loop with its break finds it. */
  function FirstToken(pairs: seq<string>): (token: Option<string>)
    ensures token.Some? ==> exists i :: (0 <= i < |pairs| && TokenOfPair(pairs[i]) == token
                                   && forall j :: 0 <= j < i ==> TokenOfPair(pairs[j]).None?)
    ensures token.None? ==> forall i :: 0 <= i < |pairs| ==> TokenOfPair(pairs[i]).None?
  {
    if pairs == [] then None
    else if TokenOfPair(pairs[0]).Some? then TokenOfPair(pairs[0])
    else
      var rest := FirstToken(pairs[1..]);
      assert forall i :: 1 <= i < |pairs| ==> pairs[i] == pairs[1..][i - 1];
      assert rest.Some? ==> exists i :: (0 <= i < |pairs| && TokenOfPair(pairs[i]) == rest
                                        && forall j :: 0 <= j < i ==> TokenOfPair(pairs[j]).None?) by {
        if rest.Some? {
          var i :| 0 <= i < |pairs| - 1 && TokenOfPair(pairs[1..][i]) == rest
            && forall j :: 0 <= j < i ==> TokenOfPair(pairs[1..][j]).None?;
          assert TokenOfPair(pairs[i + 1]) == rest;
        }
      }
      rest
  }

  /** The scan only runs when the query mentions "token=". */
  function QueryToken(query: Option<string>): (token: Option<string>)
    ensures query.None? || !Contains(query.value, "token=") ==> token.None?
    ensures token.Some? ==> token.value != [] && '=' !in token.value
    ensures query.Some? && Contains(query.value, "token=") ==>
              (token.Some? <==> exists i :: 0 <= i < |JavaSplit(query.value, '&')| && TokenOfPair(JavaSplit(query.value, '&')[i]).Some?)
  {
    if query.Some? && Contains(query.value, "token=") then FirstToken(JavaSplit(query.value, '&')) else None
  }

  /** The header wins; the query is consulted only without a bearer header. */
  function ExtractToken(request: HandshakeRequest): (token: Option<string>)
    ensures HeaderToken(request.authorization).Some? ==> token == Some(request.authorization.value[|BearerPrefix|..])
    ensures token.Some? ==>
      ((request.authorization.Some? && request.authorization.value == BearerPrefix + token.value) ||
       (token.value != [] && '=' !in token.value && request.query.Some? && Contains(request.query.value, "token=")))
  {
    if HeaderToken(request.authorization).Some? then HeaderToken(request.authorization)
    else QueryToken(request.query)
  }

  /** The authenticated subject, when the handshake is to be accepted. */
  function Authenticate(request: HandshakeRequest, jwt: JwtService): (subject: Option<string>)
    ensures subject.Some? ==>
      (ExtractToken(request).Some?
       && jwt.extractSubject(ExtractToken(request).value) == subject
       && jwt.isTokenValid(ExtractToken(request).value, subject.value))
  {
    var token := ExtractToken(request);
    if token.None? then None
    else
      var subject := jwt.extractSubject(token.value);
      if subject.Some? && jwt.isTokenValid(token.value, subject.value) then subject else None
  }

  // ------------------------------------------------------- split facts

  /** Splitting at the first separator: the piece before it, then the pieces of the rest. */
  lemma {:induction false} PiecesCons(a: string, rest: string, sep: char)
    requires sep !in a
    ensures Pieces(a + [sep] + rest, sep) == [a] + Pieces(rest, sep)
  {
    var s := a + [sep] + rest;
    if a == [] {
      assert s[0] == sep && s[1..] == rest;
    } else {
      assert s[0] == a[0] && s[1..] == a[1..] + [sep] + rest;
      PiecesCons(a[1..], rest, sep);
      assert [a[0]] + a[1..] == a;
    }
  }

  /** The same for a string without the separator. */
  lemma PiecesSingle(a: string, sep: char)
    requires sep !in a
    ensures Pieces(a, sep) == [a]
  {
  }

  lemma DropTrailingEmptyKeepsLast(parts: seq<string>)
    requires parts != [] && parts[|parts| - 1] != ""
    ensures DropTrailingEmpty(parts) == parts
  {
  }

  // ------------------------------------------------ properties of the scan

  /** "token=" + v yields v exactly when v is non-empty and has no '='. */
  lemma TokenOfSimplePair(v: string)
    requires v != [] && '=' !in v
    ensures TokenOfPair(TokenKey + ['='] + v) == Some(v)
  {
    assert '=' !in TokenKey;
    PiecesCons(TokenKey, v, '=');
    PiecesSingle(v, '=');
    assert '=' in TokenKey + ['='] + v by {
      assert (TokenKey + ['='] + v)[5] == '=';
    }
    DropTrailingEmptyKeepsLast([TokenKey, v]);
  }

  /** Whatever pair yields a token is "token=", the token, then only '=' characters
      (Java's split drops trailing empty strings, so "token=abc=" yields "abc"). */
  lemma TokenPairShape(pair: string)
    requires TokenOfPair(pair).Some?
    ensures var v := TokenOfPair(pair).value;
      pair == TokenKey + "=" + v + Repeat('=', |Pieces(pair, '=')| - 2)
  {
    var kv := JavaSplit(pair, '=');
    assert '=' in pair;
    JavaSplitRoundTrip(pair, '=');
    JoinOfTwo(kv, '=');
    var tail := Repeat('=', |Pieces(pair, '=')| - 2);
    assert pair == kv[0] + ['='] + kv[1] + tail;
    assert kv[0] == TokenKey && kv[1] == TokenOfPair(pair).value;
  }

  lemma JoinOfTwo(parts: seq<string>, sep: char)
    requires |parts| == 2
    ensures Join(parts, sep) == parts[0] + [sep] + parts[1]
  {
    assert parts[1..] == [parts[1]];
  }

  /** "token=" alone yields nothing: its value is the trailing empty string split drops. */
  lemma EmptyTokenPairYieldsNothing()
    ensures TokenOfPair("token=") == None
  {
    PiecesCons(TokenKey, "", '=');
    assert "token=" == TokenKey + ['='] + "";
    assert "token="[5] == '=';
  }

  /** Splitting a + sep + b + sep + c where no part holds the separator. */
  lemma ThreePieces(a: string, b: string, c: string, sep: char)
    requires sep !in a && sep !in b && sep !in c
    ensures Pieces(a + [sep] + b + [sep] + c, sep) == [a, b, c]
  {
    PiecesCons(b, c, sep);
    PiecesCons(a, b + [sep] + c, sep);
    assert a + [sep] + b + [sep] + c == a + [sep] + (b + [sep] + c);
  }

  lemma JavaSplitThree(a: string, b: string, c: string, sep: char)
    requires sep !in a && sep !in b && sep !in c && c != ""
    ensures JavaSplit(a + [sep] + b + [sep] + c, sep) == [a, b, c]
  {
    var s := a + [sep] + b + [sep] + c;
    ThreePieces(a, b, c, sep);
    assert s[|a|] == sep;
    DropTrailingEmptyKeepsLast(Pieces(s, sep));
  }

  /** Contains finds sub at any offset. */
  lemma {:induction false} ContainsAt(s: string, sub: string, k: nat)
    requires k <= |s| && sub <= s[k..]
    ensures Contains(s, sub)
  {
    if k > 0 {
      assert s[1..][k - 1..] == s[k..];
      ContainsAt(s[1..], sub, k - 1);
    }
  }

  /** A pair with two '=' and a non-empty last part splits into three, so it yields nothing. */
  lemma TokenOfThreePartPair(a: string, b: string, c: string)
    requires '=' !in a && '=' !in b && '=' !in c && c != ""
    ensures TokenOfPair(a + ['='] + b + ['='] + c) == None
  {
    JavaSplitThree(a, b, c, '=');
  }

  /** "token=a=b" splits into three parts, so it yields nothing either. */
  lemma TokenWithEqualsYieldsNothing()
    ensures TokenOfPair("token=a=b") == None
  {
    assert "token=a=b" == TokenKey + ['='] + "a" + ['='] + "b";
    assert '=' !in TokenKey;
    TokenOfThreePartPair(TokenKey, "a", "b");
  }

  lemma ExampleQuerySplit(q: string)
    requires q == "x=1&token=abc&token=def"
    ensures JavaSplit(q, '&') == ["x=1", "token=abc", "token=def"]
  {
    assert q == "x=1" + ['&'] + "token=abc" + ['&'] + "token=def";
    JavaSplitThree("x=1", "token=abc", "token=def", '&');
  }

  lemma ExampleQueryMentionsToken(q: string)
    requires q == "x=1&token=abc&token=def"
    ensures Contains(q, "token=")
  {
    assert "token=" <= q[4..];
    ContainsAt(q, "token=", 4);
  }

  lemma OtherKeyYieldsNothing()
    ensures TokenOfPair("x=1") == None
  {
    var pair := "x=1";
    PiecesCons("x", "1", '=');
    assert pair == "x" + ['='] + "1" && pair[1] == '=';
    DropTrailingEmptyKeepsLast(Pieces(pair, '='));
  }

  lemma ExampleTokenPair(pair: string)
    requires pair == "token=abc"
    ensures TokenOfPair(pair) == Some("abc")
  {
    assert pair == TokenKey + ['='] + "abc";
    TokenOfSimplePair("abc");
  }

  /** Of two token pairs the first wins, after skipping other keys. */
  lemma FirstTokenPairWins()
    ensures QueryToken(Some("x=1&token=abc&token=def")) == Some("abc")
  {
    var q := "x=1&token=abc&token=def";
    ExampleQuerySplit(q);
    ExampleQueryMentionsToken(q);
    OtherKeyYieldsNothing();
    ExampleTokenPair("token=abc");
    var pairs := JavaSplit(q, '&');
    assert FirstToken(pairs) == FirstToken(pairs[1..]);
    assert pairs[1..][0] == "token=abc";
  }

  /** An accepted header token is never looked for in the query. */
  lemma HeaderTokenWins(request: HandshakeRequest)
    requires request.authorization.Some? && BearerPrefix <= request.authorization.value
    ensures ExtractToken(request) == Some(request.authorization.value[7..])
    ensures forall q :: ExtractToken(request.(query := q)) == ExtractToken(request)
  {
  }

  /** Without a bearer header the token is the query's. */
  lemma QueryIsTheFallback(request: HandshakeRequest)
    requires request.authorization.None? || !(BearerPrefix <= request.authorization.value)
    ensures ExtractToken(request) == QueryToken(request.query)
  {
  }

  /** No token, no connection; with a token, the connection is accepted exactly
      when the subject is extracted and the token is valid for it. */
  lemma AuthenticateDecision(request: HandshakeRequest, jwt: JwtService)
    ensures ExtractToken(request).None? ==> Authenticate(request, jwt).None?
    ensures Authenticate(request, jwt).Some? <==>
      ExtractToken(request).Some? &&
      jwt.extractSubject(ExtractToken(request).value).Some? &&
      jwt.isTokenValid(ExtractToken(request).value, jwt.extractSubject(ExtractToken(request).value).value)
    ensures Authenticate(request, jwt).Some? ==>
      Authenticate(request, jwt) == jwt.extractSubject(ExtractToken(request).value)
  {
  }

  // ------------------------------------------------------------ objects

  /** A value in the handshake attribute map: the principal the interceptor
      stores, or any other value put there by someone else. */
  datatype Attribute = UserPrincipal(name: string) | OtherAttribute(tag: nat)

  /** The `attributes` map handed to beforeHandshake. */
  class HandshakeAttributes {
    var entries: map<string, Attribute>

    constructor (entries: map<string, Attribute>)
      ensures this.entries == entries
    {
      this.entries := entries;
    }

    method Put(key: string, value: Attribute)
      modifies this
      ensures entries == old(entries)[key := value]
    {
      entries := entries[key := value];
    }
  }

  /** beforeHandshake: extract the token, check it, and on acceptance store the
      principal whose name is the subject. */
  method BeforeHandshake(request: HandshakeRequest, jwt: JwtService, attributes: HandshakeAttributes)
    returns (accepted: bool)
    modifies attributes
    ensures accepted <==> Authenticate(request, jwt).Some?
    ensures accepted ==>
      attributes.entries == old(attributes.entries)[PrincipalKey := UserPrincipal(Authenticate(request, jwt).value)]
    ensures !accepted ==> attributes.entries == old(attributes.entries)
  {
    var token: Option<string> := None;
    var authHeader := request.authorization;
    if authHeader.Some? && BearerPrefix <= authHeader.value {
      token := Some(authHeader.value[7..]);
    } else {
      var query := request.query;
      if query.Some? && Contains(query.value, "token=") {
        var pairs := JavaSplit(query.value, '&');
        var i := 0;
        while i < |pairs|
          invariant 0 <= i <= |pairs|
          invariant token.None?
          invariant FirstToken(pairs[i..]) == FirstToken(pairs)
        {
          var keyValue := JavaSplit(pairs[i], '=');
          if |keyValue| == 2 && keyValue[0] == TokenKey {
            token := Some(keyValue[1]);
            assert token == FirstToken(pairs[i..]);
            break;
          }
          assert pairs[i..][1..] == pairs[i + 1..];
          i := i + 1;
        }
      }
    }
    assert token == ExtractToken(request);

    if token.Some? {
      var email := jwt.extractSubject(token.value);
      if email.None? {
        return false;
      }
      if jwt.isTokenValid(token.value, email.value) {
        attributes.Put(PrincipalKey, UserPrincipal(email.value));
        return true;
      }
    }
    return false;
  }

  // ---------------------------------------------------------- endpoints

  /** One registerStompEndpoints entry: path, allowed origin pattern, whether
      the handshake interceptor is attached, and SockJS fallback. */
  datatype Endpoint = Endpoint(path: string, allowedOrigins: string, guarded: bool, sockJs: bool)

  /** The two endpoints, both behind the same interceptor. */
  function RegisteredEndpoints(): (endpoints: seq<Endpoint>)
    ensures forall e :: e in endpoints ==> e.guarded && e.sockJs
  {
    [Endpoint("/chat", "*", true, true), Endpoint("/notifications", "*", true, true)]
  }

  /** Both /chat and /notifications are registered; neither can be opened without
      passing the interceptor. */
  lemma BothEndpointsGuarded()
    ensures exists e :: e in RegisteredEndpoints() && e.path == "/chat" && e.guarded
    ensures exists e :: e in RegisteredEndpoints() && e.path == "/notifications" && e.guarded
  {
    assert RegisteredEndpoints()[0].path == "/chat";
    assert RegisteredEndpoints()[1].path == "/notifications";
  }
}
