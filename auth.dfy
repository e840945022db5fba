/**
  * The authentication middleware: the bearer token a request carries, the
  * shape check it must pass before its signature is verified, and the
  * claims a login token holds. The JWT library is abstracted: signing
  * yields the claims, and verification (signature and expiry, against the
  * server's secret and clock) is a parameter of `IsAuth`.
  */
module Auth {
  import opened Base
  import opened Text

  /** The payload `generatetoken` signs: the user's id, full name and email, nothing else. */
  datatype TokenPayload = TokenPayload(id: Id, fullName: Option<string>, email: string)

  /** `expiresIn: "1440m"`, counted in the seconds a JWT's `iat` and `exp` use. */
  const TOKEN_LIFETIME: nat := 1440 * 60

  datatype Claims = Claims(payload: TokenPayload, issuedAt: int, expiresAt: int)

  /** A token is accepted while the clock is strictly before its expiry. */
  predicate Unexpired(c: Claims, now: int)
  {
    now < c.expiresAt
  }

  /**
    * `generatetoken`: the claims of a token issued at `now` for a user;
    * it stays valid for exactly one day.
    */
  function GenerateToken(id: Id, fullName: Option<string>, email: string, now: int): (c: Claims)
    ensures c.payload.id == id && c.payload.fullName == fullName && c.payload.email == email
    ensures forall t :: Unexpired(c, t) <==> t < now + 24 * 60 * 60
  {
    Claims(TokenPayload(id, fullName, email), now, now + TOKEN_LIFETIME)
  }

  /** The compact serialisation of a signed token: three segments joined by dots. */
  datatype Jws = Jws(header: string, body: string, signature: string)

  function Compact(j: Jws): string
  {
    j.header + "." + j.body + "." + j.signature
  }

  lemma {:induction false} CountCharAt(s: string, i: nat, c: char)
    requires i < |s| && s[i] == c
    ensures CountChar(s, c) >= 1
  {
    if i > 0 {
      CountCharAt(s[1..], i - 1, c);
    }
  }

  /**
    * The token `isAuth` reads: with a header starting with "Bearer " it is
    * the second space-separated piece, trimmed; a missing header counts
    * as '' and, like any header without that prefix, yields no token.
    */
  function BearerToken(header: Option<string>): (t: Option<string>)
    ensures t.Some? <==> header.Some? && StartsWith(header.value, "Bearer ")
    ensures t.Some? ==> IsTrimmed(t.value) && ' ' !in t.value
  {
    var h := if header.Some? then header.value else "";
    if StartsWith(h, "Bearer ") then
      assert h[6] == ' ';
      CountCharAt(h, 6, ' ');
      var pieces := Split(h, ' ');
      var t := Trim(pieces[1]);
      NotInContained(pieces[1], t, ' ');
      Some(t)
    else None
  }

  /** A character absent from s is absent from every piece of s. */
  lemma NotInContained(s: string, sub: string, c: char)
    requires c !in s && Contains(s, sub)
    ensures c !in sub
  {
    var i :| 0 <= i <= |s| && OccursAt(s, sub, i);
    forall k | 0 <= k < |sub|
      ensures sub[k] != c
    {
      assert sub[k] == s[i + k];
    }
  }

  /**
    * The shape check: a token goes on to verification only when it is
    * non-empty and splits on '.' into exactly three segments, that is when
    * it holds exactly two dots.
    */
  function AcceptedToken(header: Option<string>): (t: Option<string>)
    ensures t.Some? <==>
              BearerToken(header).Some? && BearerToken(header).value != "" &&
              |Split(BearerToken(header).value, '.')| == 3
    ensures t.Some? ==> t == BearerToken(header) && CountChar(t.value, '.') == 2
  {
    var b := BearerToken(header);
    if b.Some? && b.value != "" && |Split(b.value, '.')| == 3 then b else None
  }

  const MALFORMED_MESSAGE := "Token inválido."
  const REJECTED_MESSAGE := "Token inválido o expirado."

  /** The request object the middleware decorates, and how often it passed control on. */
  class Request {
    var user: Option<TokenPayload>
    var nextCalls: nat

    constructor ()
      ensures user.None? && nextCalls == 0
    {
      user := None;
      nextCalls := 0;
    }
  }

  /**
    * `isAuth`: a missing or malformed token is refused with 401 before the
    * signature is looked at; a token `verify` rejects (bad signature or
    * expired) is refused with 401 too. Otherwise the decoded payload becomes
    * the request's user and the next handler runs exactly once.
    */
  method IsAuth(req: Request, header: Option<string>, verify: string -> Option<TokenPayload>)
    returns (r: Result<TokenPayload>)
    modifies req
    ensures AcceptedToken(header).None? ==>
              r == Err(UNAUTHORIZED, MALFORMED_MESSAGE) && unchanged(req)
    ensures AcceptedToken(header).Some? && verify(AcceptedToken(header).value).None? ==>
              r == Err(UNAUTHORIZED, REJECTED_MESSAGE) && unchanged(req)
    ensures AcceptedToken(header).Some? && verify(AcceptedToken(header).value).Some? ==>
              && r == Ok(verify(AcceptedToken(header).value).value)
              && req.user == Some(r.value) && req.nextCalls == old(req.nextCalls) + 1
  {
    var token := AcceptedToken(header);
    if token.None? {
      return Err(UNAUTHORIZED, MALFORMED_MESSAGE);
    }
    var decoded := verify(token.value);
    if decoded.None? {
      return Err(UNAUTHORIZED, REJECTED_MESSAGE);
    }
    req.user := decoded;
    req.nextCalls := req.nextCalls + 1;
    r := Ok(decoded.value);
  }

  /** A token without white space sent as "Bearer <token>" is read back whole. */
  lemma BearerRoundTrip(t: string)
    requires NoWhitespace(t)
    ensures BearerToken(Some("Bearer " + t)) == Some(t)
  {
    assert ' ' !in t by {
      forall k | 0 <= k < |t|
        ensures t[k] != ' '
      {
        assert !IsWhitespace(t[k]);
      }
    }
    SplitAfterPiece("Bearer", t, ' ');
    SplitWithout(t, ' ');
    assert "Bearer " + t == "Bearer" + [' '] + t;
  }

  lemma CompactHasThreeSegments(j: Jws)
    requires '.' !in j.header && '.' !in j.body && '.' !in j.signature
    ensures Split(Compact(j), '.') == [j.header, j.body, j.signature]
  {
    var pieces := [j.header, j.body, j.signature];
    SplitJoin(pieces, '.');
    assert pieces[1..] == [j.body, j.signature];
    assert [j.body, j.signature][1..] == [j.signature];
    assert Join([j.body, j.signature], '.') == j.body + ['.'] + j.signature;
    assert Join(pieces, '.') == j.header + ['.'] + (j.body + ['.'] + j.signature);
    assert Compact(j) == j.header + ['.'] + (j.body + ['.'] + j.signature);
  }

  lemma CompactHasNoWhitespace(j: Jws)
    requires NoWhitespace(j.header) && NoWhitespace(j.body) && NoWhitespace(j.signature)
    ensures NoWhitespace(Compact(j))
  {
    var t := Compact(j);
    forall k | 0 <= k < |t|
      ensures !IsWhitespace(t[k])
    {
      if k < |j.header| {
        assert t[k] == j.header[k];
      } else if k == |j.header| || k == |j.header| + 1 + |j.body| {
        assert t[k] == '.';
      } else if k < |j.header| + 1 + |j.body| {
        assert t[k] == j.body[k - |j.header| - 1];
      } else {
        assert t[k] == j.signature[k - |j.header| - |j.body| - 2];
      }
    }
  }

  /**
    * A signed token whose segments hold neither white space nor dots,
    * sent as "Bearer <token>", reaches verification unchanged.
    */
  lemma SignedTokenAccepted(j: Jws)
    requires NoWhitespace(j.header) && NoWhitespace(j.body) && NoWhitespace(j.signature)
    requires '.' !in j.header && '.' !in j.body && '.' !in j.signature
    ensures AcceptedToken(Some("Bearer " + Compact(j))) == Some(Compact(j))
  {
    CompactHasNoWhitespace(j);
    BearerRoundTrip(Compact(j));
    CompactHasThreeSegments(j);
  }

  /** Two spaces after "Bearer" leave an empty second piece: the request is refused as malformed. */
  lemma DoubleSpaceRefused(rest: string)
    ensures AcceptedToken(Some("Bearer  " + rest)) == None
  {
    var h := "Bearer  " + rest;
    assert h == "Bearer" + [' '] + ([' '] + rest);
    SplitAfterPiece("Bearer", [' '] + rest, ' ');
    assert [' '] + rest == [] + [' '] + rest;
    SplitAfterPiece([], rest, ' ');
    assert Split(h, ' ')[1] == [];
  }
}
