/**
 * The decision taken by the Zitadel authentication middleware.
 *
 * The middleware reads the Authorization header, checks its shape, hands
 * the token to a JWT verifier, requires a subject, asks the identity
 * provider's userinfo endpoint for a profile and derives an email and a
 * display name from whatever is there.  Here the verifier and the userinfo
 * call are parameters (functions of the token), and the effect on the
 * request (a 401 response, or `req.user` set and `next()` called once)
 * is the returned `AuthDecision`.
 *
 * Claim values are optional strings.  JavaScript's `||` treats a missing
 * value and the empty string alike, which `Truthy` captures.
 */
module Auth {
  import opened Common

  /** The claims of a verified JWT that the middleware looks at. */
  datatype Claims = Claims(
    sub: Option<string>,
    email: Option<string>,
    preferredUsername: Option<string>,
    username: Option<string>,
    name: Option<string>,
    givenName: Option<string>)

  /** The fields of a userinfo response that the middleware looks at. */
  datatype Profile = Profile(
    email: Option<string>,
    preferredUsername: Option<string>,
    name: Option<string>,
    givenName: Option<string>)

  /** What the JWT verifier says about a token: its payload, or a thrown error. */
  datatype Verification = Verified(payload: Claims) | Failed

  /** `req.user` after a successful authentication. */
  datatype Identity = Identity(id: string, email: string, name: string, payload: Claims)

  /** The four ways the middleware turns a request away. */
  datatype AuthError = MissingToken | MalformedHeader | InvalidToken | MissingSubject
  {
    /** Every rejection is 401 Unauthorized. */
    function Status(): (s: nat)
      ensures 400 <= s < 500
    {
      401
    }

    /** The `error` member of every rejection body. */
    function Error(): string
    {
      "Unauthorized"
    }

    /** The `message` member of the rejection body: one text per kind. */
    function Message(): (m: string)
      ensures m != ""
      ensures this == MissingToken <==> m == "Authentication token not provided"
      ensures this == InvalidToken <==> m == "Invalid or expired token"
    {
      match this
      case MissingToken => "Authentication token not provided"
      case MalformedHeader => "Invalid token format. Use: Authorization: Bearer <token>"
      case InvalidToken => "Invalid or expired token"
      case MissingSubject => "Token does not contain user information"
    }
  }

  /** The message tells the kinds of rejection apart: no two kinds share one. */
  lemma MessagesDistinct(e: AuthError, e': AuthError)
    requires e.Message() == e'.Message()
    ensures e == e'
  {
  }

  /**
   * The outcome of a middleware: a rejection response, or a call of
   * `next()` with `req.user` set (to `None` only when optional
   * authentication lets an anonymous request through).
   */
  datatype AuthDecision = Reject(error: AuthError) | Proceed(user: Option<Identity>)

  // ---------------------------------------------------------------------
  // JavaScript truthiness and `||`
  // ---------------------------------------------------------------------

  /** A string value is truthy when it is present and not empty. */
  predicate Truthy(o: Option<string>)
    ensures o.None? ==> !Truthy(o)
    ensures o == Some("") ==> !Truthy(o)
    ensures o.Some? && o.value != "" ==> Truthy(o)
  {
    o.Some? && o.value != ""
  }

  /** `a || b` where `b` is a string: `a` when it is truthy, otherwise `b`. */
  function Or(a: Option<string>, b: string): (r: string)
    ensures Truthy(a) ==> r == a.value
    ensures !Truthy(a) ==> r == b
    ensures r != "" <==> Truthy(a) || b != ""
  {
    if Truthy(a) then a.value else b
  }

  // ---------------------------------------------------------------------
  // The header grammar: `authHeader.split(' ')`
  // ---------------------------------------------------------------------

  /** The inverse of `split(' ')`: the parts with one space between each two. */
  function JoinWithSpace(parts: seq<string>): string
    requires |parts| >= 1
  {
    if |parts| == 1 then parts[0] else parts[0] + " " + JoinWithSpace(parts[1..])
  }

  /**
   * `s.split(' ')`: the pieces between single spaces, so that two spaces
   * in a row give an empty piece and a string without spaces is one piece.
   */
  function SplitOnSpace(s: string): (parts: seq<string>)
    ensures |parts| >= 1
    ensures forall i :: 0 <= i < |parts| ==> ' ' !in parts[i]
    ensures JoinWithSpace(parts) == s
  {
    if s == [] then
      [""]
    else
      var rest := SplitOnSpace(s[1..]);
      if s[0] == ' ' then
        assert s == " " + s[1..];
        [""] + rest
      else
        var parts := [[s[0]] + rest[0]] + rest[1..];
        assert parts[1..] == rest[1..];
        if |rest| == 1 then
          assert s == [s[0]] + s[1..];
          parts
        else
          assert JoinWithSpace(rest) == rest[0] + " " + JoinWithSpace(rest[1..]);
          assert s == [s[0]] + s[1..];
          assert JoinWithSpace(parts) == ([s[0]] + rest[0]) + " " + JoinWithSpace(rest[1..]);
          assert ([s[0]] + rest[0]) + " " + JoinWithSpace(rest[1..])
              == [s[0]] + (rest[0] + " " + JoinWithSpace(rest[1..]));
          parts
  }

  /** A word without spaces followed by a space splits off as the first piece. */
  lemma {:induction false} SplitAfterWord(w: string, t: string)
    requires ' ' !in w
    ensures SplitOnSpace(w + " " + t) == [w] + SplitOnSpace(t)
    ensures SplitOnSpace(w) == [w]
  {
    if w != [] {
      assert w[0] in w;
      assert (w + " " + t)[1..] == w[1..] + " " + t;
      assert forall c :: c in w[1..] ==> c in w;
      SplitAfterWord(w[1..], t);
      assert [w[0]] + w[1..] == w;
    } else {
      assert w + " " + t == " " + t;
      assert (" " + t)[1..] == t;
    }
  }

  /** Splitting undoes joining: `split(' ')` recovers any parts free of spaces. */
  lemma {:induction false} SplitJoin(parts: seq<string>)
    requires |parts| >= 1
    requires forall i :: 0 <= i < |parts| ==> ' ' !in parts[i]
    ensures SplitOnSpace(JoinWithSpace(parts)) == parts
  {
    if |parts| == 1 {
      SplitAfterWord(parts[0], "");
    } else {
      assert forall i :: 0 <= i < |parts[1..]| ==> parts[1..][i] == parts[i + 1];
      SplitJoin(parts[1..]);
      SplitAfterWord(parts[0], JoinWithSpace(parts[1..]));
      assert parts == [parts[0]] + parts[1..];
    }
  }

  /**
   * The token of an `Authorization` header: the second of exactly two
   * pieces, the first of which is exactly `Bearer`.
   */
  function BearerToken(header: string): (r: Option<string>)
    ensures r.Some? ==> header == "Bearer " + r.value && ' ' !in r.value
  {
    var parts := SplitOnSpace(header);
    if |parts| == 2 && parts[0] == "Bearer" then
      assert JoinWithSpace(parts[1..]) == parts[1];
      Some(parts[1])
    else
      None
  }

  /** Every `Bearer <token>` with a token free of spaces is accepted, with that token. */
  lemma BearerTokenAccepts(token: string)
    requires ' ' !in token
    ensures BearerToken("Bearer " + token) == Some(token)
  {
    SplitJoin(["Bearer", token]);
    assert JoinWithSpace(["Bearer", token]) == "Bearer " + token;
  }

  /** Case matters: `bearer x` is refused. */
  lemma LowerCaseSchemeRejected()
    ensures BearerToken("bearer x") == None
  {
    SplitJoin(["bearer", "x"]);
    assert JoinWithSpace(["bearer", "x"]) == "bearer x";
  }

  /** A doubled space makes three pieces: `Bearer  x` is refused. */
  lemma DoubleSpaceRejected()
    ensures BearerToken("Bearer  x") == None
  {
    SplitJoin(["Bearer", "", "x"]);
    assert JoinWithSpace(["Bearer", "", "x"]) == "Bearer  x";
  }

  /** The scheme alone is one piece: `Bearer` is refused. */
  lemma SchemeAloneRejected()
    ensures BearerToken("Bearer") == None
  {
    SplitJoin(["Bearer"]);
  }

  /** A trailing space makes an empty second piece: `Bearer ` hands the empty token on. */
  lemma EmptyTokenAccepted()
    ensures BearerToken("Bearer ") == Some("")
  {
    BearerTokenAccepts("");
    assert "Bearer " + "" == "Bearer ";
  }

  // ---------------------------------------------------------------------
  // Email and name
  // ---------------------------------------------------------------------

  /**
   * The email on `req.user`: from the userinfo profile when there is one
   * (`email`, then `preferred_username`), otherwise from the token
   * (`email`, `preferred_username`, `username`), and `user-<sub>` last.
   */
  function ResolveEmail(sub: string, info: Option<Profile>, payload: Claims): (email: string)
    ensures email != ""
    ensures info.Some? && Truthy(info.value.email) ==> email == info.value.email.value
    ensures info.Some? && !Truthy(info.value.email) && Truthy(info.value.preferredUsername) ==>
              email == info.value.preferredUsername.value
    ensures info.Some? && !Truthy(info.value.email) && !Truthy(info.value.preferredUsername) ==>
              email == "user-" + sub
    ensures info.None? && Truthy(payload.email) ==> email == payload.email.value
    ensures info.None? && !Truthy(payload.email) && Truthy(payload.preferredUsername) ==>
              email == payload.preferredUsername.value
    ensures info.None? && !Truthy(payload.email) && !Truthy(payload.preferredUsername) && Truthy(payload.username) ==>
              email == payload.username.value
    ensures info.None? && !Truthy(payload.email) && !Truthy(payload.preferredUsername) && !Truthy(payload.username) ==>
              email == "user-" + sub
  {
    match info
    case Some(p) => Or(p.email, Or(p.preferredUsername, "user-" + sub))
    case None => Or(payload.email, Or(payload.preferredUsername, Or(payload.username, "user-" + sub)))
  }

  /**
   * The name on `req.user`: `name`, then `given_name`, then
   * `preferred_username` of the profile when there is one, otherwise of
   * the token, and `User` last.
   */
  function ResolveName(info: Option<Profile>, payload: Claims): (name: string)
    ensures name != ""
    ensures info.Some? && Truthy(info.value.name) ==> name == info.value.name.value
    ensures info.Some? && !Truthy(info.value.name) && Truthy(info.value.givenName) ==>
              name == info.value.givenName.value
    ensures info.Some? && !Truthy(info.value.name) && !Truthy(info.value.givenName) && Truthy(info.value.preferredUsername) ==>
              name == info.value.preferredUsername.value
    ensures info.Some? && !Truthy(info.value.name) && !Truthy(info.value.givenName) && !Truthy(info.value.preferredUsername) ==>
              name == "User"
    ensures info.None? && Truthy(payload.name) ==> name == payload.name.value
    ensures info.None? && !Truthy(payload.name) && Truthy(payload.givenName) ==>
              name == payload.givenName.value
    ensures info.None? && !Truthy(payload.name) && !Truthy(payload.givenName) && Truthy(payload.preferredUsername) ==>
              name == payload.preferredUsername.value
    ensures info.None? && !Truthy(payload.name) && !Truthy(payload.givenName) && !Truthy(payload.preferredUsername) ==>
              name == "User"
  {
    match info
    case Some(p) => Or(p.name, Or(p.givenName, Or(p.preferredUsername, "User")))
    case None => Or(payload.name, Or(payload.givenName, Or(payload.preferredUsername, "User")))
  }

  /** A profile present but empty falls through to the placeholders; the token's claims are not consulted. */
  lemma EmptyProfileIgnoresToken(sub: string, payload: Claims)
    ensures ResolveEmail(sub, Some(Profile(None, None, None, None)), payload) == "user-" + sub
    ensures ResolveName(Some(Profile(None, None, None, None)), payload) == "User"
  {
  }

  /** An empty string and an absent value are the same to every fallback chain. */
  lemma EmptyStringIsAbsent(sub: string, p: Profile, payload: Claims)
    ensures ResolveEmail(sub, Some(p.(email := Some(""))), payload) == ResolveEmail(sub, Some(p.(email := None)), payload)
    ensures ResolveName(Some(p.(name := Some(""))), payload) == ResolveName(Some(p.(name := None)), payload)
    ensures ResolveEmail(sub, None, payload.(email := Some(""))) == ResolveEmail(sub, None, payload.(email := None))
    ensures ResolveName(None, payload.(name := Some(""))) == ResolveName(None, payload.(name := None))
  {
  }

  // ---------------------------------------------------------------------
  // The middlewares
  // ---------------------------------------------------------------------

  /**
   * `authenticateZitadel`.  `verify` stands for the JWT check against the
   * issuer's keys, `fetchProfile` for the userinfo request (`None` when it
   * fails).  A `Proceed` result is the single call of `next()`.
   */
  function Authenticate(header: Option<string>, verify: string -> Verification,
                        fetchProfile: string -> Option<Profile>): (d: AuthDecision)
    ensures d.Proceed? <==>
              && Truthy(header)
              && BearerToken(header.value).Some?
              && verify(BearerToken(header.value).value).Verified?
              && Truthy(verify(BearerToken(header.value).value).payload.sub)
    ensures d.Proceed? ==>
              && d.user.Some?
              && verify(BearerToken(header.value).value) == Verified(d.user.value.payload)
              && Some(d.user.value.id) == d.user.value.payload.sub
              && d.user.value.id != ""
              && d.user.value.email != ""
              && d.user.value.name != ""
  {
    if !Truthy(header) then
      Reject(MissingToken)
    else
      match BearerToken(header.value)
      case None => Reject(MalformedHeader)
      case Some(token) =>
        match verify(token)
        case Failed => Reject(InvalidToken)
        case Verified(payload) =>
          if !Truthy(payload.sub) then
            Reject(MissingSubject)
          else
            var userId := payload.sub.value;
            var info := fetchProfile(token);
            Proceed(Some(Identity(userId, ResolveEmail(userId, info, payload), ResolveName(info, payload), payload)))
  }

  /** A missing or empty header is refused before the verifier or the userinfo endpoint is asked anything. */
  lemma MissingHeaderRejected(header: Option<string>, verify: string -> Verification, fetchProfile: string -> Option<Profile>,
                              verify': string -> Verification, fetchProfile': string -> Option<Profile>)
    requires header == None || header == Some("")
    ensures Authenticate(header, verify, fetchProfile) == Reject(MissingToken)
    ensures Authenticate(header, verify, fetchProfile) == Authenticate(header, verify', fetchProfile')
  {
  }

  /** A header that is not `Bearer <token>` is refused before the verifier is asked anything. */
  lemma MalformedHeaderRejected(header: string, verify: string -> Verification, fetchProfile: string -> Option<Profile>,
                                verify': string -> Verification, fetchProfile': string -> Option<Profile>)
    requires header != "" && BearerToken(header).None?
    ensures Authenticate(Some(header), verify, fetchProfile) == Reject(MalformedHeader)
    ensures Authenticate(Some(header), verify, fetchProfile) == Authenticate(Some(header), verify', fetchProfile')
  {
  }

  /** Every verifier failure gives the same 401, whatever userinfo would have said. */
  lemma VerifierFailureRejected(token: string, verify: string -> Verification,
                                fetchProfile: string -> Option<Profile>, fetchProfile': string -> Option<Profile>)
    requires ' ' !in token && verify(token) == Failed
    ensures Authenticate(Some("Bearer " + token), verify, fetchProfile) == Reject(InvalidToken)
    ensures Authenticate(Some("Bearer " + token), verify, fetchProfile) == Authenticate(Some("Bearer " + token), verify, fetchProfile')
  {
    BearerTokenAccepts(token);
  }

  /** A verified token without a usable `sub` is refused, whatever userinfo would have said. */
  lemma MissingSubjectRejected(token: string, payload: Claims, verify: string -> Verification,
                               fetchProfile: string -> Option<Profile>, fetchProfile': string -> Option<Profile>)
    requires ' ' !in token && verify(token) == Verified(payload) && !Truthy(payload.sub)
    ensures Authenticate(Some("Bearer " + token), verify, fetchProfile) == Reject(MissingSubject)
    ensures Authenticate(Some("Bearer " + token), verify, fetchProfile) == Authenticate(Some("Bearer " + token), verify, fetchProfile')
  {
    BearerTokenAccepts(token);
  }

  /** A well-formed header with a verified token that names a subject yields that subject, with the profile's email and name. */
  lemma AcceptedIdentity(token: string, payload: Claims, verify: string -> Verification,
                         fetchProfile: string -> Option<Profile>)
    requires ' ' !in token && verify(token) == Verified(payload) && Truthy(payload.sub)
    ensures Authenticate(Some("Bearer " + token), verify, fetchProfile)
         == Proceed(Some(Identity(payload.sub.value,
                                  ResolveEmail(payload.sub.value, fetchProfile(token), payload),
                                  ResolveName(fetchProfile(token), payload),
                                  payload)))
  {
    BearerTokenAccepts(token);
    assert "Bearer " + token != "";
  }

  /**
   * `optionalAuth`: no header lets the request through as anonymous;
   * any header is handled exactly as by `authenticateZitadel`.
   */
  function OptionalAuth(header: Option<string>, verify: string -> Verification,
                        fetchProfile: string -> Option<Profile>): (d: AuthDecision)
    ensures !Truthy(header) ==> d == Proceed(None)
    ensures Truthy(header) ==> d == Authenticate(header, verify, fetchProfile)
    ensures d.Reject? ==> d.error != MissingToken
  {
    if !Truthy(header) then Proceed(None) else Authenticate(header, verify, fetchProfile)
  }
}
