/**
 * The request guards: `authenticate` turns an `Authorization: Bearer <token>`
 * header into the request's identity, taken from the token's claims alone,
 * and `isAdmin` lets a request through only when that identity is an admin.
 * Neither reads or changes the users table.
 */
module AuthMiddleware {
  import opened Wrappers
  import opened Http
  import opened Libraries

  const BearerPrefix := "Bearer "
  const NoToken := "No token provided"
  const BadToken := "Invalid or expired token"
  const AdminRequired := "Admin access required"

  /** The secret tokens are signed and verified with: `JWT_SECRET`, or a fixed fallback when unset or empty. */
  function SigningSecret(env: Option<string>): (secret: string)
    ensures secret != ""
    ensures Truthy(env) ==> secret == env.value
  {
    if Truthy(env) then env.value else "your_jwt_secret"
  }

  /** `req.user`: who the request is from, as far as the token says. */
  datatype Identity = Identity(id: Option<string>, isAdmin: Option<bool>, email: Option<string>, username: Option<string>)

  /** `authenticate` either hands an identity to the next handler or answers the request itself. */
  datatype AuthResult = Authenticated(user: Identity) | Rejected(status: int, message: string)

  /** `isAdmin` either lets the request through or answers it. */
  datatype Gate = Pass | Denied(status: int, message: string)

  predicate StartsWith(s: string, prefix: string) {
    |prefix| <= |s| && s[..|prefix|] == prefix
  }

  function CountSpaces(s: string): nat {
    if s == [] then 0 else (if s[0] == ' ' then 1 else 0) + CountSpaces(s[1..])
  }

  /** JavaScript's `s.split(' ')`. */
  function Split(s: string): (parts: seq<string>)
    ensures |parts| == CountSpaces(s) + 1
    ensures forall i | 0 <= i < |parts| :: ' ' !in parts[i]
  {
    if s == [] then [""]
    else if s[0] == ' ' then [""] + Split(s[1..])
    else
      var rest := Split(s[1..]);
      [[s[0]] + rest[0]] + rest[1..]
  }

  /** `parts.join(' ')`. */
  function Join(parts: seq<string>): string {
    if parts == [] then ""
    else if |parts| == 1 then parts[0]
    else parts[0] + " " + Join(parts[1..])
  }

  /** Splitting loses nothing: joining the parts back gives the header. */
  lemma {:induction false} JoinSplit(s: string)
    ensures Join(Split(s)) == s
  {
    if s != [] {
      JoinSplit(s[1..]);
      var rest := Split(s[1..]);
      if s[0] == ' ' {
        assert Split(s) == [""] + rest;
        assert ([""] + rest)[1..] == rest;
        assert Join(Split(s)) == "" + " " + Join(rest);
        assert s == [' '] + s[1..];
      } else {
        var parts := [[s[0]] + rest[0]] + rest[1..];
        assert Split(s) == parts;
        if |rest| == 1 {
          assert Join(rest) == rest[0];
          assert Join(parts) == [s[0]] + rest[0];
        } else {
          assert parts[1..] == rest[1..];
          assert Join(rest) == rest[0] + " " + Join(rest[1..]);
          assert Join(parts) == [s[0]] + rest[0] + " " + Join(rest[1..]);
        }
        assert s == [s[0]] + s[1..];
      }
    }
  }

  /** The longest prefix of `s` without a space. */
  function FirstSegment(s: string): (w: string)
    ensures ' ' !in w
    ensures StartsWith(s, w)
    ensures |w| < |s| ==> s[|w|] == ' '
  {
    if s == [] || s[0] == ' ' then [] else [s[0]] + FirstSegment(s[1..])
  }

  /** A space-free text is its own first segment. */
  lemma FirstSegmentNoSpace(s: string)
    requires ' ' !in s
    ensures FirstSegment(s) == s
  {
  }

  lemma {:induction false} SplitHead(s: string)
    ensures Split(s)[0] == FirstSegment(s)
  {
    if s != [] && s[0] != ' ' {
      SplitHead(s[1..]);
    }
  }

  lemma {:induction false} SplitAfterWord(w: string, rest: string)
    requires ' ' !in w
    ensures Split(w + " " + rest) == [w] + Split(rest)
  {
    var s := w + " " + rest;
    if w == [] {
      assert s == [' '] + rest;
      assert s[1..] == rest;
    } else {
      assert s[0] == w[0];
      assert s[1..] == w[1..] + " " + rest;
      SplitAfterWord(w[1..], rest);
      assert [w[0]] + w[1..] == w;
    }
  }

  /**
   * `authHeader.split(' ')[1]` on a header that starts with "Bearer " exists,
   * and is the text after the prefix up to the next space.
   */
  lemma BearerToken(header: string)
    requires StartsWith(header, BearerPrefix)
    ensures |Split(header)| >= 2
    ensures Split(header)[1] == FirstSegment(header[|BearerPrefix|..])
  {
    var rest := header[|BearerPrefix|..];
    assert header == "Bearer" + " " + rest;
    SplitAfterWord("Bearer", rest);
    SplitHead(rest);
  }

  /** `req.user` as built from the decoded claims: `id` falls back to `_id` when falsy. */
  function IdentityOf(c: Claims): Identity {
    Identity(if Truthy(c.id) then c.id else c.mongoId, c.isAdmin, c.email, c.username)
  }

  /** What `authenticate` decides for a request with the given `Authorization` header at time `now`. */
  function Authentication(header: Option<string>, env: Option<string>, jwt: Jwt, now: nat): (r: AuthResult)
    ensures r.Rejected? ==> r.status == StatusUnauthorized
    ensures header.None? || !StartsWith(header.value, BearerPrefix) ==> r == Rejected(StatusUnauthorized, NoToken)
    ensures header.Some? && StartsWith(header.value, BearerPrefix) ==>
      var claims := jwt.verify(FirstSegment(header.value[|BearerPrefix|..]), SigningSecret(env), now);
      && (claims.None? ==> r == Rejected(StatusUnauthorized, BadToken))
      && (claims.Some? ==>
            && r.Authenticated?
            && r.user.isAdmin == claims.value.isAdmin
            && r.user.email == claims.value.email
            && r.user.username == claims.value.username
            && r.user.id == (if Truthy(claims.value.id) then claims.value.id else claims.value.mongoId))
  {
    if header.None? || !StartsWith(header.value, BearerPrefix) then
      Rejected(StatusUnauthorized, NoToken)
    else
      BearerToken(header.value);
      var token := Split(header.value)[1];
      match jwt.verify(token, SigningSecret(env), now)
      case None => Rejected(StatusUnauthorized, BadToken)
      case Some(decoded) => Authenticated(IdentityOf(decoded))
  }

  /** `isAdmin`: passes exactly when there is an identity and its `isAdmin` is true. */
  function IsAdmin(user: Option<Identity>): (g: Gate)
    ensures g.Pass? <==> user.Some? && user.value.isAdmin == Some(true)
    ensures g.Denied? ==> g == Denied(StatusForbidden, AdminRequired)
  {
    if user.Some? && user.value.isAdmin == Some(true) then Pass else Denied(StatusForbidden, AdminRequired)
  }

  /** The parts of an Express request the guards look at. */
  class Request {
    const authorization: Option<string>
    var user: Option<Identity>

    constructor (authorization: Option<string>)
      ensures this.authorization == authorization && user == None
    {
      this.authorization := authorization;
      user := None;
    }

    /**
     * `authenticate`: on success sets `req.user` and goes on to the next
     * handler; otherwise answers 401 and leaves `req.user` alone.
     */
    method Authenticate(env: Option<string>, jwt: Jwt, now: nat) returns (r: AuthResult)
      modifies this`user
      ensures r == Authentication(authorization, env, jwt, now)
      ensures r.Authenticated? ==> user == Some(r.user)
      ensures r.Rejected? ==> user == old(user)
    {
      r := Authentication(authorization, env, jwt, now);
      if r.Authenticated? {
        user := Some(r.user);
      }
    }
  }
}
