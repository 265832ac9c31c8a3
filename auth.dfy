/**
 * The bearer-token middleware that guards every check-in route. Token signature
 * verification is a foreign library; it enters the model as an arbitrary total function
 * from token text to an optional decoded payload (None when verification throws).
 */
module Auth {
  import opened Wrappers
  import opened JsValues

  /** A decoded token payload: property name to value; a missing name reads as `undefined`. */
  type Payload = map<string, JsValue>

  /** What the middleware stores as `req.user`. */
  datatype AuthUser = AuthUser(userId: JsValue, name: JsValue)

  /** Either a 401 response (and `next` is not called) or one call of `next` with `req.user` set. */
  datatype AuthOutcome = Unauthorized(msg: string) | Next(user: AuthUser)

  const BearerPrefix: string := "Bearer "
  const InvalidTokenMsg: string := "Unauthorized. Please add valid token"
  const InvalidPayloadMsg: string := "Unauthorized. Invalid token payload"

  /** Payload keys tried, in order, for the user id and for the display name. */
  const UserIdKeys: seq<string> := ["id", "userId", "_id"]
  const NameKeys: seq<string> := ["name", "username", "email"]

  /** Property access on a decoded payload. */
  function Prop(p: Payload, key: string): JsValue {
    if key in p then p[key] else Undefined
  }

  /** The values of `keys` in `p`, in order. */
  function Props(p: Payload, keys: seq<string>): (vs: seq<JsValue>)
    ensures |vs| == |keys|
    ensures forall i :: 0 <= i < |keys| ==> vs[i] == Prop(p, keys[i])
  {
    seq(|keys|, i requires 0 <= i < |keys| => Prop(p, keys[i]))
  }

  /** `s.startsWith(prefix)`. */
  predicate StartsWith(s: string, prefix: string) {
    |prefix| <= |s| && s[..|prefix|] == prefix
  }

  /** `s.split(' ')`: the maximal space-free segments, including empty ones. */
  function SplitOnSpace(s: string): (parts: seq<string>)
    ensures |parts| >= 1
    ensures forall i :: 0 <= i < |parts| ==> ' ' !in parts[i]
    ensures |parts| >= 2 <==> ' ' in s
  {
    if |s| == 0 then [""]
    else if s[0] == ' ' then [""] + SplitOnSpace(s[1..])
    else
      var rest := SplitOnSpace(s[1..]);
      assert s == [s[0]] + s[1..];
      [[s[0]] + rest[0]] + rest[1..]
  }

  /** The segments joined back with single spaces (`parts.join(' ')`). */
  function JoinWithSpace(parts: seq<string>): string
    requires |parts| >= 1
  {
    if |parts| == 1 then parts[0] else parts[0] + " " + JoinWithSpace(parts[1..])
  }

  /** Splitting loses nothing: joining the segments gives the header back. */
  lemma {:induction false} SplitJoinRoundTrip(s: string)
    ensures JoinWithSpace(SplitOnSpace(s)) == s
  {
    if |s| == 0 {
    } else if s[0] == ' ' {
      SplitJoinRoundTrip(s[1..]);
      assert s == " " + s[1..];
    } else {
      var rest := SplitOnSpace(s[1..]);
      SplitJoinRoundTrip(s[1..]);
      var parts := [[s[0]] + rest[0]] + rest[1..];
      assert parts[1..] == rest[1..];
      if |rest| == 1 {
        assert JoinWithSpace(parts) == [s[0]] + rest[0];
      } else {
        assert JoinWithSpace(rest) == rest[0] + " " + JoinWithSpace(rest[1..]);
        assert JoinWithSpace(parts) == ([s[0]] + rest[0]) + " " + JoinWithSpace(rest[1..]);
      }
      assert s == [s[0]] + s[1..];
    }
  }

  /** A space-free word followed by a space splits into that word and the split of the rest. */
  lemma {:induction false} SplitAfterWord(w: string, rest: string)
    requires ' ' !in w
    ensures SplitOnSpace(w + " " + rest) == [w] + SplitOnSpace(rest)
  {
    if |w| == 0 {
      assert w + " " + rest == " " + rest;
      assert (" " + rest)[1..] == rest;
    } else {
      var s := w + " " + rest;
      assert s[0] == w[0];
      assert s[1..] == w[1..] + " " + rest;
      SplitAfterWord(w[1..], rest);
      assert [w[0]] + w[1..] == w;
    }
  }

  /** A space-free string is one segment. */
  lemma {:induction false} SplitNoSpace(t: string)
    requires ' ' !in t
    ensures SplitOnSpace(t) == [t]
  {
    if |t| > 0 {
      SplitNoSpace(t[1..]);
      assert [t[0]] + t[1..] == t;
    }
  }

  /** `authHeader.split(' ')[1]`, the second segment of a header that contains a space. */
  function TokenOf(header: string): (token: string)
    requires ' ' in header
    ensures ' ' !in token
  {
    SplitOnSpace(header)[1]
  }

  /** A well-formed header `Bearer <token>` yields exactly its token. */
  lemma BearerTokenExtracted(token: string)
    requires ' ' !in token
    ensures ' ' in BearerPrefix + token
    ensures TokenOf(BearerPrefix + token) == token
  {
    assert BearerPrefix + token == "Bearer" + " " + token;
    SplitAfterWord("Bearer", token);
    SplitNoSpace(token);
  }

  /** The payload that verification yields for a header, or None when the middleware rejects it before that. */
  function Decoded(authorization: Option<string>, verify: string -> Option<Payload>): (d: Option<Payload>)
    ensures d.Some? ==> authorization.Some? && StartsWith(authorization.value, BearerPrefix)
    ensures authorization.Some? && StartsWith(authorization.value, BearerPrefix) ==>
      authorization.value[6] == ' ' && d == verify(TokenOf(authorization.value))
  {
    if authorization.None? || !StartsWith(authorization.value, BearerPrefix) then None
    else
      assert authorization.value[6] == ' ';
      verify(TokenOf(authorization.value))
  }

  /** The middleware: header check, token extraction, verification, then the id and name fallbacks. */
  function Authenticate(authorization: Option<string>, verify: string -> Option<Payload>): (r: AuthOutcome)
    ensures authorization.None? ==> r == Unauthorized(InvalidTokenMsg)
    ensures authorization.Some? && !StartsWith(authorization.value, BearerPrefix) ==> r == Unauthorized(InvalidTokenMsg)
    ensures r == Unauthorized(InvalidTokenMsg) <==> Decoded(authorization, verify).None?
    ensures r == Unauthorized(InvalidPayloadMsg) <==>
      Decoded(authorization, verify).Some? &&
      forall i :: 0 <= i < |UserIdKeys| ==> !Truthy(Prop(Decoded(authorization, verify).value, UserIdKeys[i]))
    ensures r.Unauthorized? ==> r.msg == InvalidTokenMsg || r.msg == InvalidPayloadMsg
    ensures r.Next? ==> Truthy(r.user.userId)
    ensures r.Next? ==> forall i :: FirstTruthyAt(Props(Decoded(authorization, verify).value, UserIdKeys), i) ==>
      r.user.userId == Prop(Decoded(authorization, verify).value, UserIdKeys[i])
    ensures r.Next? ==> forall i :: FirstTruthyAt(Props(Decoded(authorization, verify).value, NameKeys), i) ==>
      r.user.name == Prop(Decoded(authorization, verify).value, NameKeys[i])
    ensures r.Next? && (forall i :: 0 <= i < |NameKeys| ==> !Truthy(Prop(Decoded(authorization, verify).value, NameKeys[i]))) ==>
      r.user.name == Null
  {
    match Decoded(authorization, verify)
    case None => Unauthorized(InvalidTokenMsg)
    case Some(p) =>
      var userId := OrChain(Props(p, UserIdKeys));
      var name := OrChain(Props(p, NameKeys) + [Null]);
      if !Truthy(userId) then Unauthorized(InvalidPayloadMsg)
      else
        assert forall i :: FirstTruthyAt(Props(p, NameKeys), i) ==> FirstTruthyAt(Props(p, NameKeys) + [Null], i);
        Next(AuthUser(userId, name))
  }
}
