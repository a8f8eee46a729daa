/**
 * The bearer-token guard in front of every protected route, and the header the
 * client attaches to its requests. The guard never reads a user id from the
 * request body: the acting user is whatever the token verifies to.
 */
module Guard {
  import opened Wrappers
  import opened Text
  import opened Http
  import opened Crypto

  const BearerPrefix: string := "Bearer "

  /** The client's request interceptor: a stored token that is truthy becomes `Bearer <token>`. */
  function BearerHeader(stored: Option<string>): (h: Option<string>)
    ensures h.Some? <==> Truthy(stored)
    ensures h.Some? ==> StartsWith(h.value, BearerPrefix) && h.value[|BearerPrefix|..] == stored.value
  {
    if Truthy(stored) then Some(BearerPrefix + stored.value) else None
  }

  /** `authHeader.split(" ")[1]`. */
  function TokenOf(header: string): Option<string> {
    SplitPart(header, ' ', 1)
  }

  /** A header that passes the prefix check always has a second space-separated component. */
  lemma PrefixedHeaderHasToken(header: string)
    requires StartsWith(header, BearerPrefix)
    ensures TokenOf(header) == Some(Split(header[|BearerPrefix|..], ' ')[0])
  {
    assert header == "Bearer" + [' '] + header[|BearerPrefix|..];
    SplitAfterPrefix("Bearer", ' ', header[|BearerPrefix|..]);
  }

  /** What the guard does with a request: refuse it, or call `next` once with the acting user set. */
  datatype Decision = Refuse(reply: Reply) | Proceed(userId: nat)

  /**
   * `authenticateToken`. A missing header or one without the `Bearer ` prefix is
   * refused with 401; a token that does not verify with 403 and no user set;
   * otherwise the acting user is the id the token carries.
   */
  function Authenticate(header: Option<string>, c: Primitives): (d: Decision)
    ensures d.Refuse? ==> d.reply.status == 401 || d.reply.status == 403
    ensures d.Refuse? && d.reply.status == 401 <==> header.None? || !StartsWith(header.value, BearerPrefix)
    ensures d.Proceed? <==> header.Some? && StartsWith(header.value, BearerPrefix)
                            && TokenOf(header.value).Some? && c.verify(TokenOf(header.value).value).Some?
    ensures d.Proceed? ==> c.verify(TokenOf(header.value).value) == Some(d.userId)
  {
    if header.None? || !StartsWith(header.value, BearerPrefix) then
      Refuse(Reply(401, Failure("Unauthorized. Token missing.")))
    else
      PrefixedHeaderHasToken(header.value);
      var token := TokenOf(header.value).value;
      match c.verify(token)
      case None => Refuse(Reply(403, Failure("Invalid token.")))
      case Some(id) => Proceed(id)
  }

  /** The header the client builds from a space-free token passes the prefix check and splits back to that token. */
  lemma BearerRoundTrip(t: string)
    requires |t| > 0 && ' ' !in t
    ensures BearerHeader(Some(t)) == Some(BearerPrefix + t)
    ensures StartsWith(BearerPrefix + t, BearerPrefix)
    ensures TokenOf(BearerPrefix + t) == Some(t)
  {
    var h := BearerPrefix + t;
    assert h == "Bearer" + [' '] + t;
    SplitAfterPrefix("Bearer", ' ', t);
  }

  /** Without a stored token the client sends no header, and the guard answers 401. */
  lemma NoTokenUnauthorized(stored: Option<string>, c: Primitives)
    requires !Truthy(stored)
    ensures Authenticate(BearerHeader(stored), c) == Refuse(Reply(401, Failure("Unauthorized. Token missing.")))
  {
  }

  /** A token signed for `id` and attached by the client lets the request through as `id`. */
  lemma SignedTokenAccepted(id: nat, c: Primitives)
    requires TokensSound(c)
    ensures Authenticate(BearerHeader(Some(c.sign(id))), c) == Proceed(id)
  {
    BearerRoundTrip(c.sign(id));
  }
}
