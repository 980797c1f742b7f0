/**
 The `authJWT` middleware: reads the Authorization header, insists on the
 form `Bearer <token>`, and hands the token to JWT verification, which is a
 parameter. The one argument the middleware passes to `next` is the result.
 */
module Auth {
  import opened Wrappers
  import opened JsText
  import opened Errors

  /** What `next` is called with: no argument, after the decoded payload was
      stored as the request's user, or an error. */
  datatype Next<P> = Proceed(user: P) | Reject(error: ServiceError)

  /** One run of the middleware: the call to `next`, and the tokens handed to
      verification, in order. */
  datatype AuthRun<P> = AuthRun(next: Next<P>, verified: seq<string>)

  const Scheme: string := "Bearer"

  /** The token of a well-formed header: splitting on single spaces must give
      exactly two parts, the first exactly `Bearer`. */
  function BearerToken(header: string): (token: Option<string>)
  {
    var parts := Split(header, ' ');
    if |parts| != 2 || parts[0] != Scheme then None else Some(parts[1])
  }

  /** A header is accepted exactly when it is `Bearer`, one space, and a token
      without spaces; the token is everything after that space. */
  lemma {:induction false} BearerTokenShape(header: string)
    ensures BearerToken(header).Some? <==>
              |header| >= 7 && header[..7] == Scheme + " " && ' ' !in header[7..]
    ensures BearerToken(header).Some? ==> BearerToken(header).value == header[7..]
  {
    var parts := Split(header, ' ');
    if |parts| == 2 && parts[0] == Scheme {
      JoinSplit(header, ' ');
      assert header == Scheme + " " + parts[1];
      assert header[7..] == parts[1];
    }
    if |header| >= 7 && header[..7] == Scheme + " " && ' ' !in header[7..] {
      var t := header[7..];
      assert Join([Scheme, t], ' ') == header;
      SplitJoin([Scheme, t], ' ');
    }
  }

  /** A lower-case scheme is rejected. */
  lemma LowerCaseSchemeRejected()
    ensures BearerToken("bearer t").None?
  {
    BearerTokenShape("bearer t");
    assert ("bearer t")[..7][0] == 'b';
  }

  /** A double space splits into three parts and is rejected. */
  lemma DoubleSpaceRejected()
    ensures BearerToken("Bearer  t").None?
  {
    BearerTokenShape("Bearer  t");
    assert ("Bearer  t")[7..][0] == ' ';
  }

  /** The scheme, one space and a token give that token. */
  lemma SingleSpaceAccepted()
    ensures BearerToken("Bearer t") == Some("t")
  {
    BearerTokenShape("Bearer t");
    assert ("Bearer t")[7..] == "t";
  }

  /** `authJWT`. A missing or empty header is 401 without verification; a
      malformed one likewise; otherwise verification sees exactly the token,
      and its failure is 401 while its success passes the payload on. */
  function AuthJWT<P>(header: Option<string>, verify: string -> Option<P>): (run: AuthRun<P>)
    ensures header.None? || header == Some("") ==>
              run == AuthRun(Reject(ServiceError(401, NoToken)), [])
    ensures header.Some? && header.value != "" && BearerToken(header.value).None? ==>
              run == AuthRun(Reject(ServiceError(401, BadTokenFormat)), [])
    ensures header.Some? && header.value != "" && BearerToken(header.value).Some? ==>
              run.verified == [BearerToken(header.value).value]
    ensures run.verified != [] ==>
              header.Some? && BearerToken(header.value) == Some(run.verified[0]) && |run.verified| == 1
    ensures run.next.Proceed? <==> |run.verified| == 1 && verify(run.verified[0]).Some?
    ensures run.next.Proceed? ==> run.next.user == verify(run.verified[0]).value
    ensures run.next.Reject? ==> run.next.error.status == 401
  {
    if header.None? || header.value == "" then AuthRun(Reject(ServiceError(401, NoToken)), [])
    else
      match BearerToken(header.value)
      case None => AuthRun(Reject(ServiceError(401, BadTokenFormat)), [])
      case Some(token) =>
        match verify(token)
        case None => AuthRun(Reject(ServiceError(401, TokenRejected)), [token])
        case Some(payload) => AuthRun(Proceed(payload), [token])
  }
}
