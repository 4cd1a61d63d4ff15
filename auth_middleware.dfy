/**
 * The `verify` middleware of src/middlewares/auth.ts. It reads the
 * Authorization header, takes the token after the first space, has
 * jsonwebtoken check it, and then either answers the request itself or stores
 * the decoded payload on the request and calls `next`.
 *
 * Decide is the decision as a function of the header and of what jwt.verify
 * reports; Verify is the middleware acting on request and response objects,
 * proved to carry that decision out.
 */
module AuthMiddleware {
  import opened Wrappers
  import opened Utils

  // ---------------------------------------------------------------------------
  // Splitting the header

  /** The pieces joined back with the separator between them. */
  function Join(parts: seq<string>, sep: char): string
    requires |parts| >= 1
  {
    if |parts| == 1 then parts[0] else parts[0] + [sep] + Join(parts[1..], sep)
  }

  /** `s.split(sep)` with a one-character separator: the pieces between the
      separators, in order, empty pieces included. */
  function Split(s: string, sep: char): (parts: seq<string>)
    ensures |parts| >= 1
    ensures forall k :: 0 <= k < |parts| ==> sep !in parts[k]
  {
    if s == [] then [[]]
    else
      var rest := Split(s[1..], sep);
      if s[0] == sep then [[]] + rest
      else [[s[0]] + rest[0]] + rest[1..]
  }

  /** Joining the pieces gives the string back. */
  lemma {:induction false} SplitJoin(s: string, sep: char)
    ensures Join(Split(s, sep), sep) == s
  {
    if s != [] {
      var rest := Split(s[1..], sep);
      SplitJoin(s[1..], sep);
      if s[0] != sep {
        var parts := Split(s, sep);
        if |rest| > 1 {
          assert parts[1..] == rest[1..];
        }
      }
    }
  }

  /** Split is the only way to cut a string into separator-free pieces that
      join back to it. */
  lemma {:induction false} SplitUnique(parts: seq<string>, sep: char)
    requires |parts| >= 1 && forall k :: 0 <= k < |parts| ==> sep !in parts[k]
    ensures Split(Join(parts, sep), sep) == parts
  {
    if |parts| == 1 {
      SplitNoSeparator(parts[0], sep);
    } else {
      SplitUnique(parts[1..], sep);
      SplitAfter(parts[0], Join(parts[1..], sep), sep);
      assert [parts[0]] + parts[1..] == parts;
    }
  }

  /** A string without the separator is one piece. */
  lemma {:induction false} SplitNoSeparator(s: string, sep: char)
    requires sep !in s
    ensures Split(s, sep) == [s]
  {
    if s != [] {
      SplitNoSeparator(s[1..], sep);
      assert s[0] != sep && [s[0]] + s[1..] == s;
    }
  }

  /** Splitting `w + sep + rest`, where `w` holds no separator, gives `w` and
      then the pieces of `rest`. */
  lemma {:induction false} SplitAfter(w: string, rest: string, sep: char)
    requires sep !in w
    ensures Split(w + [sep] + rest, sep) == [w] + Split(rest, sep)
  {
    if w != [] {
      SplitAfter(w[1..], rest, sep);
      assert (w + [sep] + rest)[1..] == w[1..] + [sep] + rest;
      assert (w + [sep] + rest)[0] == w[0] != sep;
      assert [w[0]] + w[1..] == w;
    } else {
      assert (w + [sep] + rest)[1..] == rest;
    }
  }

  /** `authHeader.split(' ')[1]`: the second piece, or undefined (None) when
      the header holds no space. */
  function TokenOf(header: string): Option<string> {
    var parts := Split(header, ' ');
    if |parts| > 1 then Some(parts[1]) else None
  }

  /** The token is the text after the first space, up to the next space or the
      end; the word before the first space plays no part. */
  lemma TokenAfterScheme(scheme: string, rest: string)
    requires ' ' !in scheme
    ensures TokenOf(scheme + " " + rest) == Some(Split(rest, ' ')[0])
    ensures ' ' !in Split(rest, ' ')[0]
    ensures ' ' !in rest ==> TokenOf(scheme + " " + rest) == Some(rest)
  {
    SplitAfter(scheme, rest, ' ');
    if ' ' !in rest {
      SplitNoSeparator(rest, ' ');
    }
  }

  /** A string holding the separator splits into at least two pieces. */
  lemma {:induction false} SplitSeparator(s: string, sep: char)
    ensures sep in s ==> |Split(s, sep)| > 1
  {
    if s != [] && s[0] != sep {
      SplitSeparator(s[1..], sep);
      assert sep in s ==> sep in s[1..];
    }
  }

  /** A header has no token exactly when it holds no space. */
  lemma TokenOfNoSpace(header: string)
    ensures TokenOf(header).None? <==> ' ' !in header
  {
    SplitSeparator(header, ' ');
    if ' ' !in header {
      SplitNoSeparator(header, ' ');
    }
  }

  // ---------------------------------------------------------------------------
  // The decision

  /** The JSON bodies the middleware sends. */
  datatype Body =
    | Failed(success: bool, message: string)   // { success: false, message }
    | Denied(auth: bool, message: string)      // { auth: false, message: 'Unauthorized' }
    | ServerError(message: string)             // { message: "Server Error" }

  /** What becomes of the call to jwt.verify. Called with a callback,
      jsonwebtoken hands every failure (a bad signature, an expired token, a
      missing secret) to the callback as `err`, which is `Invalid`; it does
      not throw. `Valid` is the callback receiving the decoded payload.
      `Raised` stands for the one way the try block's catch is reached: the
      callback's own `res.status(...).json(...)` or `next()` throwing
      synchronously out of jwt.verify. */
  datatype Verdict = Valid(decoded: TokenPayload) | Invalid(error: Thrown) | Raised(thrown: Thrown)

  /** A response with its status code, or `next()` with `req.user` set. */
  datatype Outcome = Respond(status: int, body: Body) | Next(user: TokenPayload)

  const HeaderMissing := Respond(404, Failed(false, "Authorization header not found!"))
  const TokenMissing := Respond(404, Failed(false, "Token not found!"))
  const TokenRejected := Respond(401, Denied(false, "Unauthorized"))
  const Crashed := Respond(500, ServerError("Server Error"))

  /** verify as a function of `req.headers['authorization']` (None when
      absent) and of jwt.verify. An empty header and an empty token are falsy
      in JavaScript and count as missing. */
  function Decide(authorization: Option<string>, jwtVerify: string -> Verdict): Outcome {
    if authorization.None? || authorization.value == "" then HeaderMissing
    else
      var token := TokenOf(authorization.value);
      if token.None? || token.value == "" then TokenMissing
      else
        match jwtVerify(token.value)
        case Valid(decoded) => Next(decoded)
        case Invalid(_) => TokenRejected
        case Raised(_) => Crashed
  }

  /** Without a header the answer is 404 and `next` is not called. */
  lemma DecideWithoutHeader(authorization: Option<string>, jwtVerify: string -> Verdict)
    requires authorization.None? || authorization.value == ""
    ensures Decide(authorization, jwtVerify) == Respond(404, Failed(false, "Authorization header not found!"))
  {
  }

  /** A header that is a single word, with or without one trailing space
      ("Bearer", "Bearer "), has no token: the answer is 404. */
  lemma DecideWithoutToken(scheme: string, jwtVerify: string -> Verdict)
    requires scheme != "" && ' ' !in scheme
    ensures Decide(Some(scheme), jwtVerify) == Respond(404, Failed(false, "Token not found!"))
    ensures Decide(Some(scheme + " "), jwtVerify) == Respond(404, Failed(false, "Token not found!"))
  {
    TokenOfNoSpace(scheme);
    TokenAfterScheme(scheme, "");
    assert scheme + " " + "" == scheme + " ";
  }

  /** `<scheme> <token>`: the token handed to jwt.verify is exactly `token`,
      whatever the scheme word; a valid token leads to `next` with the decoded
      payload, an invalid one to 401 and a throw to 500. */
  lemma DecideWithToken(scheme: string, token: string, jwtVerify: string -> Verdict)
    requires ' ' !in scheme && token != "" && ' ' !in token
    ensures jwtVerify(token).Valid? ==> Decide(Some(scheme + " " + token), jwtVerify) == Next(jwtVerify(token).decoded)
    ensures jwtVerify(token).Invalid? ==>
              Decide(Some(scheme + " " + token), jwtVerify) == Respond(401, Denied(false, "Unauthorized"))
    ensures jwtVerify(token).Raised? ==>
              Decide(Some(scheme + " " + token), jwtVerify) == Respond(500, ServerError("Server Error"))
  {
    TokenAfterScheme(scheme, token);
  }

  /** The word before the first space is never inspected: any two words give
      the same outcome. */
  lemma DecideIgnoresScheme(scheme1: string, scheme2: string, rest: string, jwtVerify: string -> Verdict)
    requires ' ' !in scheme1 && ' ' !in scheme2
    ensures Decide(Some(scheme1 + " " + rest), jwtVerify) == Decide(Some(scheme2 + " " + rest), jwtVerify)
  {
    TokenAfterScheme(scheme1, rest);
    TokenAfterScheme(scheme2, rest);
    assert |scheme1 + " " + rest| > 0 && |scheme2 + " " + rest| > 0;
  }

  /** `next` is reached only with a token that jwt.verify accepts, and then
      `req.user` is what it decoded. */
  lemma DecideNextOnlyWhenValid(authorization: Option<string>, jwtVerify: string -> Verdict)
    requires Decide(authorization, jwtVerify).Next?
    ensures authorization.Some? && TokenOf(authorization.value).Some?
    ensures var token := TokenOf(authorization.value).value;
      token != "" && jwtVerify(token) == Valid(Decide(authorization, jwtVerify).user)
  {
  }

  // ---------------------------------------------------------------------------
  // The middleware on request and response objects

  /** The parts of an Express request the middleware uses. */
  class HttpRequest {
    const authorization: Option<string>   // req.headers['authorization']
    var user: Option<TokenPayload>        // (req as any).user

    constructor (authorization: Option<string>)
      ensures this.authorization == authorization && user == None
    {
      this.authorization := authorization;
      user := None;
    }
  }

  /** An Express response, as the list of `res.status(s).json(b)` calls made on it. */
  class HttpResponse {
    var sent: seq<(int, Body)>

    constructor ()
      ensures sent == []
    {
      sent := [];
    }

    /** `res.status(status).json(body)` */
    method Json(status: int, body: Body)
      modifies this
      ensures sent == old(sent) + [(status, body)]
    {
      sent := sent + [(status, body)];
    }
  }

  /** verify: sends exactly one response or calls `next` exactly once, never
      both, as Decide says. `nextCalls` counts the calls of `next`. */
  method Verify(req: HttpRequest, res: HttpResponse, jwtVerify: string -> Verdict) returns (nextCalls: nat)
    modifies req, res
    ensures match Decide(req.authorization, jwtVerify)
      case Respond(status, body) =>
        res.sent == old(res.sent) + [(status, body)] && nextCalls == 0 && req.user == old(req.user)
      case Next(decoded) =>
        res.sent == old(res.sent) && nextCalls == 1 && req.user == Some(decoded)
  {
    var authHeader := req.authorization;
    if authHeader.None? || authHeader.value == "" {
      res.Json(404, Failed(false, "Authorization header not found!"));
      return 0;
    }

    var token := TokenOf(authHeader.value);
    if token.None? || token.value == "" {
      res.Json(404, Failed(false, "Token not found!"));
      return 0;
    }

    match jwtVerify(token.value)
    case Raised(_) =>
      res.Json(500, ServerError("Server Error"));
      nextCalls := 0;
    case Invalid(_) =>
      res.Json(401, Denied(false, "Unauthorized"));
      nextCalls := 0;
    case Valid(decoded) =>
      req.user := Some(decoded);
      nextCalls := 1;
  }
}
