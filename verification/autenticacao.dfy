/** The `autenticarUsuario` middleware: reads the `Authorization` header, takes
    the second space-separated field as the token, verifies it and either
    passes the caller's identity on to the route handler or answers 401. The
    scheme word before the token is never looked at. */
module Autenticacao {
  import opened Common
  import opened Text
  import opened Jwt

  const NotProvided: string := "Token não informado."
  const Malformed: string := "Token inválido."
  const InvalidOrExpired: string := "Token inválido ou expirado."

  /** What the middleware stores on the request: `req.usuarioId` and
      `req.usuarioRole`. */
  datatype Identity = Identity(usuarioId: UserId, usuarioRole: string)

  /** `Next` is the single call of `next()`; `Unauthorized` is the 401 reply
      with its error message, sent instead. */
  datatype Outcome = Next(identity: Identity) | Unauthorized(error: string)

  /** `const [, token] = header.split(' ')`: the second field, if there is one. */
  function TokenField(header: string): (token: Option<string>)
    ensures token.None? <==> ' ' !in header
    ensures token.Some? ==> ' ' !in token.value
  {
    SplitSingleField(header, ' ');
    var fields := Split(header, ' ');
    if |fields| >= 2 then Some(fields[1]) else None
  }

  /** The middleware at time `now`, with `env` the `JWT_SECRET` variable. */
  function Authenticate(header: Option<string>, codec: Codec, env: Option<string>, now: int): (o: Outcome)
    // A missing or empty header is "not provided"; nothing else is.
    ensures o == Unauthorized(NotProvided) <==> header == None || header == Some("")
    // A header without a space, or whose second field is empty, is malformed.
    ensures header.Some? && header.value != "" && ' ' !in header.value ==> o == Unauthorized(Malformed)
    ensures o == Unauthorized(Malformed) <==>
      header.Some? && header.value != "" && (TokenField(header.value) == None || TokenField(header.value) == Some(""))
    // Every verification failure gets the one message; success passes on the token's subject and role.
    ensures o == Unauthorized(InvalidOrExpired) <==>
      && header.Some? && TokenField(header.value).Some? && TokenField(header.value).value != ""
      && Verify(codec, TokenField(header.value).value, Secret(env), now).Err?
    ensures o.Next? <==>
      && header.Some? && TokenField(header.value).Some? && TokenField(header.value).value != ""
      && Verify(codec, TokenField(header.value).value, Secret(env), now).Ok?
    ensures o.Next? ==>
      var claims := Verify(codec, TokenField(header.value).value, Secret(env), now).value;
      o.identity == Identity(claims.sub, claims.role)
  {
    if header.None? || header.value == "" then Unauthorized(NotProvided)
    else
      match TokenField(header.value)
      case None => Unauthorized(Malformed)
      case Some(token) =>
        if token == "" then Unauthorized(Malformed)
        else
          match Verify(codec, token, Secret(env), now)
          case Ok(claims) => Next(Identity(claims.sub, claims.role))
          case Err(_) => Unauthorized(InvalidOrExpired)
  }

  /** A protected route: the handler runs only after `next()`, on the identity
      the middleware found; a rejected request gets the 401 reply and leaves
      the state as it was. */
  function Guard<S, T>(o: Outcome, state: S, handler: (Identity, S) -> (Reply<T>, S)): (res: (Reply<T>, S))
    ensures o.Unauthorized? ==> res.0 == Reply(401, Error(o.error)) && res.1 == state
    ensures o.Next? ==> res == handler(o.identity, state)
  {
    match o
    case Unauthorized(message) => (Reply(401, Error(message)), state)
    case Next(identity) => handler(identity, state)
  }

  /** Two non-empty headers with the same token field authenticate alike. */
  lemma SameTokenSameOutcome(h1: string, h2: string, codec: Codec, env: Option<string>, now: int)
    requires h1 != "" && h2 != ""
    requires TokenField(h1) == TokenField(h2)
    ensures Authenticate(Some(h1), codec, env, now) == Authenticate(Some(h2), codec, env, now)
  {
  }

  /** The token field of `w + " " + t + tail`, with `w` and `t` free of
      spaces and `tail` empty or starting with a space, is `t`. */
  lemma {:induction false} TokenFieldOf(w: string, t: string, tail: string)
    requires ' ' !in w && ' ' !in t
    requires tail == [] || tail[0] == ' '
    ensures TokenField(w + " " + t + tail) == Some(t)
  {
    var h := w + [' '] + (t + tail);
    assert w + " " + t + tail == h;
    SplitAfterWord(w, ' ', t + tail);
    FirstFieldIsWord(t, ' ', tail);
    assert Split(h, ' ')[1] == t;
  }

  /** The token is the second field whatever the first one says, and fields
      after the second are ignored: `w + " " + t + tail` authenticates exactly
      like `"Bearer " + t`. */
  lemma SchemeWordIgnored(w: string, t: string, tail: string, codec: Codec, env: Option<string>, now: int)
    requires ' ' !in w && ' ' !in t
    requires tail == [] || tail[0] == ' '
    ensures TokenField(w + " " + t + tail) == Some(t)
    ensures Authenticate(Some(w + " " + t + tail), codec, env, now) == Authenticate(Some("Bearer " + t), codec, env, now)
  {
    TokenFieldOf(w, t, tail);
    TokenFieldOf("Bearer", t, []);
    assert "Bearer" + " " + t + [] == "Bearer " + t;
    SameTokenSameOutcome(w + " " + t + tail, "Bearer " + t, codec, env, now);
  }

  /** A header whose first space is followed by another space or ends the
      header has an empty token field and is malformed, e.g. "Bearer " and
      "Bearer  x". */
  lemma {:induction false} EmptyTokenFieldMalformed(w: string, tail: string, codec: Codec, env: Option<string>, now: int)
    requires ' ' !in w
    requires tail == [] || tail[0] == ' '
    ensures Authenticate(Some(w + " " + tail), codec, env, now) == Unauthorized(Malformed)
  {
    SplitAfterWord(w, ' ', tail);
    assert w + " " + tail == w + [' '] + tail;
    FirstFieldIsWord([], ' ', tail);
    assert [] + tail == tail;
  }

  /** No header, or an empty one: "not provided". */
  lemma MissingHeaderExamples(codec: Codec, env: Option<string>, now: int)
    ensures Authenticate(None, codec, env, now) == Unauthorized(NotProvided)
    ensures Authenticate(Some(""), codec, env, now) == Unauthorized(NotProvided)
  {
  }

  /** A lone scheme word, or an empty token field: "invalid token". */
  lemma MalformedHeaderExamples(codec: Codec, env: Option<string>, now: int)
    ensures Authenticate(Some("Bearer"), codec, env, now) == Unauthorized(Malformed)
    ensures Authenticate(Some("Bearer "), codec, env, now) == Unauthorized(Malformed)
    ensures Authenticate(Some("Bearer  x"), codec, env, now) == Unauthorized(Malformed)
  {
    EmptyTokenFieldMalformed("Bearer", [], codec, env, now);
    assert "Bearer " == "Bearer" + " " + [];
    EmptyTokenFieldMalformed("Bearer", " x", codec, env, now);
    assert "Bearer  x" == "Bearer" + " " + " x";
  }

  lemma BasicTokenField()
    ensures TokenField("Basic abc") == Some("abc")
  {
    assert "Basic" + " " + "abc" + [] == "Basic abc";
    TokenFieldOf("Basic", "abc", []);
  }

  lemma BearerTokenField()
    ensures TokenField("Bearer abc") == Some("abc")
  {
    assert "Bearer" + " " + "abc" + [] == "Bearer abc";
    TokenFieldOf("Bearer", "abc", []);
  }

  lemma ExtraFieldTokenField()
    ensures TokenField("Bearer a b") == Some("a")
  {
    assert "Bearer" + " " + "a" + " b" == "Bearer a b";
    TokenFieldOf("Bearer", "a", " b");
  }

  lemma ShortTokenField()
    ensures TokenField("Bearer a") == Some("a")
  {
    assert "Bearer" + " " + "a" + [] == "Bearer a";
    TokenFieldOf("Bearer", "a", []);
  }

  /** "Basic abc" verifies the token "abc": the scheme word is not checked. */
  lemma BasicSchemeExample(codec: Codec, env: Option<string>, now: int)
    ensures Authenticate(Some("Basic abc"), codec, env, now) == Authenticate(Some("Bearer abc"), codec, env, now)
  {
    BasicTokenField();
    BearerTokenField();
    SameTokenSameOutcome("Basic abc", "Bearer abc", codec, env, now);
  }

  /** "Bearer a b" verifies the token "a": later fields are ignored. */
  lemma ExtraFieldExample(codec: Codec, env: Option<string>, now: int)
    ensures Authenticate(Some("Bearer a b"), codec, env, now) == Authenticate(Some("Bearer a"), codec, env, now)
  {
    ExtraFieldTokenField();
    ShortTokenField();
    SameTokenSameOutcome("Bearer a b", "Bearer a", codec, env, now);
  }

  /** A well-formed header whose token does not decode, e.g. "Bearer garbage",
      gets the generic "invalid or expired" reply. */
  lemma GarbageTokenExample(codec: Codec, env: Option<string>, now: int)
    requires codec.decode("garbage", Secret(env)) == None
    ensures Authenticate(Some("Bearer garbage"), codec, env, now) == Unauthorized(InvalidOrExpired)
  {
    assert "Bearer" + " " + "garbage" + [] == "Bearer garbage";
    TokenFieldOf("Bearer", "garbage", []);
  }

  /** A rejected request never reaches the handler: whatever the handler
      would do, the reply is the 401 and the state is unchanged. */
  lemma RejectedSkipsHandler<S, T>(header: Option<string>, codec: Codec, env: Option<string>, now: int,
                                   state: S, handler: (Identity, S) -> (Reply<T>, S), other: (Identity, S) -> (Reply<T>, S))
    requires Authenticate(header, codec, env, now).Unauthorized?
    ensures Guard(Authenticate(header, codec, env, now), state, handler) == Guard(Authenticate(header, codec, env, now), state, other)
    ensures Guard(Authenticate(header, codec, env, now), state, handler).0.status == 401
    ensures Guard(Authenticate(header, codec, env, now), state, handler).1 == state
  {
  }
}
