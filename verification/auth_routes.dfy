/** `POST /auth/register` and `POST /auth/login` over the `users` table.
    Password hashing (bcryptjs) is an abstract `Hasher` and token signing an
    abstract `Jwt.Codec`; the decisions the handlers take around them are
    modelled exactly. */
module AuthRoutes {
  import opened Common
  import opened Jwt
  import opened Autenticacao

  /** `bcrypt.hash(password, 10)`. */
  const BcryptCost: nat := 10

  /** The `users.role` column default; the insert does not set a role. */
  const DefaultRole: string := "user"

  const MissingRegisterFields: string := "Nome, email e senha são obrigatórios."
  const EmailTaken: string := "E-mail já cadastrado."
  const RegisterFailed: string := "Erro ao registrar usuário."
  const MissingLoginFields: string := "Email e senha são obrigatórios."
  const BadCredentials: string := "Credenciais inválidas."
  const LoginFailed: string := "Erro ao fazer login."

  /** A row of `users`. */
  datatype User = User(id: UserId, name: string, email: string, passwordHash: string, role: string, createdAt: int)

  /** bcryptjs: `hash(password, cost, salt)`, the salt being the random part
      the library draws; `compare(password, hash)`. */
  datatype Hasher = Hasher(hash: (string, nat, nat) -> string, compare: (string, string) -> bool)

  /** What bcrypt guarantees: a password matches its own hash, and a hash is
      never the password itself. */
  ghost predicate SoundHasher(hasher: Hasher)
  {
    forall password, cost, salt ::
      && hasher.compare(password, hasher.hash(password, cost, salt))
      && hasher.hash(password, cost, salt) != password
  }

  datatype RegisterRequest = RegisterRequest(name: JsValue, email: JsValue, password: JsValue)
  datatype LoginRequest = LoginRequest(email: JsValue, password: JsValue)

  /** `RETURNING id, name, email, role, created_at`: no password hash. */
  datatype CreatedUser = CreatedUser(id: UserId, name: string, email: string, role: string, createdAt: int)

  /** The `user` object of the login reply. */
  datatype PublicUser = PublicUser(id: UserId, name: string, email: string, role: string)

  datatype AuthBody = Registered(created: CreatedUser) | LoggedIn(token: string, user: PublicUser)

  /** Every id was drawn from the sequence, and no two users share an id or
      an e-mail. */
  ghost predicate UsersInvariant(users: Serial<User>)
  {
    && IdsDrawn(users, UserIdOf)
    && forall i, j :: 0 <= i < j < |users.rows| ==>
         users.rows[i].id != users.rows[j].id && users.rows[i].email != users.rows[j].email
  }

  /** `SELECT ... FROM users WHERE email = $1`, first row. */
  function FindByEmail(users: seq<User>, email: string): (found: Option<User>)
    ensures found.Some? ==> found.value in users && found.value.email == email
    ensures found.None? <==> forall i :: 0 <= i < |users| ==> users[i].email != email
    decreases |users|
  {
    if |users| == 0 then None
    else if users[0].email == email then Some(users[0])
    else FindByEmail(users[1..], email)
  }

  function UserIdOf(u: User): nat
  {
    u.id
  }

  /** `POST /auth/register` at time `now`, with `salt` the salt bcrypt draws.
      Returns the reply and the `users` table afterwards. */
  function Register(users: Serial<User>, req: RegisterRequest, hasher: Hasher, salt: nat, now: int): (res: (Reply<AuthBody>, Serial<User>))
    // Missing fields: 400, nothing inserted.
    ensures !(Truthy(req.name) && Truthy(req.email) && Truthy(req.password)) ==>
      res == (Reply(400, Error(MissingRegisterFields)), users)
    // A taken e-mail: 409, nothing inserted.
    ensures Truthy(req.name) && Truthy(req.email) && Truthy(req.password) && FindByEmail(users.rows, Param(req.email)).Some? ==>
      res == (Reply(409, Error(EmailTaken)), users)
    // Anything but 201 leaves the table, and its sequence, as they were.
    ensures res.0.status != 201 ==> res.1 == users
    // bcryptjs rejects a password that is not a string.
    ensures res.0.status == 500 <==>
      && Truthy(req.name) && Truthy(req.email) && Truthy(req.password)
      && FindByEmail(users.rows, Param(req.email)).None? && !req.password.Str?
    ensures res.0.status == 500 ==> res.0 == Reply(500, Error(RegisterFailed))
    // 201: exactly one row appended, holding the hash of the password under a fresh id.
    ensures res.0.status == 201 <==>
      Truthy(req.name) && Truthy(req.email) && req.password.Str? && req.password.s != "" && FindByEmail(users.rows, Param(req.email)).None?
    ensures res.0.status == 201 ==>
      && |res.1.rows| == |users.rows| + 1 && res.1.rows[..|users.rows|] == users.rows
      && res.1.next == users.next + 1
      && var u := res.1.rows[|users.rows|];
      && u.id == users.next
      && u.name == Param(req.name) && u.email == Param(req.email)
      && u.passwordHash == hasher.hash(req.password.s, BcryptCost, salt)
      && u.role == DefaultRole && u.createdAt == now
      && (IdsDrawn(users, UserIdOf) ==> forall i :: 0 <= i < |users.rows| ==> users.rows[i].id != u.id)
      && res.0.body == Json(Registered(CreatedUser(u.id, u.name, u.email, u.role, u.createdAt)))
  {
    if !(Truthy(req.name) && Truthy(req.email) && Truthy(req.password)) then
      (Reply(400, Error(MissingRegisterFields)), users)
    else if FindByEmail(users.rows, Param(req.email)).Some? then
      (Reply(409, Error(EmailTaken)), users)
    else if !req.password.Str? then
      // bcryptjs rejects a password that is not a string ("Illegal arguments").
      (Reply(500, Error(RegisterFailed)), users)
    else
      var u := User(users.next, Param(req.name), Param(req.email),
                    hasher.hash(req.password.s, BcryptCost, salt), DefaultRole, now);
      (Reply(201, Json(Registered(CreatedUser(u.id, u.name, u.email, u.role, u.createdAt)))), Append(users, u, UserIdOf))
  }

  /** `POST /auth/login` at time `now`, with `env` the `JWT_SECRET` variable. */
  function Login(users: seq<User>, req: LoginRequest, hasher: Hasher, codec: Codec, env: Option<string>, now: int): (r: Reply<AuthBody>)
    ensures !(Truthy(req.email) && Truthy(req.password)) ==> r == Reply(400, Error(MissingLoginFields))
    // An unknown e-mail and a wrong password get the very same reply.
    ensures r.status == 401 ==> r == Reply(401, Error(BadCredentials))
    ensures r.status == 401 <==>
      && Truthy(req.email) && Truthy(req.password)
      && var found := FindByEmail(users, Param(req.email));
      && (found.None? || (req.password.Str? && !hasher.compare(req.password.s, found.value.passwordHash)))
    // bcryptjs rejects a password that is not a string.
    ensures r.status == 500 <==>
      Truthy(req.email) && Truthy(req.password) && FindByEmail(users, Param(req.email)).Some? && !req.password.Str?
    ensures r.status == 500 ==> r == Reply(500, Error(LoginFailed))
    // A known e-mail with a password that matches its hash logs in...
    ensures
      && Truthy(req.email) && req.password.Str? && req.password.s != "" && FindByEmail(users, Param(req.email)).Some?
      && hasher.compare(req.password.s, FindByEmail(users, Param(req.email)).value.passwordHash)
      ==> r.status == 200
    // ...with a 7-day token over { sub: id, role } and the user without its hash.
    ensures r.status == 200 ==>
      && Truthy(req.email) && req.password.Str?
      && var found := FindByEmail(users, Param(req.email));
      && found.Some? && hasher.compare(req.password.s, found.value.passwordHash)
      && var u := found.value;
      && r.body == Json(LoggedIn(Sign(codec, u.id, u.role, Secret(env), now), PublicUser(u.id, u.name, u.email, u.role)))
  {
    if !(Truthy(req.email) && Truthy(req.password)) then
      Reply(400, Error(MissingLoginFields))
    else
      match FindByEmail(users, Param(req.email))
      case None => Reply(401, Error(BadCredentials))
      case Some(u) =>
        if !req.password.Str? then
          // bcryptjs rejects a password that is not a string ("Illegal arguments").
          Reply(500, Error(LoginFailed))
        else if !hasher.compare(req.password.s, u.passwordHash) then
          Reply(401, Error(BadCredentials))
        else
          Reply(200, Json(LoggedIn(Sign(codec, u.id, u.role, Secret(env), now), PublicUser(u.id, u.name, u.email, u.role))))
  }

  /** Registration keeps ids and e-mails unique. */
  lemma RegisterKeepsInvariant(users: Serial<User>, req: RegisterRequest, hasher: Hasher, salt: nat, now: int)
    requires UsersInvariant(users)
    ensures UsersInvariant(Register(users, req, hasher, salt, now).1)
  {
    var res := Register(users, req, hasher, salt, now);
    if res.0.status == 201 {
      var rows := res.1.rows;
      forall i, j | 0 <= i < j < |rows| ensures rows[i].id != rows[j].id && rows[i].email != rows[j].email {
        if j == |users.rows| {
          assert rows[i] == users.rows[i];
        } else {
          assert rows[i] == users.rows[i] && rows[j] == users.rows[j];
        }
      }
    }
  }

  /** The stored hash is never the plaintext password. */
  lemma PasswordNotStored(users: Serial<User>, req: RegisterRequest, hasher: Hasher, salt: nat, now: int)
    requires SoundHasher(hasher)
    requires Register(users, req, hasher, salt, now).0.status == 201
    ensures Register(users, req, hasher, salt, now).1.rows[|users.rows|].passwordHash != req.password.s
  {
  }

  lemma FindAppended(users: seq<User>, u: User)
    requires forall i :: 0 <= i < |users| ==> users[i].email != u.email
    ensures FindByEmail(users + [u], u.email) == Some(u)
    decreases |users|
  {
    if |users| > 0 {
      assert (users + [u])[1..] == users[1..] + [u];
      FindAppended(users[1..], u);
    } else {
      assert users + [u] == [u];
    }
  }

  /** Right after registering, logging in with the same e-mail and password
      succeeds and returns the new user. */
  lemma RegisterThenLogin(users: Serial<User>, req: RegisterRequest, hasher: Hasher, salt: nat, now: int,
                          codec: Codec, env: Option<string>, later: int)
    requires SoundHasher(hasher)
    requires Register(users, req, hasher, salt, now).0.status == 201
    ensures
      var rows := Register(users, req, hasher, salt, now).1.rows;
      var u := rows[|users.rows|];
      Login(rows, LoginRequest(req.email, req.password), hasher, codec, env, later)
        == Reply(200, Json(LoggedIn(Sign(codec, u.id, u.role, Secret(env), later), PublicUser(u.id, u.name, u.email, u.role))))
  {
    var rows := Register(users, req, hasher, salt, now).1.rows;
    var u := rows[|users.rows|];
    assert rows == users.rows + [u];
    FindAppended(users.rows, u);
  }

  /** The token a login returns passes the authentication middleware, under
      the same `JWT_SECRET`, for seven days, exposing the logged-in user's id
      and role as `usuarioId` and `usuarioRole`; from then on it is rejected as
      invalid or expired. */
  lemma LoginThenAuthenticate(users: seq<User>, req: LoginRequest, hasher: Hasher, codec: Codec, env: Option<string>,
                              now: int, later: int)
    requires SoundCodec(codec)
    requires Login(users, req, hasher, codec, env, now).status == 200
    ensures
      var r := Login(users, req, hasher, codec, env, now);
      var header := Some("Bearer " + r.body.value.token);
      var user := r.body.value.user;
      && (later < now + TokenLifetime ==>
            Authenticate(header, codec, env, later) == Next(Identity(user.id, user.role)))
      && (later >= now + TokenLifetime ==>
            Authenticate(header, codec, env, later) == Unauthorized(InvalidOrExpired))
  {
    var r := Login(users, req, hasher, codec, env, now);
    var u := FindByEmail(users, Param(req.email)).value;
    var t := r.body.value.token;
    assert t == codec.encode(Claims(u.id, u.role, now, now + TokenLifetime), Secret(env));
    assert t != "" && ' ' !in t;
    TokenFieldOf("Bearer", t, []);
    assert "Bearer" + " " + t + [] == "Bearer " + t;
    SignThenVerify(codec, u.id, u.role, Secret(env), now, later);
  }
}
