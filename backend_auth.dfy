/**
 * `register` and `login` of the backend's authentication controller. Register
 * performs no duplicate check of its own: a taken email surfaces as the
 * store's insert error. Login answers an unknown email and a wrong password
 * alike. Non-string JSON values in the body are not modelled.
 */
module BackendAuth {
  import opened Wrappers
  import opened Json
  import opened Users

  datatype RegisterBody = RegisterBody(name: JsonField, email: JsonField, password: JsonField)

  datatype LoginBody = LoginBody(email: JsonField, password: JsonField)

  const MissingRegisterFields: AuthReply := AuthReply(400, Message("Name, email y password son requeridos"))
  const RegisterFailed: AuthReply := AuthReply(500, Message("Error al registrar usuario"))
  const Registered: AuthReply := AuthReply(201, Message("Usuario registrado correctamente"))
  const MissingLoginFields: AuthReply := AuthReply(400, Message("Email y password son requeridos"))
  const InvalidCredentials: AuthReply := AuthReply(400, Message("Credenciales inválidas"))

  predicate Complete(body: RegisterBody) {
    body.name.Truthy() && body.email.Truthy() && body.password.Truthy()
  }

  /**
   * `register`: 400 and no change unless name, email and password are all
   * truthy; otherwise one new user holding only `hash(password)`, or 500
   * when the store refuses the insert because the email is taken.
   */
  method Register(users: UserTable, body: RegisterBody, h: Hasher) returns (reply: AuthReply)
    requires users.Valid()
    modifies users
    ensures users.Valid()
    ensures !Complete(body) ==> reply == MissingRegisterFields && users.byEmail == old(users.byEmail)
    ensures Complete(body) && body.email.s in old(users.byEmail) ==>
      reply == RegisterFailed && users.byEmail == old(users.byEmail)
    ensures Complete(body) && body.email.s !in old(users.byEmail) ==>
      && reply == Registered
      && users.byEmail == old(users.byEmail)[body.email.s :=
           User(old(users.nextId), body.name.s, body.email.s, h.hash(body.password.s), None)]
  {
    if !body.name.Truthy() || !body.email.Truthy() || !body.password.Truthy() {
      return MissingRegisterFields;
    }
    var hashedPassword := h.hash(body.password.s);
    var inserted := users.Insert(body.name.s, body.email.s, hashedPassword, None);
    if !inserted {
      return RegisterFailed;
    }
    reply := Registered;
  }

  /** The token a successful backend login issues: `{ id_user }`, valid for 2h. */
  function SessionToken(user: User, secret: string): (t: Token)
    ensures t.claims.Keys == {"id_user"} && t.claims["id_user"] == IntClaim(user.idUser)
    ensures t.expiresIn == "2h" && t.secret == secret
  {
    Signed(map["id_user" := IntClaim(user.idUser)], secret, TokenLifetime)
  }

  /**
   * `login`: 400 for a missing email or password; the same 400
   * "Credenciales inválidas" for an unknown email and for a wrong password;
   * otherwise 200 with a token for the matched user.
   */
  function Login(users: map<string, User>, body: LoginBody, h: Hasher, secret: string): (r: AuthReply)
    ensures r == MissingLoginFields <==> !(body.email.Truthy() && body.password.Truthy())
    ensures r.status == 200 || r == MissingLoginFields || r == InvalidCredentials
    ensures r.status == 200 <==>
      && body.email.Truthy() && body.password.Truthy()
      && body.email.s in users && h.compare(body.password.s, users[body.email.s].passwHash)
    ensures r.status == 200 ==> r.body == Issued(SessionToken(users[body.email.s], secret))
  {
    if !body.email.Truthy() || !body.password.Truthy() then MissingLoginFields
    else if body.email.s !in users then InvalidCredentials
    else
      var user := users[body.email.s];
      if !h.compare(body.password.s, user.passwHash) then InvalidCredentials
      else AuthReply(200, Issued(SessionToken(user, secret)))
  }

  /** An unknown email and a known email with a wrong password get identical replies. */
  lemma LoginHidesRegistration(users: map<string, User>, h: Hasher, secret: string,
                               unknown: string, p1: string, known: string, p2: string)
    requires unknown != "" && p1 != "" && known != "" && p2 != ""
    requires unknown !in users
    requires known in users && !h.compare(p2, users[known].passwHash)
    ensures Login(users, LoginBody(Str(unknown), Str(p1)), h, secret)
         == Login(users, LoginBody(Str(known), Str(p2)), h, secret)
  {
  }

  /** Right after registering, logging in with the same email and password succeeds. */
  lemma LoginAfterRegister(users: map<string, User>, h: Hasher, secret: string,
                           id: nat, name: string, email: string, password: string)
    requires Sound(h) && email != "" && password != ""
    ensures Login(users[email := User(id, name, email, h.hash(password), None)],
                  LoginBody(Str(email), Str(password)), h, secret)
         == AuthReply(200, Issued(SessionToken(User(id, name, email, h.hash(password), None), secret)))
  {
  }

  /** Registering the same email twice: the second insert fails with 500. */
  method RegisterTwice(users: UserTable, body: RegisterBody, h: Hasher)
    returns (first: AuthReply, second: AuthReply)
    requires users.Valid() && Complete(body) && body.email.s !in users.byEmail
    modifies users
    ensures first == Registered && second == RegisterFailed
    ensures users.byEmail == old(users.byEmail)[body.email.s :=
      User(old(users.nextId), body.name.s, body.email.s, h.hash(body.password.s), None)]
  {
    first := Register(users, body, h);
    second := Register(users, body, h);
  }
}
