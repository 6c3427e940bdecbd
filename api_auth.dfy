/**
 * `register` and `login` of the api's authentication controller. Register
 * looks the email up first and refuses a taken one. Login has no
 * required-field check and answers an unknown email and a wrong password
 * with different messages. Non-string JSON values in the body are not
 * modelled; a missing email never matches a registered one.
 */
module ApiAuth {
  import opened Wrappers
  import opened Json
  import opened Users

  datatype RegisterBody = RegisterBody(name: JsonField, email: JsonField, password: JsonField)

  datatype LoginBody = LoginBody(email: JsonField, password: JsonField)

  const MissingFields: AuthReply := AuthReply(400, Message("Nombre, Email y contraseña son requeridos"))
  const UserExists: AuthReply := AuthReply(400, Message("Usuario ya existe"))
  const Created: AuthReply := AuthReply(201, Message("Usuario creado correctamente"))
  const RegisterError: AuthReply := AuthReply(500, Message("Error en registro"))
  const UnknownUser: AuthReply := AuthReply(401, Message("Credenciales inválidas"))
  const WrongPassword: AuthReply := AuthReply(401, Message("Contraseña incorrecta"))
  const LoginError: AuthReply := AuthReply(500, Message("Error en inicio de sesión"))

  predicate Complete(body: RegisterBody) {
    body.name.Truthy() && body.email.Truthy() && body.password.Truthy()
  }

  /**
   * `register`: 400 unless name, email and password are truthy; 400
   * "Usuario ya existe" when the email is registered; otherwise 201 and one
   * new user holding `hash(password)` and the creation time.
   */
  method Register(users: UserTable, body: RegisterBody, h: Hasher, now: int) returns (reply: AuthReply)
    requires users.Valid()
    modifies users
    ensures users.Valid()
    ensures !Complete(body) ==> reply == MissingFields && users.byEmail == old(users.byEmail)
    ensures Complete(body) && body.email.s in old(users.byEmail) ==>
      reply == UserExists && users.byEmail == old(users.byEmail)
    ensures Complete(body) && body.email.s !in old(users.byEmail) ==>
      && reply == Created
      && users.byEmail == old(users.byEmail)[body.email.s :=
           User(old(users.nextId), body.name.s, body.email.s, h.hash(body.password.s), Some(now))]
  {
    if !body.name.Truthy() || !body.email.Truthy() || !body.password.Truthy() {
      return MissingFields;
    }
    if body.email.s in users.byEmail {
      return UserExists;
    }
    var hashedPassword := h.hash(body.password.s);
    var inserted := users.Insert(body.name.s, body.email.s, hashedPassword, Some(now));
    if !inserted {
      return RegisterError;
    }
    reply := Created;
  }

  /** The token a successful api login issues: `{ id, name, email }`, valid for 2h. */
  function ProfileToken(user: User, secret: string): (t: Token)
    ensures t.claims.Keys == {"id", "name", "email"}
    ensures t.claims["id"] == IntClaim(user.idUser)
    ensures t.claims["name"] == TextClaim(user.name) && t.claims["email"] == TextClaim(user.email)
    ensures t.expiresIn == "2h" && t.secret == secret
  {
    Signed(map["id" := IntClaim(user.idUser), "name" := TextClaim(user.name),
               "email" := TextClaim(user.email)], secret, TokenLifetime)
  }

  /**
   * `login`: 401 "Credenciales inválidas" for an unknown email; for a known
   * one, 500 when no password string was sent (bcrypt.compare rejects),
   * 401 "Contraseña incorrecta" for a wrong password, else 200 with a token.
   */
  function Login(users: map<string, User>, body: LoginBody, h: Hasher, secret: string): (r: AuthReply)
    ensures r == UnknownUser <==> !(body.email.Str? && body.email.s in users)
    ensures r == LoginError <==> body.email.Str? && body.email.s in users && !body.password.Str?
    ensures r == WrongPassword <==>
      && body.email.Str? && body.email.s in users && body.password.Str?
      && !h.compare(body.password.s, users[body.email.s].passwHash)
    ensures r.status == 200 <==>
      && body.email.Str? && body.email.s in users && body.password.Str?
      && h.compare(body.password.s, users[body.email.s].passwHash)
    ensures r.status == 200 ==> r.body == Issued(ProfileToken(users[body.email.s], secret))
  {
    if !body.email.Str? || body.email.s !in users then UnknownUser
    else
      var user := users[body.email.s];
      if !body.password.Str? then LoginError
      else if !h.compare(body.password.s, user.passwHash) then WrongPassword
      else AuthReply(200, Issued(ProfileToken(user, secret)))
  }

  /**
   * The reply tells whether an email is registered: with any password that
   * does not match, "Credenciales inválidas" comes back exactly for the
   * unregistered emails.
   */
  lemma LoginRevealsRegistration(users: map<string, User>, h: Hasher, secret: string, email: string, password: string)
    requires email in users ==> !h.compare(password, users[email].passwHash)
    ensures Login(users, LoginBody(Str(email), Str(password)), h, secret) == UnknownUser <==> email !in users
    ensures Login(users, LoginBody(Str(email), Str(password)), h, secret) == WrongPassword <==> email in users
  {
  }

  /** Right after registering, logging in with the same email and password succeeds. */
  lemma LoginAfterRegister(users: map<string, User>, h: Hasher, secret: string,
                           id: nat, name: string, email: string, password: string, now: int)
    requires Sound(h)
    ensures Login(users[email := User(id, name, email, h.hash(password), Some(now))],
                  LoginBody(Str(email), Str(password)), h, secret)
         == AuthReply(200, Issued(ProfileToken(User(id, name, email, h.hash(password), Some(now)), secret)))
  {
  }

  /** Registering the same email twice: the second attempt is refused and inserts nothing. */
  method RegisterTwice(users: UserTable, body: RegisterBody, h: Hasher, now: int)
    returns (first: AuthReply, second: AuthReply)
    requires users.Valid() && Complete(body) && body.email.s !in users.byEmail
    modifies users
    ensures first == Created && second == UserExists
    ensures users.byEmail == old(users.byEmail)[body.email.s :=
      User(old(users.nextId), body.name.s, body.email.s, h.hash(body.password.s), Some(now))]
  {
    first := Register(users, body, h, now);
    second := Register(users, body, h, now);
  }
}
