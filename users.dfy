/**
 * What the two authentication controllers share: the `usuarios` table keyed
 * by email, bcrypt as an abstract hash/compare pair, and `jwt.sign` as a
 * constructor that records the claims, the signing secret and the lifetime.
 */
module Users {
  import opened Wrappers

  /** A row of `usuarios`; `createdAt` is written only by the api variant. */
  datatype User = User(idUser: nat, name: string, email: string, passwHash: string, createdAt: Option<int>)

  /**
   * `bcrypt.hash(p, 10)` (its random salt fixed inside `hash`) and
   * `bcrypt.compare(p, h)`.
   */
  datatype Hasher = Hasher(hash: string -> string, compare: (string, string) -> bool)

  /** The one law assumed of bcrypt: a password matches its own hash. */
  ghost predicate Sound(h: Hasher) {
    forall p :: h.compare(p, h.hash(p))
  }

  datatype ClaimValue = IntClaim(n: int) | TextClaim(t: string)

  /** `jwt.sign(claims, secret, { expiresIn })`. */
  datatype Token = Signed(claims: map<string, ClaimValue>, secret: string, expiresIn: string)

  const TokenLifetime: string := "2h"

  datatype AuthBody = Message(message: string) | Issued(token: Token)

  datatype AuthReply = AuthReply(status: nat, body: AuthBody)

  class UserTable {
    /** `usuarios`, keyed by its unique `email` column. */
    var byEmail: map<string, User>
    /** The next value of the `id_user` sequence. */
    var nextId: nat

    ghost predicate Valid()
      reads this
    {
      && (forall e :: e in byEmail ==> byEmail[e].email == e && byEmail[e].idUser < nextId)
      && (forall e1, e2 :: e1 in byEmail && e2 in byEmail && e1 != e2 ==>
            byEmail[e1].idUser != byEmail[e2].idUser)
    }

    /** Two users of a valid table with the same `id_user` are one user: the token's claim names one account. */
    lemma IdNamesOneUser(e1: string, e2: string)
      requires Valid() && e1 in byEmail && e2 in byEmail
      requires byEmail[e1].idUser == byEmail[e2].idUser
      ensures e1 == e2
    {
    }

    constructor ()
      ensures Valid() && byEmail == map[]
    {
      byEmail := map[];
      nextId := 1;
    }

    /**
     * The insert into `usuarios`: a new row with the next id, or false (the
     * store's unique-email error) when the email is taken.
     */
    method Insert(name: string, email: string, passwHash: string, createdAt: Option<int>)
      returns (inserted: bool)
      requires Valid()
      modifies this
      ensures Valid()
      ensures inserted <==> email !in old(byEmail)
      ensures inserted ==>
        && byEmail == old(byEmail)[email := User(old(nextId), name, email, passwHash, createdAt)]
        && nextId == old(nextId) + 1
      ensures !inserted ==> byEmail == old(byEmail) && nextId == old(nextId)
    {
      if email in byEmail {
        return false;
      }
      byEmail := byEmail[email := User(nextId, name, email, passwHash, createdAt)];
      nextId := nextId + 1;
      inserted := true;
    }
  }
}
