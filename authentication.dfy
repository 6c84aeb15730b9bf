/**
 * Registration on top of the user-record store (auth.py).
 *
 * bcrypt is not modelled: its hash function is a value `hashpw` that the
 * service is built with, and the salt that `bcrypt.gensalt()` draws at
 * random is a parameter of each registration.
 */
module Authentication {
  import opened Wrappers
  import opened UserDb

  type Salt = string

  /** `bcrypt.hashpw`: an opaque function of the password and a salt. */
  type Hasher = (string, Salt) -> string

  /** `_hash_password`: the password hashed with a fresh salt. */
  function HashPassword(hashpw: Hasher, password: string, salt: Salt): string {
    hashpw(password, salt)
  }

  /** The lookup `register_user` performs before creating a record. */
  function EmailIs(email: string): seq<Pair> {
    [Pair("email", Str(email))]
  }

  /** The store holds a record with this email. */
  predicate Registered(users: seq<User>, email: string) {
    exists i :: 0 <= i < |users| && users[i].email == email
  }

  /** `register_user`: the result and the new store. An email already present
      raises `ValueError` and changes nothing; otherwise one record with that
      email and the hashed password is appended and returned. */
  function Register(users: seq<User>, hashpw: Hasher, email: string, password: string, salt: Salt): (r: (Result, seq<User>))
    ensures r.0.Ok? || r.0.AlreadyExists?
    ensures r.0.AlreadyExists? <==> Registered(users, email)
    ensures r.0.AlreadyExists? ==> r.1 == users
    ensures r.0.Ok? ==>
      && r.1 == users + [r.0.user]
      && r.0.user.email == email
      && r.0.user.hashedPassword == HashPassword(hashpw, password, salt)
      && r.0.user.sessionId == None && r.0.user.resetToken == None
      && forall i :: 0 <= i < |users| ==> users[i].id != r.0.user.id
  {
    var found := Find(users, EmailIs(email));
    assert found.Ok? <==> Registered(users, email) by {
      assert forall u :: SatisfiesAll(u, EmailIs(email)) <==> u.email == email by {
        forall u ensures SatisfiesAll(u, EmailIs(email)) <==> u.email == email {
          assert EmailIs(email)[0] == Pair("email", Str(email));
        }
      }
    }
    if found.Ok? then (AlreadyExists, users)
    else
      var u := NewUser(users, email, HashPassword(hashpw, password, salt));
      (Ok(u), users + [u])
  }

  /** Registration keeps ids and emails unique. */
  lemma {:induction false} RegisterPreservesUniqueness(users: seq<User>, hashpw: Hasher, email: string, password: string, salt: Salt)
    requires UniqueIds(users) && UniqueEmails(users)
    ensures UniqueIds(Register(users, hashpw, email, password, salt).1)
    ensures UniqueEmails(Register(users, hashpw, email, password, salt).1)
  {
    var r := Register(users, hashpw, email, password, salt);
    if r.0.Ok? {
      var s := r.1;
      assert forall i :: 0 <= i < |users| ==> s[i] == users[i];
      forall i, j | 0 <= i < j < |s| ensures s[i].email != s[j].email {
        if j == |users| {
          assert s[j] == r.0.user;
          assert !Registered(users, email);
        }
      }
    }
  }

  /** Registering the same email twice: the first call succeeds on a store
      without that email, and the second raises `ValueError`. */
  lemma {:induction false} RegisterTwice(users: seq<User>, hashpw: Hasher, email: string, p1: string, s1: Salt, p2: string, s2: Salt)
    requires !Registered(users, email)
    ensures Register(users, hashpw, email, p1, s1).0.Ok?
    ensures Register(Register(users, hashpw, email, p1, s1).1, hashpw, email, p2, s2).0 == AlreadyExists
  {
    var after := Register(users, hashpw, email, p1, s1).1;
    assert after[|users|].email == email;
  }

  /** A fresh service has an empty store, so any first registration succeeds
      and stores exactly one record. */
  lemma {:induction false} FirstRegistration(hashpw: Hasher, email: string, password: string, salt: Salt)
    ensures Register([], hashpw, email, password, salt).0.Ok?
    ensures |Register([], hashpw, email, password, salt).1| == 1
  {
  }

  /** The authentication service: a private store and the hash function it uses. */
  class Auth {
    const db: DB
    const hashpw: Hasher

    ghost predicate Valid()
      reads db
    {
      db.Valid() && UniqueEmails(db.users)
    }

    /** `Auth()` creates its own, empty store. */
    constructor (hashpw: Hasher)
      ensures Valid() && fresh(db) && db.users == [] && this.hashpw == hashpw
    {
      db := new DB();
      this.hashpw := hashpw;
    }

    /** `register_user`: look the email up first, create the record only when
        the lookup finds nothing. */
    method RegisterUser(email: string, password: string, salt: Salt) returns (r: Result)
      requires Valid()
      modifies db
      ensures Valid()
      ensures (r, db.users) == Register(old(db.users), hashpw, email, password, salt)
    {
      RegisterPreservesUniqueness(db.users, hashpw, email, password, salt);
      var found := db.FindUserBy(EmailIs(email));
      if found.Ok? {
        r := AlreadyExists;
      } else {
        var u := db.AddUser(email, HashPassword(hashpw, password, salt));
        r := Ok(u);
      }
    }
  }
}
