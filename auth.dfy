/** The credential store of the web backend: registration with a duplicate
    check on the exact email string, and authentication that answers `None`
    alike for an unknown email and a wrong password. Password hashing is the
    password library's business; it is modelled by a hash function and a
    verification predicate that the store receives, about which only one
    fact is assumed (`HashSound`). */
module Auth {
  import opened Wrappers
  import opened UserModel

  /** `hash_password` and `verify_password`. */
  datatype PasswordHasher = PasswordHasher(
    hash: string -> string,
    verify: (string, string) -> bool)

  /** The one property of the hashing scheme the store relies on: a password
      verifies against its own hash. */
  ghost predicate HashSound(h: PasswordHasher)
  {
    forall p :: h.verify(p, h.hash(p))
  }

  /** Some stored user has exactly this email (no case folding). */
  predicate EmailTaken(users: map<int, User>, email: string)
  {
    exists id :: id in users && users[id].email == email
  }

  /** The unique index on `user.email`. */
  ghost predicate EmailsUnique(users: map<int, User>)
  {
    forall a, b :: a in users && b in users && users[a].email == users[b].email ==> a == b
  }

  /** `select(User).where(User.email == email).first()`. */
  function FindByEmail(users: map<int, User>, email: string): (r: Option<User>)
    requires EmailsUnique(users)
    ensures r.Some? <==> EmailTaken(users, email)
    ensures r.Some? ==> exists id :: id in users && users[id] == r.value && r.value.email == email
  {
    if EmailTaken(users, email) then
      var id :| id in users && users[id].email == email;
      Some(users[id])
    else
      None
  }

  /** `authenticate_user`: the user with this email when the password
      verifies against the stored hash; `None` both for an unknown email and
      for a wrong password. It only reads the table. */
  function Authenticate(users: map<int, User>, email: string, password: string, h: PasswordHasher)
    : (r: Option<User>)
    requires EmailsUnique(users)
    ensures r.Some? <==>
              exists id :: id in users && users[id].email == email
                             && h.verify(password, users[id].hashedPassword)
    ensures r.Some? ==> r.value.email == email && h.verify(password, r.value.hashedPassword)
    ensures r.Some? ==> exists id :: id in users && users[id] == r.value
    ensures !EmailTaken(users, email) ==> r == None
  {
    var found := FindByEmail(users, email);
    if found.None? then None
    else if !h.verify(password, found.value.hashedPassword) then None
    else found
  }

  /** A user just added under a new id and a new email is found by email,
      and with a sound hashing scheme the password it registered with
      authenticates it. */
  lemma RegisteredUserAuthenticates(users: map<int, User>, u: User, password: string, h: PasswordHasher)
    requires EmailsUnique(users) && !EmailTaken(users, u.email) && u.id !in users
    requires u.hashedPassword == h.hash(password) && HashSound(h)
    ensures EmailsUnique(users[u.id := u])
    ensures Authenticate(users[u.id := u], u.email, password, h) == Some(u)
  {
    var after := users[u.id := u];
    assert after[u.id].email == u.email;
    var r := Authenticate(after, u.email, password, h);
    assert h.verify(password, h.hash(password));
    assert r.Some?;
  }

  class UserStore {
    var users: map<int, User>
    var nextId: int

    /** Every user sits under its own id below the next id, and no two
        users share an email. */
    ghost predicate Valid()
      reads this
    {
      && 1 <= nextId
      && (forall id :: id in users ==> 1 <= id < nextId)
      && KeyedById(users)
      && EmailsUnique(users)
    }

    constructor ()
      ensures Valid()
      ensures users == map[] && nextId == 1
    {
      users := map[];
      nextId := 1;
    }

    /** `register_user`: `None` and no write when the email is taken;
        otherwise one new user with that email, the hash of the password and
        creation time `now`, under a fresh id. */
    method RegisterUser(email: string, password: string, h: PasswordHasher, now: nat)
      returns (r: Option<User>)
      requires Valid()
      modifies this
      ensures Valid()
      ensures r.None? <==> EmailTaken(old(users), email)
      ensures r.None? ==> users == old(users) && nextId == old(nextId)
      ensures r.Some? ==>
                && r.value == User(old(nextId), email, h.hash(password), now)
                && r.value.id !in old(users)
                && users == old(users)[r.value.id := r.value]
                && nextId == old(nextId) + 1
    {
      if EmailTaken(users, email) {
        return None;
      }
      var user := User(nextId, email, h.hash(password), now);
      users := users[nextId := user];
      nextId := nextId + 1;
      return Some(user);
    }
  }
}
