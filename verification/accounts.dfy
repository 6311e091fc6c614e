/**
The credential service: registration with a unique email and login by email
and password. The salted one-way hash is outside the model: registration
receives the hash already computed, and login receives the hash check as a
function parameter.
*/
module Accounts {
  import opened Types

  /** The position of the first user with the given email, if any. */
  function FindByEmail(users: seq<User>, email: string): (r: Option<nat>)
    ensures r.Some? ==> r.value < |users| && users[r.value].email == email
    ensures r.Some? ==> forall j :: 0 <= j < r.value ==> users[j].email != email
    ensures r.None? ==> forall j :: 0 <= j < |users| ==> users[j].email != email
  {
    if |users| == 0 then None
    else if users[0].email == email then Some(0)
    else match FindByEmail(users[1..], email)
      case None => None
      case Some(i) => Some(i + 1)
  }

  /**
  Registers an account. It fails, leaving the store unchanged, when the email
  is already taken; otherwise the new user is appended under the next user id.
  No other field is validated here.
  */
  function Register(st: Store, name: string, email: string, phone: string, passwordHash: string, role: Role)
    : (r: (Store, bool))
    ensures r.1 <==> forall j :: 0 <= j < |st.users| ==> st.users[j].email != email
    ensures !r.1 ==> r.0 == st
    ensures r.1 ==>
      && r.0.slots == st.slots && r.0.bookings == st.bookings && r.0.nextBookingId == st.nextBookingId
      && |r.0.users| == |st.users| + 1 && r.0.users[..|st.users|] == st.users
      && r.0.users[|st.users|] == User(name, email, phone, passwordHash, role)
    ensures EmailsUnique(st.users) ==> EmailsUnique(r.0.users)
  {
    if FindByEmail(st.users, email).Some? then (st, false)
    else
      var users := st.users + [User(name, email, phone, passwordHash, role)];
      assert users[..|st.users|] == st.users;
      (st.(users := users), true)
  }

  /**
  Logs in: the first user with that email is returned, with its user id,
  when `check(password, storedHash)` accepts; an unknown email and a wrong
  password both give `None`.
  */
  function Authenticate(st: Store, email: string, password: string, check: (string, string) -> bool)
    : (r: Option<(nat, User)>)
    ensures r.Some? ==>
      && 1 <= r.value.0 <= |st.users| && st.users[r.value.0 - 1] == r.value.1
      && r.value.1.email == email && check(password, r.value.1.passwordHash)
    ensures r.None? <==>
      || (forall j :: 0 <= j < |st.users| ==> st.users[j].email != email)
      || !check(password, st.users[FindByEmail(st.users, email).value].passwordHash)
  {
    match FindByEmail(st.users, email)
    case None => None
    case Some(i) =>
      if check(password, st.users[i].passwordHash) then Some((i + 1, st.users[i])) else None
  }

  /**
  With unique emails, login fails exactly when no account with that email
  has a hash the password checks against.
  */
  lemma AuthenticateFailsExactly(st: Store, email: string, password: string, check: (string, string) -> bool)
    requires EmailsUnique(st.users)
    ensures Authenticate(st, email, password, check).None? <==>
      forall j :: 0 <= j < |st.users| && st.users[j].email == email ==> !check(password, st.users[j].passwordHash)
  {
  }

  /**
  Registering and then logging in with a password that the hash check accepts
  for the stored hash yields the new account and its user id.
  */
  lemma RegisterThenAuthenticate(st: Store, name: string, email: string, phone: string, password: string,
                                 passwordHash: string, role: Role, check: (string, string) -> bool)
    requires check(password, passwordHash)
    requires forall j :: 0 <= j < |st.users| ==> st.users[j].email != email
    ensures var st' := Register(st, name, email, phone, passwordHash, role).0;
      Authenticate(st', email, password, check) == Some((|st.users| + 1, User(name, email, phone, passwordHash, role)))
  {
  }

  /** Registration keeps the global invariant. */
  lemma RegisterPreservesValid(st: Store, name: string, email: string, phone: string, passwordHash: string, role: Role)
    requires Valid(st)
    ensures Valid(Register(st, name, email, phone, passwordHash, role).0)
  {
  }
}
