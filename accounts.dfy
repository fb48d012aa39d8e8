// The lookups contexts/AuthContext.tsx runs over the `users` catalog: the
// duplicate-email check of registration and the email+password match of login.

module Accounts {
  import opened Types

  /** Some record is registered under exactly this email (case-sensitive). */
  predicate EmailTaken(users: seq<Credential>, email: string) {
    exists i :: 0 <= i < |users| && users[i].email == email
  }

  /** No two records share an email. */
  predicate UniqueEmails(users: seq<Credential>) {
    forall i, j :: 0 <= i < j < |users| ==> users[i].email != users[j].email
  }

  /** No two records share an id. */
  predicate UniqueAccountIds(users: seq<Credential>) {
    forall i, j :: 0 <= i < j < |users| ==> users[i].id != users[j].id
  }

  predicate Matches(c: Credential, email: string, password: string) {
    c.email == email && c.password == password
  }

  /** The position of the first record whose email and password both match exactly. */
  function FindLogin(users: seq<Credential>, email: string, password: string): (r: Option<nat>)
    ensures r.Some? ==> r.value < |users| && Matches(users[r.value], email, password)
    ensures r.Some? ==> forall k :: 0 <= k < r.value ==> !Matches(users[k], email, password)
    ensures r.None? <==> forall k :: 0 <= k < |users| ==> !Matches(users[k], email, password)
  {
    if users == [] then None
    else if Matches(users[0], email, password) then Some(0)
    else match FindLogin(users[1..], email, password)
      case None => None
      case Some(k) => Some(k + 1)
  }

  /** The account registration stores: no avatar, created and last seen at `now`. */
  function NewCredential(id: string, email: string, password: string, name: string, role: Role, now: Time): (c: Credential) {
    Credential(id, email, password, name, role, None, now, now)
  }

  /** The session record made from an account: everything but the password, with the given last-seen time. */
  function ToSession(c: Credential, lastSeen: Time): (u: User) {
    User(c.id, c.email, c.name, c.role, c.avatar, c.createdAt, lastSeen)
  }

  /** Appending an account whose email is free keeps emails unique, and takes that email. */
  lemma RegisterKeepsUniqueEmails(users: seq<Credential>, c: Credential)
    requires UniqueEmails(users) && !EmailTaken(users, c.email)
    ensures UniqueEmails(users + [c])
    ensures EmailTaken(users + [c], c.email)
  {
    var r := users + [c];
    forall i, j | 0 <= i < j < |r| ensures r[i].email != r[j].email {
      assert r[i] == users[i];
      if j < |users| {
        assert r[j] == users[j];
      }
    }
    assert r[|users|] == c;
  }

  /** Registration followed by login with the same email and password finds the new account. */
  lemma LoginAfterRegister(users: seq<Credential>, id: string, email: string, password: string,
                           name: string, role: Role, now: Time, later: Time)
    requires !EmailTaken(users, email)
    ensures var r := users + [NewCredential(id, email, password, name, role, now)];
      FindLogin(r, email, password) == Some(|users|) &&
      ToSession(r[|users|], later).id == id
  {
    var r := users + [NewCredential(id, email, password, name, role, now)];
    assert Matches(r[|users|], email, password);
    forall k | 0 <= k < |users| ensures !Matches(r[k], email, password) {
      assert r[k] == users[k];
    }
  }

  /** With unique emails, login succeeds exactly when the password of the record holding that email matches. */
  lemma LoginByEmail(users: seq<Credential>, i: nat, email: string, password: string)
    requires UniqueEmails(users) && i < |users| && users[i].email == email
    ensures FindLogin(users, email, password).Some? <==> users[i].password == password
    ensures users[i].password == password ==> FindLogin(users, email, password) == Some(i)
  {
  }

  /** An email nobody registered never logs in. */
  lemma LoginNeedsRegisteredEmail(users: seq<Credential>, email: string, password: string)
    requires !EmailTaken(users, email)
    ensures FindLogin(users, email, password) == None
  {
  }
}
