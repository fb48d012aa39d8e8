// The identity directory of contexts/AuthContext.tsx: the session user, and
// the operations that read and write the `users` and `user` store keys.

module Auth {
  import opened Types
  import opened Accounts
  import opened DemoData

  class AuthDirectory {
    const store: Store
    /** The signed-in user, if any. */
    var user: Option<User>
    /** True until the stored session has been looked up. */
    var isLoading: bool

    constructor (store: Store)
      ensures this.store == store && user == None && isLoading
    {
      this.store := store;
      user := None;
      isLoading := true;
    }

    /** Start-up: seed the demo accounts, then restore the stored session. */
    method InitializeApp(now: Time)
      modifies this, store`users
      ensures old(store.users).Some? ==> store.users == old(store.users)
      ensures old(store.users).None? ==> store.users == Some(DemoUsers(now))
      ensures user == if store.user.Some? then store.user else old(user)
      ensures !isLoading
    {
      InitializeDemoUsers(store, now);
      LoadStoredUser();
    }

    /** A stored session record becomes the session as it is; without one the session is left alone. */
    method LoadStoredUser()
      modifies this
      ensures user == if store.user.Some? then store.user else old(user)
      ensures !isLoading
    {
      if store.user.Some? {
        user := store.user;
      }
      isLoading := false;
    }

    /**
     * The first account matching email and password exactly becomes the
     * session, last seen at `now`, and is stored under `user`. A failed
     * attempt changes nothing. The `users` catalog is never written.
     */
    method Login(email: string, password: string, now: Time) returns (ok: bool)
      modifies this`user, store`user
      ensures store.users == old(store.users)
      ensures var found := FindLogin(OrEmpty(store.users), email, password);
        && (ok <==> found.Some?)
        && (ok ==> user == Some(ToSession(OrEmpty(store.users)[found.value], now)) && store.user == user)
      ensures !ok ==> user == old(user) && store.user == old(store.user)
    {
      var users := OrEmpty(store.users);
      var found := FindLogin(users, email, password);
      if found.None? {
        return false;
      }
      var session := ToSession(users[found.value], now);
      user := Some(session);
      store.user := Some(session);
      return true;
    }

    /**
     * Refused, with nothing written, when some account already has exactly this
     * email. Otherwise the new account is appended to `users`, and its record
     * without the password becomes the session and is stored under `user`.
     */
    method Register(id: string, email: string, password: string, name: string, role: Role, now: Time)
      returns (ok: bool)
      modifies this`user, store`users, store`user
      ensures ok <==> !EmailTaken(OrEmpty(old(store.users)), email)
      ensures !ok ==> user == old(user) && store.users == old(store.users) && store.user == old(store.user)
      ensures ok ==>
        var account := NewCredential(id, email, password, name, role, now);
        && store.users == Some(OrEmpty(old(store.users)) + [account])
        && user == Some(ToSession(account, now))
        && store.user == user
    {
      var users := OrEmpty(store.users);
      if EmailTaken(users, email) {
        return false;
      }
      var account := NewCredential(id, email, password, name, role, now);
      store.users := Some(users + [account]);
      var session := ToSession(account, now);
      user := Some(session);
      store.user := Some(session);
      return true;
    }

    /** Clear the session and remove the `user` key; doing it again changes nothing more. */
    method Logout()
      modifies this`user, store`user
      ensures user == None && store.user == None
    {
      user := None;
      store.user := None;
    }
  }

  /** The session made at registration carries the new account's id, email, name and role, and no avatar. */
  lemma RegisterSession(id: string, email: string, password: string, name: string, role: Role, now: Time)
    ensures var s := ToSession(NewCredential(id, email, password, name, role, now), now);
      s.id == id && s.email == email && s.name == name && s.role == role &&
      s.avatar == None && s.createdAt == now && s.lastSeen == now
  {
  }
}
