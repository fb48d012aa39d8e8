// The demo accounts of utils/demoData.ts, written to the `users` key on first launch.

module DemoData {
  import opened Types
  import opened Accounts

  const DemoPassword: string := "password"

  /** The four demo accounts, one per role, all created and last seen at `now`. */
  function DemoUsers(now: Time): (r: seq<Credential>) {
    [ Credential("demo-student", "student@demo.com", DemoPassword, "Alex Student", Student, None, now, now),
      Credential("demo-teacher", "teacher@demo.com", DemoPassword, "Sarah Teacher", Teacher, None, now, now),
      Credential("demo-admin", "admin@demo.com", DemoPassword, "Mike Admin", Admin, None, now, now),
      Credential("demo-dev", "dev@demo.com", DemoPassword, "Jordan Developer", Dev, None, now, now) ]
  }

  /** The number of accounts holding `role`. */
  function CountRole(users: seq<Credential>, role: Role): (n: nat)
    ensures n <= |users|
    ensures n == 0 <==> forall i :: 0 <= i < |users| ==> users[i].role != role
  {
    if users == [] then 0
    else (if users[0].role == role then 1 else 0) + CountRole(users[1..], role)
  }

  /** Seed the demo accounts unless the `users` key already holds a value. */
  method InitializeDemoUsers(store: Store, now: Time)
    modifies store`users
    ensures old(store.users).Some? ==> store.users == old(store.users)
    ensures old(store.users).None? ==> store.users == Some(DemoUsers(now))
  {
    if store.users.Some? {
      return;
    }
    store.users := Some(DemoUsers(now));
  }

  /** Four accounts with distinct emails and ids, every role exactly once, every password "password". */
  lemma DemoUsersShape(now: Time)
    ensures |DemoUsers(now)| == 4
    ensures UniqueEmails(DemoUsers(now)) && UniqueAccountIds(DemoUsers(now))
    ensures forall role :: CountRole(DemoUsers(now), role) == 1
    ensures forall c :: c in DemoUsers(now) ==> c.password == DemoPassword
  {
    var d := DemoUsers(now);
    assert d[1..] == [d[1], d[2], d[3]] && d[1..][1..] == [d[2], d[3]];
    assert d[1..][1..][1..] == [d[3]] && [d[3]][1..] == [];
    forall role ensures CountRole(d, role) == 1 {
      assert CountRole([d[3]], role) == if role == Dev then 1 else 0;
      assert CountRole([d[2], d[3]], role) == if role == Admin || role == Dev then 1 else 0;
      assert CountRole(d[1..], role) == if role == Student then 0 else 1;
    }
  }

  /** Every demo account logs in with "password", and registering any demo email again is refused. */
  lemma DemoLogins(now: Time)
    ensures FindLogin(DemoUsers(now), "student@demo.com", DemoPassword) == Some(0)
    ensures FindLogin(DemoUsers(now), "teacher@demo.com", DemoPassword) == Some(1)
    ensures FindLogin(DemoUsers(now), "admin@demo.com", DemoPassword) == Some(2)
    ensures FindLogin(DemoUsers(now), "dev@demo.com", DemoPassword) == Some(3)
    ensures forall c :: c in DemoUsers(now) ==> EmailTaken(DemoUsers(now), c.email)
  {
    var d := DemoUsers(now);
    DemoUsersShape(now);
    LoginByEmail(d, 0, "student@demo.com", DemoPassword);
    LoginByEmail(d, 1, "teacher@demo.com", DemoPassword);
    LoginByEmail(d, 2, "admin@demo.com", DemoPassword);
    LoginByEmail(d, 3, "dev@demo.com", DemoPassword);
  }
}
