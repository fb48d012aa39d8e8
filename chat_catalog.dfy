// The room directory of contexts/ChatContext.tsx: the catalog of rooms kept
// under the `chats` key, its default seeding, and the per-room updates made by
// sending a message, creating a room, joining and leaving.

module ChatCatalog {
  import opened Types
  import opened Seqs
  import opened AccessPolicy

  /** The three rooms every catalog is seeded with, all created at `now`. */
  function DefaultChats(now: Time): (r: seq<Chat>) {
    [ Chat("general", "General Discussion", Some("General chat for all students"),
           [], [], now, None, false, Some(AllRoles)),
      Chat("study-group", "Study Group", Some("Collaborative study discussions"),
           [], [], now, None, false, Some(AllRoles)),
      Chat("dev-chat", "Dev Chat", Some("Special chat for developers only"),
           [], [], now, None, true, Some([Dev, Admin])) ]
  }

  /** Some room of the catalog carries this id. */
  predicate HasChat(chats: seq<Chat>, id: string) {
    exists i :: 0 <= i < |chats| && chats[i].id == id
  }

  /** No two rooms share an id. */
  predicate UniqueIds(chats: seq<Chat>) {
    forall i, j :: 0 <= i < j < |chats| ==> chats[i].id != chats[j].id
  }

  /** `lastMessage` is the last entry of the log, and absent for an empty log. */
  predicate LastMessageTracks(c: Chat) {
    if |c.messages| == 0 then c.lastMessage == None
    else c.lastMessage == Some(c.messages[|c.messages| - 1])
  }

  /** The two catalog invariants: `lastMessage` tracks the log, and participants form a set. */
  predicate WellFormed(chats: seq<Chat>) {
    forall i :: 0 <= i < |chats| ==> LastMessageTracks(chats[i]) && NoDuplicates(chats[i].participants)
  }

  // ---------------------------------------------------------------------------
  // Default seeding

  /**
   * The catalog after going through `defaults` in order, appending each one
   * whose id is not yet present (presence is checked against the catalog as
   * grown so far).
   */
  function SeedFrom(existing: seq<Chat>, defaults: seq<Chat>): (r: seq<Chat>)
    decreases |defaults|
  {
    if defaults == [] then existing
    else
      var before := SeedFrom(existing, defaults[..|defaults| - 1]);
      var d := defaults[|defaults| - 1];
      if HasChat(before, d.id) then before else before + [d]
  }

  /** The seeding loop: go through the defaults, push each missing one, and note whether anything was pushed. */
  method SeedDefaults(existing: seq<Chat>, now: Time) returns (result: seq<Chat>, needsUpdate: bool)
    ensures result == SeedFrom(existing, DefaultChats(now))
    ensures needsUpdate <==> result != existing
  {
    var defaults := DefaultChats(now);
    result, needsUpdate := existing, false;
    for i := 0 to |defaults|
      invariant result == SeedFrom(existing, defaults[..i])
      invariant |result| >= |existing| && result[..|existing|] == existing
      invariant needsUpdate <==> |result| > |existing|
    {
      assert defaults[..i + 1][..i] == defaults[..i];
      if !HasChat(result, defaults[i].id) {
        result := result + [defaults[i]];
        needsUpdate := true;
      }
    }
    assert defaults[..|defaults|] == defaults;
  }

  /** Seeding keeps the existing rooms, in place, and appends only defaults whose id was missing. */
  lemma {:induction false} SeedExtends(existing: seq<Chat>, defaults: seq<Chat>)
    ensures var r := SeedFrom(existing, defaults);
      |r| >= |existing| && r[..|existing|] == existing &&
      forall k :: |existing| <= k < |r| ==> r[k] in defaults && !HasChat(existing, r[k].id)
    decreases |defaults|
  {
    if defaults != [] {
      var init := defaults[..|defaults| - 1];
      SeedExtends(existing, init);
      var before := SeedFrom(existing, init);
      var d := defaults[|defaults| - 1];
      forall k | |existing| <= k < |before| ensures before[k] in defaults {
        assert before[k] in init;
      }
      if !HasChat(before, d.id) {
        var r := before + [d];
        assert r[..|existing|] == before[..|existing|];
      }
    }
  }

  /** After seeding, every default id is present. */
  lemma {:induction false} SeedCovers(existing: seq<Chat>, defaults: seq<Chat>)
    ensures forall c :: c in defaults ==> HasChat(SeedFrom(existing, defaults), c.id)
    decreases |defaults|
  {
    if defaults != [] {
      var init := defaults[..|defaults| - 1];
      SeedCovers(existing, init);
      var before := SeedFrom(existing, init);
      var d := defaults[|defaults| - 1];
      var r := SeedFrom(existing, defaults);
      forall c | c in defaults ensures HasChat(r, c.id) {
        if c in init {
          var i :| 0 <= i < |before| && before[i].id == c.id;
          assert r[i] == before[i];
        } else {
          assert c == d;
          if !HasChat(before, d.id) {
            assert r[|before|] == d;
          }
        }
      }
    }
  }

  /** Seeding a catalog that already holds every default id changes nothing. */
  lemma {:induction false} SeedNoop(existing: seq<Chat>, defaults: seq<Chat>)
    requires forall c :: c in defaults ==> HasChat(existing, c.id)
    ensures SeedFrom(existing, defaults) == existing
    decreases |defaults|
  {
    if defaults != [] {
      var init := defaults[..|defaults| - 1];
      assert forall c :: c in init ==> c in defaults;
      SeedNoop(existing, init);
      assert defaults[|defaults| - 1] in defaults;
    }
  }

  /** Seeding twice adds nothing the second time. */
  lemma SeedIdempotent(existing: seq<Chat>, defaults: seq<Chat>)
    ensures SeedFrom(SeedFrom(existing, defaults), defaults) == SeedFrom(existing, defaults)
  {
    SeedCovers(existing, defaults);
    SeedNoop(SeedFrom(existing, defaults), defaults);
  }

  /** The catalog is written back exactly when some default id was missing. */
  lemma SeedGrowsIffMissing(existing: seq<Chat>, defaults: seq<Chat>)
    ensures SeedFrom(existing, defaults) != existing <==>
      exists c :: c in defaults && !HasChat(existing, c.id)
  {
    if forall c :: c in defaults ==> HasChat(existing, c.id) {
      SeedNoop(existing, defaults);
    } else {
      SeedCovers(existing, defaults);
    }
  }

  /** Seeding never gives two rooms the same id, whatever the defaults are. */
  lemma {:induction false} SeedKeepsUniqueIds(existing: seq<Chat>, defaults: seq<Chat>)
    requires UniqueIds(existing)
    ensures UniqueIds(SeedFrom(existing, defaults))
    decreases |defaults|
  {
    if defaults != [] {
      var init := defaults[..|defaults| - 1];
      SeedKeepsUniqueIds(existing, init);
      var before := SeedFrom(existing, init);
      var d := defaults[|defaults| - 1];
      if !HasChat(before, d.id) {
        var r := before + [d];
        forall i, j | 0 <= i < j < |r| ensures r[i].id != r[j].id {
          if j == |before| {
            assert r[i] == before[i];
          } else {
            assert r[i] == before[i] && r[j] == before[j];
          }
        }
      }
    }
  }

  /** On an empty store the seeded catalog is exactly the three default rooms, in order. */
  lemma SeedEmpty(now: Time)
    ensures SeedFrom([], DefaultChats(now)) == DefaultChats(now)
  {
    var d := DefaultChats(now);
    assert d[..1][..0] == [] && d[..2][..1] == d[..1] && d[..3] == d && d[..3][..2] == d[..2];
    assert SeedFrom([], d[..1]) == [d[0]] by {
      assert !HasChat([], d[0].id);
    }
    assert SeedFrom([], d[..2]) == [d[0], d[1]] by {
      assert !HasChat([d[0]], d[1].id);
      assert d[..2][1] == d[1];
    }
    assert SeedFrom([], d[..3]) == d by {
      assert !HasChat([d[0], d[1]], d[2].id);
      assert d[..3][2] == d[2];
    }
  }

  /** Students and teachers see `general` and `study-group`; admins and developers also see `dev-chat`; nobody signed out sees any. */
  lemma DefaultVisibility(now: Time, u: User)
    ensures VisibleChats(DefaultChats(now), Some(u)) ==
      if u.role == Student || u.role == Teacher then DefaultChats(now)[..2] else DefaultChats(now)
    ensures VisibleChats(DefaultChats(now), None) == []
  {
    var d := DefaultChats(now);
    assert d[1..] == [d[1], d[2]] && d[1..][1..] == [d[2]] && [d[2]][1..] == [];
    assert d[..2] == [d[0], d[1]];
    assert u.role in AllRoles by {
      assert AllRoles == [Student, Teacher, Admin, Dev];
      match u.role
      case Student => assert AllRoles[0] == Student;
      case Teacher => assert AllRoles[1] == Teacher;
      case Admin => assert AllRoles[2] == Admin;
      case Dev => assert AllRoles[3] == Dev;
    }
    assert IsVisible(d[0], Some(u)) && IsVisible(d[1], Some(u));
    assert IsVisible(d[2], Some(u)) <==> u.role == Dev || u.role == Admin;
    assert !IsVisible(d[0], None) && !IsVisible(d[1], None) && !IsVisible(d[2], None);
    var w := Some(u);
    assert VisibleChats([d[2]], w) == (if IsVisible(d[2], w) then [d[2]] else []);
    assert VisibleChats(d[1..], w) == [d[1]] + VisibleChats([d[2]], w);
    assert VisibleChats(d, w) == [d[0]] + VisibleChats(d[1..], w);
    assert VisibleChats([d[2]], None) == [];
    assert VisibleChats(d[1..], None) == [];
  }

  /** The default rooms satisfy the catalog invariants and have distinct ids. */
  lemma DefaultsWellFormed(now: Time)
    ensures WellFormed(DefaultChats(now)) && UniqueIds(DefaultChats(now))
  {
  }

  /** Seeding a well-formed catalog leaves it well-formed. */
  lemma SeedKeepsWellFormed(existing: seq<Chat>, now: Time)
    requires WellFormed(existing)
    ensures WellFormed(SeedFrom(existing, DefaultChats(now)))
  {
    var defaults := DefaultChats(now);
    var r := SeedFrom(existing, defaults);
    SeedExtends(existing, defaults);
    DefaultsWellFormed(now);
    forall i | 0 <= i < |r| ensures LastMessageTracks(r[i]) && NoDuplicates(r[i].participants) {
      if i < |existing| {
        assert r[i] == r[..|existing|][i];
      } else {
        var j :| 0 <= j < |defaults| && defaults[j] == r[i];
      }
    }
  }

  // ---------------------------------------------------------------------------
  // Sending a message

  /** The message `user` sends at `now`, stamped with the sender's identity and the target room. */
  function NewMessage(id: string, text: string, user: User, chatId: string, now: Time): (m: Message)
    ensures m.userId == user.id && m.userName == user.name && m.userRole == user.role
    ensures m.chatId == chatId && m.text == text && m.id == id && m.timestamp == now
  {
    Message(id, text, user.id, user.name, user.role, now, chatId)
  }

  /** Every room with id `chatId` gets `m` appended to its log and as its `lastMessage`. */
  function AppendMessage(chats: seq<Chat>, chatId: string, m: Message): (r: seq<Chat>) {
    seq(|chats|, i requires 0 <= i < |chats| =>
      if chats[i].id == chatId then chats[i].(messages := chats[i].messages + [m], lastMessage := Some(m))
      else chats[i])
  }

  /**
   * Sending touches only the addressed room: its log grows by exactly `m` at
   * the end and `m` becomes its last message; every other field and every
   * other room stay as they were.
   */
  lemma SendMessageEffect(chats: seq<Chat>, chatId: string, m: Message)
    ensures var r := AppendMessage(chats, chatId, m);
      |r| == |chats| &&
      forall i :: 0 <= i < |chats| ==>
        if chats[i].id == chatId then
          && r[i].messages[..|chats[i].messages|] == chats[i].messages
          && |r[i].messages| == |chats[i].messages| + 1
          && r[i].messages[|chats[i].messages|] == m
          && r[i].lastMessage == Some(m)
          && r[i].(messages := chats[i].messages, lastMessage := chats[i].lastMessage) == chats[i]
        else r[i] == chats[i]
  {
  }

  /** Sending to an id no room carries writes the same catalog back. */
  lemma SendToUnknownChat(chats: seq<Chat>, chatId: string, m: Message)
    requires !HasChat(chats, chatId)
    ensures AppendMessage(chats, chatId, m) == chats
  {
  }

  /** Sending keeps every room's `lastMessage` equal to the end of its log, and participants unchanged. */
  lemma SendKeepsWellFormed(chats: seq<Chat>, chatId: string, m: Message)
    requires WellFormed(chats)
    ensures WellFormed(AppendMessage(chats, chatId, m))
  {
  }

  /** The catalog and its ids are unchanged in shape by a send. */
  lemma SendKeepsIds(chats: seq<Chat>, chatId: string, m: Message)
    ensures UniqueIds(chats) ==> UniqueIds(AppendMessage(chats, chatId, m))
    ensures forall id :: HasChat(AppendMessage(chats, chatId, m), id) <==> HasChat(chats, id)
  {
    var r := AppendMessage(chats, chatId, m);
    forall id | HasChat(chats, id) ensures HasChat(r, id) {
      var i :| 0 <= i < |chats| && chats[i].id == id;
      assert r[i].id == id;
    }
  }

  // ---------------------------------------------------------------------------
  // Creating a room

  /** A new room: empty log, no last message, and the creator (if signed in) as its only participant. */
  function NewChat(id: string, name: string, description: Option<string>, isPrivate: bool,
                   allowedRoles: Option<seq<Role>>, user: Option<User>, now: Time): (c: Chat)
  {
    Chat(id, name, description, if user.Some? then [user.value.id] else [], [], now, None, isPrivate, allowedRoles)
  }

  /** Appending a new room keeps the catalog invariants, and the new room is listed exactly for those it is visible to. */
  lemma CreateChatEffect(chats: seq<Chat>, id: string, name: string, description: Option<string>,
                         isPrivate: bool, allowedRoles: Option<seq<Role>>, user: Option<User>, now: Time,
                         viewer: Option<User>)
    ensures var c := NewChat(id, name, description, isPrivate, allowedRoles, user, now);
      && (WellFormed(chats) ==> WellFormed(chats + [c]))
      && c.messages == [] && c.lastMessage == None
      && c.participants == (if user.Some? then [user.value.id] else [])
      && VisibleChats(chats + [c], viewer) ==
         VisibleChats(chats, viewer) + (if IsVisible(c, viewer) then [c] else [])
  {
    var c := NewChat(id, name, description, isPrivate, allowedRoles, user, now);
    VisibleAppend(chats, c, viewer);
    assert (chats + [c])[|chats|] == c;
  }

  /** A room created for a non-empty role list is listed for a signed-in user iff the user's role is in it. */
  lemma CreatedChatVisibility(chats: seq<Chat>, id: string, name: string, description: Option<string>,
                              isPrivate: bool, roles: seq<Role>, user: Option<User>, now: Time, viewer: User)
    requires roles != []
    ensures var c := NewChat(id, name, description, isPrivate, Some(roles), user, now);
      c in VisibleChats(chats + [c], Some(viewer)) <==> viewer.role in roles
  {
  }

  // ---------------------------------------------------------------------------
  // Joining and leaving

  /** `uid` is appended to the participants of every room with id `chatId` that does not list it yet. */
  function JoinAll(chats: seq<Chat>, chatId: string, uid: string): (r: seq<Chat>) {
    seq(|chats|, i requires 0 <= i < |chats| =>
      if chats[i].id == chatId && uid !in chats[i].participants
      then chats[i].(participants := chats[i].participants + [uid])
      else chats[i])
  }

  /** Every occurrence of `uid` is dropped from the participants of every room with id `chatId`. */
  function LeaveAll(chats: seq<Chat>, chatId: string, uid: string): (r: seq<Chat>) {
    seq(|chats|, i requires 0 <= i < |chats| =>
      if chats[i].id == chatId
      then chats[i].(participants := RemoveAll(chats[i].participants, uid))
      else chats[i])
  }

  /**
   * Joining makes `uid` a participant of the addressed room: a room already
   * listing it is left as it is, any other gets `uid` appended at the end.
   * Nothing else changes.
   */
  lemma JoinEffect(chats: seq<Chat>, chatId: string, uid: string)
    ensures var r := JoinAll(chats, chatId, uid);
      |r| == |chats| &&
      forall i :: 0 <= i < |chats| ==>
        if chats[i].id == chatId then
          && uid in r[i].participants
          && (forall p :: p in r[i].participants <==> p in chats[i].participants || p == uid)
          && (uid in chats[i].participants ==> r[i] == chats[i])
          && (uid !in chats[i].participants ==> r[i].participants == chats[i].participants + [uid])
          && r[i].(participants := chats[i].participants) == chats[i]
        else r[i] == chats[i]
  {
  }

  /** Joining introduces no duplicate participant, room by room, and so keeps a well-formed catalog well-formed. */
  lemma JoinKeepsWellFormed(chats: seq<Chat>, chatId: string, uid: string)
    ensures forall i :: 0 <= i < |chats| && NoDuplicates(chats[i].participants) ==>
      NoDuplicates(JoinAll(chats, chatId, uid)[i].participants)
    ensures WellFormed(chats) ==> WellFormed(JoinAll(chats, chatId, uid))
  {
    var r := JoinAll(chats, chatId, uid);
    forall i | 0 <= i < |chats| && NoDuplicates(chats[i].participants) ensures NoDuplicates(r[i].participants) {
      NoDuplicatesSnoc(chats[i].participants, uid);
    }
  }

  /** Joining twice is joining once. */
  lemma JoinIdempotent(chats: seq<Chat>, chatId: string, uid: string)
    ensures JoinAll(JoinAll(chats, chatId, uid), chatId, uid) == JoinAll(chats, chatId, uid)
  {
  }

  /** Leaving removes `uid` from the addressed room only, keeps every other participant as often and in the order it was listed, and changes nothing else. */
  lemma LeaveEffect(chats: seq<Chat>, chatId: string, uid: string)
    ensures var r := LeaveAll(chats, chatId, uid);
      |r| == |chats| &&
      forall i :: 0 <= i < |chats| ==>
        if chats[i].id == chatId then
          && uid !in r[i].participants
          && (forall p :: p != uid ==> multiset(r[i].participants)[p] == multiset(chats[i].participants)[p])
          && IsSubsequence(r[i].participants, chats[i].participants)
          && r[i].(participants := chats[i].participants) == chats[i]
        else r[i] == chats[i]
  {
    forall i | 0 <= i < |chats| {
      RemoveAllIsSubsequence(chats[i].participants, uid);
    }
  }

  /** Leaving keeps participants duplicate-free, room by room, and is idempotent. */
  lemma LeaveKeepsWellFormed(chats: seq<Chat>, chatId: string, uid: string)
    ensures forall i :: 0 <= i < |chats| && NoDuplicates(chats[i].participants) ==>
      NoDuplicates(LeaveAll(chats, chatId, uid)[i].participants)
    ensures WellFormed(chats) ==> WellFormed(LeaveAll(chats, chatId, uid))
    ensures LeaveAll(LeaveAll(chats, chatId, uid), chatId, uid) == LeaveAll(chats, chatId, uid)
  {
    var r := LeaveAll(chats, chatId, uid);
    forall i | 0 <= i < |chats| && NoDuplicates(chats[i].participants) ensures NoDuplicates(r[i].participants) {
      RemoveAllKeepsNoDuplicates(chats[i].participants, uid);
    }
  }

  /** Leaving a room one has just joined, as a newcomer, restores the catalog. */
  lemma JoinThenLeave(chats: seq<Chat>, chatId: string, uid: string)
    requires forall i :: 0 <= i < |chats| && chats[i].id == chatId ==> uid !in chats[i].participants
    ensures LeaveAll(JoinAll(chats, chatId, uid), chatId, uid) == chats
  {
    var r := LeaveAll(JoinAll(chats, chatId, uid), chatId, uid);
    forall i | 0 <= i < |chats| ensures r[i] == chats[i] {
      if chats[i].id == chatId {
        RemoveAllAppended(chats[i].participants, uid);
      }
    }
  }

  // ---------------------------------------------------------------------------
  // The directory: the `chats` store key plus the list of visible rooms

  class ChatDirectory {
    const store: Store
    /** The rooms the signed-in user may see, as last loaded. */
    var chats: seq<Chat>

    constructor (store: Store)
      ensures this.store == store && chats == []
    {
      this.store := store;
      chats := [];
    }

    /** Reload: a stored catalog replaces the list by its visible part; a missing one leaves the list as it was. */
    method LoadChats(user: Option<User>)
      modifies this
      ensures store.chats.Some? ==> chats == VisibleChats(store.chats.value, user)
      ensures store.chats.None? ==> chats == old(chats)
    {
      if store.chats.Some? {
        chats := VisibleChats(store.chats.value, user);
      }
    }

    /** Append the missing default rooms, writing the catalog only when one was missing. */
    method InitializeDefaultChats(now: Time)
      modifies store`chats
      ensures var existing := OrEmpty(old(store.chats));
        var seeded := SeedFrom(existing, DefaultChats(now));
        store.chats == if seeded != existing then Some(seeded) else old(store.chats)
    {
      var existing := OrEmpty(store.chats);
      var seeded, needsUpdate := SeedDefaults(existing, now);
      if needsUpdate {
        store.chats := Some(seeded);
      }
    }

    /** Without a user nothing happens; otherwise the message is appended to the addressed room and the list reloaded. */
    method SendMessage(user: Option<User>, text: string, chatId: string, id: string, now: Time)
      modifies this, store`chats
      ensures user.None? ==> store.chats == old(store.chats) && chats == old(chats)
      ensures user.Some? ==>
        && store.chats == Some(AppendMessage(OrEmpty(old(store.chats)), chatId, NewMessage(id, text, user.value, chatId, now)))
        && chats == VisibleChats(store.chats.value, user)
    {
      if user.None? {
        return;
      }
      var message := NewMessage(id, text, user.value, chatId, now);
      var all := OrEmpty(store.chats);
      store.chats := Some(AppendMessage(all, chatId, message));
      LoadChats(user);
    }

    /** Append a new room at the end of the catalog, reload the list, and return the room. */
    method CreateChat(user: Option<User>, name: string, description: Option<string>, isPrivate: bool,
                      allowedRoles: Option<seq<Role>>, id: string, now: Time) returns (chat: Chat)
      modifies this, store`chats
      ensures chat == NewChat(id, name, description, isPrivate, allowedRoles, user, now)
      ensures store.chats == Some(OrEmpty(old(store.chats)) + [chat])
      ensures chats == VisibleChats(store.chats.value, user)
    {
      chat := NewChat(id, name, description, isPrivate, allowedRoles, user, now);
      var all := OrEmpty(store.chats);
      store.chats := Some(all + [chat]);
      LoadChats(user);
    }

    /** Without a user: `false` and no write. Otherwise join the addressed room (if any), reload, and return `true`. */
    method JoinChat(user: Option<User>, chatId: string) returns (ok: bool)
      modifies this, store`chats
      ensures ok <==> user.Some?
      ensures !ok ==> store.chats == old(store.chats) && chats == old(chats)
      ensures ok ==>
        && store.chats == Some(JoinAll(OrEmpty(old(store.chats)), chatId, user.value.id))
        && chats == VisibleChats(store.chats.value, user)
    {
      if user.None? {
        return false;
      }
      var all := OrEmpty(store.chats);
      store.chats := Some(JoinAll(all, chatId, user.value.id));
      LoadChats(user);
      return true;
    }

    /** Without a user: `false` and no write. Otherwise leave the addressed room (if any), reload, and return `true`. */
    method LeaveChat(user: Option<User>, chatId: string) returns (ok: bool)
      modifies this, store`chats
      ensures ok <==> user.Some?
      ensures !ok ==> store.chats == old(store.chats) && chats == old(chats)
      ensures ok ==>
        && store.chats == Some(LeaveAll(OrEmpty(old(store.chats)), chatId, user.value.id))
        && chats == VisibleChats(store.chats.value, user)
    {
      if user.None? {
        return false;
      }
      var all := OrEmpty(store.chats);
      store.chats := Some(LeaveAll(all, chatId, user.value.id));
      LoadChats(user);
      return true;
    }
  }
}
