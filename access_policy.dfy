// Who sees which room (the role filter of contexts/ChatContext.tsx) and who
// may open the room-creation form (components/ChatListScreen.tsx).

module AccessPolicy {
  import opened Types
  import opened Seqs

  /**
   * A room with no role list, or an empty one, is open to everybody;
   * otherwise a signed-in user must hold one of the listed roles.
   */
  predicate IsVisible(chat: Chat, user: Option<User>) {
    match chat.allowedRoles
    case None => true
    case Some(roles) => |roles| == 0 || (user.Some? && user.value.role in roles)
  }

  /** The rooms of a catalog that `user` may see, in catalog order. */
  function VisibleChats(chats: seq<Chat>, user: Option<User>): (r: seq<Chat>)
    ensures |r| <= |chats|
    ensures forall c :: c in r <==> c in chats && IsVisible(c, user)
  {
    if chats == [] then []
    else if IsVisible(chats[0], user) then [chats[0]] + VisibleChats(chats[1..], user)
    else VisibleChats(chats[1..], user)
  }

  /** The roles that get the "Create New Chat" button. */
  predicate CanCreateChat(user: Option<User>) {
    user.Some? && (user.value.role == Admin || user.value.role == Dev || user.value.role == Teacher)
  }

  /** The filter keeps catalog order: the visible list is a subsequence of the catalog. */
  lemma {:induction false} VisibleIsSubsequence(chats: seq<Chat>, user: Option<User>)
    ensures IsSubsequence(VisibleChats(chats, user), chats)
  {
    if chats != [] {
      VisibleIsSubsequence(chats[1..], user);
      if IsVisible(chats[0], user) {
        assert ([chats[0]] + VisibleChats(chats[1..], user))[1..] == VisibleChats(chats[1..], user);
      } else {
        SkipHead(VisibleChats(chats[1..], user), chats);
      }
    }
  }

  /** Without a signed-in user only rooms that restrict no role are listed. */
  lemma NoUserSeesOnlyOpenChats(chats: seq<Chat>)
    ensures forall c :: c in VisibleChats(chats, None) <==>
      c in chats && (c.allowedRoles.None? || c.allowedRoles.value == [])
  {
  }

  /** A room whose role list names the user's role is listed; one that names other roles only is not. */
  lemma VisibleByRole(chats: seq<Chat>, u: User, c: Chat)
    requires c in chats && c.allowedRoles.Some? && c.allowedRoles.value != []
    ensures c in VisibleChats(chats, Some(u)) <==> u.role in c.allowedRoles.value
  {
  }

  /** Filtering an already filtered list changes nothing. */
  lemma {:induction false} VisibleIdempotent(chats: seq<Chat>, user: Option<User>)
    ensures VisibleChats(VisibleChats(chats, user), user) == VisibleChats(chats, user)
  {
    if chats != [] {
      VisibleIdempotent(chats[1..], user);
      if IsVisible(chats[0], user) {
        assert ([chats[0]] + VisibleChats(chats[1..], user))[1..] == VisibleChats(chats[1..], user);
      }
    }
  }

  /** Filtering commutes with appending a room at the end of the catalog. */
  lemma {:induction false} VisibleAppend(chats: seq<Chat>, c: Chat, user: Option<User>)
    ensures VisibleChats(chats + [c], user) ==
      VisibleChats(chats, user) + (if IsVisible(c, user) then [c] else [])
  {
    if chats == [] {
      assert [] + [c] == [c];
      assert VisibleChats([c][1..], user) == [];
    } else {
      assert (chats + [c])[1..] == chats[1..] + [c];
      VisibleAppend(chats[1..], c, user);
    }
  }

  /** Exactly teachers, admins and developers may create rooms; students may not. */
  lemma CreatorRoles(u: User)
    ensures CanCreateChat(Some(u)) <==> u.role != Student
    ensures !CanCreateChat(None)
  {
  }
}
