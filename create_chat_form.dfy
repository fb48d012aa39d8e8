// The rules of the room-creation form (app/create-chat.tsx): the role
// selection toggle, and the checks and trimming applied before a room is
// created.

module CreateChatForm {
  import opened Types
  import opened Seqs
  import opened AccessPolicy
  import opened ChatCatalog

  /** The characters the string `trim` strips: ECMAScript white space and line terminators. */
  predicate IsWhitespace(c: char) {
    || c == '\t' || c == '\n' || c == '\U{000B}' || c == '\U{000C}' || c == '\r' || c == ' '
    || c == '\U{00A0}' || c == '\U{1680}' || ('\U{2000}' <= c <= '\U{200A}')
    || c == '\U{2028}' || c == '\U{2029}' || c == '\U{202F}' || c == '\U{205F}'
    || c == '\U{3000}' || c == '\U{FEFF}'
  }

  /** Nothing but white space (or nothing at all). */
  predicate IsBlank(s: string) {
    forall i :: 0 <= i < |s| ==> IsWhitespace(s[i])
  }

  /** The number of white-space characters `s` starts with. */
  function LeadingSpace(s: string): (k: nat)
    ensures k <= |s|
    ensures forall i :: 0 <= i < k ==> IsWhitespace(s[i])
    ensures k < |s| ==> !IsWhitespace(s[k])
  {
    if s != [] && IsWhitespace(s[0]) then 1 + LeadingSpace(s[1..]) else 0
  }

  /** Where the white space `s` ends with begins. */
  function TrailingSpace(s: string): (j: nat)
    ensures j <= |s|
    ensures forall i :: j <= i < |s| ==> IsWhitespace(s[i])
    ensures 0 < j ==> !IsWhitespace(s[j - 1])
  {
    if s != [] && IsWhitespace(s[|s| - 1]) then TrailingSpace(s[..|s| - 1]) else |s|
  }

  /** `s` without leading and trailing white space. */
  function Trim(s: string): (r: string) {
    var k, j := LeadingSpace(s), TrailingSpace(s);
    if k < j then s[k..j] else []
  }

  /**
   * What `Trim` keeps: a contiguous slice of `s` that neither starts nor ends
   * with white space, everything cut off being white space.
   */
  lemma {:induction false} TrimSpec(s: string)
    ensures var r, k := Trim(s), LeadingSpace(s);
      r != [] ==>
        && k + |r| <= |s| && r == s[k..k + |r|]
        && (forall i :: 0 <= i < k ==> IsWhitespace(s[i]))
        && (forall i :: k + |r| <= i < |s| ==> IsWhitespace(s[i]))
        && !IsWhitespace(r[0]) && !IsWhitespace(r[|r| - 1])
    ensures Trim(s) == [] ==> IsBlank(s)
  {
    var k, j := LeadingSpace(s), TrailingSpace(s);
    if k < j {
      var r := s[k..j];
      assert Trim(s) == r && k + |r| == j;
      assert r[0] == s[k] && r[|r| - 1] == s[j - 1];
    } else {
      assert Trim(s) == [];
      assert k == |s|;
    }
  }

  /** Trimming leaves nothing exactly when the string is blank. */
  lemma {:induction false} TrimEmptyIffBlank(s: string)
    ensures Trim(s) == [] <==> IsBlank(s)
  {
    TrimSpec(s);
  }

  /** Trimming twice is trimming once. */
  lemma {:induction false} TrimIdempotent(s: string)
    ensures Trim(Trim(s)) == Trim(s)
  {
    var r := Trim(s);
    TrimSpec(s);
    if r != [] {
      assert LeadingSpace(r) == 0;
      assert TrailingSpace(r) == |r|;
    }
  }

  // ---------------------------------------------------------------------------
  // Role selection

  /** The selection the form opens with: every role. */
  const InitialSelection: seq<Role> := AllRoles

  /** A selected role is dropped (every occurrence); an unselected one is appended at the end. */
  function ToggleRole(selected: seq<Role>, role: Role): (r: seq<Role>) {
    if role in selected then RemoveAll(selected, role) else selected + [role]
  }

  /** Toggling flips the membership of `role` and no other. */
  lemma ToggleMembership(selected: seq<Role>, role: Role)
    ensures role in ToggleRole(selected, role) <==> role !in selected
    ensures forall other :: other != role ==> (other in ToggleRole(selected, role) <==> other in selected)
  {
  }

  /** Toggling an unselected role twice gives back exactly the original selection. */
  lemma ToggleTwiceAbsent(selected: seq<Role>, role: Role)
    requires role !in selected
    ensures ToggleRole(ToggleRole(selected, role), role) == selected
  {
    RemoveAllAppended(selected, role);
  }

  /** Toggling a selected role twice restores membership, the role moving to the end. */
  lemma ToggleTwicePresent(selected: seq<Role>, role: Role)
    requires role in selected
    ensures var r := ToggleRole(ToggleRole(selected, role), role);
      (forall x :: x in r <==> x in selected) && r == RemoveAll(selected, role) + [role]
  {
  }

  /** Toggling never creates a duplicate. */
  lemma ToggleKeepsNoDuplicates(selected: seq<Role>, role: Role)
    requires NoDuplicates(selected)
    ensures NoDuplicates(ToggleRole(selected, role))
  {
    if role in selected {
      RemoveAllKeepsNoDuplicates(selected, role);
    } else {
      NoDuplicatesSnoc(selected, role);
    }
  }

  /** The selection after a series of taps, first to last. */
  function ApplyToggles(selected: seq<Role>, taps: seq<Role>): (r: seq<Role>)
    decreases |taps|
  {
    if taps == [] then selected else ApplyToggles(ToggleRole(selected, taps[0]), taps[1..])
  }

  /** Whatever the taps, a selection that starts from every role never holds a role twice. */
  lemma {:induction false} TogglesFromInitialHaveNoDuplicates(taps: seq<Role>)
    ensures NoDuplicates(ApplyToggles(InitialSelection, taps))
  {
    ToggleSeriesKeepsNoDuplicates(InitialSelection, taps);
  }

  lemma {:induction false} ToggleSeriesKeepsNoDuplicates(selected: seq<Role>, taps: seq<Role>)
    requires NoDuplicates(selected)
    ensures NoDuplicates(ApplyToggles(selected, taps))
    decreases |taps|
  {
    if taps != [] {
      ToggleKeepsNoDuplicates(selected, taps[0]);
      ToggleSeriesKeepsNoDuplicates(ToggleRole(selected, taps[0]), taps[1..]);
    }
  }

  // ---------------------------------------------------------------------------
  // Validation before creating a room

  datatype FormError = MissingName | NoRolesSelected

  /** What the form hands to room creation once its checks pass. */
  datatype ChatRequest = ChatRequest(name: string, description: Option<string>, isPrivate: bool, allowedRoles: seq<Role>)

  /**
   * A blank name is refused first, then an empty role selection. An accepted
   * request carries the trimmed name, the trimmed description (absent when it
   * trims to nothing) and the selection as the allowed roles.
   */
  function ValidateForm(name: string, description: string, isPrivate: bool, selected: seq<Role>)
    : (r: Result<ChatRequest, FormError>)
    ensures r == Err(MissingName) <==> IsBlank(name)
    ensures r == Err(NoRolesSelected) <==> !IsBlank(name) && selected == []
    ensures r.Ok? ==>
      && r.value.name == Trim(name) && r.value.name != []
      && (r.value.description.None? <==> IsBlank(description))
      && (r.value.description.Some? ==> r.value.description.value == Trim(description))
      && r.value.isPrivate == isPrivate
      && r.value.allowedRoles == selected && selected != []
  {
    TrimEmptyIffBlank(name);
    TrimEmptyIffBlank(description);
    if Trim(name) == [] then Err(MissingName)
    else if |selected| == 0 then Err(NoRolesSelected)
    else
      var d := Trim(description);
      Ok(ChatRequest(Trim(name), if d == [] then None else Some(d), isPrivate, selected))
  }

  /**
   * The create button: on a failed check nothing is created; otherwise the
   * room is created from the validated request, with the selection as its
   * role list.
   */
  method HandleCreateChat(directory: ChatDirectory, user: Option<User>, name: string, description: string,
                          isPrivate: bool, selected: seq<Role>, id: string, now: Time)
    returns (r: Result<Chat, FormError>)
    modifies directory, directory.store`chats
    ensures var v := ValidateForm(name, description, isPrivate, selected);
      && (r.Err? <==> v.Err?)
      && (r.Err? ==> r.error == v.error
                     && directory.store.chats == old(directory.store.chats)
                     && directory.chats == old(directory.chats))
      && (r.Ok? ==>
            && r.value == NewChat(id, v.value.name, v.value.description, isPrivate, Some(selected), user, now)
            && directory.store.chats == Some(OrEmpty(old(directory.store.chats)) + [r.value])
            && directory.chats == VisibleChats(directory.store.chats.value, user))
  {
    var v := ValidateForm(name, description, isPrivate, selected);
    if v.Err? {
      return Err(v.error);
    }
    var request := v.value;
    var chat := directory.CreateChat(user, request.name, request.description, request.isPrivate,
                                     Some(request.allowedRoles), id, now);
    return Ok(chat);
  }
}
