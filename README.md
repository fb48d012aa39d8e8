# Chat rooms and accounts of a mobile chat demo, in Dafny

This project models the logic of a small mobile chat application in which
users with one of four roles (student, teacher, admin, dev) register, sign
in, see the chat rooms their role may see, and post messages. All state lives
in an on-device key-value store under three keys:

- `users`: the catalog of accounts, each with a plaintext password;
- `user`: the signed-in session, an account without its password;
- `chats`: the catalog of rooms, each with its whole message log.

The model has these parts:

- `Types` (`types.dfy`): the records of `types/User.ts`. It also holds the
  store, a class with one `Option` field per key; `None` is an absent key.
- `AccessPolicy` (`access_policy.dfy`): the role filter that decides which rooms
  are listed, and the rule for who may open the room-creation form.
- `ChatCatalog` (`chat_catalog.dfy`): the room directory. Pure functions state
  what each operation does to the catalog: seeding the default rooms, appending
  a message, creating, joining and leaving a room. The lemmas prove what those
  functions guarantee. The class `ChatDirectory` holds the store and the list of
  visible rooms. Its methods read the `chats` key, apply the function and write
  the result back, as the app does.
- `Accounts` (`accounts.dfy`): the lookups over the account catalog, namely the
  duplicate-email check of registration and the email+password match of login.
- `DemoData` (`demo_data.dfy`): the four demo accounts, which are written only
  when the `users` key is absent.
- `Auth` (`auth_context.dfy`): the class `AuthDirectory`, which holds the session
  and implements start-up, restoring the session, login, registration and logout.
- `CreateChatForm` (`create_chat_form.dfy`): the role-selection toggle, the
  string `trim`, and the checks run before a room is created.
- `Seqs` (`seqs.dfy`): the `filter(x => x !== v)` idiom, duplicate freedom and
  subsequences.

Times are integers (milliseconds). Every `Date.now()` id and `new Date()`
stamp is a parameter supplied by the caller. The signed-in user that the room
directory reads from the identity directory is passed to each room operation
as an `Option<User>`.

Behaviour of the code worth knowing:

- Sending a message to an unknown room id raises no error. The catalog is
  written back unchanged (`SendToUnknownChat`).
- Joining or leaving an unknown room id returns `true`. Only a missing
  signed-in user gives `false`.
- Room creation in the room directory does not check the name, and sending
  does not check the text. The name check is made by the form
  (`ValidateForm`). The blank-text check lives in the chat screen, which is
  not modelled.
- Login does not update `lastSeen` in the `users` catalog. Only the session
  record gets the new time (`Login` never writes `users`).
- If the `chats` key is absent, sending, joining or leaving writes a catalog
  built from an empty list. The key is present afterwards.
- The message, join and leave updates change every room that carries the
  addressed id. Ids come from the clock, so the code does not guarantee that
  they are unique.

## Model

| member | source | states |
|---|---|---|
| `Seqs.RemoveAll` | contexts/ChatContext.tsx:233 | the filtered list lacks the removed value, keeps every other value exactly as many times as before, and is unchanged when the value was absent |
| `Seqs.RemoveAllKeepsNoDuplicates` | contexts/ChatContext.tsx:233 | filtering a value out of a duplicate-free list leaves it duplicate-free |
| `Seqs.RemoveAllAppended` | app/create-chat.tsx:55-57 | removing a value that was appended to a list lacking it gives back the original list |
| `Seqs.RemoveAllIsSubsequence` | contexts/ChatContext.tsx:233 | filtering keeps the order of the remaining elements |
| `AccessPolicy.VisibleChats` | contexts/ChatContext.tsx:119-122 | a room is listed iff it is in the catalog and its role list is absent or empty, or a user is signed in whose role is in the list |
| `AccessPolicy.VisibleIsSubsequence` | contexts/ChatContext.tsx:119-122 | the listed rooms are an order-preserving subsequence of the catalog |
| `AccessPolicy.NoUserSeesOnlyOpenChats` | contexts/ChatContext.tsx:120-121 | with nobody signed in, exactly the rooms without a non-empty role list are listed |
| `AccessPolicy.VisibleByRole` | contexts/ChatContext.tsx:121 | a room with a non-empty role list is listed for a user iff the user's role is in that list |
| `AccessPolicy.VisibleIdempotent` | contexts/ChatContext.tsx:119-122 | filtering the listed rooms again changes nothing |
| `AccessPolicy.VisibleAppend` | contexts/ChatContext.tsx:119-122 | the filter of a catalog with a room appended is the old filter plus that room when it is visible |
| `AccessPolicy.CreatorRoles` | components/ChatListScreen.tsx:130 | teachers, admins and developers may create rooms; students and signed-out visitors may not |
| `ChatCatalog.SeedDefaults` | contexts/ChatContext.tsx:82-89 | the seeding loop returns the catalog with each missing default appended in order, and its flag is set iff something was appended |
| `ChatCatalog.SeedExtends` | contexts/ChatContext.tsx:83-88 | seeding keeps every existing room in place and appends only defaults whose id was absent |
| `ChatCatalog.SeedCovers` | contexts/ChatContext.tsx:83-88 | after seeding every default id is present |
| `ChatCatalog.SeedNoop` | contexts/ChatContext.tsx:83-88 | seeding a catalog that already has every default id changes nothing |
| `ChatCatalog.SeedIdempotent` | contexts/ChatContext.tsx:82-93 | seeding twice adds nothing the second time |
| `ChatCatalog.SeedGrowsIffMissing` | contexts/ChatContext.tsx:82-93 | the catalog is written back iff some default id was missing |
| `ChatCatalog.SeedKeepsUniqueIds` | contexts/ChatContext.tsx:84-86 | seeding never gives two rooms the same id |
| `ChatCatalog.SeedEmpty` | contexts/ChatContext.tsx:49-89 | on an empty store the catalog becomes exactly `general`, `study-group`, `dev-chat` in that order |
| `ChatCatalog.DefaultVisibility` | contexts/ChatContext.tsx:49-80 | on the seeded rooms students and teachers see `general` and `study-group`; admins and developers see all three; nobody signed out sees any |
| `ChatCatalog.DefaultsWellFormed` | contexts/ChatContext.tsx:49-80 | the default rooms have distinct ids, and in each one the last message matches the log (both empty) and the participant list has no duplicates |
| `ChatCatalog.SeedKeepsWellFormed` | contexts/ChatContext.tsx:49-89 | seeding a catalog whose rooms satisfy the invariants (last message matches the log, participants duplicate-free) keeps them satisfied |
| `ChatCatalog.NewMessage` | contexts/ChatContext.tsx:136-144 | a new message carries the sender's id, name and role, the target room id, the text and the send time |
| `ChatCatalog.SendMessageEffect` | contexts/ChatContext.tsx:149-159 | the addressed room's log grows by exactly the new message at the end and that message becomes its last message; its other fields, every other room and the catalog length are unchanged |
| `ChatCatalog.SendToUnknownChat` | contexts/ChatContext.tsx:149-161 | sending to an id no room carries writes the same catalog back |
| `ChatCatalog.SendKeepsWellFormed` | contexts/ChatContext.tsx:149-159 | after a send every room's last message is still the end of its log, and participant lists stay duplicate-free |
| `ChatCatalog.SendKeepsIds` | contexts/ChatContext.tsx:149-159 | a send keeps the set of room ids, and keeps them unique if they were |
| `ChatCatalog.CreateChatEffect` | contexts/ChatContext.tsx:170-185 | the new room has an empty log, no last message, and the creator as its only participant (none when signed out); appending it to any catalog keeps the catalog invariants if they held, and adds it to the listed rooms iff it is visible |
| `ChatCatalog.CreatedChatVisibility` | contexts/ChatContext.tsx:170-185 | a room created with a non-empty role list is listed for a user iff the user's role is in that list |
| `ChatCatalog.JoinEffect` | contexts/ChatContext.tsx:202-210 | joining makes the user a participant of the addressed room: a room already listing the user is unchanged, any other gets the user appended at the end; nothing else changes |
| `ChatCatalog.JoinKeepsWellFormed` | contexts/ChatContext.tsx:203-206 | joining introduces no duplicate participant into any room whose list had none, so a well-formed catalog stays well-formed |
| `ChatCatalog.JoinIdempotent` | contexts/ChatContext.tsx:203-206 | joining twice is joining once |
| `ChatCatalog.LeaveEffect` | contexts/ChatContext.tsx:229-237 | leaving removes every occurrence of the user from the addressed room only; every other participant stays as often as it was listed, in order, and nothing else changes |
| `ChatCatalog.LeaveKeepsWellFormed` | contexts/ChatContext.tsx:229-237 | leaving keeps every duplicate-free participant list duplicate-free, so a well-formed catalog stays well-formed; leaving twice is leaving once |
| `ChatCatalog.JoinThenLeave` | contexts/ChatContext.tsx:202-237 | a newcomer who joins and then leaves restores the catalog exactly |
| `ChatCatalog.ChatDirectory.constructor` | contexts/ChatContext.tsx:32 | the list of visible rooms starts empty |
| `ChatCatalog.ChatDirectory.LoadChats` | contexts/ChatContext.tsx:99-130 | a stored catalog replaces the list by its visible part; with no stored catalog the list is kept |
| `ChatCatalog.ChatDirectory.InitializeDefaultChats` | contexts/ChatContext.tsx:43-97 | the `chats` key becomes the seeded catalog when something was missing, and is not written otherwise |
| `ChatCatalog.ChatDirectory.SendMessage` | contexts/ChatContext.tsx:132-167 | signed out: nothing changes; otherwise the catalog gets the new message appended to the addressed room and the list is reloaded |
| `ChatCatalog.ChatDirectory.CreateChat` | contexts/ChatContext.tsx:169-193 | the new room is appended at the end of the stored catalog and returned, and the list is reloaded |
| `ChatCatalog.ChatDirectory.JoinChat` | contexts/ChatContext.tsx:195-220 | `false` and no write when signed out; otherwise `true`, the join written, and the list reloaded, whether or not the id exists |
| `ChatCatalog.ChatDirectory.LeaveChat` | contexts/ChatContext.tsx:222-247 | `false` and no write when signed out; otherwise `true`, the leave written, and the list reloaded, whether or not the id exists |
| `Accounts.FindLogin` | contexts/AuthContext.tsx:64 | login finds the first account matching both email and password exactly, and finds none iff no account matches both |
| `Accounts.RegisterKeepsUniqueEmails` | contexts/AuthContext.tsx:96-112 | appending an account whose email is free keeps emails unique, and that email is then taken |
| `Accounts.LoginAfterRegister` | contexts/AuthContext.tsx:101-112 | after a registration, login with the same email and password finds the new account, with its id |
| `Accounts.LoginByEmail` | contexts/AuthContext.tsx:64 | with unique emails, login succeeds iff the password of the account with that email matches |
| `Accounts.LoginNeedsRegisteredEmail` | contexts/AuthContext.tsx:64 | an email no account holds never logs in |
| `DemoData.InitializeDemoUsers` | utils/demoData.ts:3-49 | an existing `users` value is left untouched; an absent key receives exactly the four demo accounts |
| `DemoData.DemoUsersShape` | utils/demoData.ts:10-47 | four accounts with pairwise-distinct emails and ids, each role held by exactly one, every password "password" |
| `DemoData.DemoLogins` | utils/demoData.ts:10-47 | each demo account logs in with "password" at its own position, and registering any demo email again is refused |
| `Auth.AuthDirectory.constructor` | contexts/AuthContext.tsx:29-30 | no session, still loading |
| `Auth.AuthDirectory.InitializeApp` | contexts/AuthContext.tsx:36-39 | demo accounts are seeded only into an absent `users` key, then the stored session is restored |
| `Auth.AuthDirectory.LoadStoredUser` | contexts/AuthContext.tsx:41-56 | a stored session record becomes the session unchanged; otherwise the session is kept; loading ends either way |
| `Auth.AuthDirectory.Login` | contexts/AuthContext.tsx:58-88 | succeeds iff some account matches both fields; the first match, minus its password and last seen now, becomes the session and the `user` key; a failure changes nothing; `users` is never written |
| `Auth.AuthDirectory.Register` | contexts/AuthContext.tsx:90-131 | refused, with nothing written, iff the email is taken; otherwise exactly one account is appended, and its record without password becomes the session and the `user` key |
| `Auth.AuthDirectory.Logout` | contexts/AuthContext.tsx:133-141 | the session and the `user` key are cleared; repeating it changes nothing more |
| `Auth.RegisterSession` | contexts/AuthContext.tsx:114-121 | the session made at registration has the new account's id, email, name and role, no avatar, and created and last-seen times equal to the registration time |
| `CreateChatForm.TrimSpec` | app/create-chat.tsx:28 | the trimmed string is a contiguous slice that neither starts nor ends with white space, everything cut off being white space |
| `CreateChatForm.TrimEmptyIffBlank` | app/create-chat.tsx:28 | a string trims to nothing iff it is all white space |
| `CreateChatForm.TrimIdempotent` | app/create-chat.tsx:40 | a property of `Trim` alone, not of an app behaviour: trimming a trimmed string changes nothing |
| `CreateChatForm.ToggleMembership` | app/create-chat.tsx:52-60 | toggling flips the membership of the tapped role and of no other |
| `CreateChatForm.ToggleTwiceAbsent` | app/create-chat.tsx:52-60 | tapping an unselected role twice restores exactly the original selection |
| `CreateChatForm.ToggleTwicePresent` | app/create-chat.tsx:52-60 | tapping a selected role twice restores membership, with that role moved to the end |
| `CreateChatForm.ToggleKeepsNoDuplicates` | app/create-chat.tsx:52-60 | toggling never creates a duplicate role |
| `CreateChatForm.TogglesFromInitialHaveNoDuplicates` | app/create-chat.tsx:14-59 | starting from all four roles, any series of taps leaves a duplicate-free selection |
| `CreateChatForm.ValidateForm` | app/create-chat.tsx:27-40 | a blank name is refused first, then an empty selection; an accepted request has the trimmed name, the trimmed description or none when it is blank, and the non-empty selection as its role list |
| `CreateChatForm.HandleCreateChat` | app/create-chat.tsx:27-50 | a refused form creates nothing and leaves the store as it was; an accepted one appends the room built from the validated request to the catalog and reloads the visible list from the new catalog |

## Left out

- Storage I/O, `JSON.parse`/`JSON.stringify` and the revival of dates from
  strings are not modelled. Each key holds a Dafny value, and dates are
  integers.
- An empty string stored under a key is falsy and would read as absent. JSON
  never produces one, so keys are modelled as simply present or absent.
- The `catch` paths for storage failures are not modelled. They only log,
  return `false`, or rethrow. The form's failure alert and its `isLoading`
  flag are not modelled either.
- Asynchrony and effect ordering are not modelled. This includes the
  unsynchronised `loadChats()` / `initializeDefaultChats()` pair run when the
  user changes, which is a race, not sequential logic.
- `Date.now()` ids and `new Date()` times are parameters. The model does not
  check that ids are unique, because the code does not.
- Every `new Date()` read within one operation is the same parameter `now`.
  Registration stamps `createdAt` and `lastSeen` from two clock reads, and
  the three default rooms and the four demo accounts each read the clock
  separately; in the app these may differ by a millisecond or so. So the
  equal times stated by `Auth.RegisterSession` come from this simplification
  and are not guaranteed by the app.
- The `currentChat` state and `setCurrentChat` are not modelled. They are
  presentation glue that no core operation touches.
- The screens are not modelled: `app/chat.tsx`, `components/ChatListScreen.tsx`
  (except the create-permission rule), `components/AuthScreen.tsx` and
  `app/index.tsx`. Neither is the blank-message guard of the chat screen or
  the empty-field check of the sign-in screen. These are rendering and
  navigation.
- A role outside the four values cannot be represented, because `Role` is a
  closed datatype. The code does not check that a role is one of the four.
- The rule "`lastMessage` is the last entry of the log" and the rule
  "participants form a set" are not required of the stored catalog, which is
  arbitrary data. Instead the lemmas prove that every operation preserves
  them (`WellFormed`).
