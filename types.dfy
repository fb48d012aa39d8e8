// The records of the chat application (types/User.ts) and the on-device
// key-value store that holds them.

module Types {

  datatype Option<T> = None | Some(value: T)

  datatype Result<T, E> = Ok(value: T) | Err(error: E)

  /** The closed set of roles a user can hold. */
  datatype Role = Student | Teacher | Admin | Dev

  /** Every role, in the order the application lists them. */
  const AllRoles: seq<Role> := [Student, Teacher, Admin, Dev]

  /** Point in time, in milliseconds; the store's date fields. */
  type Time = int

  /** The session record: an account without its password. */
  datatype User = User(
    id: string,
    email: string,
    name: string,
    role: Role,
    avatar: Option<string>,
    createdAt: Time,
    lastSeen: Time)

  /** One message of a room's log, with the sender's identity copied at send time. */
  datatype Message = Message(
    id: string,
    text: string,
    userId: string,
    userName: string,
    userRole: Role,
    timestamp: Time,
    chatId: string)

  /** A room; `allowedRoles` absent or empty means visible to every role. */
  datatype Chat = Chat(
    id: string,
    name: string,
    description: Option<string>,
    participants: seq<string>,
    messages: seq<Message>,
    createdAt: Time,
    lastMessage: Option<Message>,
    isPrivate: bool,
    allowedRoles: Option<seq<Role>>)

  /** An entry of the `users` catalog: the account with its plaintext password. */
  datatype Credential = Credential(
    id: string,
    email: string,
    password: string,
    name: string,
    role: Role,
    avatar: Option<string>,
    createdAt: Time,
    lastSeen: Time)

  /** The value a missing `chats` or `users` key reads as. */
  function OrEmpty<T>(stored: Option<seq<T>>): (r: seq<T>) {
    match stored
    case None => []
    case Some(s) => s
  }

  /**
   * The key-value store, one field per key: `chats`, `users` and `user`.
   * A key that was never written (or was removed) is `None`.
   */
  class Store {
    var chats: Option<seq<Chat>>
    var users: Option<seq<Credential>>
    var user: Option<User>

    constructor (chats: Option<seq<Chat>>, users: Option<seq<Credential>>, user: Option<User>)
      ensures this.chats == chats && this.users == users && this.user == user
    {
      this.chats := chats;
      this.users := users;
      this.user := user;
    }
  }
}
