/** The immutable records of the chat system: users, rooms, messages and the
    two kinds of conversation. Each C# class keeps its fields in readonly
    members set once by its constructor and exposes them through getters;
    here each is a datatype whose constructor is that constructor and whose
    destructors are those getters, so nothing can change after construction. */
module Entities {
  import opened Wrappers

  /** What a C# `object` parameter may hold; `OtherValue` is any object that
      is none of the records below. */
  datatype Value =
    | UserValue(user: User)
    | RoomValue(room: Room)
    | MessageValue(message: Message)
    | OtherValue

  /** Reduces an integer to a 32-bit two's-complement `int`, as unchecked C#
      arithmetic does. */
  function Wrap32(x: int): (r: int)
    ensures -0x8000_0000 <= r < 0x8000_0000
    ensures (r - x) % 0x1_0000_0000 == 0
  {
    (x + 0x8000_0000) % 0x1_0000_0000 - 0x8000_0000
  }

  /** A C# `int`: what `GetHashCode` returns, for the runtime's own hashes too. */
  type Int32 = x: int | -0x8000_0000 <= x < 0x8000_0000

  // ---------------------------------------------------------------- User.cs

  datatype User = User(id: string, name: string) {

    /** `Equals(User other)`: `other` is not null and has this id and this name. */
    function Equals(other: Option<User>): (r: bool)
      ensures r <==> other == Some(this)
    {
      other.Some? && other.value.id == id && other.value.name == name
    }

    /** `Equals(object obj)`: `obj as User`, which is null for a non-user. */
    function EqualsObject(obj: Option<Value>): (r: bool)
      ensures r <==> obj == Some(UserValue(this))
    {
      Equals(if obj.Some? && obj.value.UserValue? then Some(obj.value.user) else None)
    }

    /** `GetHashCode()`: the hash of the id alone. The string hash of the
        runtime is left abstract, as a parameter returning an `int`. */
    function HashCode(stringHash: string -> Int32): (r: int)
      ensures -0x8000_0000 <= r < 0x8000_0000
    {
      stringHash(id)
    }
  }

  /** User equality is an equivalence, and equal users hash alike. */
  lemma UserEqualityIsConsistent(u: User, v: User, w: User, stringHash: string -> Int32)
    ensures u.Equals(Some(u))
    ensures u.Equals(Some(v)) ==> v.Equals(Some(u))
    ensures u.Equals(Some(v)) && v.Equals(Some(w)) ==> u.Equals(Some(w))
    ensures !u.Equals(None)
    ensures u.Equals(Some(v)) ==> u.HashCode(stringHash) == v.HashCode(stringHash)
  {
  }

  /** A user's hash depends on its id alone: users with the same id hash
      alike whatever their names. */
  lemma UserHashIsIdHash(u: User, v: User, stringHash: string -> Int32)
    ensures u.id == v.id ==> u.HashCode(stringHash) == v.HashCode(stringHash)
  {
  }

  // ---------------------------------------------------------------- Room.cs

  datatype Room = Room(id: string, name: string) {

    /** `Equals(Room other)`: `other` is not null and has this id and this name. */
    function Equals(other: Option<Room>): (r: bool)
      ensures r <==> other == Some(this)
    {
      other.Some? && other.value.id == id && other.value.name == name
    }

    /** `Equals(object obj)`: `obj as Room`, which is null for a non-room. */
    function EqualsObject(obj: Option<Value>): (r: bool)
      ensures r <==> obj == Some(RoomValue(this))
    {
      Equals(if obj.Some? && obj.value.RoomValue? then Some(obj.value.room) else None)
    }

    /** `GetHashCode()`: the hash of the id alone. */
    function HashCode(stringHash: string -> Int32): (r: int)
      ensures -0x8000_0000 <= r < 0x8000_0000
    {
      stringHash(id)
    }
  }

  /** Room equality is an equivalence, and equal rooms hash alike. */
  lemma RoomEqualityIsConsistent(a: Room, b: Room, c: Room, stringHash: string -> Int32)
    ensures a.Equals(Some(a))
    ensures a.Equals(Some(b)) ==> b.Equals(Some(a))
    ensures a.Equals(Some(b)) && b.Equals(Some(c)) ==> a.Equals(Some(c))
    ensures !a.Equals(None)
    ensures a.Equals(Some(b)) ==> a.HashCode(stringHash) == b.HashCode(stringHash)
  {
  }

  /** A room's hash depends on its id alone. */
  lemma RoomHashIsIdHash(a: Room, b: Room, stringHash: string -> Int32)
    ensures a.id == b.id ==> a.HashCode(stringHash) == b.HashCode(stringHash)
  {
  }

  // ------------------------------------------------------------- Message.cs

  /** A message: its sender, its text and the instant it was sent, held as
      whole seconds after the Unix epoch (the DateTimeOffset the reader builds
      has offset zero, and DateTimeOffset equality compares instants). The
      constructor takes its arguments in the order (sender, content, sent). */
  datatype Message = Message(sender: User, content: string, sent: nat) {

    /** `Equals(Message other)`: not null, and sender, content and instant
        are each equal. */
    function Equals(other: Option<Message>): (r: bool)
      ensures r <==> other == Some(this)
    {
      && other.Some?
      && sender.Equals(Some(other.value.sender))
      && content == other.value.content
      && sent == other.value.sent
    }

    /** `Equals(object obj)`: `obj as Message`, which is null for a non-message. */
    function EqualsObject(obj: Option<Value>): (r: bool)
      ensures r <==> obj == Some(MessageValue(this))
    {
      Equals(if obj.Some? && obj.value.MessageValue? then Some(obj.value.message) else None)
    }

    /** `GetHashCode()`: the hashes of the instant, the content and the
        sender combined with the multiplier 31, in that order, in unchecked
        32-bit arithmetic; the runtime's string and instant hashes are
        parameters. */
    function HashCode(stringHash: string -> Int32, instantHash: nat -> Int32): (r: int)
      ensures -0x8000_0000 <= r < 0x8000_0000
    {
      Wrap32(31 * (31 * instantHash(sent) + stringHash(content)) + sender.HashCode(stringHash))
    }
  }

  /** A message's hash sees only the id of its sender: messages with the
      same instant, content and sender id hash alike. */
  lemma MessageHashSeesSenderId(m: Message, n: Message, stringHash: string -> Int32, instantHash: nat -> Int32)
    ensures m.sent == n.sent && m.content == n.content && m.sender.id == n.sender.id ==>
              m.HashCode(stringHash, instantHash) == n.HashCode(stringHash, instantHash)
  {
  }

  /** Message equality is an equivalence, and equal messages hash alike. */
  lemma MessageEqualityIsConsistent(m: Message, n: Message, o: Message,
                                    stringHash: string -> Int32, instantHash: nat -> Int32)
    ensures m.Equals(Some(m))
    ensures m.Equals(Some(n)) ==> n.Equals(Some(m))
    ensures m.Equals(Some(n)) && n.Equals(Some(o)) ==> m.Equals(Some(o))
    ensures !m.Equals(None)
    ensures m.Equals(Some(n)) ==> m.HashCode(stringHash, instantHash) == n.HashCode(stringHash, instantHash)
  {
  }

  // ------------------------- Conversation.cs, UserConversation.cs, RoomConversation.cs

  /** The abstract Conversation with its two sealed subclasses. Both variants
      share `id` and the ordered `messages`; a user conversation adds the
      users who took part, a room conversation the room it happened in. */
  datatype Conversation =
    | UserConversation(id: string, messages: seq<Message>, participants: seq<User>)
    | RoomConversation(id: string, messages: seq<Message>, room: Room)
}
