/** The reader's results as functions of the text of the chat file: what each
    public operation of Reader.cs returns or which exception escapes it. The
    methods of `Reader` compute the same results step by step. */
module ReaderSpec {
  import opened Wrappers
  import opened Text
  import opened Entities
  import opened Patterns

  /** The exceptions that escape the reader, for a file that could be read. */
  datatype ReadError =
      /** No block for the requested conversation (Reader.cs:108). */
    | InvalidState
      /** A lookup in a table of which the file holds no record: the reader
          keeps a null dictionary for it and dereferences it. */
    | NullDictionary
      /** `Dictionary.Add` of an id that is already a key (Reader.cs:325, 438). */
    | DuplicateKey(key: string)
      /** A sender id that is not a user id (Reader.cs:83, 184). */
    | UnresolvedUser(key: string)
      /** `long.Parse` of a timestamp above the largest 64-bit integer. */
    | NumberOverflow(digits: string)
      /** `DateTimeOffset.FromUnixTimeSeconds` of an instant after 9999-12-31. */
    | TimestampOutOfRange(seconds: nat)
      /** A block id that is neither a user id nor a room id (Reader.cs:106,
          whose message names the id, and Reader.cs:212, whose message does not). */
    | UnknownTarget(id: string)

  const MaxInt64: nat := 0x7FFF_FFFF_FFFF_FFFF
  const MaxUnixSeconds: nat := 253_402_300_799

  const UserKeyword: string := "user"
  const RoomKeyword: string := "room"

  /** A dictionary from ids to records; `None` is the null reference the
      reader returns when the file holds no record of that kind. */
  type Table<T> = Option<map<string, T>>

  /** Adding one entry per record, in match order, to a fresh dictionary. */
  function Fill<T>(recs: seq<Record>, make: (string, string) -> T): Result<map<string, T>, ReadError>
    decreases |recs|
  {
    if recs == [] then Success(map[])
    else
      var d :- Fill(recs[..|recs| - 1], make);
      var last := recs[|recs| - 1];
      if last.id in d then Failure(DuplicateKey(last.id))
      else Success(d[last.id := make(last.id, last.name)])
  }

  /** Once adding fails, the remaining records are not looked at. */
  lemma {:induction false} FillStopsAtFailure<T>(recs: seq<Record>, make: (string, string) -> T, i: nat)
    requires i <= |recs| && Fill(recs[..i], make).Failure?
    ensures Fill(recs, make) == Fill(recs[..i], make)
    decreases |recs|
  {
    if i < |recs| {
      var init := recs[..|recs| - 1];
      assert init[..i] == recs[..i];
      FillStopsAtFailure(init, make, i);
    } else {
      assert recs[..i] == recs;
    }
  }

  /** The table built from all matches: null when there are none. */
  function TableOf<T>(recs: seq<Record>, make: (string, string) -> T): Result<Table<T>, ReadError> {
    if recs == [] then Success(None)
    else
      var d :- Fill(recs, make);
      Success(Some(d))
  }

  function MakeUser(id: string, name: string): User {
    User(id, name)
  }

  function MakeRoom(id: string, name: string): Room {
    Room(id, name)
  }

  /** What `ReadUsersAllAsync` returns (Reader.cs:286-331). */
  function UsersTable(s: string): Result<Table<User>, ReadError> {
    TableOf(Records(s, 0, UserKeyword), MakeUser)
  }

  /** What `ReadRoomsAllAsync` returns (Reader.cs:399-444). */
  function RoomsTable(s: string): Result<Table<Room>, ReadError> {
    TableOf(Records(s, 0, RoomKeyword), MakeRoom)
  }

  /** One message match made into a Message: the sender looked up first, then
      the timestamp parsed and converted. */
  function ResolveOne(users: Table<User>, m: MessageMatch): Result<Message, ReadError> {
    if users.None? then Failure(NullDictionary)
    else if m.sender !in users.value then Failure(UnresolvedUser(m.sender))
    else if m.seconds > MaxInt64 then Failure(NumberOverflow(m.digits))
    else if m.seconds > MaxUnixSeconds then Failure(TimestampOutOfRange(m.seconds))
    else Success(Message(users.value[m.sender], m.content, m.seconds))
  }

  /** A message match becomes a Message exactly when its sender is a user id
      and its seconds are in range; an overflowing numeral is reported only
      once the sender is found. */
  lemma ResolveOneSpec(users: Table<User>, m: MessageMatch)
    ensures var r := ResolveOne(users, m);
      && (r.Success? <==> users.Some? && m.sender in users.value && m.seconds <= MaxUnixSeconds)
      && (r.Success? ==> r.value.sender == users.value[m.sender] && r.value.content == m.content
                         && r.value.sent == m.seconds)
      && (r.Failure? ==> (r.error.NumberOverflow? <==> users.Some? && m.sender in users.value && m.seconds > MaxInt64))
  {
  }

  /** All message matches made into Messages, in order; the first failure
      stops the reading. */
  function Resolve(ms: seq<MessageMatch>, users: Table<User>): Result<seq<Message>, ReadError>
    decreases |ms|
  {
    if ms == [] then Success([])
    else
      var init :- Resolve(ms[..|ms| - 1], users);
      var last :- ResolveOne(users, ms[|ms| - 1]);
      Success(init + [last])
  }

  /** Once a message fails, the remaining ones are not looked at. */
  lemma {:induction false} ResolveStopsAtFailure(ms: seq<MessageMatch>, users: Table<User>, i: nat)
    requires i <= |ms| && Resolve(ms[..i], users).Failure?
    ensures Resolve(ms, users) == Resolve(ms[..i], users)
    decreases |ms|
  {
    if i < |ms| {
      var init := ms[..|ms| - 1];
      assert init[..i] == ms[..i];
      ResolveStopsAtFailure(init, users, i);
    } else {
      assert ms[..i] == ms;
    }
  }

  function Senders(msgs: seq<Message>): seq<User> {
    seq(|msgs|, j requires 0 <= j < |msgs| => msgs[j].sender)
  }

  /** The elements of `xs` without repetitions, in order of first appearance:
      what the reader's HashSet of users lists. */
  function Distinct<T(==)>(xs: seq<T>): seq<T>
    decreases |xs|
  {
    if xs == [] then []
    else
      var d := Distinct(xs[..|xs| - 1]);
      if xs[|xs| - 1] in d then d else d + [xs[|xs| - 1]]
  }

  /** Whether the user with id `uid` sent one of the messages. */
  predicate SentBy(msgs: seq<Message>, uid: string) {
    exists j :: 0 <= j < |msgs| && msgs[j].sender.id == uid
  }

  /** The conversation built for id `id`: a user conversation when `id` is a
      user id, otherwise a room conversation when it is a room id. */
  function Classify(id: string, msgs: seq<Message>, users: Table<User>, rooms: Table<Room>): Result<Conversation, ReadError> {
    if users.None? then Failure(NullDictionary)
    else if id in users.value then Success(UserConversation(id, msgs, Distinct(Senders(msgs))))
    else if rooms.None? then Failure(NullDictionary)
    else if id in rooms.value then Success(RoomConversation(id, msgs, rooms.value[id]))
    else Failure(UnknownTarget(id))
  }

  /** What `ReadConversationAsync` returns (Reader.cs:35-112). */
  function ConversationOf(s: string, id: string): Result<Conversation, ReadError> {
    match FindBlock(s, id)
    case None => Failure(InvalidState)
    case Some(b) =>
      var users :- UsersTable(s);
      var rooms :- RoomsTable(s);
      var msgs :- Resolve(BlockMessages(s, b), users);
      Classify(id, msgs, users, rooms)
  }

  /** One block read for the participant `uid`: its messages are read, and
      when one of them is from `uid` it becomes a conversation classified by
      the block's own id. */
  function KeepBlock(s: string, b: Block, uid: string, users: Table<User>, rooms: Table<Room>): Result<Option<Conversation>, ReadError>
    requires InText(s, b)
  {
    var msgs :- Resolve(BlockMessages(s, b), users);
    if !SentBy(msgs, uid) then Success(None)
    else
      var c :- Classify(b.header.id, msgs, users, rooms);
      Success(Some(c))
  }

  /** The conversations kept from the blocks `bs`, in order; the first
      failing block stops the reading. */
  function Gather(s: string, bs: seq<Block>, uid: string, users: Table<User>, rooms: Table<Room>): Result<seq<Conversation>, ReadError>
    requires forall b :: b in bs ==> InText(s, b)
    decreases |bs|
  {
    if bs == [] then Success([])
    else
      var kept :- Gather(s, bs[..|bs| - 1], uid, users, rooms);
      var c :- KeepBlock(s, bs[|bs| - 1], uid, users, rooms);
      Success(if c.Some? then kept + [c.value] else kept)
  }

  /** Once a block fails, the remaining ones are not looked at. */
  lemma {:induction false} GatherStopsAtFailure(s: string, bs: seq<Block>, uid: string, users: Table<User>, rooms: Table<Room>, i: nat)
    requires forall b :: b in bs ==> InText(s, b)
    requires i <= |bs| && Gather(s, bs[..i], uid, users, rooms).Failure?
    ensures Gather(s, bs, uid, users, rooms) == Gather(s, bs[..i], uid, users, rooms)
    decreases |bs|
  {
    if i < |bs| {
      var init := bs[..|bs| - 1];
      assert init[..i] == bs[..i];
      GatherStopsAtFailure(s, init, uid, users, rooms, i);
    } else {
      assert bs[..i] == bs;
    }
  }

  /** Reading one more block extends the gathering by what that block keeps. */
  lemma GatherStep(s: string, bs: seq<Block>, uid: string, users: Table<User>, rooms: Table<Room>, i: nat)
    requires forall b :: b in bs ==> InText(s, b)
    requires i < |bs| && Gather(s, bs[..i], uid, users, rooms).Success?
    ensures var kept := Gather(s, bs[..i], uid, users, rooms).value;
      Gather(s, bs[..i + 1], uid, users, rooms)
        == match KeepBlock(s, bs[i], uid, users, rooms)
           case Failure(e) => Failure(e)
           case Success(c) => Success(if c.Some? then kept + [c.value] else kept)
  {
    var prefix := bs[..i + 1];
    assert prefix[..i] == bs[..i] && prefix[i] == bs[i];
  }

  /** What `ReadConversationsAssociatedWithUserAsync` returns (Reader.cs:131-218). */
  function AssociatedOf(s: string, uid: string): Result<seq<Conversation>, ReadError> {
    var bs := Blocks(s, 0);
    var users :- UsersTable(s);
    var rooms :- RoomsTable(s);
    Gather(s, bs, uid, users, rooms)
  }
}
