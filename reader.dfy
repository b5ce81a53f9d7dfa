/** The public operations of the `Reader` class (Reader.cs). Each works on the
    text the file holds; reading the file, the `Task` wrapping and the
    `ArgumentException` for an unreadable file are not modelled. Operations
    that fill collections in a loop are methods proved to compute the
    functions of `ReaderSpec`; the two single-record lookups are functions. */
module Reader {
  import opened Wrappers
  import opened Text
  import opened Entities
  import opened Patterns
  import opened ReaderSpec

  /** `ReadUserAsync` (Reader.cs:233-272): the first `user` line for the
      caller's id, made into a User that carries the caller's id. */
  function ReadUser(content: string, userId: string): (r: Option<User>)
    ensures r.Some? ==> r.value.id == userId
  {
    match FindRecord(content, 0, UserKeyword, userId)
    case None => None
    case Some(rec) => Some(User(userId, rec.name))
  }

  /** `ReadRoomAsync` (Reader.cs:346-385): the first `room` line for the
      caller's id, made into a Room that carries the caller's id. */
  function ReadRoom(content: string, roomId: string): (r: Option<Room>)
    ensures r.Some? ==> r.value.id == roomId
  {
    match FindRecord(content, 0, RoomKeyword, roomId)
    case None => None
    case Some(rec) => Some(Room(roomId, rec.name))
  }

  /** The loop shared by the two bulk reads: a dictionary is created when
      there is at least one match, and every match is added to it. */
  method FillTable<T>(recs: seq<Record>, make: (string, string) -> T) returns (r: Result<Table<T>, ReadError>)
    ensures r == TableOf(recs, make)
  {
    if |recs| == 0 {
      return Success(None);
    }
    var dictionary: map<string, T> := map[];
    for i := 0 to |recs|
      invariant Fill(recs[..i], make) == Success(dictionary)
    {
      var rec := recs[i];
      assert recs[..i + 1][..i] == recs[..i];
      if rec.id in dictionary {
        FillStopsAtFailure(recs, make, i + 1);
        return Failure(DuplicateKey(rec.id));
      }
      dictionary := dictionary[rec.id := make(rec.id, rec.name)];
    }
    assert recs[..|recs|] == recs;
    return Success(Some(dictionary));
  }

  /** `ReadUsersAllAsync` (Reader.cs:286-331). */
  method ReadUsersAll(content: string) returns (r: Result<Table<User>, ReadError>)
    ensures r == UsersTable(content)
  {
    var matches := Records(content, 0, UserKeyword);
    r := FillTable(matches, MakeUser);
  }

  /** `ReadRoomsAllAsync` (Reader.cs:399-444). */
  method ReadRoomsAll(content: string) returns (r: Result<Table<Room>, ReadError>)
    ensures r == RoomsTable(content)
  {
    var matches := Records(content, 0, RoomKeyword);
    r := FillTable(matches, MakeRoom);
  }

  /** Adding a user to the list of distinct senders keeps it `Distinct`. */
  lemma DistinctSendersStep(messages: seq<Message>, msg: Message)
    ensures Distinct(Senders(messages + [msg])) ==
            var d := Distinct(Senders(messages));
            if msg.sender in d then d else d + [msg.sender]
  {
    assert Senders(messages + [msg]) == Senders(messages) + [msg.sender];
    assert (Senders(messages) + [msg.sender])[..|messages|] == Senders(messages);
  }

  /** The message loop of both conversation reads (Reader.cs:78-94, 179-198):
      each message match is resolved through the users table and added to the
      messages, its sender to the distinct participants; `sentByUser` is the
      flag of Reader.cs:187, set when a sender's id is `userId`. */
  method ReadMessages(matches: seq<MessageMatch>, users: Table<User>, userId: string)
    returns (r: Result<seq<Message>, ReadError>, participants: seq<User>, sentByUser: bool)
    ensures r == Resolve(matches, users)
    ensures r.Success? ==> participants == Distinct(Senders(r.value))
    ensures r.Success? ==> (sentByUser <==> SentBy(r.value, userId))
  {
    var messages: seq<Message> := [];
    participants := [];
    sentByUser := false;
    for i := 0 to |matches|
      invariant Resolve(matches[..i], users) == Success(messages)
      invariant participants == Distinct(Senders(messages))
      invariant sentByUser <==> SentBy(messages, userId)
    {
      var m := matches[i];
      assert matches[..i + 1][..i] == matches[..i];
      if users.None? {
        ResolveStopsAtFailure(matches, users, i + 1);
        return Failure(NullDictionary), participants, sentByUser;
      }
      if m.sender !in users.value {
        ResolveStopsAtFailure(matches, users, i + 1);
        return Failure(UnresolvedUser(m.sender)), participants, sentByUser;
      }
      var user := users.value[m.sender];
      if user.id == userId {
        sentByUser := true;
      }
      if user !in participants {
        participants := participants + [user];
      }
      if m.seconds > MaxInt64 {
        ResolveStopsAtFailure(matches, users, i + 1);
        return Failure(NumberOverflow(m.digits)), participants, sentByUser;
      }
      if m.seconds > MaxUnixSeconds {
        ResolveStopsAtFailure(matches, users, i + 1);
        return Failure(TimestampOutOfRange(m.seconds)), participants, sentByUser;
      }
      var msg := Message(user, m.content, m.seconds);
      DistinctSendersStep(messages, msg);
      SentByStep(messages, msg, userId);
      messages := messages + [msg];
    }
    assert matches[..|matches|] == matches;
    return Success(messages), participants, sentByUser;
  }

  lemma SentByStep(messages: seq<Message>, msg: Message, userId: string)
    ensures SentBy(messages + [msg], userId) <==> SentBy(messages, userId) || msg.sender.id == userId
  {
    if msg.sender.id == userId {
      assert (messages + [msg])[|messages|].sender.id == userId;
    }
    if SentBy(messages, userId) {
      var j :| 0 <= j < |messages| && messages[j].sender.id == userId;
      assert (messages + [msg])[j].sender.id == userId;
    }
  }

  /** The choice of variant shared by both conversation reads (Reader.cs:96-106,
      202-212): a user conversation when the id is a user id, otherwise a room
      conversation when it is a room id. */
  method MakeConversation(id: string, messages: seq<Message>, participants: seq<User>,
                          users: Table<User>, rooms: Table<Room>) returns (r: Result<Conversation, ReadError>)
    requires participants == Distinct(Senders(messages))
    ensures r == Classify(id, messages, users, rooms)
  {
    if users.None? {
      return Failure(NullDictionary);
    }
    if id in users.value {
      return Success(UserConversation(id, messages, participants));
    }
    if rooms.None? {
      return Failure(NullDictionary);
    }
    if id in rooms.value {
      return Success(RoomConversation(id, messages, rooms.value[id]));
    }
    return Failure(UnknownTarget(id));
  }

  /** `ReadConversationAsync` (Reader.cs:35-112). */
  method ReadConversation(content: string, conversationId: string) returns (r: Result<Conversation, ReadError>)
    ensures r == ConversationOf(content, conversationId)
  {
    var matchConversation := FindBlock(content, conversationId);
    if matchConversation.None? {
      return Failure(InvalidState);
    }
    var usersRead := ReadUsersAll(content);
    if usersRead.Failure? {
      return Failure(usersRead.error);
    }
    var users := usersRead.value;
    var roomsRead := ReadRoomsAll(content);
    if roomsRead.Failure? {
      return Failure(roomsRead.error);
    }
    var rooms := roomsRead.value;

    var matches := BlockMessages(content, matchConversation.value);
    var messagesRead, participants, _ := ReadMessages(matches, users, conversationId);
    if messagesRead.Failure? {
      return Failure(messagesRead.error);
    }
    r := MakeConversation(conversationId, messagesRead.value, participants, users, rooms);
  }

  /** One pass of the loop over blocks (Reader.cs:164-214): the block's
      messages are read, and the block is kept when the flag is set. */
  method ReadBlockFor(content: string, block: Block, userId: string, users: Table<User>, rooms: Table<Room>)
    returns (r: Result<Option<Conversation>, ReadError>)
    requires InText(content, block)
    ensures r == KeepBlock(content, block, userId, users, rooms)
  {
    var matches := BlockMessages(content, block);
    var messagesRead, participants, userInConversation := ReadMessages(matches, users, userId);
    if messagesRead.Failure? {
      return Failure(messagesRead.error);
    }
    if !userInConversation {
      return Success(None);
    }
    var conversation := MakeConversation(block.header.id, messagesRead.value, participants, users, rooms);
    if conversation.Failure? {
      return Failure(conversation.error);
    }
    return Success(Some(conversation.value));
  }

  /** The loop over the conversation matches of
      `ReadConversationsAssociatedWithUserAsync` (Reader.cs:164-214): each
      block is read in turn, the first failure ends the read, and the blocks
      the user wrote in are kept in order. */
  method ReadBlocksFor(content: string, blocks: seq<Block>, userId: string, users: Table<User>, rooms: Table<Room>)
    returns (r: Result<seq<Conversation>, ReadError>)
    requires forall b :: b in blocks ==> InText(content, b)
    ensures r == Gather(content, blocks, userId, users, rooms)
  {
    var conversations: seq<Conversation> := [];
    for b := 0 to |blocks|
      invariant Gather(content, blocks[..b], userId, users, rooms) == Success(conversations)
    {
      GatherStep(content, blocks, userId, users, rooms, b);
      var kept := ReadBlockFor(content, blocks[b], userId, users, rooms);
      if kept.Failure? {
        GatherStopsAtFailure(content, blocks, userId, users, rooms, b + 1);
        return Failure(kept.error);
      }
      if kept.value.Some? {
        conversations := conversations + [kept.value.value];
      }
    }
    assert blocks[..|blocks|] == blocks;
    return Success(conversations);
  }

  /** `ReadConversationsAssociatedWithUserAsync` (Reader.cs:131-218). */
  method ReadConversationsAssociatedWithUser(content: string, userId: string) returns (r: Result<seq<Conversation>, ReadError>)
    ensures r == AssociatedOf(content, userId)
  {
    var matchesConversation := Blocks(content, 0);
    var usersRead := ReadUsersAll(content);
    if usersRead.Failure? {
      return Failure(usersRead.error);
    }
    var roomsRead := ReadRoomsAll(content);
    if roomsRead.Failure? {
      return Failure(roomsRead.error);
    }
    r := ReadBlocksFor(content, matchesConversation, userId, usersRead.value, roomsRead.value);
  }
}
