/** What `ReadConversationAsync` promises: messages resolved in order through
    the users table, the distinct senders as participants, and the variant
    chosen by the kind of the requested id. */
module ConversationLemmas {
  import opened Wrappers
  import opened Text
  import opened Entities
  import opened Patterns
  import opened ScanLemmas
  import opened ReaderSpec
  import opened TableLemmas

  /** A message match that can be made into a Message. */
  ghost predicate Resolvable(users: Table<User>, m: MessageMatch) {
    users.Some? && m.sender in users.value && m.seconds <= MaxUnixSeconds
  }

  /** Reading the messages succeeds exactly when every sender is a user id and
      every timestamp is in range, and then gives one message per match, in
      order, carrying the user, the content and the instant of its match. */
  lemma {:induction false} ResolveSucceeds(ms: seq<MessageMatch>, users: Table<User>)
    ensures Resolve(ms, users).Success? <==> forall j :: 0 <= j < |ms| ==> Resolvable(users, ms[j])
    ensures Resolve(ms, users).Success? ==>
              && |Resolve(ms, users).value| == |ms|
              && forall j :: 0 <= j < |ms| ==>
                   Resolve(ms, users).value[j] == Message(users.value[ms[j].sender], ms[j].content, ms[j].seconds)
    decreases |ms|
  {
    if ms != [] {
      var init := ms[..|ms| - 1];
      ResolveSucceeds(init, users);
      assert forall j :: 0 <= j < |init| ==> init[j] == ms[j];
    }
  }

  /** A failed read reports the error of the first message that cannot be
      made into a Message. */
  lemma {:induction false} ResolveReportsFirstFailure(ms: seq<MessageMatch>, users: Table<User>)
    requires Resolve(ms, users).Failure?
    ensures exists j :: && 0 <= j < |ms|
                        && ResolveOne(users, ms[j]) == Failure(Resolve(ms, users).error)
                        && forall i :: 0 <= i < j ==> ResolveOne(users, ms[i]).Success?
    decreases |ms|
  {
    var init := ms[..|ms| - 1];
    assert forall j :: 0 <= j < |init| ==> init[j] == ms[j];
    if Resolve(init, users).Failure? {
      ResolveReportsFirstFailure(init, users);
    } else {
      ResolveSucceeds(init, users);
      assert forall i :: 0 <= i < |init| ==> ResolveOne(users, ms[i]).Success?;
    }
  }

  /** `Distinct` lists every element of `xs` once and nothing else. */
  lemma {:induction false} DistinctSpec<T>(xs: seq<T>)
    ensures forall i, j :: 0 <= i < j < |Distinct(xs)| ==> Distinct(xs)[i] != Distinct(xs)[j]
    ensures forall x :: x in Distinct(xs) <==> x in xs
    decreases |xs|
  {
    if xs != [] {
      var init := xs[..|xs| - 1];
      DistinctSpec(init);
      assert xs == init + [xs[|xs| - 1]];
    }
  }

  /** The variant follows the kind of the id: a user conversation for a user
      id, listing the distinct senders; otherwise a room conversation for a
      room id, carrying that room; otherwise an error. A lookup in a null
      table fails. */
  lemma ClassifySpec(id: string, msgs: seq<Message>, users: Table<User>, rooms: Table<Room>)
    ensures var r := Classify(id, msgs, users, rooms);
      && (r.Success? ==> r.value.id == id && r.value.messages == msgs)
      && (r.Success? && r.value.UserConversation? <==> users.Some? && id in users.value)
      && (r.Success? && r.value.UserConversation? ==>
            forall u :: u in r.value.participants <==> exists j :: 0 <= j < |msgs| && msgs[j].sender == u)
      && (r.Success? && r.value.RoomConversation? <==>
            users.Some? && id !in users.value && rooms.Some? && id in rooms.value)
      && (r.Success? && r.value.RoomConversation? ==> r.value.room == rooms.value[id])
      && (r == Failure(UnknownTarget(id)) <==>
            users.Some? && id !in users.value && rooms.Some? && id !in rooms.value)
      && (r.Failure? ==> r.error == UnknownTarget(id) || r.error == NullDictionary)
  {
    DistinctSpec(Senders(msgs));
    forall u ensures u in Senders(msgs) <==> exists j :: 0 <= j < |msgs| && msgs[j].sender == u {
      if u in Senders(msgs) {
        var j :| 0 <= j < |Senders(msgs)| && Senders(msgs)[j] == u;
        assert msgs[j].sender == u;
      }
      if exists j :: 0 <= j < |msgs| && msgs[j].sender == u {
        var j :| 0 <= j < |msgs| && msgs[j].sender == u;
        assert Senders(msgs)[j] == u;
      }
    }
  }

  /** The bulk reads fail only with a repeated id. */
  lemma TableErrorIsDuplicate<T>(recs: seq<Record>, make: (string, string) -> T)
    ensures TableOf(recs, make).Failure? ==> TableOf(recs, make).error.DuplicateKey?
  {
    if TableOf(recs, make).Failure? {
      FillReportsFirstDuplicate(recs, make);
    }
  }

  /** Reading messages fails only with the error of one message. */
  lemma ResolveErrorIsMessageError(ms: seq<MessageMatch>, users: Table<User>)
    ensures Resolve(ms, users).Failure? ==>
              var e := Resolve(ms, users).error;
              e.NullDictionary? || e.UnresolvedUser? || e.NumberOverflow? || e.TimestampOutOfRange?
  {
    if Resolve(ms, users).Failure? {
      ResolveReportsFirstFailure(ms, users);
    }
  }

  /** `ReadConversationAsync` throws `InvalidOperationException` exactly when
      no header `conversation <id>` for the requested id (ignoring case)
      appears in the text. */
  lemma ConversationMissingIffNoHeader(s: string, id: string)
    ensures ConversationOf(s, id) == Failure(InvalidState) <==>
            forall k :: 0 <= k <= |s| ==> HeaderForAt(s, k, id).None?
  {
    match FindBlock(s, id)
    case None =>
      forall k | 0 <= k <= |s| ensures HeaderForAt(s, k, id).None? {
        if HeaderForAt(s, k, id).Some? {
          FindHeaderFirst(s, 0, id, k);
        }
      }
    case Some(b) =>
      TableErrorIsDuplicate(Records(s, 0, UserKeyword), MakeUser);
      TableErrorIsDuplicate(Records(s, 0, RoomKeyword), MakeRoom);
      if UsersTable(s).Success? && RoomsTable(s).Success? {
        var users := UsersTable(s).value;
        ResolveErrorIsMessageError(BlockMessages(s, b), users);
        if Resolve(BlockMessages(s, b), users).Success? {
          ClassifySpec(id, Resolve(BlockMessages(s, b), users).value, users, RoomsTable(s).value);
        }
      }
      assert HeaderForAt(s, b.header.start, id).Some?;
  }

  /** A conversation read by id carries that id and one message per message
      match of its block, in order, each with the sender the match names, its
      content and its instant. A user conversation is read exactly when the id
      is a user id, and lists each sender once; a room conversation carries
      the room with that id. */
  lemma ConversationContents(s: string, id: string)
    requires ConversationOf(s, id).Success?
    ensures var c := ConversationOf(s, id).value;
      && c.id == id
      && FindBlock(s, id).Some?
      && var ms := BlockMessages(s, FindBlock(s, id).value);
      && |c.messages| == |ms|
      && (forall j :: 0 <= j < |ms| ==>
            && c.messages[j].sender.id == ms[j].sender
            && c.messages[j].content == ms[j].content
            && c.messages[j].sent == ms[j].seconds)
      && UsersTable(s).Success? && UsersTable(s).value.Some?
      && (c.UserConversation? <==> id in UsersTable(s).value.value)
      && (c.UserConversation? ==>
            && (forall i, j :: 0 <= i < j < |c.participants| ==> c.participants[i] != c.participants[j])
            && (forall u :: u in c.participants <==> exists j :: 0 <= j < |c.messages| && c.messages[j].sender == u))
      && (c.RoomConversation? ==> c.room.id == id)
  {
    var b := FindBlock(s, id).value;
    var users := UsersTable(s).value;
    var rooms := RoomsTable(s).value;
    var ms := BlockMessages(s, b);
    var msgs := Resolve(ms, users).value;
    ResolveSucceeds(ms, users);
    TablesKeyByOwnId(s);
    ClassifySpec(id, msgs, users, rooms);
    DistinctSpec(Senders(msgs));
  }

  /** When the header line of the block cannot be read as a message, the
      conversation has exactly one message per message line of the block, in
      the order of the lines. */
  lemma ConversationFollowsLines(s: string, id: string)
    requires ConversationOf(s, id).Success?
    requires FindBlock(s, id).Some? && QuietHeader(s, FindBlock(s, id).value.header)
    ensures var c := ConversationOf(s, id).value;
      var lines := BodyLines(s, FindBlock(s, id).value.header.bodyStart);
      && |c.messages| == |lines|
      && forall j :: 0 <= j < |lines| ==>
           && c.messages[j].sender.id == lines[j].sender
           && c.messages[j].content == lines[j].content
           && c.messages[j].sent == lines[j].seconds
  {
    var b := FindBlock(s, id).value;
    BlockMessagesAreLines(s, b.header);
    assert b == BlockOf(s, b.header);
    ConversationContents(s, id);
  }

  /** A message whose sender is not a user id makes the read fail: the
      message is not skipped. */
  lemma UnresolvedSenderFails(s: string, id: string, j: nat)
    requires FindBlock(s, id).Some?
    requires UsersTable(s).Success? && UsersTable(s).value.Some?
    requires j < |BlockMessages(s, FindBlock(s, id).value)|
    requires BlockMessages(s, FindBlock(s, id).value)[j].sender !in UsersTable(s).value.value
    ensures ConversationOf(s, id).Failure?
  {
    ResolveSucceeds(BlockMessages(s, FindBlock(s, id).value), UsersTable(s).value);
  }
}
