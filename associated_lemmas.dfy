/** What `ReadConversationsAssociatedWithUserAsync` promises: every block of
    the text is read, and exactly the blocks in which the user sent a message
    become conversations, in text order. */
module AssociatedLemmas {
  import opened Wrappers
  import opened Text
  import opened Entities
  import opened Patterns
  import opened ReaderSpec
  import opened TableLemmas
  import opened ConversationLemmas

  /** A message match of the block names `uid` as its sender. */
  ghost predicate NamesSender(s: string, b: Block, uid: string)
    requires InText(s, b)
  {
    exists j :: 0 <= j < |BlockMessages(s, b)| && BlockMessages(s, b)[j].sender == uid
  }

  /** The blocks among `bs` in which `uid` is named as a sender, in order: a
      reference for the blocks the reader keeps, stated on the text alone. */
  ghost function Participated(s: string, bs: seq<Block>, uid: string): (ps: seq<Block>)
    requires forall b :: b in bs ==> InText(s, b)
    ensures forall k :: 0 <= k < |ps| ==> ps[k] in bs && NamesSender(s, ps[k], uid)
    decreases |bs|
  {
    if bs == [] then []
    else
      var ps := Participated(s, bs[..|bs| - 1], uid);
      var b := bs[|bs| - 1];
      if NamesSender(s, b, uid) then ps + [b] else ps
  }

  /** A users table that keys each user by its own id, or the null table. */
  ghost predicate KeyedById(users: Table<User>) {
    users.Some? ==> forall key :: key in users.value ==> users.value[key].id == key
  }

  /** Once a block's messages are read, the reader's flag (a sender's id is
      `uid`) agrees with the text (a match names `uid` as sender). */
  lemma FlagMatchesText(s: string, b: Block, uid: string, users: Table<User>)
    requires InText(s, b) && KeyedById(users) && Resolve(BlockMessages(s, b), users).Success?
    ensures SentBy(Resolve(BlockMessages(s, b), users).value, uid) <==> NamesSender(s, b, uid)
  {
    var ms := BlockMessages(s, b);
    var msgs := Resolve(ms, users).value;
    ResolveSucceeds(ms, users);
    if SentBy(msgs, uid) {
      var j :| 0 <= j < |msgs| && msgs[j].sender.id == uid;
      assert ms[j].sender == uid;
    }
    if NamesSender(s, b, uid) {
      var j :| 0 <= j < |ms| && ms[j].sender == uid;
      assert msgs[j].sender.id == uid;
    }
  }

  /** A block is kept exactly when it names `uid` as a sender, and then as
      the conversation classified by its own id. */
  lemma KeepBlockSpec(s: string, b: Block, uid: string, users: Table<User>, rooms: Table<Room>)
    requires InText(s, b) && KeyedById(users) && KeepBlock(s, b, uid, users, rooms).Success?
    ensures Resolve(BlockMessages(s, b), users).Success?
    ensures KeepBlock(s, b, uid, users, rooms).value.Some? <==> NamesSender(s, b, uid)
    ensures KeepBlock(s, b, uid, users, rooms).value.Some? ==>
              Classify(b.header.id, Resolve(BlockMessages(s, b), users).value, users, rooms)
                == Success(KeepBlock(s, b, uid, users, rooms).value.value)
  {
    FlagMatchesText(s, b, uid, users);
  }

  /** A successful gathering has read every block. */
  lemma {:induction false} GatherReadsEveryBlock(s: string, bs: seq<Block>, uid: string, users: Table<User>, rooms: Table<Room>)
    requires forall b :: b in bs ==> InText(s, b)
    requires Gather(s, bs, uid, users, rooms).Success?
    ensures forall b :: b in bs ==> KeepBlock(s, b, uid, users, rooms).Success?
    decreases |bs|
  {
    if bs != [] {
      var init := bs[..|bs| - 1];
      assert bs == init + [bs[|bs| - 1]];
      GatherReadsEveryBlock(s, init, uid, users, rooms);
    }
  }

  /** A successful gathering keeps one conversation per block that names
      `uid` as a sender, built from that block and classified by the block's
      own id. */
  lemma {:induction false} GatherSpec(s: string, bs: seq<Block>, uid: string, users: Table<User>, rooms: Table<Room>)
    requires forall b :: b in bs ==> InText(s, b)
    requires KeyedById(users)
    requires Gather(s, bs, uid, users, rooms).Success?
    ensures var cs := Gather(s, bs, uid, users, rooms).value;
      var ps := Participated(s, bs, uid);
      && |cs| == |ps|
      && forall k :: 0 <= k < |cs| ==> KeepBlock(s, ps[k], uid, users, rooms) == Success(Some(cs[k]))
    decreases |bs|
  {
    if bs != [] {
      var init := bs[..|bs| - 1];
      var b := bs[|bs| - 1];
      assert bs[..|bs| - 1] == init;
      GatherSpec(s, init, uid, users, rooms);
      KeepBlockSpec(s, b, uid, users, rooms);
      var kept := Gather(s, init, uid, users, rooms).value;
      var c := KeepBlock(s, b, uid, users, rooms).value;
      assert Gather(s, bs, uid, users, rooms).value == if c.Some? then kept + [c.value] else kept;
      assert Participated(s, bs, uid)
          == if NamesSender(s, b, uid) then Participated(s, init, uid) + [b] else Participated(s, init, uid);
    }
  }

  /** `ReadConversationsAssociatedWithUserAsync` returns, in text order, one
      conversation per block in which the user is named as a sender, with the
      block's id, and a message from that user in each. */
  lemma AssociatedSpec(s: string, uid: string)
    requires AssociatedOf(s, uid).Success?
    ensures var cs := AssociatedOf(s, uid).value;
      var ps := Participated(s, Blocks(s, 0), uid);
      && |cs| == |ps|
      && forall k :: 0 <= k < |cs| ==> cs[k].id == ps[k].header.id && SentBy(cs[k].messages, uid)
  {
    var bs := Blocks(s, 0);
    var users := UsersTable(s).value;
    var rooms := RoomsTable(s).value;
    TablesKeyByOwnId(s);
    GatherSpec(s, bs, uid, users, rooms);
    var cs := AssociatedOf(s, uid).value;
    var ps := Participated(s, bs, uid);
    forall k | 0 <= k < |cs| ensures cs[k].id == ps[k].header.id && SentBy(cs[k].messages, uid) {
      var msgs := Resolve(BlockMessages(s, ps[k]), users).value;
      ClassifySpec(ps[k].header.id, msgs, users, rooms);
      FlagMatchesText(s, ps[k], uid, users);
    }
  }

  /** A user id that is not in the users table has no conversations: the
      result is empty, not an error. */
  lemma UnknownUserHasNoConversations(s: string, uid: string)
    requires AssociatedOf(s, uid).Success?
    requires UsersTable(s).value.None? || uid !in UsersTable(s).value.value
    ensures AssociatedOf(s, uid).value == []
  {
    var bs := Blocks(s, 0);
    var users := UsersTable(s).value;
    TablesKeyByOwnId(s);
    var rooms := RoomsTable(s).value;
    GatherSpec(s, bs, uid, users, rooms);
    GatherReadsEveryBlock(s, bs, uid, users, rooms);
    forall b | b in bs ensures !NamesSender(s, b, uid) {
      KeepBlockSpec(s, b, uid, users, rooms);
      ResolveSucceeds(BlockMessages(s, b), users);
    }
    NoneParticipated(s, bs, uid);
  }

  /** A user id that is not in the users table has no conversations, and
      the read does not fail for it whenever it succeeds for some other id:
      the result is the empty list. */
  lemma UnknownUserGetsEmptyList(s: string, uid: string, other: string)
    requires AssociatedOf(s, other).Success?
    requires UsersTable(s).Success? && (UsersTable(s).value.None? || uid !in UsersTable(s).value.value)
    ensures AssociatedOf(s, uid) == Success([])
  {
    var bs := Blocks(s, 0);
    var users := UsersTable(s).value;
    var rooms := RoomsTable(s).value;
    TablesKeyByOwnId(s);
    GatherReadsEveryBlock(s, bs, other, users, rooms);
    forall b | b in bs ensures KeepBlock(s, b, uid, users, rooms) == Success(None) {
      KeepBlockSpec(s, b, other, users, rooms);
      UnknownUserKeepsNothing(s, b, uid, users, rooms);
    }
    GatherKeepsNothing(s, bs, uid, users, rooms);
  }

  /** A block whose messages can be read keeps nothing for a user id that is
      not in the users table. */
  lemma UnknownUserKeepsNothing(s: string, b: Block, uid: string, users: Table<User>, rooms: Table<Room>)
    requires InText(s, b) && KeyedById(users) && Resolve(BlockMessages(s, b), users).Success?
    requires users.None? || uid !in users.value
    ensures KeepBlock(s, b, uid, users, rooms) == Success(None)
  {
    var ms := BlockMessages(s, b);
    ResolveSucceeds(ms, users);
    var msgs := Resolve(ms, users).value;
    forall j | 0 <= j < |msgs| ensures msgs[j].sender.id != uid {
      assert Resolvable(users, ms[j]);
    }
  }

  /** When every block keeps nothing, the gathering is the empty list. */
  lemma {:induction false} GatherKeepsNothing(s: string, bs: seq<Block>, uid: string, users: Table<User>, rooms: Table<Room>)
    requires forall b :: b in bs ==> InText(s, b) && KeepBlock(s, b, uid, users, rooms) == Success(None)
    ensures Gather(s, bs, uid, users, rooms) == Success([])
    decreases |bs|
  {
    if bs != [] {
      assert bs[|bs| - 1] in bs;
      GatherKeepsNothing(s, bs[..|bs| - 1], uid, users, rooms);
    }
  }

  /** When no block names `uid` as a sender, the reference list is empty. */
  lemma {:induction false} NoneParticipated(s: string, bs: seq<Block>, uid: string)
    requires forall b :: b in bs ==> InText(s, b) && !NamesSender(s, b, uid)
    ensures Participated(s, bs, uid) == []
    decreases |bs|
  {
    if bs != [] {
      assert bs[|bs| - 1] in bs;
      NoneParticipated(s, bs[..|bs| - 1], uid);
    }
  }

  /** A block that cannot be read makes the whole gathering fail. */
  lemma {:induction false} GatherFailsOnFailingBlock(s: string, bs: seq<Block>, uid: string,
                                                     users: Table<User>, rooms: Table<Room>, b: Block)
    requires forall x :: x in bs ==> InText(s, x)
    requires b in bs && KeepBlock(s, b, uid, users, rooms).Failure?
    ensures Gather(s, bs, uid, users, rooms).Failure?
    decreases |bs|
  {
    var init := bs[..|bs| - 1];
    if b != bs[|bs| - 1] {
      assert bs == init + [bs[|bs| - 1]];
      GatherFailsOnFailingBlock(s, init, uid, users, rooms, b);
    }
  }

  /** A block fails with "No conversion found" only when the user took part
      in it: the error is raised while classifying a kept block, and it names
      the block's own id. */
  lemma UnknownTargetOnlyWhenParticipating(s: string, b: Block, uid: string, users: Table<User>, rooms: Table<Room>)
    requires InText(s, b) && KeyedById(users)
    requires KeepBlock(s, b, uid, users, rooms).Failure? && KeepBlock(s, b, uid, users, rooms).error.UnknownTarget?
    ensures NamesSender(s, b, uid)
    ensures KeepBlock(s, b, uid, users, rooms).error == UnknownTarget(b.header.id)
  {
    var ms := BlockMessages(s, b);
    ResolveErrorIsMessageError(ms, users);
    if Resolve(ms, users).Success? {
      FlagMatchesText(s, b, uid, users);
      ClassifySpec(b.header.id, Resolve(ms, users).value, users, rooms);
    }
  }

  /** A failed gathering fails with the error of one of its blocks. */
  lemma {:induction false} GatherErrorIsBlockError(s: string, bs: seq<Block>, uid: string, users: Table<User>, rooms: Table<Room>)
    requires forall b :: b in bs ==> InText(s, b)
    requires Gather(s, bs, uid, users, rooms).Failure?
    ensures exists b :: b in bs && KeepBlock(s, b, uid, users, rooms) == Failure(Gather(s, bs, uid, users, rooms).error)
    decreases |bs|
  {
    var init := bs[..|bs| - 1];
    var last := bs[|bs| - 1];
    assert bs == init + [last];
    if Gather(s, init, uid, users, rooms).Failure? {
      GatherErrorIsBlockError(s, init, uid, users, rooms);
      var b :| b in init && KeepBlock(s, b, uid, users, rooms) == Failure(Gather(s, init, uid, users, rooms).error);
      assert b in bs;
    } else {
      assert KeepBlock(s, last, uid, users, rooms) == Failure(Gather(s, bs, uid, users, rooms).error);
    }
  }

  /** `ReadConversationsAssociatedWithUserAsync` fails with "No conversion
      found" only for a conversation the user took part in, and the error
      names that conversation's id. */
  lemma UnknownTargetOnlyForParticipant(s: string, uid: string)
    requires AssociatedOf(s, uid).Failure? && AssociatedOf(s, uid).error.UnknownTarget?
    ensures exists b :: b in Blocks(s, 0) && NamesSender(s, b, uid)
                        && AssociatedOf(s, uid).error == UnknownTarget(b.header.id)
  {
    TableErrorIsDuplicate(Records(s, 0, UserKeyword), MakeUser);
    TableErrorIsDuplicate(Records(s, 0, RoomKeyword), MakeRoom);
    assert UsersTable(s).Success? && RoomsTable(s).Success?;
    var bs := Blocks(s, 0);
    var users := UsersTable(s).value;
    var rooms := RoomsTable(s).value;
    TablesKeyByOwnId(s);
    GatherErrorIsBlockError(s, bs, uid, users, rooms);
    var b :| b in bs && KeepBlock(s, b, uid, users, rooms) == Failure(AssociatedOf(s, uid).error);
    UnknownTargetOnlyWhenParticipating(s, b, uid, users, rooms);
  }

  /** A message anywhere in the text whose sender is not a user id makes the
      whole read fail, whoever the requested user is. */
  lemma UnresolvedSenderFailsAll(s: string, uid: string, b: Block, j: nat)
    requires b in Blocks(s, 0)
    requires UsersTable(s).Success? && UsersTable(s).value.Some? && RoomsTable(s).Success?
    requires j < |BlockMessages(s, b)| && BlockMessages(s, b)[j].sender !in UsersTable(s).value.value
    ensures AssociatedOf(s, uid).Failure?
  {
    var users := UsersTable(s).value;
    ResolveSucceeds(BlockMessages(s, b), users);
    GatherFailsOnFailingBlock(s, Blocks(s, 0), uid, users, RoomsTable(s).value, b);
  }

  /** Where the read by id finds the same block, it builds the same
      conversation as the read by participant. */
  lemma ReadsAgree(s: string, uid: string, k: nat)
    requires AssociatedOf(s, uid).Success?
    requires k < |AssociatedOf(s, uid).value|
    requires var id := AssociatedOf(s, uid).value[k].id;
      k < |Participated(s, Blocks(s, 0), uid)| && FindBlock(s, id) == Some(Participated(s, Blocks(s, 0), uid)[k])
    ensures ConversationOf(s, AssociatedOf(s, uid).value[k].id) == Success(AssociatedOf(s, uid).value[k])
  {
    var bs := Blocks(s, 0);
    var users := UsersTable(s).value;
    var rooms := RoomsTable(s).value;
    TablesKeyByOwnId(s);
    assert AssociatedOf(s, uid) == Gather(s, bs, uid, users, rooms);
    GatherSpec(s, bs, uid, users, rooms);
    var c := AssociatedOf(s, uid).value[k];
    var p := Participated(s, bs, uid)[k];
    assert KeepBlock(s, p, uid, users, rooms) == Success(Some(c));
    KeepBlockSpec(s, p, uid, users, rooms);
    var msgs := Resolve(BlockMessages(s, p), users).value;
    ClassifySpec(p.header.id, msgs, users, rooms);
    assert c.id == p.header.id;
    assert ConversationOf(s, c.id) == Classify(c.id, msgs, users, rooms);
  }
}
