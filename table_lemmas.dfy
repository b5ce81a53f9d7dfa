/** What the bulk reads `ReadUsersAllAsync` and `ReadRoomsAllAsync` and the
    single lookups `ReadUserAsync` and `ReadRoomAsync` promise. */
module TableLemmas {
  import opened Wrappers
  import opened Text
  import opened Entities
  import opened Patterns
  import opened ReaderSpec
  import opened Reader

  /** No two records share an id. */
  ghost predicate DistinctIds(recs: seq<Record>) {
    forall i, j :: 0 <= i < j < |recs| ==> recs[i].id != recs[j].id
  }

  /** The ids of the records. */
  ghost function Ids(recs: seq<Record>): set<string> {
    set j | 0 <= j < |recs| :: recs[j].id
  }

  /** Filling the dictionary succeeds exactly when the ids are distinct:
      `Dictionary.Add` throws on the first repeated key. */
  lemma {:induction false} FillSucceedsIffDistinct<T>(recs: seq<Record>, make: (string, string) -> T)
    ensures Fill(recs, make).Success? <==> DistinctIds(recs)
    decreases |recs|
  {
    if recs != [] {
      var init := recs[..|recs| - 1];
      var last := recs[|recs| - 1];
      FillSucceedsIffDistinct(init, make);
      assert forall j :: 0 <= j < |init| ==> init[j] == recs[j];
      if Fill(init, make).Success? {
        FillContents(init, make);
      }
    }
  }

  /** After a successful fill the keys are exactly the ids of the records and
      each id maps to the entry made from its record. */
  lemma {:induction false} FillContents<T>(recs: seq<Record>, make: (string, string) -> T)
    requires Fill(recs, make).Success?
    ensures Fill(recs, make).value.Keys == Ids(recs)
    ensures forall j :: 0 <= j < |recs| ==>
              Fill(recs, make).value[recs[j].id] == make(recs[j].id, recs[j].name)
    decreases |recs|
  {
    if recs != [] {
      var init := recs[..|recs| - 1];
      FillContents(init, make);
      var d := Fill(init, make).value;
      var last := recs[|recs| - 1];
      assert Fill(recs, make).value == d[last.id := make(last.id, last.name)];
      assert forall j :: 0 <= j < |init| ==> init[j] == recs[j];
      assert Ids(recs) == Ids(init) + {last.id} by {
        forall x | x in Ids(recs) ensures x in Ids(init) + {last.id} {
          var j :| 0 <= j < |recs| && recs[j].id == x;
          if j < |init| {
            assert init[j].id == x;
          }
        }
      }
    }
  }

  /** A failed fill reports the first id that repeats an earlier one. */
  lemma {:induction false} FillReportsFirstDuplicate<T>(recs: seq<Record>, make: (string, string) -> T)
    requires Fill(recs, make).Failure?
    ensures exists j :: 0 <= j < |recs|
              && Fill(recs, make).error == DuplicateKey(recs[j].id)
              && (exists i :: 0 <= i < j && recs[i].id == recs[j].id)
              && DistinctIds(recs[..j])
    decreases |recs|
  {
    var init := recs[..|recs| - 1];
    var last := recs[|recs| - 1];
    assert forall j :: 0 <= j < |init| ==> init[j] == recs[j];
    if Fill(init, make).Failure? {
      FillReportsFirstDuplicate(init, make);
      var j :| 0 <= j < |init|
              && Fill(init, make).error == DuplicateKey(init[j].id)
              && (exists i :: 0 <= i < j && init[i].id == init[j].id)
              && DistinctIds(init[..j]);
      assert init[..j] == recs[..j];
    } else {
      FillContents(init, make);
      FillSucceedsIffDistinct(init, make);
      var i :| 0 <= i < |init| && init[i].id == last.id;
      assert init == recs[..|recs| - 1];
    }
  }

  /** The table is the null dictionary exactly when the record pattern
      matches nowhere in the text. */
  lemma TableIsNullIffNoRecord<T>(s: string, keyword: string, make: (string, string) -> T)
    ensures TableOf(Records(s, 0, keyword), make) == Success(None) <==>
            forall k :: 0 <= k <= |s| ==> RecordAt(s, k, keyword).None?
  {
    var recs := Records(s, 0, keyword);
    if recs != [] {
      RecordsAreMatches(s, 0, keyword, recs[0]);
    } else {
      forall k | 0 <= k <= |s| ensures RecordAt(s, k, keyword).None? {
        if RecordAt(s, k, keyword).Some? {
          RecordsFirst(s, 0, keyword, k);
        }
      }
    }
  }

  /** Every user in the users table is stored under its own id, and every
      room in the rooms table likewise. */
  lemma TablesKeyByOwnId(s: string)
    ensures UsersTable(s).Success? && UsersTable(s).value.Some? ==>
              forall key :: key in UsersTable(s).value.value ==> UsersTable(s).value.value[key].id == key
    ensures RoomsTable(s).Success? && RoomsTable(s).value.Some? ==>
              forall key :: key in RoomsTable(s).value.value ==> RoomsTable(s).value.value[key].id == key
  {
    var users := Records(s, 0, UserKeyword);
    if UsersTable(s).Success? && UsersTable(s).value.Some? {
      FillContents(users, MakeUser);
    }
    var rooms := Records(s, 0, RoomKeyword);
    if RoomsTable(s).Success? && RoomsTable(s).value.Some? {
      FillContents(rooms, MakeRoom);
    }
  }

  /** `FindRecord` from the start of the text finds the first match of the
      pattern with the spliced-in id, and finds one whenever there is one. */
  lemma FirstRecordFor(s: string, keyword: string, id: string)
    ensures FindRecord(s, 0, keyword, id).Some? <==>
            exists k :: 0 <= k <= |s| && RecordForAt(s, k, keyword, id).Some?
    ensures FindRecord(s, 0, keyword, id).Some? ==>
              var k := FindRecord(s, 0, keyword, id).value.start;
              forall k' :: 0 <= k' < k ==> RecordForAt(s, k', keyword, id).None?
  {
    if exists k :: 0 <= k <= |s| && RecordForAt(s, k, keyword, id).Some? {
      var k :| 0 <= k <= |s| && RecordForAt(s, k, keyword, id).Some?;
      FindRecordFirst(s, 0, keyword, id, k);
    }
    if FindRecord(s, 0, keyword, id).Some? {
      var k := FindRecord(s, 0, keyword, id).value.start;
      forall k' | 0 <= k' < k ensures RecordForAt(s, k', keyword, id).None? {
        if RecordForAt(s, k', keyword, id).Some? {
          FindRecordFirst(s, 0, keyword, id, k');
        }
      }
    }
  }

  /** `ReadUserAsync` returns a user exactly when `user <id> <name>` matches
      somewhere (ignoring case), with the caller's id and the name of the
      first such line. */
  lemma ReadUserFindsFirstMatch(s: string, id: string)
    ensures ReadUser(s, id).Some? <==> exists k :: 0 <= k <= |s| && RecordForAt(s, k, UserKeyword, id).Some?
    ensures ReadUser(s, id).Some? ==>
              exists k :: && 0 <= k <= |s|
                          && RecordForAt(s, k, UserKeyword, id).Some?
                          && ReadUser(s, id).value == User(id, RecordForAt(s, k, UserKeyword, id).value.name)
                          && forall k' :: 0 <= k' < k ==> RecordForAt(s, k', UserKeyword, id).None?
  {
    FirstRecordFor(s, UserKeyword, id);
  }

  /** `ReadRoomAsync` returns a room exactly when `room <id> <name>` matches
      somewhere (ignoring case), with the caller's id and the name of the
      first such line. */
  lemma ReadRoomFindsFirstMatch(s: string, id: string)
    ensures ReadRoom(s, id).Some? <==> exists k :: 0 <= k <= |s| && RecordForAt(s, k, RoomKeyword, id).Some?
    ensures ReadRoom(s, id).Some? ==>
              exists k :: && 0 <= k <= |s|
                          && RecordForAt(s, k, RoomKeyword, id).Some?
                          && ReadRoom(s, id).value == Room(id, RecordForAt(s, k, RoomKeyword, id).value.name)
                          && forall k' :: 0 <= k' < k ==> RecordForAt(s, k', RoomKeyword, id).None?
  {
    FirstRecordFor(s, RoomKeyword, id);
  }

  /** The single lookup finds every id that the bulk read put in its table. */
  lemma {:induction false} TabledRecordIsFound<T>(s: string, keyword: string, make: (string, string) -> T, id: string)
    requires Fill(Records(s, 0, keyword), make).Success?
    requires id in Fill(Records(s, 0, keyword), make).value
    ensures FindRecord(s, 0, keyword, id).Some?
  {
    var recs := Records(s, 0, keyword);
    FillContents(recs, make);
    var j :| 0 <= j < |recs| && recs[j].id == id;
    RecordsAreMatches(s, 0, keyword, recs[j]);
    RecordForAtAgrees(s, recs[j].start, keyword);
    FindRecordFirst(s, 0, keyword, id, recs[j].start);
  }

  /** Every user id in the table of `ReadUsersAllAsync` is found by
      `ReadUserAsync`, and every room id in the table of `ReadRoomsAllAsync`
      by `ReadRoomAsync`. */
  lemma TabledIdsAreFound(s: string, id: string)
    ensures UsersTable(s).Success? && UsersTable(s).value.Some? && id in UsersTable(s).value.value ==>
              ReadUser(s, id).Some?
    ensures RoomsTable(s).Success? && RoomsTable(s).value.Some? && id in RoomsTable(s).value.value ==>
              ReadRoom(s, id).Some?
  {
    if UsersTable(s).Success? && UsersTable(s).value.Some? && id in UsersTable(s).value.value {
      TabledRecordIsFound(s, UserKeyword, MakeUser, id);
    }
    if RoomsTable(s).Success? && RoomsTable(s).value.Some? && id in RoomsTable(s).value.value {
      TabledRecordIsFound(s, RoomKeyword, MakeRoom, id);
    }
  }

  /** A log in which a user's name contains `bob Z`, and a later line
      declares the user `bob`. */
  const ShadowLog: string := "user user bob Z\nuser bob Y"

  /** The first line of the log is the record of the user `user`. */
  lemma ShadowLogFirstRecord()
    ensures RecordAt(ShadowLog, 0, UserKeyword) == Some(Record("user", "bob Z", 0, 15))
  {
    var s := ShadowLog;
    var r := Record("user", "bob Z", 0, 15);
    ShadowLogFirstRuns();
    assert s[5..9] == r.id by {
      assert s[5] == 'u' && s[6] == 's' && s[7] == 'e' && s[8] == 'r';
    }
    assert s[10..15] == r.name by {
      assert s[10] == 'b' && s[11] == 'o' && s[12] == 'b' && s[13] == ' ' && s[14] == 'Z';
    }
    RecordAtSpec(s, 0, UserKeyword, r);
  }

  /** The characters of the first record, one class at a time. */
  lemma ShadowLogFirstRuns()
    ensures forall k :: 5 <= k < 9 ==> NotSpace(ShadowLog[k])
    ensures forall k :: 10 <= k < 15 ==> NotLineBreak(ShadowLog[k])
    ensures IsSpace(ShadowLog[4]) && IsSpace(ShadowLog[9]) && !NotLineBreak(ShadowLog[15])
    ensures LiteralAt(ShadowLog, 0, |ShadowLog|, UserKeyword)
  {
    assert ShadowLog[..4] == UserKeyword;
  }

  /** The second line of the log is the record of the user `bob`. */
  lemma ShadowLogSecondRecord()
    ensures RecordAt(ShadowLog, 16, UserKeyword) == Some(Record("bob", "Y", 16, 26))
  {
    var s := ShadowLog;
    var r := Record("bob", "Y", 16, 26);
    ShadowLogSecondRuns();
    assert s[21..24] == r.id by {
      assert s[21] == 'b' && s[22] == 'o' && s[23] == 'b';
    }
    assert s[25..26] == r.name by {
      assert s[25] == 'Y';
    }
    RecordAtSpec(s, 16, UserKeyword, r);
  }

  /** The characters of the second record, one class at a time. */
  lemma ShadowLogSecondRuns()
    ensures forall k :: 21 <= k < 24 ==> NotSpace(ShadowLog[k])
    ensures NotLineBreak(ShadowLog[25]) && |ShadowLog| == 26
    ensures IsSpace(ShadowLog[20]) && IsSpace(ShadowLog[24])
    ensures LiteralAt(ShadowLog, 16, |ShadowLog|, UserKeyword)
  {
    assert ShadowLog[16..20] == UserKeyword;
  }

  /** The bulk pattern finds exactly the two lines. */
  lemma ShadowLogRecords()
    ensures Records(ShadowLog, 0, UserKeyword) == [Record("user", "bob Z", 0, 15), Record("bob", "Y", 16, 26)]
  {
    var s := ShadowLog;
    ShadowLogFirstRecord();
    ShadowLogSecondRecord();
    assert !LiteralAt(s, 15, |s|, UserKeyword) by {
      assert s[15] == '\n' && UserKeyword[0] == 'u';
      assert Fold(s[15]) != Fold(UserKeyword[0]);
    }
    assert Records(s, 26, UserKeyword) == [];
  }

  /** The single-id pattern for `bob` first matches inside the first line. */
  lemma ShadowLogSpliced()
    ensures FindRecord(ShadowLog, 0, UserKeyword, "bob") == Some(Record("bob", "Z", 5, 15))
  {
    var s := ShadowLog;
    ShadowLogSplicedAt5();
    ShadowLogNoEarlierMatch();
    assert FindRecord(s, 4, UserKeyword, "bob") == FindRecord(s, 5, UserKeyword, "bob");
    assert FindRecord(s, 3, UserKeyword, "bob") == FindRecord(s, 4, UserKeyword, "bob");
    assert FindRecord(s, 2, UserKeyword, "bob") == FindRecord(s, 3, UserKeyword, "bob");
    assert FindRecord(s, 1, UserKeyword, "bob") == FindRecord(s, 2, UserKeyword, "bob");
  }

  /** `user bob Z`, from position 5, matches the single-id pattern. */
  lemma ShadowLogSplicedAt5()
    ensures RecordForAt(ShadowLog, 5, UserKeyword, "bob") == Some(Record("bob", "Z", 5, 15))
  {
    var s := ShadowLog;
    var r := Record("bob", "Z", 5, 15);
    ShadowLogSplicedRuns();
    assert s[10..13] == r.id by {
      assert s[10] == 'b' && s[11] == 'o' && s[12] == 'b';
    }
    assert s[14..15] == r.name by {
      assert s[14] == 'Z';
    }
    RecordForAtComplete(s, UserKeyword, "bob", r);
  }

  /** The characters of that match, one class at a time. */
  lemma ShadowLogSplicedRuns()
    ensures forall k :: 10 <= k < 13 ==> NotSpace(ShadowLog[k])
    ensures NotLineBreak(ShadowLog[14])
    ensures IsSpace(ShadowLog[9]) && IsSpace(ShadowLog[13]) && !NotLineBreak(ShadowLog[15])
    ensures LiteralAt(ShadowLog, 5, |ShadowLog|, UserKeyword)
    ensures LiteralAt(ShadowLog, 10, |ShadowLog|, "bob")
  {
    assert ShadowLog[5..9] == UserKeyword;
    assert ShadowLog[10..13] == "bob";
  }

  /** No match of the single-id pattern starts before position 5. */
  lemma ShadowLogNoEarlierMatch()
    ensures forall k :: 0 <= k < 5 ==> RecordForAt(ShadowLog, k, UserKeyword, "bob").None?
  {
    var s := ShadowLog;
    assert !LiteralAt(s, 5, |s|, "bob") by {
      assert s[5] == 'u' && "bob"[0] == 'b';
      assert Fold(s[5]) != Fold("bob"[0]);
    }
    assert s[1] == 's' && s[2] == 'e' && s[3] == 'r' && s[4] == ' ' && UserKeyword[0] == 'u';
    forall k | 1 <= k < 5 ensures !LiteralAt(s, k, |s|, UserKeyword) {
      assert Fold(s[k]) != Fold(UserKeyword[0]);
    }
  }

  /** The single-id pattern is not anchored to the start of a line: it finds
      `user bob Z` inside the name of the first record, so the single read
      disagrees with the table, which keys `bob` to the second line. */
  lemma EarlierNameShadowsRecord()
    ensures UsersTable(ShadowLog)
              == Success(Some(map["user" := User("user", "bob Z"), "bob" := User("bob", "Y")]))
    ensures ReadUser(ShadowLog, "bob") == Some(User("bob", "Z"))
  {
    ShadowLogRecords();
    ShadowLogSpliced();
    ShadowLogFill();
  }

  /** The two records fill the dictionary with both users. */
  lemma ShadowLogFill()
    ensures var recs := [Record("user", "bob Z", 0, 15), Record("bob", "Y", 16, 26)];
      Fill(recs, MakeUser) == Success(map["user" := User("user", "bob Z"), "bob" := User("bob", "Y")])
  {
    var r1 := Record("user", "bob Z", 0, 15);
    var r2 := Record("bob", "Y", 16, 26);
    var recs := [r1, r2];
    assert recs[..1] == [r1];
    assert [r1][..0] == [];
    assert Fill([r1], MakeUser) == Success(map["user" := User("user", "bob Z")]);
    assert "bob" != "user";
  }
}
