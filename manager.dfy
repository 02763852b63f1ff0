/**
 * Class `DickManager` of src.py (lines 94-229) and the start-up helpers
 * `ensure_user_in_db`, `setup_group_table` and `init_func` (lines 234-268):
 * the game as the bot runs it, statement by statement, against a
 * `DataBase`.  Every method is proved to do what the matching function of
 * module Game describes, so the properties proved there hold of the bot.
 */
module Manager {
  import opened Wrappers
  import opened Store
  import opened Game
  import opened Database

  /** The place found in `rows[i..]`, counted from the start of `rows`. */
  function Shifted(r: Result<Option<nat>, EngineError>, i: nat): Result<Option<nat>, EngineError> {
    match r
    case Success(Some(n)) => Success(Some(n + i))
    case _ => r
  }

  /** A scan that has passed `rows[..i]` without a match still finds what a full scan finds. */
  lemma PositionStep(rows: seq<Row>, i: nat, user: int)
    requires i < |rows| && IdColumn in rows[i] && rows[i][IdColumn] != Int(user)
    ensures Shifted(Position(rows[i..], user), i) == Shifted(Position(rows[i + 1..], user), i + 1)
  {
    assert rows[i..][1..] == rows[i + 1..];
  }

  /** The `enumerate` loop of `get_n_top`: the 1-based place of the player's row, scanning from the top. */
  method Place(rows: seq<Row>, user: int) returns (r: Result<Option<nat>, EngineError>)
    ensures r == Position(rows, user)
  {
    var i := 0;
    while i < |rows|
      invariant 0 <= i <= |rows|
      invariant Position(rows, user) == Shifted(Position(rows[i..], user), i)
    {
      if IdColumn !in rows[i] {
        return Failure(BadValue(IdColumn));
      }
      if rows[i][IdColumn] == Int(user) {
        return Success(Some(i + 1));
      }
      PositionStep(rows, i, user);
      i := i + 1;
    }
    return Success(None);
  }

  /** Once the loop over `dick_sizes` has failed, later chats do not change the outcome. */
  lemma {:induction false} GatherStopsAtFailure(got: seq<Result<Option<int>, EngineError>>, i: nat)
    requires i <= |got| && Gather(got[..i]).Failure?
    ensures Gather(got) == Gather(got[..i])
    decreases |got| - i
  {
    if i < |got| {
      assert got[..i + 1][..i] == got[..i];
      GatherStopsAtFailure(got, i + 1);
    } else {
      assert got[..i] == got;
    }
  }

  /** One more chat read by the `dick_sizes` loop. */
  lemma GatherStep(got: seq<Result<Option<int>, EngineError>>, i: nat, sizes: seq<int>)
    requires i < |got| && Gather(got[..i]) == Success(sizes)
    ensures Gather(got[..i + 1]) ==
      match got[i]
      case Failure(e) => Failure(e)
      case Success(None) => Success(sizes)
      case Success(Some(v)) => Success(sizes + [v])
  {
    assert got[..i + 1][..i] == got[..i];
  }

  /** One more line of the top list. */
  lemma EntriesStep(rows: seq<Row>, i: nat, lines: seq<TopEntry>)
    requires i < |rows| && Entries(rows[..i]) == Success(lines)
    ensures Entry(i + 1, rows[i]).Success? ==> Entries(rows[..i + 1]) == Success(lines + [Entry(i + 1, rows[i]).value])
  {
    assert rows[..i + 1][..i] == rows[..i];
  }

  class DickManager {
    const db: DataBase
    /** `self.data`: the rows the last attempt loaded (and, after a play, rewrote). */
    var data: Option<Loaded>

    constructor (database: DataBase)
      ensures db == database && data == None
    {
      db := database;
      data := None;
    }

    /** `add_group`: returns the list as the caller's list object holds it afterwards. */
    method AddGroup(groups: seq<int>, user: int, chat: int) returns (groups': seq<int>, status: Status)
      requires db.Valid()
      modifies db
      ensures db.Valid()
      ensures Joined(db.tables, groups', status) == Game.AddGroup(old(db.tables), groups, user, chat)
    {
      if chat in groups {
        return groups, Done;
      }
      groups' := groups + [chat];
      status := db.Update(UsersTable, map[GroupsColumn := Ints(groups')], IdIs(user));
    }

    /** `get_n_top`: the chat's rows ordered by size, then the scan for the player's place. */
    method GetNTop(user: int, chat: int) returns (r: Result<Option<nat>, EngineError>)
      ensures r == NTop(db.tables, user, chat)
    {
      var found := db.Find(GroupTable(chat), [], SizeDesc, None);
      if found.Failure? {
        return Failure(StoreFailed(found.error));
      }
      var rows := found.value;
      if |rows| == 0 {
        return Success(Some(0));
      }
      r := Place(rows, user);
    }

    /** `get_top`: one line per row of `ORDER BY size DESC LIMIT 10`, built by the list comprehension. */
    method GetTop(table: string) returns (r: Result<seq<TopEntry>, EngineError>)
      ensures r == Top(db.tables, table)
    {
      var found := db.Find(table, [], SizeDesc, Some(TopSize));
      if found.Failure? {
        return Failure(StoreFailed(found.error));
      }
      var rows := found.value;
      var lines: seq<TopEntry> := [];
      var i := 0;
      while i < |rows|
        invariant 0 <= i <= |rows|
        invariant Entries(rows[..i]) == Success(lines)
      {
        var line := Entry(i + 1, rows[i]);
        EntriesStep(rows, i, lines);
        if line.Failure? {
          EntriesStopAtFailure(rows, i + 1);
          return Failure(line.error);
        }
        lines := lines + [line.value];
        i := i + 1;
      }
      assert rows[..i] == rows;
      r := Success(lines);
    }

    /** `get_global_top`. */
    method GetGlobalTop() returns (r: Result<seq<TopEntry>, EngineError>)
      ensures r == GlobalTop(db.tables)
    {
      r := GetTop(UsersTable);
    }

    /** `get_chat_top`. */
    method GetChatTop(chat: int) returns (r: Result<seq<TopEntry>, EngineError>)
      ensures r == ChatTop(db.tables, chat)
    {
      r := GetTop(GroupTable(chat));
    }

    /** The `for chat_id in groups` loop collecting `dick_sizes`. */
    method DickSizes(groups: seq<int>, user: int) returns (r: Result<seq<int>, EngineError>)
      ensures r == CollectSizes(db.tables, groups, user)
    {
      ghost var got := SizesRead(db.tables, groups, user);
      var sizes: seq<int> := [];
      var i := 0;
      while i < |groups|
        invariant 0 <= i <= |groups|
        invariant Gather(got[..i]) == Success(sizes)
      {
        var read := db.Get(GroupTable(groups[i]), IdIs(user));
        var size := SizeOfRow(read);
        assert size == got[i];
        GatherStep(got, i, sizes);
        if size.Failure? {
          GatherStopsAtFailure(got, i + 1);
          return Failure(size.error);
        }
        if size.value.Some? {
          sizes := sizes + [size.value.value];
        }
        i := i + 1;
      }
      assert got[..i] == got;
      r := Success(sizes);
    }

    /** The reads of `dick` before `add_group`: `last_played`, `size`, the rank and the membership list. */
    method Prepare(loaded: Loaded, user: int, chat: int) returns (r: Result<Prepared, EngineError>)
      ensures r == Game.Prepare(db.tables, loaded, user, chat)
    {
      if loaded.group.None? {
        return Failure(NoGroupRow);
      }
      var row := loaded.group.value;
      if LastPlayedColumn !in row || !row[LastPlayedColumn].Int? {
        return Failure(BadValue(LastPlayedColumn));
      }
      if SizeColumn !in row {
        return Failure(BadValue(SizeColumn));
      }
      var top := GetNTop(user, chat);
      if top.Failure? {
        return Failure(top.error);
      }
      if loaded.user.None? {
        return Failure(NoUserRow);
      }
      var urow := loaded.user.value;
      if GroupsColumn !in urow || !urow[GroupsColumn].Ints? {
        return Failure(BadValue(GroupsColumn));
      }
      r := Success(Prepared(row, row[LastPlayedColumn].i, top.value, urow[GroupsColumn].xs));
    }

    /** The played branch of `dick`, after the draw. */
    method Play(loaded: Loaded, user: int, username: string, chat: int, now: int, delta: int, groups: seq<int>)
      returns (r: Result<Reply, EngineError>)
      requires db.Valid() && loaded.group.Some? && SizeColumn in loaded.group.value
      modifies this, db
      ensures db.Valid()
      ensures var o := Game.Play(old(db.tables), loaded, user, username, chat, now, delta, groups);
        db.tables == o.after && data == o.loaded && r == o.result
    {
      var row := loaded.group.value;
      if !row[SizeColumn].Int? {
        data := Some(loaded);
        return Failure(BadValue(SizeColumn));
      }
      var size := Clamp(row[SizeColumn].i + delta);
      var row' := Replayed(row, delta, now);
      data := Some(Loaded(loaded.user, Some(row')));
      var status := db.Update(GroupTable(chat), row', IdIs(user));
      if status.Failed? {
        return Failure(StoreFailed(status.error));
      }
      var top := GetNTop(user, chat);
      if top.Failure? {
        return Failure(top.error);
      }
      var sizes := DickSizes(groups, user);
      if sizes.Failure? {
        return Failure(sizes.error);
      }
      if |sizes.value| == 0 {
        return Failure(NoSizes);
      }
      status := db.Update(UsersTable, map[SizeColumn := Int(Largest(sizes.value))], IdIs(user));
      if status.Failed? {
        return Failure(StoreFailed(status.error));
      }
      var direction := if delta > 0 then Grew else Shrank;
      r := Success(Played(username, direction, Abs(delta), size, top.value, Wait(DelayHours, DelayMinutes, DelaySeconds)));
    }

    /** The redraw loop: `randint` results are the successive `draws`. */
    method Redraw(draws: seq<int>) returns (delta: int)
      requires SomeNonZero(draws)
      ensures delta == Draw(draws)
    {
      var k := 0;
      while draws[k] == 0
        invariant 0 <= k <= FirstNonZero(draws)
        decreases FirstNonZero(draws) - k
      {
        k := k + 1;
      }
      delta := draws[k];
    }

    /**
     * `dick(user_id, username, chat_id)` at time `now`, with `draws` the
     * values `randint(min, max)` returns in turn.  `self.data` keeps its old
     * value when loading the rows fails.
     */
    method Dick(user: int, username: string, chat: int, now: int, draws: seq<int>)
      returns (r: Result<Reply, EngineError>)
      requires db.Valid() && SomeNonZero(draws)
      modifies this, db
      ensures db.Valid()
      ensures var o := Attempt(old(db.tables), user, username, chat, now, Draw(draws));
        && db.tables == o.after && r == o.result
        && data == (if o.loaded.Some? then o.loaded else old(data))
    {
      ghost var s := db.tables;
      ghost var delta := Draw(draws);
      var u := db.Get(UsersTable, IdIs(user));
      if u.Failure? {
        AttemptFailsLoading(s, user, username, chat, now, delta);
        return Failure(StoreFailed(u.error));
      }
      var g := db.Get(GroupTable(chat), IdIs(user));
      if g.Failure? {
        AttemptFailsLoading(s, user, username, chat, now, delta);
        return Failure(StoreFailed(g.error));
      }
      var loaded := Loaded(u.value, g.value);
      assert Load(s, user, chat) == Success(loaded);
      data := Some(loaded);
      var p := Prepare(loaded, user, chat);
      if p.Failure? {
        AttemptFailsPreparing(s, loaded, user, username, chat, now, delta);
        return Failure(p.error);
      }
      AttemptAfterJoin(s, loaded, p.value, user, username, chat, now, delta);
      var groups, status := AddGroup(p.value.groups, user, chat);
      if status.Failed? {
        return Failure(StoreFailed(status.error));
      }
      if now - p.value.last > Delay {
        var drawn := Redraw(draws);
        r := Play(loaded, user, username, chat, now, drawn, groups);
      } else {
        r := Success(NotYet(username, p.value.row[SizeColumn], p.value.top, TimeNextPlay(p.value.last, now)));
      }
    }
  }

  /** Once a line of the top list has failed, the whole list fails with that error. */
  lemma {:induction false} EntriesStopAtFailure(rows: seq<Row>, i: nat)
    requires 0 < i <= |rows| && Entries(rows[..i - 1]).Success? && Entry(i, rows[i - 1]).Failure?
    ensures Entries(rows) == Failure(Entry(i, rows[i - 1]).error)
    decreases |rows| - i
  {
    assert rows[..i][..i - 1] == rows[..i - 1];
    if i < |rows| {
      EntriesFailurePersists(rows, i);
    } else {
      assert rows[..i] == rows;
    }
  }

  lemma {:induction false} EntriesFailurePersists(rows: seq<Row>, i: nat)
    requires 0 < i <= |rows| && Entries(rows[..i]).Failure?
    ensures Entries(rows) == Entries(rows[..i])
    decreases |rows| - i
  {
    if i < |rows| {
      assert rows[..i + 1][..i] == rows[..i];
      EntriesFailurePersists(rows, i + 1);
    } else {
      assert rows[..i] == rows;
    }
  }

  /** `ensure_user_in_db`: insert the sender's row, keeping an existing one. */
  method EnsureUserInDb(db: DataBase, table: string, p: Sender) returns (status: Status)
    requires db.Valid()
    modifies db
    ensures db.Valid()
    ensures Effect(db.tables, status) == Store.Insert(old(db.tables), table, UserRow(p))
  {
    status := db.Insert(table, UserRow(p));
  }

  /** `setup_group_table`: create a chat's table with its columns and defaults, if it does not exist. */
  method SetupGroupTable(db: DataBase, table: string) returns (status: Status)
    requires db.Valid()
    modifies db
    ensures db.Valid()
    ensures Effect(db.tables, status) == Store.CreateTable(old(db.tables), table, GroupSchema)
  {
    status := db.CreateTable(table, GroupSchema);
  }

  /** `init_func`: the sender's rows, and the answer tuple. */
  method InitFunc(db: DataBase, p: Sender, chatId: int, kind: ChatKind) returns (r: Result<Session, EngineError>)
    requires db.Valid()
    modifies db
    ensures db.Valid()
    ensures Started(db.tables, r) == Init(old(db.tables), p, chatId, kind)
  {
    var chat := Abs(chatId);
    var status := EnsureUserInDb(db, UsersTable, p);
    if status.Failed? {
      return Failure(StoreFailed(status.error));
    }
    if !InGroup(kind) {
      return Success(Session(p.id, p.firstName, chat, kind, false));
    }
    var _ := SetupGroupTable(db, GroupTable(chat));
    status := EnsureUserInDb(db, GroupTable(chat), p);
    if status.Failed? {
      return Failure(StoreFailed(status.error));
    }
    r := Success(Session(p.id, p.firstName, chat, kind, true));
  }
}
