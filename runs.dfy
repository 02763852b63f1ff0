/**
 * What holds of the store after any sequence of messages the bot handles.
 * `main` (src.py:283-294) creates the `users` table; after that every
 * message runs `init_func` and, for `/dick` in a group, one attempt.  Over
 * any such run no stored size is negative (the clamp at src.py:190-192 and
 * the column defaults of 0) and no membership list holds a chat twice
 * (`add_group` at src.py:125-129 appends only an absent chat).
 */
module Runs {
  import opened Wrappers
  import opened Store
  import opened Game

  /** The tables as the bot creates them: `users` and the per-chat tables, each with its columns. */
  predicate Shaped(s: Tables) {
    && WellFormed(s)
    && forall n | n in s :: s[n].schema == (if n == UsersTable then UsersSchema else GroupSchema)
  }

  /** A size that is an integer is not negative. */
  predicate RowSizeOk(row: Row) {
    SizeColumn in row && row[SizeColumn].Int? ==> row[SizeColumn].i >= 0
  }

  /** A membership list holds each chat once. */
  predicate GroupsOk(row: Row) {
    GroupsColumn in row && row[GroupsColumn].Ints? ==> NoDup(row[GroupsColumn].xs)
  }

  predicate RowOk(name: string, row: Row) {
    RowSizeOk(row) && (name == UsersTable ==> GroupsOk(row))
  }

  predicate RowsOk(s: Tables) {
    forall n, k | n in s && k in s[n].rows :: RowOk(n, s[n].rows[k])
  }

  predicate Healthy(s: Tables) {
    Shaped(s) && RowsOk(s)
  }

  /** The store right after `main` has created the `users` table. */
  const Fresh: Tables := map[UsersTable := Table(UsersSchema, map[])]

  /** That store holds only the empty `users` table, and is healthy. */
  lemma FreshHealthy()
    ensures Fresh.Keys == {UsersTable} && Fresh[UsersTable].schema == UsersSchema && Fresh[UsersTable].rows == map[]
    ensures Healthy(Fresh)
  {
  }

  /** What the bot does with one message. */
  datatype Event =
    | Start(p: Sender, chatId: int, kind: ChatKind)
    | Roll(user: int, username: string, chat: int, now: int, delta: int)

  function After(s: Tables, e: Event): Tables {
    match e
    case Start(p, chatId, kind) => Init(s, p, chatId, kind).after
    case Roll(user, username, chat, now, delta) => Attempt(s, user, username, chat, now, delta).after
  }

  function Run(s: Tables, events: seq<Event>): Tables
    decreases |events|
  {
    if |events| == 0 then s else Run(After(s, events[0]), events[1..])
  }

  // ---------------------------------------------------------------------------
  // One row, one statement
  // ---------------------------------------------------------------------------

  lemma HealthyWithRow(s: Tables, name: string, user: int, row: Row)
    requires Healthy(s) && name in s && RowOk(name, row) && WellFormed(WithRow(s, name, user, row))
    ensures Healthy(WithRow(s, name, user, row))
  {
    var s' := WithRow(s, name, user, row);
    forall n, k | n in s' && k in s'[n].rows ensures RowOk(n, s'[n].rows[k]) {
      if n == name && k != user {
        assert s'[n].rows[k] == s[n].rows[k];
      }
    }
  }

  lemma InsertHealthy(s: Tables, name: string, data: Row)
    requires Healthy(s) && SizeColumn !in data && GroupsColumn !in data
    ensures Healthy(Insert(s, name, data).after)
  {
    var s' := Insert(s, name, data).after;
    forall n, k | n in s' && k in s'[n].rows ensures RowOk(n, s'[n].rows[k]) {
      if n == name && k !in s[n].rows {
        assert s'[n].rows[k] == NewRow(s[n].schema, data, k);
      }
    }
  }

  lemma CreateTableHealthy(s: Tables, name: string)
    requires Healthy(s) && name != UsersTable
    ensures Healthy(CreateTable(s, name, GroupSchema).after)
  {
  }

  // ---------------------------------------------------------------------------
  // init_func
  // ---------------------------------------------------------------------------

  /** `init_func` leaves the store after its first insert or after its last. */
  lemma InitStores(s: Tables, p: Sender, chatId: int, kind: ChatKind)
    ensures var s1 := Insert(s, UsersTable, UserRow(p)).after;
      var g := GroupTable(Abs(chatId));
      || Init(s, p, chatId, kind).after == s1
      || Init(s, p, chatId, kind).after == Insert(CreateTable(s1, g, GroupSchema).after, g, UserRow(p)).after
  {
    var e1 := Insert(s, UsersTable, UserRow(p));
    if e1.status.Failed? || !InGroup(kind) {
      assert Init(s, p, chatId, kind).after == e1.after;
    }
  }

  lemma InitHealthy(s: Tables, p: Sender, chatId: int, kind: ChatKind)
    requires Healthy(s)
    ensures Healthy(Init(s, p, chatId, kind).after)
  {
    var g := GroupTable(Abs(chatId));
    GroupTableIsNotUsers(Abs(chatId));
    var s1 := Insert(s, UsersTable, UserRow(p)).after;
    InsertHealthy(s, UsersTable, UserRow(p));
    var s2 := CreateTable(s1, g, GroupSchema).after;
    CreateTableHealthy(s1, g);
    InsertHealthy(s2, g, UserRow(p));
    InitStores(s, p, chatId, kind);
  }

  // ---------------------------------------------------------------------------
  // dick
  // ---------------------------------------------------------------------------

  /** The sizes `dick_sizes` collects are stored sizes, so none is negative. */
  lemma SizesNonNegative(s: Tables, groups: seq<int>, user: int)
    requires RowsOk(s)
    ensures CollectSizes(s, groups, user).Success? ==> forall v | v in CollectSizes(s, groups, user).value :: v >= 0
  {
    CollectSizesContents(s, groups, user);
    if CollectSizes(s, groups, user).Success? {
      forall v | v in CollectSizes(s, groups, user).value ensures v >= 0 {
        var i :| 0 <= i < |groups| && SizeIn(s, groups[i], user) == Success(Some(v));
        SizeInNonNegative(s, groups[i], user, v);
      }
    }
  }

  /** One chat's read gives a stored size. */
  lemma SizeInNonNegative(s: Tables, chat: int, user: int, v: int)
    requires RowsOk(s) && SizeIn(s, chat, user) == Success(Some(v))
    ensures v >= 0
  {
    var got := Get(s, GroupTable(chat), IdIs(user));
    var k :| k in s[GroupTable(chat)].rows && got.value.value == s[GroupTable(chat)].rows[k];
    assert RowOk(GroupTable(chat), s[GroupTable(chat)].rows[k]);
  }

  /** The chat row the played branch writes keeps the store healthy. */
  lemma ChatWriteHealthy(s: Tables, user: int, chat: int, delta: int, now: int)
    requires Healthy(s) && TablesReady(s, chat) && user in s[GroupTable(chat)].rows
    requires SizeColumn in PreRow(s, user, chat) && LastPlayedColumn in PreRow(s, user, chat)
    requires PreRow(s, user, chat)[SizeColumn].Int?
    ensures Healthy(WithRow(s, GroupTable(chat), user, Replayed(PreRow(s, user, chat), delta, now)))
  {
    ChatWrite(s, user, chat, delta, now);
    GroupTableIsNotUsers(chat);
    HealthyWithRow(s, GroupTable(chat), user, Replayed(PreRow(s, user, chat), delta, now));
  }

  /** A played branch that fails leaves the store untouched or with only the chat row rewritten. */
  lemma PlayFailureStores(s: Tables, loaded: Loaded, user: int, username: string, chat: int, now: int, delta: int, groups: seq<int>)
    requires loaded.group.Some? && SizeColumn in loaded.group.value
    ensures var r := Play(s, loaded, user, username, chat, now, delta, groups);
      r.result.Failure? ==>
        || r.after == s
        || r.after == Update(s, GroupTable(chat), Replayed(loaded.group.value, delta, now), IdIs(user)).after
  {
    var r := Play(s, loaded, user, username, chat, now, delta, groups);
    var row := loaded.group.value;
    if row[SizeColumn].Int? && r.result.Failure? {
      var e := Update(s, GroupTable(chat), Replayed(row, delta, now), IdIs(user));
      if !e.status.Failed? {
        PlayFailsAfterChatWrite(s, loaded, user, username, chat, now, delta, groups);
      }
    }
  }

  /** Once the chat row is written, every later failure of the played branch leaves that write. */
  lemma PlayFailsAfterChatWrite(s: Tables, loaded: Loaded, user: int, username: string, chat: int, now: int, delta: int, groups: seq<int>)
    requires loaded.group.Some? && SizeColumn in loaded.group.value && loaded.group.value[SizeColumn].Int?
    requires Update(s, GroupTable(chat), Replayed(loaded.group.value, delta, now), IdIs(user)).status == Done
    ensures var r := Play(s, loaded, user, username, chat, now, delta, groups);
      r.result.Failure? ==> r.after == Update(s, GroupTable(chat), Replayed(loaded.group.value, delta, now), IdIs(user)).after
  {
    var e := Update(s, GroupTable(chat), Replayed(loaded.group.value, delta, now), IdIs(user));
    var r := Play(s, loaded, user, username, chat, now, delta, groups);
    if NTop(e.after, user, chat).Success? && CollectSizes(e.after, groups, user).Success? {
      var sizes := CollectSizes(e.after, groups, user).value;
      if |sizes| > 0 {
        var e2 := Update(e.after, UsersTable, map[SizeColumn := Int(Largest(sizes))], IdIs(user));
        assert e2.status.Failed? ==> r.after == e.after;
        assert !e2.status.Failed? ==> r.result.Success?;
      }
    }
  }

  /** A played branch that fails leaves the store untouched or with just the chat row written. */
  lemma PlayStops(s: Tables, loaded: Loaded, user: int, username: string, chat: int, now: int, delta: int, groups: seq<int>)
    requires WellFormed(s) && Keyed(s, GroupTable(chat)) && user in s[GroupTable(chat)].rows
    requires loaded.group == Some(PreRow(s, user, chat))
    requires SizeColumn in PreRow(s, user, chat) && LastPlayedColumn in PreRow(s, user, chat)
    requires PreRow(s, user, chat)[SizeColumn].Int?
    ensures var r := Play(s, loaded, user, username, chat, now, delta, groups);
      r.result.Failure? ==>
        r.after == s || r.after == WithRow(s, GroupTable(chat), user, Replayed(PreRow(s, user, chat), delta, now))
  {
    PlayFailureStores(s, loaded, user, username, chat, now, delta, groups);
    ChatWrite(s, user, chat, delta, now);
  }

  /** A played branch that completes keeps the store healthy. */
  lemma PlayFinishes(s: Tables, loaded: Loaded, user: int, username: string, chat: int, now: int, delta: int, groups: seq<int>)
    requires Healthy(s) && TablesReady(s, chat)
    requires user in s[GroupTable(chat)].rows && user in s[UsersTable].rows
    requires loaded.group == Some(PreRow(s, user, chat))
    requires SizeColumn in PreRow(s, user, chat) && LastPlayedColumn in PreRow(s, user, chat)
    requires PreRow(s, user, chat)[SizeColumn].Int?
    requires Healthy(WithRow(s, GroupTable(chat), user, Replayed(PreRow(s, user, chat), delta, now)))
    ensures var r := Play(s, loaded, user, username, chat, now, delta, groups);
      r.result.Success? ==> Healthy(r.after)
  {
    var r := Play(s, loaded, user, username, chat, now, delta, groups);
    if r.result.Success? {
      GroupTableIsNotUsers(chat);
      var s1 := WithRow(s, GroupTable(chat), user, Replayed(PreRow(s, user, chat), delta, now));
      PlayWrites(s, loaded, user, username, chat, now, delta, groups);
      SizesNonNegative(s1, groups, user);
      var m := Largest(CollectSizes(s1, groups, user).value);
      var urow := s[UsersTable].rows[user];
      assert RowOk(UsersTable, urow);
      HealthyWithRow(s1, UsersTable, user, urow[SizeColumn := Int(m)]);
    }
  }

  /** The played branch keeps the store healthy, whichever step it stops at. */
  lemma PlayHealthy(s: Tables, loaded: Loaded, user: int, username: string, chat: int, now: int, delta: int, groups: seq<int>)
    requires Healthy(s) && TablesReady(s, chat)
    requires user in s[GroupTable(chat)].rows && user in s[UsersTable].rows
    requires loaded.group == Some(PreRow(s, user, chat))
    requires SizeColumn in PreRow(s, user, chat) && LastPlayedColumn in PreRow(s, user, chat)
    ensures Healthy(Play(s, loaded, user, username, chat, now, delta, groups).after)
  {
    if PreRow(s, user, chat)[SizeColumn].Int? {
      ChatWriteHealthy(s, user, chat, delta, now);
      PlayStops(s, loaded, user, username, chat, now, delta, groups);
      PlayFinishes(s, loaded, user, username, chat, now, delta, groups);
    }
  }

  /** Where an attempt leaves the store: untouched, as `add_group` left it, or as the played branch left it. */
  lemma AttemptStores(s: Tables, user: int, username: string, chat: int, now: int, delta: int)
    requires TablesReady(s, chat)
    ensures var r := Attempt(s, user, username, chat, now, delta);
      || r.after == s
      || (&& user in s[UsersTable].rows && StoredGroups(s, user).Some?
          && r.after == JoinedStore(s, user, chat))
      || (&& user in s[UsersTable].rows && StoredGroups(s, user).Some?
          && user in s[GroupTable(chat)].rows
          && Load(s, user, chat).Success? && Load(s, user, chat).value.group == Some(PreRow(s, user, chat))
          && SizeColumn in PreRow(s, user, chat) && LastPlayedColumn in PreRow(s, user, chat)
          && r.after == Play(JoinedStore(s, user, chat), Load(s, user, chat).value, user, username, chat, now, delta,
                             JoinGroup(StoredGroups(s, user).value, chat)).after)
  {
    var load := Load(s, user, chat);
    if load.Failure? {
      AttemptFailsLoading(s, user, username, chat, now, delta);
    } else if Prepare(s, load.value, user, chat).Failure? {
      AttemptFailsPreparing(s, load.value, user, username, chat, now, delta);
    } else {
      var p := Prepare(s, load.value, user, chat).value;
      AttemptAfterJoin(s, load.value, p, user, username, chat, now, delta);
      LoadFindsRows(s, user, chat);
      AddGroupRecords(s, user, chat);
    }
  }

  lemma JoinedHealthy(s: Tables, user: int, chat: int)
    requires Healthy(s) && TablesReady(s, chat) && user in s[UsersTable].rows && StoredGroups(s, user).Some?
    ensures Healthy(JoinedStore(s, user, chat))
  {
    var row := s[UsersTable].rows[user];
    assert RowOk(UsersTable, row);
    AddGroupRecords(s, user, chat);
    HealthyWithRow(s, UsersTable, user, row[GroupsColumn := Ints(JoinGroup(StoredGroups(s, user).value, chat))]);
  }

  lemma AttemptHealthy(s: Tables, user: int, username: string, chat: int, now: int, delta: int)
    requires Healthy(s)
    ensures Healthy(Attempt(s, user, username, chat, now, delta).after)
  {
    var g := GroupTable(chat);
    GroupTableIsNotUsers(chat);
    if UsersTable !in s || g !in s {
      AttemptFailsLoading(s, user, username, chat, now, delta);
    } else {
      assert TablesReady(s, chat);
      AttemptStores(s, user, username, chat, now, delta);
      var r := Attempt(s, user, username, chat, now, delta);
      if r.after != s {
        JoinedHealthy(s, user, chat);
        var s0 := JoinedStore(s, user, chat);
        if r.after != s0 {
          assert PreRow(s0, user, chat) == PreRow(s, user, chat);
          PlayHealthy(s0, Load(s, user, chat).value, user, username, chat, now, delta,
                      JoinGroup(StoredGroups(s, user).value, chat));
        }
      }
    }
  }

  // ---------------------------------------------------------------------------
  // Runs
  // ---------------------------------------------------------------------------

  lemma {:induction false} RunHealthy(s: Tables, events: seq<Event>)
    requires Healthy(s)
    ensures Healthy(Run(s, events))
    decreases |events|
  {
    if |events| > 0 {
      match events[0] {
        case Start(p, chatId, kind) => InitHealthy(s, p, chatId, kind);
        case Roll(user, username, chat, now, delta) => AttemptHealthy(s, user, username, chat, now, delta);
      }
      RunHealthy(After(s, events[0]), events[1..]);
    }
  }

  /**
   * However the messages arrive, no size in any table is ever negative and no
   * player's membership list ever names a chat twice.
   */
  lemma SizesNeverNegative(events: seq<Event>)
    ensures var s := Run(Fresh, events);
      forall n, k | n in s && k in s[n].rows ::
        && (SizeColumn in s[n].rows[k] && s[n].rows[k][SizeColumn].Int? ==> s[n].rows[k][SizeColumn].i >= 0)
        && (n == UsersTable ==> GroupsOk(s[n].rows[k]))
  {
    assert Healthy(Fresh);
    RunHealthy(Fresh, events);
    var s := Run(Fresh, events);
    assert forall n, k | n in s && k in s[n].rows :: RowOk(n, s[n].rows[k]);
  }
}
