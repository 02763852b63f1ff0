/**
 * The progression and ranking engine of src.py (class `DickManager` and the
 * row-ensuring helpers `ensure_user_in_db`, `setup_group_table`,
 * `init_func`) as functions of the store.  Everything here is the
 * specification the methods of module Manager are proved against, with the
 * properties the game promises proved about it.
 *
 * Time is a whole number of seconds on one clock; `now` is a parameter.
 * A timestamp column holds `Int(seconds)` where the source keeps a
 * '%Y-%m-%d %H:%M:%S' string.
 */
module Game {
  import opened Wrappers
  import opened Store
  import Text

  // ---------------------------------------------------------------------------
  // CONFIG and the persisted layout
  // ---------------------------------------------------------------------------

  /** The cooldown between two plays in one chat: 24 hours. */
  const Delay: int := 24 * 3600
  /** The "next attempt in" shown after a play: the cooldown as hours, minutes, seconds. */
  const DelayHours: int := 24
  const DelayMinutes: int := 0
  const DelaySeconds: int := 0
  const MaxDelta: int := 10
  const MinDelta: int := -5
  /** Default `last_played`, 2000-01-01 00:00:00, in seconds since 1970-01-01 00:00:00. */
  const Sentinel: int := 946684800
  /** How many rows a top list shows. */
  const TopSize: nat := 10

  const UsersTable := "users"
  const GroupsColumn := "groups"
  const LastPlayedColumn := "last_played"

  /** `users`: id, display fields, the global size, and the chats the player has played in. */
  const UsersSchema: Schema := map[
    IdColumn := Null, "firstname" := Str("None"), "username" := Str("None"), "url" := Str("None"),
    SizeColumn := Int(0), GroupsColumn := Ints([])]

  /** `group_<chat>`: id, display fields, the size in that chat, and the time of the last play. */
  const GroupSchema: Schema := map[
    IdColumn := Null, "firstname" := Str("None"), "username" := Str("None"), "url" := Str("None"),
    SizeColumn := Int(0), LastPlayedColumn := Int(Sentinel)]

  /** The per-chat table name `f"group_{chat_id}"`. */
  function GroupTable(chat: int): string {
    "group_" + Text.IntToString(chat)
  }

  lemma GroupTableInjective(a: int, b: int)
    requires GroupTable(a) == GroupTable(b)
    ensures a == b
  {
    assert GroupTable(a)[6..] == Text.IntToString(a);
    assert GroupTable(b)[6..] == Text.IntToString(b);
    Text.IntToStringInjective(a, b);
  }

  lemma GroupTableIsNotUsers(chat: int)
    ensures GroupTable(chat) != UsersTable
  {
    assert GroupTable(chat)[0] == 'g' && UsersTable[0] == 'u';
  }

  // ---------------------------------------------------------------------------
  // Results and errors
  // ---------------------------------------------------------------------------

  /** A Python exception escaping the engine: a store error, a missing row, or a column missing or of the wrong type. */
  datatype EngineError =
    | StoreFailed(error: StoreError)
    | NoUserRow
    | NoGroupRow
    | BadValue(column: string)
    | NoSizes

  datatype Wait = Wait(h: int, m: int, s: int)

  datatype Direction = Grew | Shrank

  /** The values the "yes" and "no" message templates are filled with. */
  datatype Reply =
    | Played(username: string, direction: Direction, added: nat, size: int, top: Option<nat>, wait: Wait)
    | NotYet(username: string, current: Value, top: Option<nat>, wait: Wait)

  // ---------------------------------------------------------------------------
  // get_time_next_play
  // ---------------------------------------------------------------------------

  /** The part of the cooldown still to run, split into hours, minutes and seconds. */
  function TimeNextPlay(lastPlayed: int, now: int): (w: Wait)
    ensures Delay - (now - lastPlayed) <= 0 ==> w == Wait(0, 0, 0)
    ensures Delay - (now - lastPlayed) > 0 ==>
      && 0 <= w.h && 0 <= w.m < 60 && 0 <= w.s < 60
      && w.h * 3600 + w.m * 60 + w.s == Delay - (now - lastPlayed)
  {
    var remaining := Delay - (now - lastPlayed);
    if remaining <= 0 then Wait(0, 0, 0)
    else
      var h, rem := remaining / 3600, remaining % 3600;
      Wait(h, rem / 60, rem % 60)
  }

  /** The split is the only one with minutes and seconds below 60. */
  lemma TimeNextPlayUnique(lastPlayed: int, now: int, h: int, m: int, s: int)
    requires 0 <= h && 0 <= m < 60 && 0 <= s < 60
    requires h * 3600 + m * 60 + s == Delay - (now - lastPlayed)
    requires Delay - (now - lastPlayed) > 0
    ensures TimeNextPlay(lastPlayed, now) == Wait(h, m, s)
  {
    var r := Delay - (now - lastPlayed);
    DivModUnique(r, 3600, h, m * 60 + s);
    DivModUnique(m * 60 + s, 60, m, s);
  }

  /** Euclidean division has one quotient and remainder. */
  lemma DivModUnique(n: int, d: int, q: int, rem: int)
    requires d > 0 && 0 <= rem < d && n == q * d + rem
    ensures n / d == q && n % d == rem
  {
    var q', rem' := n / d, n % d;
    assert (q - q') * d == rem' - rem;
    if q > q' {
      MulAtLeast(q - q', d);
    } else if q < q' {
      MulAtLeast(q' - q, d);
    }
  }

  lemma MulAtLeast(a: int, d: int)
    requires a >= 1 && d > 0
    ensures a * d >= d
  {
  }

  // ---------------------------------------------------------------------------
  // add_group
  // ---------------------------------------------------------------------------

  predicate NoDup(xs: seq<int>) {
    forall i, j | 0 <= i < j < |xs| :: xs[i] != xs[j]
  }

  /** The membership list after `add_group`: the chat appended unless it is already there. */
  function JoinGroup(groups: seq<int>, chat: int): (g: seq<int>)
    ensures chat in g
    ensures groups <= g && |g| <= |groups| + 1
    ensures forall x :: x in g <==> x in groups || x == chat
    ensures NoDup(groups) ==> NoDup(g)
  {
    if chat in groups then groups else groups + [chat]
  }

  lemma JoinGroupTwice(groups: seq<int>, chat: int)
    ensures JoinGroup(JoinGroup(groups, chat), chat) == JoinGroup(groups, chat)
  {
  }

  datatype Joined = Joined(after: Tables, groups: seq<int>, status: Status)

  /** `add_group`: extends the list and writes it to the player's `users` row, only when the chat is new. */
  function AddGroup(s: Tables, groups: seq<int>, user: int, chat: int): (r: Joined)
    ensures r.groups == JoinGroup(groups, chat)
    ensures chat in groups ==> r.after == s && r.status == Done
    ensures r.status.Failed? ==> r.after == s
    ensures r.after.Keys == s.Keys && forall n | n in s && n != UsersTable :: r.after[n] == s[n]
    ensures WellFormed(s) ==> WellFormed(r.after)
  {
    if chat in groups then Joined(s, groups, Done)
    else
      var g := groups + [chat];
      var e := Update(s, UsersTable, map[GroupsColumn := Ints(g)], IdIs(user));
      Joined(e.after, g, e.status)
  }

  // ---------------------------------------------------------------------------
  // get_n_top
  // ---------------------------------------------------------------------------

  /**
   * The `for index, user in enumerate(data, start=1)` scan: the 1-based place
   * of the first row whose id is the player's, None when no row has it, and
   * a KeyError on a row without an `id` column.
   */
  function Position(rows: seq<Row>, user: int): (r: Result<Option<nat>, EngineError>)
    ensures r.Success? && r.value.Some? ==>
      && 1 <= r.value.value <= |rows|
      && IdColumn in rows[r.value.value - 1] && rows[r.value.value - 1][IdColumn] == Int(user)
      && forall j | 0 <= j < r.value.value - 1 :: IdColumn in rows[j] && rows[j][IdColumn] != Int(user)
    ensures r.Success? && r.value.None? ==>
      forall j | 0 <= j < |rows| :: IdColumn in rows[j] && rows[j][IdColumn] != Int(user)
    ensures r.Failure? ==>
      && r.error == BadValue(IdColumn)
      && exists j | 0 <= j < |rows| :: IdColumn !in rows[j] &&
           forall i | 0 <= i < j :: IdColumn in rows[i] && rows[i][IdColumn] != Int(user)
  {
    if |rows| == 0 then Success(None)
    else if IdColumn !in rows[0] then Failure(BadValue(IdColumn))
    else if rows[0][IdColumn] == Int(user) then Success(Some(1))
    else
      match Position(rows[1..], user)
      case Success(Some(n)) => Success(Some(n + 1))
      case Success(None) => Success(None)
      case Failure(e) => Failure(e)
  }

  /** The table of a chat ordered by `ORDER BY size DESC`, as `get_n_top` reads it. */
  function Ranking(s: Tables, chat: int): Result<seq<Row>, StoreError> {
    Find(s, GroupTable(chat), [], SizeDesc, None)
  }

  /** The ranking is every row of the chat's table once, largest first; it exists exactly when the table has a `size` column. */
  lemma RankingIsTable(s: Tables, chat: int)
    ensures var r := Ranking(s, chat);
      && (r.Success? <==> GroupTable(chat) in s && SizeColumn in s[GroupTable(chat)].schema)
      && (r.Success? ==> Descending(r.value) && multiset(r.value) == multiset(AllRows(s[GroupTable(chat)])))
  {
    FindEverything(s, GroupTable(chat), SizeDesc);
  }

  /** `get_n_top`: 0 for an empty table, otherwise the player's place in the ranking (None when absent). */
  function NTop(s: Tables, user: int, chat: int): Result<Option<nat>, EngineError> {
    match Ranking(s, chat)
    case Failure(e) => Failure(StoreFailed(e))
    case Success(rows) => if |rows| == 0 then Success(Some(0)) else Position(rows, user)
  }

  // ---------------------------------------------------------------------------
  // get_top
  // ---------------------------------------------------------------------------

  /** One line of a top list: the place, then the row's username, url and size. */
  datatype TopEntry = TopEntry(place: nat, username: Value, url: Value, size: Value)

  function Entry(place: nat, row: Row): (r: Result<TopEntry, EngineError>)
    ensures r.Success? <==> "username" in row && "url" in row && SizeColumn in row
    ensures r.Success? ==> r.value.place == place && r.value.username == row["username"]
                           && r.value.url == row["url"] && r.value.size == row[SizeColumn]
  {
    if "username" !in row then Failure(BadValue("username"))
    else if "url" !in row then Failure(BadValue("url"))
    else if SizeColumn !in row then Failure(BadValue(SizeColumn))
    else Success(TopEntry(place, row["username"], row["url"], row[SizeColumn]))
  }

  /** The lines of `enumerate(data, start=1)`; the first row lacking a column is a KeyError. */
  function Entries(rows: seq<Row>): (r: Result<seq<TopEntry>, EngineError>)
    ensures r.Success? ==> |r.value| == |rows| && forall i | 0 <= i < |rows| ::
      Entry(i + 1, rows[i]) == Success(r.value[i])
    ensures r.Failure? ==> exists i | 0 <= i < |rows| :: Entry(i + 1, rows[i]).Failure?
    decreases |rows|
  {
    if |rows| == 0 then Success([])
    else
      var init := rows[..|rows| - 1];
      match Entries(init)
      case Failure(e) => Failure(e)
      case Success(es) =>
        match Entry(|rows|, rows[|rows| - 1])
        case Failure(e) => Failure(e)
        case Success(entry) => Success(es + [entry])
  }

  /**
   * `get_top`: the ten largest rows of a table (ordered by `ORDER BY size DESC
   * LIMIT 10`), one entry each; an empty table gives the empty list, which the
   * bot answers with the "list is empty" text.
   */
  function Top(s: Tables, table: string): (r: Result<seq<TopEntry>, EngineError>)
    ensures r.Success? ==> |r.value| <= TopSize
    ensures r.Success? ==> forall i | 0 <= i < |r.value| :: r.value[i].place == i + 1
    ensures r.Failure? && Find(s, table, [], SizeDesc, Some(TopSize)).Failure? ==>
      r == Failure(StoreFailed(Find(s, table, [], SizeDesc, Some(TopSize)).error))
  {
    match Find(s, table, [], SizeDesc, Some(TopSize))
    case Failure(e) => Failure(StoreFailed(e))
    case Success(rows) => Entries(rows)
  }

  function GlobalTop(s: Tables): Result<seq<TopEntry>, EngineError> {
    Top(s, UsersTable)
  }

  function ChatTop(s: Tables, chat: int): Result<seq<TopEntry>, EngineError> {
    Top(s, GroupTable(chat))
  }

  // ---------------------------------------------------------------------------
  // dick: one attempt to play in a chat
  // ---------------------------------------------------------------------------

  /** What `dick` keeps in `self.data`: the player's `users` row and row in the chat's table. */
  datatype Loaded = Loaded(user: Option<Row>, group: Option<Row>)

  /**
   * The store after the attempt (the writes made before an error stay), the
   * value of `self.data` (None when the loading queries failed, so the old
   * value is kept), and the reply or the exception.
   */
  datatype Outcome = Outcome(after: Tables, loaded: Option<Loaded>, result: Result<Reply, EngineError>)

  /** `if new_size < 0: new_size = 0`. */
  function Clamp(x: int): nat {
    if x < 0 then 0 else x
  }

  function Abs(x: int): nat {
    if x < 0 then -x else x
  }

  /** The values `randint(min, max)` returned include a non-zero one, so the redraw loop ends. */
  predicate SomeNonZero(draws: seq<int>) {
    exists i | 0 <= i < |draws| :: draws[i] != 0
  }

  /** Where `while (random_size := randint(min, max)) == 0` stops: the first non-zero draw. */
  function FirstNonZero(draws: seq<int>): (i: nat)
    requires SomeNonZero(draws)
    ensures i < |draws| && draws[i] != 0
    ensures forall j | 0 <= j < i :: draws[j] == 0
    decreases |draws|
  {
    if draws[0] != 0 then 0
    else
      assert SomeNonZero(draws[1..]) by {
        var i :| 0 <= i < |draws| && draws[i] != 0;
        assert draws[1..][i - 1] == draws[i];
      }
      1 + FirstNonZero(draws[1..])
  }

  /** The draw a play uses. */
  function Draw(draws: seq<int>): (d: int)
    requires SomeNonZero(draws)
    ensures d != 0 && d in draws
    ensures (forall i | 0 <= i < |draws| :: MinDelta <= draws[i] <= MaxDelta) ==> MinDelta <= d <= MaxDelta
  {
    draws[FirstNonZero(draws)]
  }

  /** The size the player holds in one chat's table: absent when NULL (skipped), an error otherwise. */
  function SizeIn(s: Tables, chat: int, user: int): Result<Option<int>, EngineError> {
    SizeOfRow(Get(s, GroupTable(chat), IdIs(user)))
  }

  /** `data["size"]` of a fetched row, where `data` is None for a missing row. */
  function SizeOfRow(got: Result<Option<Row>, StoreError>): (r: Result<Option<int>, EngineError>)
    ensures r.Success? <==> got.Success? && got.value.Some? && SizeColumn in got.value.value
                            && (got.value.value[SizeColumn].Null? || got.value.value[SizeColumn].Int?)
    ensures r.Success? ==> (r.value.None? <==> got.value.value[SizeColumn].Null?)
    ensures r.Success? && r.value.Some? ==> got.value.value[SizeColumn] == Int(r.value.value)
    ensures got == Success(None) ==> r == Failure(NoGroupRow)
  {
    match got
    case Failure(e) => Failure(StoreFailed(e))
    case Success(None) => Failure(NoGroupRow)
    case Success(Some(row)) =>
      if SizeColumn !in row then Failure(BadValue(SizeColumn))
      else
        match row[SizeColumn]
        case Null => Success(None)
        case Int(v) => Success(Some(v))
        case _ => Failure(BadValue(SizeColumn))
  }

  /** The size read from each chat of the membership list, in order. */
  function SizesRead(s: Tables, groups: seq<int>, user: int): (r: seq<Result<Option<int>, EngineError>>)
    ensures |r| == |groups| && forall i | 0 <= i < |groups| :: r[i] == SizeIn(s, groups[i], user)
  {
    seq(|groups|, i requires 0 <= i < |groups| => SizeIn(s, groups[i], user))
  }

  /** The `for` loop building `dick_sizes`: stops at the first error, skips NULL sizes. */
  function Gather(got: seq<Result<Option<int>, EngineError>>): Result<seq<int>, EngineError>
    decreases |got|
  {
    if |got| == 0 then Success([])
    else
      match Gather(got[..|got| - 1])
      case Failure(e) => Failure(e)
      case Success(sizes) =>
        match got[|got| - 1]
        case Failure(e) => Failure(e)
        case Success(None) => Success(sizes)
        case Success(Some(v)) => Success(sizes + [v])
  }

  /** The `dick_sizes` list: the player's non-NULL sizes in each chat of the membership list, in order. */
  function CollectSizes(s: Tables, groups: seq<int>, user: int): Result<seq<int>, EngineError> {
    Gather(SizesRead(s, groups, user))
  }

  /** The loop completes exactly when every read succeeds, and keeps exactly the non-NULL values. */
  lemma {:induction false} GatherContents(got: seq<Result<Option<int>, EngineError>>)
    ensures Gather(got).Success? <==> forall i | 0 <= i < |got| :: got[i].Success?
    ensures Gather(got).Success? ==> forall v :: v in Gather(got).value <==>
      exists i | 0 <= i < |got| :: got[i] == Success(Some(v))
    decreases |got|
  {
    if |got| > 0 {
      var init := got[..|got| - 1];
      var n := |got| - 1;
      GatherContents(init);
      assert forall i | 0 <= i < |init| :: got[i] == init[i];
      var r0 := Gather(init);
      var r := Gather(got);
      if r.Success? {
        forall v ensures v in r.value <==> exists i | 0 <= i < |got| :: got[i] == Success(Some(v)) {
          if v in r.value && v !in r0.value {
            assert got[n] == Success(Some(v));
          }
          if exists i | 0 <= i < |got| :: got[i] == Success(Some(v)) {
            var i :| 0 <= i < |got| && got[i] == Success(Some(v));
            if i < n {
              assert init[i] == Success(Some(v));
            }
          }
        }
      }
    }
  }

  lemma CollectSizesContents(s: Tables, groups: seq<int>, user: int)
    ensures CollectSizes(s, groups, user).Success? <==>
      forall i | 0 <= i < |groups| :: SizeIn(s, groups[i], user).Success?
    ensures CollectSizes(s, groups, user).Success? ==> forall v :: v in CollectSizes(s, groups, user).value <==>
      exists i | 0 <= i < |groups| :: SizeIn(s, groups[i], user) == Success(Some(v))
  {
    var got := SizesRead(s, groups, user);
    GatherContents(got);
    var r := Gather(got);
    assert r.Success? <==> forall i | 0 <= i < |groups| :: SizeIn(s, groups[i], user).Success? by {
      assert forall i | 0 <= i < |groups| :: got[i] == SizeIn(s, groups[i], user);
    }
    if r.Success? {
      forall v ensures v in r.value <==> exists i | 0 <= i < |groups| :: SizeIn(s, groups[i], user) == Success(Some(v)) {
        if v in r.value {
          var i :| 0 <= i < |got| && got[i] == Success(Some(v));
          assert SizeIn(s, groups[i], user) == got[i];
        }
        if exists i | 0 <= i < |groups| :: SizeIn(s, groups[i], user) == Success(Some(v)) {
          var i :| 0 <= i < |groups| && SizeIn(s, groups[i], user) == Success(Some(v));
          assert got[i] == Success(Some(v));
        }
      }
    }
  }

  /** Python's `max` over a non-empty list. */
  function Largest(xs: seq<int>): (m: int)
    requires |xs| > 0
    ensures m in xs && forall x | x in xs :: x <= m
  {
    if |xs| == 1 then xs[0]
    else
      var rest := Largest(xs[1..]);
      assert forall x | x in xs :: x == xs[0] || x in xs[1..];
      if xs[0] >= rest then xs[0] else rest
  }

  /** Loading: the player's `users` row, then their row in the chat's table. */
  function Load(s: Tables, user: int, chat: int): (r: Result<Loaded, EngineError>)
    // the two reads by name, for the proofs about dick; LoadFindsRows says what they return
    ensures r.Success? <==> Get(s, UsersTable, IdIs(user)).Success? && Get(s, GroupTable(chat), IdIs(user)).Success?
    ensures r.Success? ==> r.value == Loaded(Get(s, UsersTable, IdIs(user)).value, Get(s, GroupTable(chat), IdIs(user)).value)
  {
    match Get(s, UsersTable, IdIs(user))
    case Failure(e) => Failure(StoreFailed(e))
    case Success(u) =>
      match Get(s, GroupTable(chat), IdIs(user))
      case Failure(e) => Failure(StoreFailed(e))
      case Success(g) => Success(Loaded(u, g))
  }

  /** What `dick` reads before its first write: the chat row, its `last_played`, the rank, the membership list. */
  datatype Prepared = Prepared(row: Row, last: int, top: Option<nat>, groups: seq<int>)

  /** The reads and checks before `add_group`, failing at the first missing row or unreadable value. */
  function Prepare(s: Tables, loaded: Loaded, user: int, chat: int): (r: Result<Prepared, EngineError>)
    ensures r.Success? ==>
      && loaded.group == Some(r.value.row) && SizeColumn in r.value.row
      && LastPlayedColumn in r.value.row && r.value.row[LastPlayedColumn] == Int(r.value.last)
      && NTop(s, user, chat) == Success(r.value.top)
      && loaded.user.Some? && GroupsColumn in loaded.user.value
      && loaded.user.value[GroupsColumn] == Ints(r.value.groups)
  {
    if loaded.group.None? then Failure(NoGroupRow)
    else
      var row := loaded.group.value;
      if LastPlayedColumn !in row || !row[LastPlayedColumn].Int? then Failure(BadValue(LastPlayedColumn))
      else if SizeColumn !in row then Failure(BadValue(SizeColumn))
      else
        match NTop(s, user, chat)
        case Failure(e) => Failure(e)
        case Success(top) =>
          if loaded.user.None? then Failure(NoUserRow)
          else if GroupsColumn !in loaded.user.value || !loaded.user.value[GroupsColumn].Ints? then
            Failure(BadValue(GroupsColumn))
          else Success(Prepared(row, row[LastPlayedColumn].i, top, loaded.user.value[GroupsColumn].xs))
  }

  /**
   * `dick(user_id, username, chat_id)` at time `now`, with `delta` the
   * non-zero draw of the redraw loop (used only when the cooldown is over).
   * The steps and their failures follow the source in order: read
   * `last_played` and `size` of the chat row, rank the player, read the
   * membership list, record the chat in it, then the cooldown gate.
   */
  function Attempt(s: Tables, user: int, username: string, chat: int, now: int, delta: int): (r: Outcome)
    ensures r.result.Success? ==> r.loaded.Some? && r.loaded.value.user.Some? && r.loaded.value.group.Some?
    ensures r.after.Keys == s.Keys
    ensures WellFormed(s) ==> WellFormed(r.after)
  {
    match Load(s, user, chat)
    case Failure(e) => Outcome(s, None, Failure(e))
    case Success(loaded) =>
      match Prepare(s, loaded, user, chat)
      case Failure(e) => Outcome(s, Some(loaded), Failure(e))
      case Success(p) =>
        var j := AddGroup(s, p.groups, user, chat);
        if j.status.Failed? then Outcome(j.after, Some(loaded), Failure(StoreFailed(j.status.error)))
        else if now - p.last > Delay then Play(j.after, loaded, user, username, chat, now, delta, j.groups)
        else Outcome(j.after, Some(loaded), Success(NotYet(username, p.row[SizeColumn], p.top, TimeNextPlay(p.last, now))))
  }

  /** The played branch: draw applied and clamped, chat row rewritten, rank recomputed, global size refreshed. */
  function Play(s: Tables, loaded: Loaded, user: int, username: string, chat: int, now: int, delta: int, groups: seq<int>)
    : (r: Outcome)
    requires loaded.group.Some? && SizeColumn in loaded.group.value
    ensures r.result.Success? ==> r.result.value.Played?
    ensures r.loaded.Some?
    ensures r.result.Success? ==> r.loaded.value.user == loaded.user && r.loaded.value.group.Some?
    ensures r.after.Keys == s.Keys
    ensures WellFormed(s) ==> WellFormed(r.after)
  {
    var row := loaded.group.value;
    if !row[SizeColumn].Int? then Outcome(s, Some(loaded), Failure(BadValue(SizeColumn)))
    else
      var size := Clamp(row[SizeColumn].i + delta);
      var row' := Replayed(row, delta, now);
      var loaded' := Loaded(loaded.user, Some(row'));
      var e := Update(s, GroupTable(chat), row', IdIs(user));
      if e.status.Failed? then Outcome(s, Some(loaded'), Failure(StoreFailed(e.status.error)))
      else
        match NTop(e.after, user, chat)
        case Failure(err) => Outcome(e.after, Some(loaded'), Failure(err))
        case Success(top) =>
          match CollectSizes(e.after, groups, user)
          case Failure(err) => Outcome(e.after, Some(loaded'), Failure(err))
          case Success(sizes) =>
            if |sizes| == 0 then Outcome(e.after, Some(loaded'), Failure(NoSizes))
            else
              var e2 := Update(e.after, UsersTable, map[SizeColumn := Int(Largest(sizes))], IdIs(user));
              if e2.status.Failed? then Outcome(e.after, Some(loaded'), Failure(StoreFailed(e2.status.error)))
              else
                var direction := if delta > 0 then Grew else Shrank;
                var wait := Wait(DelayHours, DelayMinutes, DelaySeconds);
                Outcome(e2.after, Some(loaded'), Success(Played(username, direction, Abs(delta), size, top, wait)))
  }

  // ---------------------------------------------------------------------------
  // ensure_user_in_db, setup_group_table, init_func
  // ---------------------------------------------------------------------------

  datatype ChatKind = Private | Group | Supergroup | Channel

  /** The sender of a message as Telegram describes it; a username may be missing. */
  datatype Sender = Sender(id: int, firstName: string, username: Option<string>, url: string)

  /** The row `ensure_user_in_db` inserts (the remaining columns take their defaults). */
  function UserRow(p: Sender): (row: Row)
    ensures row.Keys == {IdColumn, "firstname", "username", "url"} && row[IdColumn] == Int(p.id)
    ensures row["firstname"] == Str(p.firstName) && row["url"] == Str(p.url)
    ensures row["username"] == if p.username.Some? then Str(p.username.value) else Null
  {
    map[IdColumn := Int(p.id), "firstname" := Str(p.firstName),
        "username" := (if p.username.Some? then Str(p.username.value) else Null), "url" := Str(p.url)]
  }

  /** The tuple `init_func` returns. */
  datatype Session = Session(user: int, firstName: string, chat: int, kind: ChatKind, inGroup: bool)

  datatype Started = Started(after: Tables, result: Result<Session, EngineError>)

  function InGroup(kind: ChatKind): bool {
    kind == Group || kind == Supergroup
  }

  /**
   * `init_func`: make sure the sender has a `users` row; in a group or
   * supergroup also make sure the chat's table exists (named by the absolute
   * chat id) and the sender has a row in it.
   */
  function Init(s: Tables, p: Sender, chatId: int, kind: ChatKind): (r: Started)
    ensures r.result.Success? ==> r.result.value == Session(p.id, p.firstName, Abs(chatId), kind, InGroup(kind))
    ensures s.Keys <= r.after.Keys <= s.Keys + {GroupTable(Abs(chatId))}
    ensures r.result.Success? && InGroup(kind) ==> GroupTable(Abs(chatId)) in r.after
    ensures WellFormed(s) ==> WellFormed(r.after)
  {
    var chat := Abs(chatId);
    var e1 := Insert(s, UsersTable, UserRow(p));
    if e1.status.Failed? then Started(e1.after, Failure(StoreFailed(e1.status.error)))
    else if !InGroup(kind) then Started(e1.after, Success(Session(p.id, p.firstName, chat, kind, false)))
    else
      var e2 := CreateTable(e1.after, GroupTable(chat), GroupSchema);
      var e3 := Insert(e2.after, GroupTable(chat), UserRow(p));
      if e3.status.Failed? then Started(e3.after, Failure(StoreFailed(e3.status.error)))
      else Started(e3.after, Success(Session(p.id, p.firstName, chat, kind, true)))
  }

  // ---------------------------------------------------------------------------
  // Properties
  // ---------------------------------------------------------------------------

  /** A table that exists and declares `id INTEGER PRIMARY KEY`. */
  predicate Keyed(s: Tables, name: string) {
    name in s && IdColumn in s[name].schema
  }

  /**
   * In a table keyed by `id`, an update filtered by `{"id": user}` that keeps
   * the id rewrites the named columns of that one row and nothing else.
   */
  lemma UpdatePlayerRow(s: Tables, name: string, data: Row, user: int)
    requires WellFormed(s) && Keyed(s, name) && user in s[name].rows
    requires |data| > 0 && data.Keys <= s[name].schema.Keys
    requires IdColumn in data ==> data[IdColumn] == Int(user)
    ensures Update(s, name, data, IdIs(user)) ==
      Effect(s[name := s[name].(rows := s[name].rows[user := s[name].rows[user] + data])], Done)
  {
    var t := s[name];
    assert TableOk(t);
    forall k | k in t.rows ensures Matches(t.rows[k], IdIs(user)) <==> k == user {
      MatchesId(t.rows[k], user);
    }
    var hits := Hits(t, IdIs(user));
    assert hits == {user};
    assert KnownColumns(t.schema, IdIs(user));
    if IdColumn in data {
      assert Least(hits) == user;
    }
    assert KeyChange(t, hits, data) == KeepKeys;
    assert Patch(t.rows, hits, data) == t.rows[user := t.rows[user] + data];
  }

  /** The rank only depends on the chat's own table. */
  lemma NTopLocal(s: Tables, s': Tables, user: int, chat: int)
    requires GroupTable(chat) in s <==> GroupTable(chat) in s'
    requires GroupTable(chat) in s ==> s[GroupTable(chat)] == s'[GroupTable(chat)]
    ensures NTop(s, user, chat) == NTop(s', user, chat)
  {
  }

  lemma SizeInLocal(s: Tables, s': Tables, chat: int, user: int)
    requires GroupTable(chat) in s <==> GroupTable(chat) in s'
    requires GroupTable(chat) in s ==> s[GroupTable(chat)] == s'[GroupTable(chat)]
    ensures SizeIn(s, chat, user) == SizeIn(s', chat, user)
  {
    GetLocal(s, s', GroupTable(chat), IdIs(user));
  }

  /** The player's row in the chat's table before the attempt (the row `dick` loads). */
  function PreRow(s: Tables, user: int, chat: int): Row
    requires GroupTable(chat) in s && user in s[GroupTable(chat)].rows
  {
    s[GroupTable(chat)].rows[user]
  }

  /** In keyed tables, loading finds exactly the rows stored under the player's id. */
  lemma LoadFindsRows(s: Tables, user: int, chat: int)
    requires WellFormed(s) && Keyed(s, GroupTable(chat))
    ensures Load(s, user, chat).Success? && Load(s, user, chat).value.group.Some? ==>
      && user in s[GroupTable(chat)].rows
      && Load(s, user, chat).value.group.value == PreRow(s, user, chat)
    ensures Keyed(s, UsersTable) && Load(s, user, chat).Success? && Load(s, user, chat).value.user.Some? ==>
      && user in s[UsersTable].rows
      && Load(s, user, chat).value.user.value == s[UsersTable].rows[user]
  {
    GetById(s, GroupTable(chat), user);
    if Keyed(s, UsersTable) {
      GetById(s, UsersTable, user);
    }
  }

  /** The stages of `Attempt` the method `Dick` runs through, one lemma per exit. */
  lemma AttemptFailsLoading(s: Tables, user: int, username: string, chat: int, now: int, delta: int)
    requires Load(s, user, chat).Failure?
    ensures Attempt(s, user, username, chat, now, delta) == Outcome(s, None, Failure(Load(s, user, chat).error))
  {
  }

  lemma AttemptFailsPreparing(s: Tables, loaded: Loaded, user: int, username: string, chat: int, now: int, delta: int)
    requires Load(s, user, chat) == Success(loaded) && Prepare(s, loaded, user, chat).Failure?
    ensures Attempt(s, user, username, chat, now, delta) ==
      Outcome(s, Some(loaded), Failure(Prepare(s, loaded, user, chat).error))
  {
  }

  lemma AttemptAfterJoin(s: Tables, loaded: Loaded, p: Prepared, user: int, username: string, chat: int, now: int, delta: int)
    requires Load(s, user, chat) == Success(loaded) && Prepare(s, loaded, user, chat) == Success(p)
    ensures var j := AddGroup(s, p.groups, user, chat);
      Attempt(s, user, username, chat, now, delta) ==
        if j.status.Failed? then Outcome(j.after, Some(loaded), Failure(StoreFailed(j.status.error)))
        else if now - p.last > Delay then Play(j.after, loaded, user, username, chat, now, delta, j.groups)
        else Outcome(j.after, Some(loaded), Success(NotYet(username, p.row[SizeColumn], p.top, TimeNextPlay(p.last, now))))
  {
  }

  /** A successful attempt got past loading and the checks, and its branch is the gate's verdict. */
  lemma AttemptBranches(s: Tables, user: int, username: string, chat: int, now: int, delta: int)
    ensures var r := Attempt(s, user, username, chat, now, delta).result;
      r.Success? ==>
        && Load(s, user, chat).Success?
        && Prepare(s, Load(s, user, chat).value, user, chat).Success?
        && (r.value.Played? <==> now - Prepare(s, Load(s, user, chat).value, user, chat).value.last > Delay)
  {
  }

  /**
   * The cooldown gate is strict: an attempt plays exactly when more than
   * `Delay` seconds have passed since the stored `last_played`.
   */
  lemma GateOpensStrictly(s: Tables, user: int, username: string, chat: int, now: int, delta: int)
    requires WellFormed(s) && Keyed(s, GroupTable(chat))
    ensures var r := Attempt(s, user, username, chat, now, delta).result;
      r.Success? ==>
        && user in s[GroupTable(chat)].rows
        && LastPlayedColumn in PreRow(s, user, chat) && PreRow(s, user, chat)[LastPlayedColumn].Int?
        && (r.value.Played? <==> now - PreRow(s, user, chat)[LastPlayedColumn].i > Delay)
  {
    AttemptBranches(s, user, username, chat, now, delta);
    LoadFindsRows(s, user, chat);
  }

  /** The waiting branch: the store is what `add_group` left, and the reply reports what was loaded. */
  lemma AttemptWaits(s: Tables, user: int, username: string, chat: int, now: int, delta: int)
    ensures var r := Attempt(s, user, username, chat, now, delta);
      r.result.Success? && r.result.value.NotYet? ==>
        && Load(s, user, chat).Success?
        && var loaded := Load(s, user, chat).value;
        && Prepare(s, loaded, user, chat).Success?
        && var p := Prepare(s, loaded, user, chat).value;
        && var j := AddGroup(s, p.groups, user, chat);
        && j.status == Done
        && r == Outcome(j.after, Some(loaded), Success(NotYet(username, p.row[SizeColumn], p.top, TimeNextPlay(p.last, now))))
  {
  }

  /** The played branch runs on the store `add_group` left, with the extended membership list. */
  lemma AttemptPlays(s: Tables, user: int, username: string, chat: int, now: int, delta: int)
    ensures var r := Attempt(s, user, username, chat, now, delta);
      r.result.Success? && r.result.value.Played? ==>
        && Load(s, user, chat).Success?
        && var loaded := Load(s, user, chat).value;
        && Prepare(s, loaded, user, chat).Success?
        && var p := Prepare(s, loaded, user, chat).value;
        && var j := AddGroup(s, p.groups, user, chat);
        && j.status == Done
        && r == Play(j.after, loaded, user, username, chat, now, delta, j.groups)
  {
  }

  /**
   * An attempt during the cooldown changes no chat table: it reports the
   * stored size, the current rank and the time still to wait.
   */
  lemma NotYetReportsStoredState(s: Tables, user: int, username: string, chat: int, now: int, delta: int)
    requires WellFormed(s) && Keyed(s, GroupTable(chat))
    ensures var r := Attempt(s, user, username, chat, now, delta);
      r.result.Success? && r.result.value.NotYet? ==>
        && user in s[GroupTable(chat)].rows
        && var pre := PreRow(s, user, chat);
        && SizeColumn in pre && LastPlayedColumn in pre && pre[LastPlayedColumn].Int?
        && r.result.value.username == username
        && r.result.value.current == pre[SizeColumn]
        && NTop(s, user, chat) == Success(r.result.value.top)
        && r.result.value.wait == TimeNextPlay(pre[LastPlayedColumn].i, now)
        && r.after.Keys == s.Keys
        && forall n | n in s && n != UsersTable :: r.after[n] == s[n]
  {
    AttemptWaits(s, user, username, chat, now, delta);
    LoadFindsRows(s, user, chat);
  }

  /** `dick_sizes` only reads chat tables, so it is the same in stores that agree on them. */
  lemma CollectSizesLocal(s: Tables, s': Tables, groups: seq<int>, user: int)
    requires s.Keys == s'.Keys && forall n | n in s && n != UsersTable :: s[n] == s'[n]
    ensures CollectSizes(s, groups, user) == CollectSizes(s', groups, user)
  {
    forall i | 0 <= i < |groups| ensures SizeIn(s, groups[i], user) == SizeIn(s', groups[i], user) {
      GroupTableIsNotUsers(groups[i]);
      SizeInLocal(s, s', groups[i], user);
    }
    assert SizesRead(s, groups, user) == SizesRead(s', groups, user);
  }

  /** The row the played branch writes back: the clamped size and the time of this play. */
  function Replayed(row: Row, delta: int, now: int): (row': Row)
    requires SizeColumn in row && row[SizeColumn].Int?
    ensures row'.Keys == row.Keys + {SizeColumn, LastPlayedColumn}
  {
    row[SizeColumn := Int(Clamp(row[SizeColumn].i + delta))][LastPlayedColumn := Int(now)]
  }

  /** The written row holds a non-negative size moved by the draw, the time of the play, and its other columns. */
  lemma ReplayedRow(row: Row, delta: int, now: int)
    requires SizeColumn in row && row[SizeColumn].Int?
    ensures var row' := Replayed(row, delta, now);
      && row'[SizeColumn].Int? && row'[SizeColumn].i >= 0 && row'[LastPlayedColumn] == Int(now)
      && (row[SizeColumn].i + delta >= 0 ==> row'[SizeColumn].i == row[SizeColumn].i + delta)
      && forall c | c in row && c != SizeColumn && c != LastPlayedColumn :: row'[c] == row[c]
  {
  }

  /** The stages of a successful played branch, in order. */
  lemma PlaySteps(s: Tables, loaded: Loaded, user: int, username: string, chat: int, now: int, delta: int, groups: seq<int>)
    requires loaded.group.Some? && SizeColumn in loaded.group.value
    ensures var r := Play(s, loaded, user, username, chat, now, delta, groups);
      r.result.Success? ==>
        && var row := loaded.group.value;
        && row[SizeColumn].Int?
        && var e := Update(s, GroupTable(chat), Replayed(row, delta, now), IdIs(user));
        && e.status == Done
        && NTop(e.after, user, chat).Success?
        && CollectSizes(e.after, groups, user).Success?
        && var sizes := CollectSizes(e.after, groups, user).value;
        && |sizes| > 0
        && var e2 := Update(e.after, UsersTable, map[SizeColumn := Int(Largest(sizes))], IdIs(user));
        && e2.status == Done
        && r.after == e2.after
        && r.result.value == Played(username, if delta > 0 then Grew else Shrank, Abs(delta),
                                    Clamp(row[SizeColumn].i + delta), NTop(e.after, user, chat).value,
                                    Wait(DelayHours, DelayMinutes, DelaySeconds))
  {
  }

  /** The store with one row of one table replaced. */
  function WithRow(s: Tables, name: string, user: int, row: Row): (s': Tables)
    requires name in s
    ensures s'.Keys == s.Keys && s'[name].schema == s[name].schema
    ensures s'[name].rows.Keys == s[name].rows.Keys + {user} && s'[name].rows[user] == row
    ensures forall n | n in s && n != name :: s'[n] == s[n]
    ensures forall k | k in s[name].rows && k != user :: s'[name].rows[k] == s[name].rows[k]
  {
    s[name := s[name].(rows := s[name].rows[user := row])]
  }

  /** Writing the replayed chat row back is exactly a replacement of that row. */
  lemma ChatWrite(s: Tables, user: int, chat: int, delta: int, now: int)
    requires WellFormed(s) && Keyed(s, GroupTable(chat)) && user in s[GroupTable(chat)].rows
    requires SizeColumn in PreRow(s, user, chat) && LastPlayedColumn in PreRow(s, user, chat)
    requires PreRow(s, user, chat)[SizeColumn].Int?
    ensures var row' := Replayed(PreRow(s, user, chat), delta, now);
      && Update(s, GroupTable(chat), row', IdIs(user)) == Effect(WithRow(s, GroupTable(chat), user, row'), Done)
      && WellFormed(WithRow(s, GroupTable(chat), user, row'))
  {
    var g := GroupTable(chat);
    var pre := PreRow(s, user, chat);
    assert TableOk(s[g]);
    var row' := Replayed(pre, delta, now);
    assert row'.Keys == pre.Keys;
    UpdatePlayerRow(s, g, row', user);
    assert pre + row' == row';
  }

  /** Writing the global size is exactly a replacement of the `size` of the player's `users` row. */
  lemma UsersWrite(s: Tables, user: int, m: int)
    requires WellFormed(s) && Keyed(s, UsersTable) && SizeColumn in s[UsersTable].schema && user in s[UsersTable].rows
    ensures Update(s, UsersTable, map[SizeColumn := Int(m)], IdIs(user)) ==
      Effect(WithRow(s, UsersTable, user, s[UsersTable].rows[user][SizeColumn := Int(m)]), Done)
  {
    var data := map[SizeColumn := Int(m)];
    UpdatePlayerRow(s, UsersTable, data, user);
    assert s[UsersTable].rows[user] + data == s[UsersTable].rows[user][SizeColumn := Int(m)];
  }

  /**
   * What the played branch writes, starting from a store where the player
   * has both rows: the chat row gets the clamped size and `now`, then the
   * `users` row gets the largest non-NULL size over the membership list.
   */
  lemma PlayWrites(s: Tables, loaded: Loaded, user: int, username: string, chat: int, now: int, delta: int, groups: seq<int>)
    requires WellFormed(s) && Keyed(s, GroupTable(chat)) && Keyed(s, UsersTable) && SizeColumn in s[UsersTable].schema
    requires user in s[GroupTable(chat)].rows && user in s[UsersTable].rows
    requires loaded.group == Some(PreRow(s, user, chat))
    requires SizeColumn in PreRow(s, user, chat) && LastPlayedColumn in PreRow(s, user, chat)
    ensures var r := Play(s, loaded, user, username, chat, now, delta, groups);
      r.result.Success? ==>
        && var pre := PreRow(s, user, chat);
        && pre[SizeColumn].Int?
        && var s1 := WithRow(s, GroupTable(chat), user, Replayed(pre, delta, now));
        && CollectSizes(s1, groups, user).Success? && |CollectSizes(s1, groups, user).value| > 0
        && r.after == WithRow(s1, UsersTable, user,
             s[UsersTable].rows[user][SizeColumn := Int(Largest(CollectSizes(s1, groups, user).value))])
  {
    var r := Play(s, loaded, user, username, chat, now, delta, groups);
    if r.result.Success? {
      PlaySteps(s, loaded, user, username, chat, now, delta, groups);
      ChatWrite(s, user, chat, delta, now);
      GroupTableIsNotUsers(chat);
      var s1 := WithRow(s, GroupTable(chat), user, Replayed(PreRow(s, user, chat), delta, now));
      UsersWrite(s1, user, Largest(CollectSizes(s1, groups, user).value));
    }
  }

  /**
   * The tables `dick` works on, as `main` and `setup_group_table` create
   * them: `users` and the chat's table keyed by `id`, with the columns the
   * game writes.
   */
  predicate TablesReady(s: Tables, chat: int) {
    && WellFormed(s)
    && Keyed(s, GroupTable(chat))
    && Keyed(s, UsersTable) && SizeColumn in s[UsersTable].schema && GroupsColumn in s[UsersTable].schema
  }

  /** The membership list stored in the player's `users` row, when it is one. */
  function StoredGroups(s: Tables, user: int): Option<seq<int>> {
    if UsersTable in s && user in s[UsersTable].rows && GroupsColumn in s[UsersTable].rows[user]
       && s[UsersTable].rows[user][GroupsColumn].Ints?
    then Some(s[UsersTable].rows[user][GroupsColumn].xs)
    else None
  }

  /** The store `add_group` leaves: the player's `users` row with the extended list. */
  function JoinedStore(s: Tables, user: int, chat: int): Tables
    requires UsersTable in s && user in s[UsersTable].rows && StoredGroups(s, user).Some?
  {
    WithRow(s, UsersTable, user,
      s[UsersTable].rows[user][GroupsColumn := Ints(JoinGroup(StoredGroups(s, user).value, chat))])
  }

  /**
   * `add_group` on the player's existing `users` row: the `groups` column
   * becomes the extended list and nothing else in the store changes.
   */
  lemma AddGroupRecords(s: Tables, user: int, chat: int)
    requires WellFormed(s) && Keyed(s, UsersTable) && user in s[UsersTable].rows && StoredGroups(s, user).Some?
    ensures AddGroup(s, StoredGroups(s, user).value, user, chat) ==
      Joined(JoinedStore(s, user, chat), JoinGroup(StoredGroups(s, user).value, chat), Done)
    ensures WellFormed(JoinedStore(s, user, chat))
  {
    var groups := StoredGroups(s, user).value;
    var row := s[UsersTable].rows[user];
    if chat in groups {
      assert row[GroupsColumn := Ints(groups)] == row;
      assert s[UsersTable].rows[user := row] == s[UsersTable].rows;
      assert s[UsersTable := s[UsersTable].(rows := s[UsersTable].rows)] == s;
    } else {
      var data := map[GroupsColumn := Ints(groups + [chat])];
      UpdatePlayerRow(s, UsersTable, data, user);
      assert row + data == row[GroupsColumn := Ints(groups + [chat])];
    }
  }

  /** A played attempt is the played branch run on the store `add_group` left. */
  lemma AttemptPlayedVia(s: Tables, user: int, username: string, chat: int, now: int, delta: int)
    requires TablesReady(s, chat)
    ensures var r := Attempt(s, user, username, chat, now, delta);
      r.result.Success? && r.result.value.Played? ==>
        && user in s[GroupTable(chat)].rows && user in s[UsersTable].rows
        && StoredGroups(s, user).Some?
        && Load(s, user, chat).Success?
        && Load(s, user, chat).value.group == Some(PreRow(s, user, chat))
        && SizeColumn in PreRow(s, user, chat) && LastPlayedColumn in PreRow(s, user, chat)
        && r == Play(JoinedStore(s, user, chat), Load(s, user, chat).value, user, username, chat, now, delta,
                     JoinGroup(StoredGroups(s, user).value, chat))
  {
    var r := Attempt(s, user, username, chat, now, delta);
    if r.result.Success? && r.result.value.Played? {
      AttemptPlays(s, user, username, chat, now, delta);
      LoadFindsRows(s, user, chat);
      AddGroupRecords(s, user, chat);
    }
  }

  /**
   * A play changes the size by the draw, clamped at zero; the reply reports
   * the draw's direction and magnitude and the full cooldown.
   */
  lemma PlayedClampsSize(s: Tables, user: int, username: string, chat: int, now: int, delta: int)
    requires TablesReady(s, chat)
    ensures var r := Attempt(s, user, username, chat, now, delta);
      r.result.Success? && r.result.value.Played? ==>
        && user in s[GroupTable(chat)].rows
        && SizeColumn in PreRow(s, user, chat) && PreRow(s, user, chat)[SizeColumn].Int?
        && r.result.value == Played(username, if delta > 0 then Grew else Shrank, Abs(delta),
             Clamp(PreRow(s, user, chat)[SizeColumn].i + delta), r.result.value.top, Wait(DelayHours, DelayMinutes, DelaySeconds))
  {
    var r := Attempt(s, user, username, chat, now, delta);
    if r.result.Success? && r.result.value.Played? {
      AttemptPlayedVia(s, user, username, chat, now, delta);
      PlayReply(JoinedStore(s, user, chat), Load(s, user, chat).value, PreRow(s, user, chat), user, username, chat, now, delta,
                JoinGroup(StoredGroups(s, user).value, chat));
    }
  }

  /** The reply of a successful played branch. */
  lemma PlayReply(s: Tables, loaded: Loaded, pre: Row, user: int, username: string, chat: int, now: int, delta: int, groups: seq<int>)
    requires loaded.group == Some(pre) && SizeColumn in pre
    ensures var r := Play(s, loaded, user, username, chat, now, delta, groups);
      r.result.Success? ==>
        && pre[SizeColumn].Int?
        && r.result.value == Played(username, if delta > 0 then Grew else Shrank, Abs(delta),
             Clamp(pre[SizeColumn].i + delta), r.result.value.top, Wait(DelayHours, DelayMinutes, DelaySeconds))
  {
    PlaySteps(s, loaded, user, username, chat, now, delta, groups);
  }

  /**
   * A play stamps the player's chat row with the new size and the time of
   * the play; no other row of that table and no other chat's table changes.
   */
  lemma PlayedStampsRow(s: Tables, user: int, username: string, chat: int, now: int, delta: int)
    requires TablesReady(s, chat)
    ensures var r := Attempt(s, user, username, chat, now, delta);
      r.result.Success? && r.result.value.Played? ==>
        && user in s[GroupTable(chat)].rows
        && SizeColumn in PreRow(s, user, chat) && PreRow(s, user, chat)[SizeColumn].Int?
        && r.after[GroupTable(chat)] == s[GroupTable(chat)].(rows :=
             s[GroupTable(chat)].rows[user := Replayed(PreRow(s, user, chat), delta, now)])
        && forall n | n in s && n != UsersTable && n != GroupTable(chat) :: r.after[n] == s[n]
  {
    var r := Attempt(s, user, username, chat, now, delta);
    if r.result.Success? && r.result.value.Played? {
      AttemptPlayedVia(s, user, username, chat, now, delta);
      AddGroupRecords(s, user, chat);
      GroupTableIsNotUsers(chat);
      var s0 := JoinedStore(s, user, chat);
      assert PreRow(s0, user, chat) == PreRow(s, user, chat);
      PlayWrites(s0, Load(s, user, chat).value, user, username, chat, now, delta, JoinGroup(StoredGroups(s, user).value, chat));
    }
  }

  /** `m` is the largest non-NULL size the player holds over the chats of `groups`, all of which read fine. */
  predicate IsMaxSize(s: Tables, groups: seq<int>, user: int, m: int) {
    && (forall i | 0 <= i < |groups| :: SizeIn(s, groups[i], user).Success?)
    && (exists i | 0 <= i < |groups| :: SizeIn(s, groups[i], user) == Success(Some(m)))
    && (forall i | 0 <= i < |groups| && SizeIn(s, groups[i], user).value.Some? ::
          SizeIn(s, groups[i], user).value.value <= m)
  }

  /** Writing `max(dick_sizes)` into `users` leaves the chat tables, so the written value is their maximum. */
  lemma GlobalMaxStore(s: Tables, groups: seq<int>, user: int, row: Row)
    requires UsersTable in s && CollectSizes(s, groups, user).Success? && |CollectSizes(s, groups, user).value| > 0
    ensures var m := Largest(CollectSizes(s, groups, user).value);
      IsMaxSize(WithRow(s, UsersTable, user, row[SizeColumn := Int(m)]), groups, user, m)
  {
    var m := Largest(CollectSizes(s, groups, user).value);
    var s' := WithRow(s, UsersTable, user, row[SizeColumn := Int(m)]);
    CollectSizesLocal(s', s, groups, user);
    CollectSizesContents(s', groups, user);
  }

  /** The maximum over the membership list as the played branch writes it. */
  lemma PlayMaxes(s: Tables, loaded: Loaded, user: int, username: string, chat: int, now: int, delta: int, groups: seq<int>)
    requires WellFormed(s) && Keyed(s, GroupTable(chat)) && Keyed(s, UsersTable) && SizeColumn in s[UsersTable].schema
    requires user in s[GroupTable(chat)].rows && user in s[UsersTable].rows
    requires loaded.group == Some(PreRow(s, user, chat))
    requires SizeColumn in PreRow(s, user, chat) && LastPlayedColumn in PreRow(s, user, chat)
    ensures var r := Play(s, loaded, user, username, chat, now, delta, groups);
      r.result.Success? ==>
        && UsersTable in r.after && user in r.after[UsersTable].rows && SizeColumn in r.after[UsersTable].rows[user]
        && r.after[UsersTable].rows[user][SizeColumn].Int?
        && IsMaxSize(r.after, groups, user, r.after[UsersTable].rows[user][SizeColumn].i)
  {
    var r := Play(s, loaded, user, username, chat, now, delta, groups);
    if r.result.Success? {
      PlayWrites(s, loaded, user, username, chat, now, delta, groups);
      var s1 := WithRow(s, GroupTable(chat), user, Replayed(PreRow(s, user, chat), delta, now));
      GlobalMaxStore(s1, groups, user, s[UsersTable].rows[user]);
    }
  }

  /**
   * After a play the global size in `users` is the largest non-NULL size the
   * player holds over every chat of the (extended) membership list.
   */
  lemma PlayedSetsGlobalMax(s: Tables, user: int, username: string, chat: int, now: int, delta: int)
    requires TablesReady(s, chat)
    ensures var r := Attempt(s, user, username, chat, now, delta);
      r.result.Success? && r.result.value.Played? ==>
        && StoredGroups(s, user).Some?
        && UsersTable in r.after && user in r.after[UsersTable].rows && SizeColumn in r.after[UsersTable].rows[user]
        && r.after[UsersTable].rows[user][SizeColumn].Int?
        && IsMaxSize(r.after, JoinGroup(StoredGroups(s, user).value, chat), user, r.after[UsersTable].rows[user][SizeColumn].i)
  {
    var r := Attempt(s, user, username, chat, now, delta);
    if r.result.Success? && r.result.value.Played? {
      AttemptPlayedVia(s, user, username, chat, now, delta);
      AddGroupRecords(s, user, chat);
      GroupTableIsNotUsers(chat);
      var s0 := JoinedStore(s, user, chat);
      assert PreRow(s0, user, chat) == PreRow(s, user, chat);
      PlayMaxes(s0, Load(s, user, chat).value, user, username, chat, now, delta, JoinGroup(StoredGroups(s, user).value, chat));
    }
  }

  /** A failed `dick_sizes` loop fails with the error of one of its reads. */
  lemma {:induction false} GatherError(got: seq<Result<Option<int>, EngineError>>)
    ensures Gather(got).Failure? ==> exists i | 0 <= i < |got| :: got[i] == Failure(Gather(got).error)
    decreases |got|
  {
    if |got| > 0 {
      var init := got[..|got| - 1];
      GatherError(init);
      if Gather(init).Failure? {
        var i :| 0 <= i < |init| && init[i] == Failure(Gather(init).error);
        assert got[i] == init[i];
      }
    }
  }

  /** Reading the size of a row that holds an integer size gives that integer. */
  lemma SizeInRow(s: Tables, user: int, chat: int)
    requires WellFormed(s) && Keyed(s, GroupTable(chat)) && user in s[GroupTable(chat)].rows
    requires SizeColumn in s[GroupTable(chat)].rows[user] && s[GroupTable(chat)].rows[user][SizeColumn].Int?
    ensures SizeIn(s, chat, user) == Success(Some(s[GroupTable(chat)].rows[user][SizeColumn].i))
  {
    GetById(s, GroupTable(chat), user);
  }

  /** A size read from one chat of the list is among the sizes the loop collects. */
  lemma ReadSizeCollected(s: Tables, groups: seq<int>, user: int, i: nat, v: int)
    requires i < |groups| && SizeIn(s, groups[i], user) == Success(Some(v))
    ensures CollectSizes(s, groups, user).Success? ==> v in CollectSizes(s, groups, user).value
  {
    CollectSizesContents(s, groups, user);
  }

  /**
   * Once the chat row holds an integer size, the sizes the loop collects over
   * a list naming that chat include it, so `max(dick_sizes)` is never taken
   * over an empty list.
   */
  lemma SizesHoldNewSize(s: Tables, user: int, chat: int, row: Row, groups: seq<int>)
    requires WellFormed(s) && Keyed(s, GroupTable(chat)) && user in s[GroupTable(chat)].rows
    requires s[GroupTable(chat)].rows[user] == row && SizeColumn in row && row[SizeColumn].Int?
    requires chat in groups
    ensures CollectSizes(s, groups, user).Success? ==> row[SizeColumn].i in CollectSizes(s, groups, user).value
  {
    SizeInRow(s, user, chat);
    var i :| 0 <= i < |groups| && groups[i] == chat;
    ReadSizeCollected(s, groups, user, i, row[SizeColumn].i);
  }

  /** `dick_sizes` fails only with the error of a read, never for want of sizes. */
  lemma CollectSizesError(s: Tables, groups: seq<int>, user: int)
    ensures CollectSizes(s, groups, user).Failure? ==> CollectSizes(s, groups, user).error != NoSizes
  {
    var got := SizesRead(s, groups, user);
    GatherError(got);
    if Gather(got).Failure? {
      var i :| 0 <= i < |got| && got[i] == Failure(Gather(got).error);
      SizeOfRowError(Get(s, GroupTable(groups[i]), IdIs(user)));
    }
  }

  lemma SizeOfRowError(got: Result<Option<Row>, StoreError>)
    ensures SizeOfRow(got).Failure? ==> SizeOfRow(got).error != NoSizes
  {
  }

  /** After the chat row is written, the played branch fails for want of sizes only when the loop collected none. */
  lemma PlayLacksSizesOnlyIfEmpty(s: Tables, loaded: Loaded, user: int, username: string, chat: int, now: int, delta: int, groups: seq<int>)
    requires loaded.group.Some? && SizeColumn in loaded.group.value && loaded.group.value[SizeColumn].Int?
    requires Update(s, GroupTable(chat), Replayed(loaded.group.value, delta, now), IdIs(user)).status == Done
    ensures var e := Update(s, GroupTable(chat), Replayed(loaded.group.value, delta, now), IdIs(user));
      Play(s, loaded, user, username, chat, now, delta, groups).result == Failure(NoSizes) ==>
        CollectSizes(e.after, groups, user) == Success([])
  {
    var e := Update(s, GroupTable(chat), Replayed(loaded.group.value, delta, now), IdIs(user));
    var r := Play(s, loaded, user, username, chat, now, delta, groups);
    CollectSizesError(e.after, groups, user);
    if NTop(e.after, user, chat).Success? && CollectSizes(e.after, groups, user).Success? {
      var sizes := CollectSizes(e.after, groups, user).value;
      if |sizes| > 0 {
        var e2 := Update(e.after, UsersTable, map[SizeColumn := Int(Largest(sizes))], IdIs(user));
        assert r.result.Success? || r.result == Failure(StoreFailed(e2.status.error));
      }
    }
  }

  /** The played branch on a list naming the chat never fails for want of sizes. */
  lemma PlayNeverLacksSizes(s: Tables, loaded: Loaded, user: int, username: string, chat: int, now: int, delta: int, groups: seq<int>)
    requires WellFormed(s) && Keyed(s, GroupTable(chat)) && user in s[GroupTable(chat)].rows
    requires loaded.group == Some(PreRow(s, user, chat))
    requires SizeColumn in PreRow(s, user, chat) && LastPlayedColumn in PreRow(s, user, chat)
    requires chat in groups
    ensures Play(s, loaded, user, username, chat, now, delta, groups).result != Failure(NoSizes)
  {
    var pre := PreRow(s, user, chat);
    if pre[SizeColumn].Int? {
      ChatWrite(s, user, chat, delta, now);
      var s1 := WithRow(s, GroupTable(chat), user, Replayed(pre, delta, now));
      SizesHoldNewSize(s1, user, chat, Replayed(pre, delta, now), groups);
      PlayLacksSizesOnlyIfEmpty(s, loaded, user, username, chat, now, delta, groups);
    }
  }

  /**
   * An attempt whose cooldown is over never fails at `max(dick_sizes)`: by
   * then the membership list names the current chat.
   */
  lemma PlayedNeverLacksSizes(s: Tables, user: int, username: string, chat: int, now: int, delta: int)
    requires TablesReady(s, chat)
    requires Load(s, user, chat).Success? && Prepare(s, Load(s, user, chat).value, user, chat).Success?
    requires now - Prepare(s, Load(s, user, chat).value, user, chat).value.last > Delay
    ensures Attempt(s, user, username, chat, now, delta).result != Failure(NoSizes)
  {
    var loaded := Load(s, user, chat).value;
    var p := Prepare(s, loaded, user, chat).value;
    AttemptAfterJoin(s, loaded, p, user, username, chat, now, delta);
    LoadFindsRows(s, user, chat);
    var j := AddGroup(s, p.groups, user, chat);
    if !j.status.Failed? {
      assert PreRow(j.after, user, chat) == PreRow(s, user, chat);
      PlayNeverLacksSizes(j.after, loaded, user, username, chat, now, delta, j.groups);
    }
  }

  /** The played branch leaves the membership list as `add_group` wrote it. */
  lemma PlayKeepsGroups(s: Tables, loaded: Loaded, user: int, username: string, chat: int, now: int, delta: int, groups: seq<int>)
    requires WellFormed(s) && Keyed(s, GroupTable(chat)) && Keyed(s, UsersTable) && SizeColumn in s[UsersTable].schema
    requires user in s[GroupTable(chat)].rows && user in s[UsersTable].rows
    requires loaded.group == Some(PreRow(s, user, chat))
    requires SizeColumn in PreRow(s, user, chat) && LastPlayedColumn in PreRow(s, user, chat)
    ensures var r := Play(s, loaded, user, username, chat, now, delta, groups);
      r.result.Success? ==> StoredGroups(r.after, user) == StoredGroups(s, user)
  {
    var r := Play(s, loaded, user, username, chat, now, delta, groups);
    if r.result.Success? {
      PlayWrites(s, loaded, user, username, chat, now, delta, groups);
      GroupTableIsNotUsers(chat);
      var s1 := WithRow(s, GroupTable(chat), user, Replayed(PreRow(s, user, chat), delta, now));
      SizeWriteKeepsGroups(s, s1, user, Int(Largest(CollectSizes(s1, groups, user).value)));
    }
  }

  /** Writing the global size leaves the membership list alone. */
  lemma SizeWriteKeepsGroups(s: Tables, s1: Tables, user: int, m: Value)
    requires UsersTable in s && UsersTable in s1 && s1[UsersTable] == s[UsersTable] && user in s[UsersTable].rows
    ensures StoredGroups(WithRow(s1, UsersTable, user, s[UsersTable].rows[user][SizeColumn := m]), user) == StoredGroups(s, user)
  {
  }

  /**
   * Every successful attempt, played or not, leaves the chat recorded in the
   * player's membership list (appended once, never duplicated).
   */
  lemma AttemptRecordsMembership(s: Tables, user: int, username: string, chat: int, now: int, delta: int)
    requires TablesReady(s, chat)
    ensures var r := Attempt(s, user, username, chat, now, delta);
      r.result.Success? ==>
        && StoredGroups(s, user).Some?
        && StoredGroups(r.after, user) == Some(JoinGroup(StoredGroups(s, user).value, chat))
  {
    var r := Attempt(s, user, username, chat, now, delta);
    if r.result.Success? && r.result.value.Played? {
      AttemptPlayedVia(s, user, username, chat, now, delta);
      AddGroupRecords(s, user, chat);
      GroupTableIsNotUsers(chat);
      var s0 := JoinedStore(s, user, chat);
      assert PreRow(s0, user, chat) == PreRow(s, user, chat);
      PlayKeepsGroups(s0, Load(s, user, chat).value, user, username, chat, now, delta, JoinGroup(StoredGroups(s, user).value, chat));
    } else if r.result.Success? {
      AttemptWaits(s, user, username, chat, now, delta);
      LoadFindsRows(s, user, chat);
      AddGroupRecords(s, user, chat);
    }
  }

  /**
   * Once per cooldown: right after a play, another attempt in the same chat
   * within `Delay` seconds does not play.
   */
  lemma OncePerCooldown(s: Tables, user: int, username: string, chat: int, now: int, delta: int, later: int, delta': int)
    requires TablesReady(s, chat)
    requires later - now <= Delay
    ensures var r := Attempt(s, user, username, chat, now, delta);
      r.result.Success? && r.result.value.Played? ==>
        var r' := Attempt(r.after, user, username, chat, later, delta').result;
        r'.Success? ==> r'.value.NotYet?
  {
    var r := Attempt(s, user, username, chat, now, delta);
    if r.result.Success? && r.result.value.Played? {
      PlayedStampsRow(s, user, username, chat, now, delta);
      GateOpensStrictly(r.after, user, username, chat, later, delta');
      assert PreRow(r.after, user, chat)[LastPlayedColumn] == Int(now);
    }
  }

  /** The place a play reports is the player's place in the chat after the play. */
  lemma PlayRank(s: Tables, loaded: Loaded, user: int, username: string, chat: int, now: int, delta: int, groups: seq<int>)
    requires loaded.group.Some? && SizeColumn in loaded.group.value
    ensures var r := Play(s, loaded, user, username, chat, now, delta, groups);
      r.result.Success? ==> NTop(r.after, user, chat) == Success(r.result.value.top)
  {
    var r := Play(s, loaded, user, username, chat, now, delta, groups);
    if r.result.Success? {
      PlaySteps(s, loaded, user, username, chat, now, delta, groups);
      var e := Update(s, GroupTable(chat), Replayed(loaded.group.value, delta, now), IdIs(user));
      GroupTableIsNotUsers(chat);
      NTopLocal(e.after, r.after, user, chat);
    }
  }

  /** A played attempt reports the place the player now holds in the chat. */
  lemma PlayedReportsNewRank(s: Tables, user: int, username: string, chat: int, now: int, delta: int)
    requires TablesReady(s, chat)
    ensures var r := Attempt(s, user, username, chat, now, delta);
      r.result.Success? && r.result.value.Played? ==> NTop(r.after, user, chat) == Success(r.result.value.top)
  {
    var r := Attempt(s, user, username, chat, now, delta);
    if r.result.Success? && r.result.value.Played? {
      AttemptPlayedVia(s, user, username, chat, now, delta);
      AddGroupRecords(s, user, chat);
      GroupTableIsNotUsers(chat);
      var s0 := JoinedStore(s, user, chat);
      assert PreRow(s0, user, chat) == PreRow(s, user, chat);
      PlayRank(s0, Load(s, user, chat).value, user, username, chat, now, delta, JoinGroup(StoredGroups(s, user).value, chat));
    }
  }

  /** A chat table whose rank can be read: it exists, is keyed by id and has a size column. */
  predicate Rankable(s: Tables, chat: int) {
    WellFormed(s) && Keyed(s, GroupTable(chat)) && SizeColumn in s[GroupTable(chat)].schema
  }

  /** Every row of the ranking is the row its id keys in the chat's table, and every row is ranked. */
  lemma RankingRows(s: Tables, chat: int)
    requires Rankable(s, chat)
    ensures Ranking(s, chat).Success?
    ensures forall i | 0 <= i < |Ranking(s, chat).value| ::
      && var row := Ranking(s, chat).value[i];
      && IdColumn in row && row[IdColumn].Int? && row[IdColumn].i in s[GroupTable(chat)].rows
      && s[GroupTable(chat)].rows[row[IdColumn].i] == row
    ensures forall k | k in s[GroupTable(chat)].rows :: s[GroupTable(chat)].rows[k] in Ranking(s, chat).value
  {
    var t := s[GroupTable(chat)];
    var ranking: seq<Row> := Ranking(s, chat).value;
    forall i | 0 <= i < |ranking|
      ensures IdColumn in ranking[i] && ranking[i][IdColumn].Int? && ranking[i][IdColumn].i in t.rows
      ensures t.rows[ranking[i][IdColumn].i] == ranking[i]
    {
      var k :| k in t.rows && t.rows[k] == ranking[i];
    }
  }

  /** `r` is a place in `ranking`, counted from 1, at which `ranking` holds `row`. */
  predicate PlacedAt(ranking: seq<Row>, r: Result<Option<nat>, EngineError>, row: Row) {
    r.Success? && r.value.Some? && 1 <= r.value.value <= |ranking| && ranking[r.value.value - 1] == row
  }

  /** The place `get_n_top` finds for a player with a row: the ranking holds that row there. */
  lemma PlaceOfPresentPlayer(s: Tables, user: int, chat: int)
    requires Rankable(s, chat) && user in s[GroupTable(chat)].rows
    ensures Ranking(s, chat).Success?
    ensures PlacedAt(Ranking(s, chat).value, NTop(s, user, chat), s[GroupTable(chat)].rows[user])
  {
    var t := s[GroupTable(chat)];
    RankingRows(s, chat);
    var ranking: seq<Row> := Ranking(s, chat).value;
    assert TableOk(t);
    PresentInRanking(ranking, t, user);
  }

  /** A ranking of exactly a table's rows places a row the table holds under its id. */
  lemma PresentInRanking(ranking: seq<Row>, t: Table, user: int)
    requires forall i | 0 <= i < |ranking| ::
      && IdColumn in ranking[i] && ranking[i][IdColumn].Int? && ranking[i][IdColumn].i in t.rows
      && t.rows[ranking[i][IdColumn].i] == ranking[i]
    requires user in t.rows && t.rows[user] in ranking
    requires IdColumn in t.rows[user] && t.rows[user][IdColumn] == Int(user)
    ensures |ranking| > 0
    ensures PlacedAt(ranking, Position(ranking, user), t.rows[user])
  {
    var j :| 0 <= j < |ranking| && ranking[j] == t.rows[user];
    assert ranking[j][IdColumn] == Int(user);
    var r := Position(ranking, user);
    assert r.Success? by {
      forall i | 0 <= i < |ranking| ensures IdColumn in ranking[i] {}
    }
    var n := r.value.value;
    assert ranking[n - 1][IdColumn].i == user;
  }

  /**
   * The rank of a player with a row: the ranking holds that row at the
   * reported place, every row ahead is at least as large, and every row that
   * is strictly larger is ahead.
   */
  lemma RankOfPresentPlayer(s: Tables, user: int, chat: int)
    requires Rankable(s, chat) && user in s[GroupTable(chat)].rows
    ensures var r := NTop(s, user, chat);
      && r.Success? && r.value.Some? && r.value.value >= 1
      && var n := r.value.value;
      && var ranking := Ranking(s, chat).value;
      && var row := s[GroupTable(chat)].rows[user];
      && n <= |ranking| && ranking[n - 1] == row
      && (forall i | 0 <= i < n - 1 :: InOrder(ranking[i], row))
      && (forall k | k in s[GroupTable(chat)].rows && Bigger(s[GroupTable(chat)].rows[k], row) ::
            s[GroupTable(chat)].rows[k] in ranking[..n - 1])
  {
    var t := s[GroupTable(chat)];
    var ranking: seq<Row> := Ranking(s, chat).value;
    PlaceOfPresentPlayer(s, user, chat);
    RankingRows(s, chat);
    assert Descending(ranking);
    RankedAhead(ranking, t, NTop(s, user, chat).value.value, user);
  }

  /** In a descending ranking of a table's rows, the rows larger than the one at place `n` are ahead of it. */
  lemma RankedAhead(ranking: seq<Row>, t: Table, n: nat, user: int)
    requires Descending(ranking) && 1 <= n <= |ranking| && user in t.rows && ranking[n - 1] == t.rows[user]
    requires forall k | k in t.rows :: t.rows[k] in ranking
    ensures forall i | 0 <= i < n - 1 :: InOrder(ranking[i], t.rows[user])
    ensures forall k | k in t.rows && Bigger(t.rows[k], t.rows[user]) :: t.rows[k] in ranking[..n - 1]
  {
    DescendingAhead(ranking, n, t.rows[user]);
    forall k | k in t.rows && Bigger(t.rows[k], t.rows[user]) ensures t.rows[k] in ranking[..n - 1] {
    }
  }

  /** In a descending sequence, what stands before an element is at least as large, and what is larger stands before it. */
  lemma DescendingAhead(rows: seq<Row>, n: nat, x: Row)
    requires Descending(rows) && 1 <= n <= |rows| && rows[n - 1] == x
    ensures forall i | 0 <= i < n - 1 :: InOrder(rows[i], x)
    ensures forall y | y in rows && Bigger(y, x) :: y in rows[..n - 1]
  {
    forall y | y in rows && Bigger(y, x) ensures y in rows[..n - 1] {
      var j :| 0 <= j < |rows| && rows[j] == y;
      assert j > n - 1 ==> InOrder(rows[n - 1], rows[j]);
      assert rows[..n - 1][j] == y;
    }
  }

  /** A player whose row is larger than every other row of the chat is ranked first. */
  lemma RankOfLeader(s: Tables, user: int, chat: int)
    requires Rankable(s, chat) && user in s[GroupTable(chat)].rows
    requires forall k | k in s[GroupTable(chat)].rows && k != user ::
      Bigger(s[GroupTable(chat)].rows[user], s[GroupTable(chat)].rows[k])
    ensures NTop(s, user, chat) == Success(Some(1))
  {
    RankOfPresentPlayer(s, user, chat);
    RankingRows(s, chat);
  }

  /** A player without a row in the chat has no place; an empty chat reports 0. */
  lemma RankOfAbsentPlayer(s: Tables, user: int, chat: int)
    requires Rankable(s, chat) && user !in s[GroupTable(chat)].rows
    ensures NTop(s, user, chat) == if s[GroupTable(chat)].rows == map[] then Success(Some(0)) else Success(None)
  {
    RankingRows(s, chat);
    AbsentFromRanking(Ranking(s, chat).value, s[GroupTable(chat)], user);
  }

  /** A ranking of exactly a table's rows is empty with the table, and has no row for a missing id. */
  lemma AbsentFromRanking(ranking: seq<Row>, t: Table, user: int)
    requires forall i | 0 <= i < |ranking| ::
      IdColumn in ranking[i] && ranking[i][IdColumn].Int? && ranking[i][IdColumn].i in t.rows
    requires forall k | k in t.rows :: t.rows[k] in ranking
    requires user !in t.rows
    ensures (|ranking| == 0) == (t.rows == map[])
    ensures |ranking| > 0 ==> Position(ranking, user) == Success(None)
  {
    if t.rows != map[] {
      HasMember(t.rows.Keys);
      var k0 :| k0 in t.rows;
      assert t.rows[k0] in ranking;
    }
    if |ranking| > 0 {
      assert ranking[0][IdColumn].i in t.rows;
    }
    forall j | 0 <= j < |ranking| ensures IdColumn in ranking[j] && ranking[j][IdColumn] != Int(user) {
      assert ranking[j][IdColumn].i in t.rows;
    }
    NoMatchPosition(ranking, user);
  }

  /** The scan finds nothing when every row has an id and none is the player's. */
  lemma NoMatchPosition(rows: seq<Row>, user: int)
    requires forall j | 0 <= j < |rows| :: IdColumn in rows[j] && rows[j][IdColumn] != Int(user)
    ensures Position(rows, user) == Success(None)
  {
  }




  /** Inserting into one table reads and writes that table only. */
  lemma InsertLocal(s: Tables, s': Tables, name: string, data: Row)
    requires name in s <==> name in s'
    requires name in s ==> s[name] == s'[name]
    ensures Insert(s, name, data).status == Insert(s', name, data).status
    ensures name in s ==> Insert(s, name, data).after[name] == Insert(s', name, data).after[name]
  {
  }

  /**
   * `init_func` is safe to run on every message: a second run with the same
   * sender and chat changes nothing and gives the same answer.
   */
  lemma InitIdempotent(s: Tables, p: Sender, chatId: int, kind: ChatKind)
    ensures var r := Init(s, p, chatId, kind); Init(r.after, p, chatId, kind) == r
  {
    var e1 := Insert(s, UsersTable, UserRow(p));
    InsertTwice(s, UsersTable, UserRow(p));
    if e1.status.Done? && InGroup(kind) {
      InitRerunInGroup(s, p, chatId, kind);
    }
  }

  /** The group case of `InitIdempotent`: the first insert went through and the chat's table was set up. */
  lemma InitRerunInGroup(s: Tables, p: Sender, chatId: int, kind: ChatKind)
    requires Insert(s, UsersTable, UserRow(p)).status.Done? && InGroup(kind)
    ensures var r := Init(s, p, chatId, kind); Init(r.after, p, chatId, kind) == r
  {
    var g := GroupTable(Abs(chatId));
    var e1 := Insert(s, UsersTable, UserRow(p));
    InsertTwice(s, UsersTable, UserRow(p));
    GroupTableIsNotUsers(Abs(chatId));
    var e2 := CreateTable(e1.after, g, GroupSchema);
    var e3 := Insert(e2.after, g, UserRow(p));
    InsertTwice(e2.after, g, UserRow(p));
    if e3.status.Done? {
      // the second run: the users row and the chat's table are both in place
      InsertLocal(e3.after, e1.after, UsersTable, UserRow(p));
      var f1 := Insert(e3.after, UsersTable, UserRow(p));
      assert f1.after == e3.after;
      assert CreateTable(f1.after, g, GroupSchema).after == e3.after;
    }
  }

  /**
   * When the tables accept the sender's row, `init_func` succeeds and leaves
   * the sender with a `users` row and, in a group, a row in the chat's table.
   */
  lemma InitEnsuresRows(s: Tables, p: Sender, chatId: int, kind: ChatKind)
    requires WellFormed(s) && UsersTable in s && UserRow(p).Keys <= s[UsersTable].schema.Keys
    requires InGroup(kind) && GroupTable(Abs(chatId)) in s ==>
      UserRow(p).Keys <= s[GroupTable(Abs(chatId))].schema.Keys
    ensures var r := Init(s, p, chatId, kind);
      && r.result.Success?
      && p.id in r.after[UsersTable].rows
      && (InGroup(kind) ==> p.id in r.after[GroupTable(Abs(chatId))].rows)
  {
    var g := GroupTable(Abs(chatId));
    GroupTableIsNotUsers(Abs(chatId));
    var e1 := Insert(s, UsersTable, UserRow(p));
    assert e1.status.Done? && p.id in e1.after[UsersTable].rows;
    if InGroup(kind) {
      var e2 := CreateTable(e1.after, g, GroupSchema);
      assert UserRow(p).Keys <= e2.after[g].schema.Keys;
      var e3 := Insert(e2.after, g, UserRow(p));
      assert e3.status.Done? && p.id in e3.after[g].rows;
      assert e3.after[UsersTable] == e1.after[UsersTable];
    }
  }

  /**
   * `init_func` for a newcomer in a group new to the store: the chat's table
   * is created holding only the newcomer's row, and both new rows take the
   * defaults of their schemas (size 0, no chats, `last_played` 2000-01-01).
   */
  lemma InitNewcomer(s: Tables, p: Sender, chatId: int)
    requires WellFormed(s) && UsersTable in s && s[UsersTable].schema == UsersSchema
    requires p.id !in s[UsersTable].rows && GroupTable(Abs(chatId)) !in s
    ensures var s' := Init(s, p, chatId, Group).after;
      && UsersTable in s' && GroupTable(Abs(chatId)) in s' && WellFormed(s')
      && s'[UsersTable] == Table(UsersSchema, s[UsersTable].rows[p.id := NewRow(UsersSchema, UserRow(p), p.id)])
      && s'[GroupTable(Abs(chatId))] == Table(GroupSchema, map[p.id := NewRow(GroupSchema, UserRow(p), p.id)])
  {
    var chat := Abs(chatId);
    var g := GroupTable(chat);
    GroupTableIsNotUsers(chat);
    var row := UserRow(p);
    assert row.Keys <= UsersSchema.Keys && row.Keys <= GroupSchema.Keys;
    var users := Table(UsersSchema, s[UsersTable].rows[p.id := NewRow(UsersSchema, row, p.id)]);
    InsertNewId(s, UsersTable, row, p.id);
    var e1 := Insert(s, UsersTable, row);
    assert e1 == Effect(s[UsersTable := users], Done);
    var e2 := CreateTable(e1.after, g, GroupSchema);
    assert e2.after == s[UsersTable := users][g := Table(GroupSchema, map[])];
    InsertNewId(e2.after, g, row, p.id);
    var t2 := e2.after[g];
    assert t2 == Table(GroupSchema, map[]);
    assert t2.rows[p.id := NewRow(t2.schema, row, p.id)] == map[p.id := NewRow(GroupSchema, row, p.id)];
    InitInGroupWrites(s, p, chatId, Group);
  }

  /** In a group, once the `users` insert goes through, `init_func` leaves the store of its second insert. */
  lemma InitInGroupWrites(s: Tables, p: Sender, chatId: int, kind: ChatKind)
    requires InGroup(kind) && Insert(s, UsersTable, UserRow(p)).status.Done?
    ensures var g := GroupTable(Abs(chatId));
      Init(s, p, chatId, kind).after ==
        Insert(CreateTable(Insert(s, UsersTable, UserRow(p)).after, g, GroupSchema).after, g, UserRow(p)).after
  {
  }

  /** The newcomer's rows are ready for a play: size 0, `last_played` 2000-01-01, an empty chat list, alone in the chat. */
  lemma NewcomerPlayable(s: Tables, p: Sender, chat: int)
    requires WellFormed(s) && UsersTable in s && GroupTable(chat) in s
    requires s[UsersTable].schema == UsersSchema && p.id in s[UsersTable].rows
    requires s[UsersTable].rows[p.id] == NewRow(UsersSchema, UserRow(p), p.id)
    requires s[GroupTable(chat)] == Table(GroupSchema, map[p.id := NewRow(GroupSchema, UserRow(p), p.id)])
    ensures Playable(s, p.id, chat) && s[GroupTable(chat)].rows.Keys == {p.id}
    ensures PreRow(s, p.id, chat)[SizeColumn] == Int(0) && PreRow(s, p.id, chat)[LastPlayedColumn] == Int(Sentinel)
  {
    assert StoredGroups(s, p.id) == Some([]);
  }

  /**
   * A newcomer's first `dick` in a new group plays at once, since the default
   * `last_played` lies more than a day back: the size becomes the draw
   * (never below 0) and the newcomer leads the chat's ranking.
   */
  lemma FirstPlayInNewGroup(s: Tables, p: Sender, chatId: int, username: string, now: int, delta: int)
    requires WellFormed(s) && UsersTable in s && s[UsersTable].schema == UsersSchema
    requires p.id !in s[UsersTable].rows && GroupTable(Abs(chatId)) !in s
    requires now - Sentinel > Delay
    ensures var s' := Init(s, p, chatId, Group).after;
      Attempt(s', p.id, username, Abs(chatId), now, delta).result ==
        Success(Played(username, if delta > 0 then Grew else Shrank, Abs(delta), Clamp(delta), Some(1),
          Wait(DelayHours, DelayMinutes, DelaySeconds)))
  {
    var chat := Abs(chatId);
    var s' := Init(s, p, chatId, Group).after;
    InitNewcomer(s, p, chatId);
    NewcomerPlayable(s', p, chat);
    NewcomerPlays(s', p.id, chat, username, now, delta);
  }

  /**
   * The play of `FirstPlayInNewGroup` on the store `init_func` leaves: a
   * ready player at size 0, alone in the chat's table, whose cooldown is over.
   */
  lemma NewcomerPlays(s: Tables, user: int, chat: int, username: string, now: int, delta: int)
    requires Playable(s, user, chat) && s[GroupTable(chat)].rows.Keys == {user}
    requires PreRow(s, user, chat)[SizeColumn] == Int(0)
    requires now - PreRow(s, user, chat)[LastPlayedColumn].i > Delay
    ensures Attempt(s, user, username, chat, now, delta).result ==
      Success(Played(username, if delta > 0 then Grew else Shrank, Abs(delta), Clamp(delta), Some(1),
        Wait(DelayHours, DelayMinutes, DelaySeconds)))
  {
    var r := Attempt(s, user, username, chat, now, delta).result;
    assert r.Success? && r.value.Played? by {
      AttemptPlaysWhenDue(s, user, username, chat, now, delta);
    }
    assert r.value == Played(username, if delta > 0 then Grew else Shrank, Abs(delta),
      Clamp(0 + delta), r.value.top, Wait(DelayHours, DelayMinutes, DelaySeconds)) by {
      PlayedClampsSize(s, user, username, chat, now, delta);
    }
    assert r.value.top == Some(1) by {
      SolePlayerLeads(s, user, username, chat, now, delta);
    }
  }

  /** A player alone in a chat's table is ranked first after a play. */
  lemma SolePlayerLeads(s: Tables, user: int, username: string, chat: int, now: int, delta: int)
    requires TablesReady(s, chat) && SizeColumn in s[GroupTable(chat)].schema
    requires s[GroupTable(chat)].rows.Keys == {user}
    ensures var r := Attempt(s, user, username, chat, now, delta).result;
      r.Success? && r.value.Played? ==> r.value.top == Some(1)
  {
    var r := Attempt(s, user, username, chat, now, delta);
    if r.result.Success? && r.result.value.Played? {
      AttemptPlayedVia(s, user, username, chat, now, delta);
      AddGroupRecords(s, user, chat);
      GroupTableIsNotUsers(chat);
      var s0 := JoinedStore(s, user, chat);
      assert s0[GroupTable(chat)] == s[GroupTable(chat)];
      SoleAfterPlay(s0, Load(s, user, chat).value, user, username, chat, now, delta,
        JoinGroup(StoredGroups(s, user).value, chat));
    }
  }

  /** The played branch, run for a player alone in the chat's table, reports place 1. */
  lemma SoleAfterPlay(s: Tables, loaded: Loaded, user: int, username: string, chat: int, now: int, delta: int, groups: seq<int>)
    requires WellFormed(s) && Keyed(s, GroupTable(chat)) && Keyed(s, UsersTable) && SizeColumn in s[UsersTable].schema
    requires SizeColumn in s[GroupTable(chat)].schema && s[GroupTable(chat)].rows.Keys == {user} && user in s[UsersTable].rows
    requires loaded.group == Some(PreRow(s, user, chat))
    requires SizeColumn in PreRow(s, user, chat) && LastPlayedColumn in PreRow(s, user, chat)
    ensures var r := Play(s, loaded, user, username, chat, now, delta, groups).result;
      r.Success? ==> r.value.top == Some(1)
  {
    var r := Play(s, loaded, user, username, chat, now, delta, groups);
    if r.result.Success? {
      PlayRank(s, loaded, user, username, chat, now, delta, groups);
      PlayWrites(s, loaded, user, username, chat, now, delta, groups);
      ChatWrite(s, user, chat, delta, now);
      GroupTableIsNotUsers(chat);
      var s1 := WithRow(s, GroupTable(chat), user, Replayed(PreRow(s, user, chat), delta, now));
      NTopLocal(r.after, s1, user, chat);
      RankOfLeader(s1, user, chat);
    }
  }

  /** Rows that all carry the printed columns give a line each. */
  lemma {:induction false} EntriesComplete(rows: seq<Row>)
    requires forall i | 0 <= i < |rows| :: "username" in rows[i] && "url" in rows[i] && SizeColumn in rows[i]
    ensures Entries(rows).Success?
    decreases |rows|
  {
    if |rows| > 0 {
      EntriesComplete(rows[..|rows| - 1]);
    }
  }

  /** In a descending sequence, an element outside a prefix is no larger than anything in it. */
  lemma BehindPrefix(all: seq<Row>, m: nat, y: Row)
    requires Descending(all) && m <= |all| && y in all && y !in all[..m]
    ensures forall i | 0 <= i < m :: InOrder(all[i], y)
  {
    var j :| 0 <= j < |all| && all[j] == y;
  }

  /** A prefix holds no row more often than the whole sequence. */
  lemma PrefixWithin(all: seq<Row>, m: nat)
    requires m <= |all|
    ensures multiset(all[..m]) <= multiset(all)
  {
    assert all == all[..m] + all[m..];
  }

  /** `get_top` shows min(10, n) rows of an n-row table, none more often than the table holds it. */
  lemma ListedCount(s: Tables, table: string)
    requires table in s && SizeColumn in s[table].schema
    ensures |Listed(s, table)| == (if |s[table].rows| < TopSize then |s[table].rows| else TopSize)
    ensures multiset(Listed(s, table)) <= multiset(AllRows(s[table]))
  {
    FindLimited(s, table, [], SizeDesc, TopSize);
    FindEverything(s, table, SizeDesc);
    var all: seq<Row> := Find(s, table, [], SizeDesc, None).value;
    var m := if |all| < TopSize then |all| else TopSize;
    assert Listed(s, table) == all[..m];
    PrefixWithin(all, m);
  }

  /** The rows `get_top` shows: the first (at most) ten of the table ordered by size. */
  function Listed(s: Tables, table: string): seq<Row>
    requires table in s && SizeColumn in s[table].schema
  {
    Find(s, table, [], SizeDesc, Some(TopSize)).value
  }

  /**
   * The rows `get_top` shows are the largest ones: each is a row of the
   * table, they stand in order, every row left out is no larger than any row
   * shown, and nothing is left out when fewer than ten are shown.
   */
  lemma ListedAreLargest(s: Tables, table: string)
    requires table in s && SizeColumn in s[table].schema
    ensures var listed := Listed(s, table);
      && var rows := s[table].rows;
      && |listed| <= TopSize && Descending(listed)
      && (forall i | 0 <= i < |listed| :: listed[i] in rows.Values)
      && (forall i, k | 0 <= i < |listed| && k in rows && rows[k] !in listed :: InOrder(listed[i], rows[k]))
      && (|listed| < TopSize ==> forall k | k in rows :: rows[k] in listed)
      && |listed| == (if |rows| < TopSize then |rows| else TopSize)
      && multiset(listed) <= multiset(AllRows(s[table]))
  {
    ListedInOrder(s, table);
    ListedCount(s, table);
  }

  lemma ListedInOrder(s: Tables, table: string)
    requires table in s && SizeColumn in s[table].schema
    ensures var listed := Listed(s, table);
      && var rows := s[table].rows;
      && |listed| <= TopSize && Descending(listed)
      && (forall i | 0 <= i < |listed| :: listed[i] in rows.Values)
      && (forall i, k | 0 <= i < |listed| && k in rows && rows[k] !in listed :: InOrder(listed[i], rows[k]))
      && (|listed| < TopSize ==> forall k | k in rows :: rows[k] in listed)
  {
    var rows := s[table].rows;
    FindLimited(s, table, [], SizeDesc, TopSize);
    var all := Find(s, table, [], SizeDesc, None).value;
    var listed := Listed(s, table);
    forall k | k in rows && rows[k] !in listed ensures forall i | 0 <= i < |listed| :: InOrder(listed[i], rows[k]) {
      BehindPrefix(all, |listed|, rows[k]);
    }
  }

  /** On a table with the columns it prints, `get_top` succeeds with one line per row shown. */
  lemma TopLines(s: Tables, table: string)
    requires WellFormed(s) && table in s
    requires {"username", "url", SizeColumn} <= s[table].schema.Keys
    ensures var r := Top(s, table);
      && var listed := Listed(s, table);
      && r.Success? && |r.value| == |listed|
      && forall i | 0 <= i < |listed| ::
           r.value[i] == TopEntry(i + 1, listed[i]["username"], listed[i]["url"], listed[i][SizeColumn])
  {
    var rows := s[table].rows;
    var listed := Listed(s, table);
    forall i | 0 <= i < |listed| ensures "username" in listed[i] && "url" in listed[i] && SizeColumn in listed[i] {
      var k :| k in rows && rows[k] == listed[i];
    }
    EntriesComplete(listed);
  }

  /**
   * With every draw in `[min, max]`, a play moves the size by 1 to 10 cm:
   * up to 10 when it grows, up to 5 when it shrinks.
   */
  lemma PlayedMovesByDraw(s: Tables, user: int, username: string, chat: int, now: int, draws: seq<int>)
    requires TablesReady(s, chat)
    requires SomeNonZero(draws) && forall i | 0 <= i < |draws| :: MinDelta <= draws[i] <= MaxDelta
    ensures var r := Attempt(s, user, username, chat, now, Draw(draws)).result;
      r.Success? && r.value.Played? ==>
        && 1 <= r.value.added
        && (r.value.direction == Grew ==> r.value.added <= MaxDelta)
        && (r.value.direction == Shrank ==> r.value.added <= -MinDelta)
  {
    PlayedClampsSize(s, user, username, chat, now, Draw(draws));
  }

  /**
   * An attempt that does not play changes nothing but the membership list:
   * the store is the one `add_group` leaves, so the chat row and `users.size`
   * keep their values.
   */
  lemma NotYetOnlyJoins(s: Tables, user: int, username: string, chat: int, now: int, delta: int)
    requires TablesReady(s, chat)
    ensures var r := Attempt(s, user, username, chat, now, delta);
      r.result.Success? && r.result.value.NotYet? ==>
        && user in s[UsersTable].rows && StoredGroups(s, user).Some?
        && r.after == JoinedStore(s, user, chat)
  {
    var r := Attempt(s, user, username, chat, now, delta);
    if r.result.Success? && r.result.value.NotYet? {
      AttemptWaits(s, user, username, chat, now, delta);
      LoadFindsRows(s, user, chat);
      AddGroupRecords(s, user, chat);
    }
  }

  /**
   * The player's row in a chat's table exists and holds a `size` that
   * `get_user_size` can read: an integer or NULL.
   */
  predicate SizeReadable(s: Tables, chat: int, user: int) {
    && Keyed(s, GroupTable(chat)) && user in s[GroupTable(chat)].rows
    && SizeColumn in s[GroupTable(chat)].rows[user]
    && (s[GroupTable(chat)].rows[user][SizeColumn].Int? || s[GroupTable(chat)].rows[user][SizeColumn].Null?)
  }

  lemma SizeReadableReads(s: Tables, chat: int, user: int)
    requires WellFormed(s) && SizeReadable(s, chat, user)
    ensures SizeIn(s, chat, user).Success?
  {
    GetById(s, GroupTable(chat), user);
  }

  /**
   * What `dick` needs to get past its reads and checks: the tables are in
   * place, the player has a `users` row with a membership list and a row in
   * the chat's table with an integer `last_played`.
   */
  predicate Joinable(s: Tables, user: int, chat: int) {
    && TablesReady(s, chat) && SizeColumn in s[GroupTable(chat)].schema
    && user in s[UsersTable].rows && user in s[GroupTable(chat)].rows
    && StoredGroups(s, user).Some?
    && LastPlayedColumn in PreRow(s, user, chat) && PreRow(s, user, chat)[LastPlayedColumn].Int?
  }

  /**
   * What a play needs besides: the chat row's size is an integer, and every
   * chat on the membership list still holds a readable row for the player.
   */
  predicate Playable(s: Tables, user: int, chat: int) {
    && Joinable(s, user, chat)
    && SizeColumn in PreRow(s, user, chat) && PreRow(s, user, chat)[SizeColumn].Int?
    && forall g | g in StoredGroups(s, user).value :: SizeReadable(s, g, user)
  }

  /** With the rows in place, the reads return them and the checks pass. */
  lemma JoinableLoads(s: Tables, user: int, chat: int)
    requires Joinable(s, user, chat)
    ensures NTop(s, user, chat).Success?
    ensures var loaded := Loaded(Some(s[UsersTable].rows[user]), Some(PreRow(s, user, chat)));
      && Load(s, user, chat) == Success(loaded)
      && Prepare(s, loaded, user, chat) == Success(Prepared(PreRow(s, user, chat),
           PreRow(s, user, chat)[LastPlayedColumn].i, NTop(s, user, chat).value, StoredGroups(s, user).value))
  {
    GetById(s, UsersTable, user);
    GetById(s, GroupTable(chat), user);
    assert TableOk(s[GroupTable(chat)]);
    PlaceOfPresentPlayer(s, user, chat);
  }

  /**
   * The played branch goes through when the chat row's size is an integer,
   * the list names the chat, and every chat on it holds a readable row.
   */
  lemma PlayProceeds(s: Tables, loaded: Loaded, user: int, username: string, chat: int, now: int, delta: int, groups: seq<int>)
    requires TablesReady(s, chat) && SizeColumn in s[GroupTable(chat)].schema
    requires user in s[GroupTable(chat)].rows && user in s[UsersTable].rows
    requires loaded.group == Some(PreRow(s, user, chat))
    requires SizeColumn in PreRow(s, user, chat) && PreRow(s, user, chat)[SizeColumn].Int?
    requires LastPlayedColumn in PreRow(s, user, chat)
    requires chat in groups && forall g | g in groups :: SizeReadable(s, g, user)
    ensures Play(s, loaded, user, username, chat, now, delta, groups).result.Success?
  {
    var pre := PreRow(s, user, chat);
    var row' := Replayed(pre, delta, now);
    GroupTableIsNotUsers(chat);
    ChatWrite(s, user, chat, delta, now);
    var s1 := WithRow(s, GroupTable(chat), user, row');
    PlaceOfPresentPlayer(s1, user, chat);
    ReplayedRow(pre, delta, now);
    SizesReadableAfterWrite(s, user, chat, row', groups);
    SizesHoldNewSize(s1, user, chat, row', groups);
    var sizes := CollectSizes(s1, groups, user).value;
    UsersWrite(s1, user, Largest(sizes));
    var s2 := WithRow(s1, UsersTable, user, s1[UsersTable].rows[user][SizeColumn := Int(Largest(sizes))]);
    PlayGoesThrough(s, s1, s2, loaded, user, username, chat, now, delta, groups);
  }

  /** After the chat row is rewritten with an integer size, every chat on the list still reads. */
  lemma SizesReadableAfterWrite(s: Tables, user: int, chat: int, row': Row, groups: seq<int>)
    requires GroupTable(chat) in s && WellFormed(WithRow(s, GroupTable(chat), user, row'))
    requires SizeColumn in row' && row'[SizeColumn].Int?
    requires forall g | g in groups :: SizeReadable(s, g, user)
    ensures CollectSizes(WithRow(s, GroupTable(chat), user, row'), groups, user).Success?
  {
    var s1 := WithRow(s, GroupTable(chat), user, row');
    forall i | 0 <= i < |groups| ensures SizeIn(s1, groups[i], user).Success? {
      assert SizeReadable(s, groups[i], user);
      if GroupTable(groups[i]) != GroupTable(chat) {
        assert s1[GroupTable(groups[i])] == s[GroupTable(groups[i])];
      }
      SizeReadableReads(s1, groups[i], user);
    }
    CollectSizesContents(s1, groups, user);
  }

  /** Play's steps in order: when each write is done and each read succeeds, the play is reported. */
  lemma PlayGoesThrough(s: Tables, s1: Tables, s2: Tables, loaded: Loaded, user: int, username: string, chat: int, now: int, delta: int, groups: seq<int>)
    requires loaded.group.Some? && SizeColumn in loaded.group.value && loaded.group.value[SizeColumn].Int?
    requires Update(s, GroupTable(chat), Replayed(loaded.group.value, delta, now), IdIs(user)) == Effect(s1, Done)
    requires NTop(s1, user, chat).Success?
    requires CollectSizes(s1, groups, user).Success? && |CollectSizes(s1, groups, user).value| > 0
    requires Update(s1, UsersTable, map[SizeColumn := Int(Largest(CollectSizes(s1, groups, user).value))], IdIs(user)) == Effect(s2, Done)
    ensures Play(s, loaded, user, username, chat, now, delta, groups).result.Success?
    ensures Play(s, loaded, user, username, chat, now, delta, groups).after == s2
  {
  }

  /**
   * `dick` plays once the cooldown is over, provided the rows it reads are in
   * place: the attempt then always answers with a play.
   */
  lemma AttemptPlaysWhenDue(s: Tables, user: int, username: string, chat: int, now: int, delta: int)
    requires Playable(s, user, chat)
    requires now - PreRow(s, user, chat)[LastPlayedColumn].i > Delay
    ensures var r := Attempt(s, user, username, chat, now, delta);
      r.result.Success? && r.result.value.Played?
  {
    JoinableLoads(s, user, chat);
    var loaded := Loaded(Some(s[UsersTable].rows[user]), Some(PreRow(s, user, chat)));
    var p := Prepare(s, loaded, user, chat).value;
    AttemptAfterJoin(s, loaded, p, user, username, chat, now, delta);
    AddGroupRecords(s, user, chat);
    JoinedStorePlayable(s, user, chat);
    PlayProceeds(JoinedStore(s, user, chat), loaded, user, username, chat, now, delta, JoinGroup(p.groups, chat));
  }

  /** `add_group` keeps what a play needs, and the list it writes names only chats that read. */
  lemma JoinedStorePlayable(s: Tables, user: int, chat: int)
    requires Playable(s, user, chat)
    ensures var s0 := JoinedStore(s, user, chat);
      && TablesReady(s0, chat) && SizeColumn in s0[GroupTable(chat)].schema
      && user in s0[GroupTable(chat)].rows && user in s0[UsersTable].rows
      && PreRow(s0, user, chat) == PreRow(s, user, chat)
      && forall g | g in JoinGroup(StoredGroups(s, user).value, chat) :: SizeReadable(s0, g, user)
  {
    AddGroupRecords(s, user, chat);
    GroupTableIsNotUsers(chat);
    var s0 := JoinedStore(s, user, chat);
    assert s0[GroupTable(chat)] == s[GroupTable(chat)];
    forall g | g in JoinGroup(StoredGroups(s, user).value, chat) ensures SizeReadable(s0, g, user) {
      GroupTableIsNotUsers(g);
      assert s0[GroupTable(g)] == s[GroupTable(g)] by {
        assert GroupTable(g) in s;
      }
    }
  }

  /**
   * Before the cooldown is over `dick` answers that it is too early, with the
   * stored size and place, and only records the chat in the membership list.
   */
  lemma AttemptWaitsWhenNotDue(s: Tables, user: int, username: string, chat: int, now: int, delta: int)
    requires Joinable(s, user, chat)
    requires now - PreRow(s, user, chat)[LastPlayedColumn].i <= Delay
    ensures var r := Attempt(s, user, username, chat, now, delta);
      && SizeColumn in PreRow(s, user, chat)
      && r.result.Success? && r.result.value.NotYet?
      && r.result.value == NotYet(username, PreRow(s, user, chat)[SizeColumn], r.result.value.top,
           TimeNextPlay(PreRow(s, user, chat)[LastPlayedColumn].i, now))
      && NTop(s, user, chat) == Success(r.result.value.top)
      && r.after == JoinedStore(s, user, chat)
  {
    JoinableLoads(s, user, chat);
    var loaded := Loaded(Some(s[UsersTable].rows[user]), Some(PreRow(s, user, chat)));
    var p := Prepare(s, loaded, user, chat).value;
    AttemptAfterJoin(s, loaded, p, user, username, chat, now, delta);
    AddGroupRecords(s, user, chat);
    assert p.groups == StoredGroups(s, user).value;
  }
}
