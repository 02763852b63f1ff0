# PipisyaBot game engine in Dafny

This project models the game engine of PipisyaBot, a Telegram bot kept in a single file, `src.py`. Players in a group chat run `/dick` once per 24 hours. Each play changes their size in that chat by a random non-zero amount in [-5, 10], clamped at 0. The bot keeps a per-chat ranking, a top-10 list, and a global size, which is the player's largest size over every chat they have played in.

The model has six modules:

- **Store** (`store.dfy`): what the SQL statements of class `DataBase` do, as pure functions over an abstract store. A store maps table names to tables. A table has a schema (each column with its DEFAULT) and rows keyed by `id`, which is the SQLite rowid. A failed statement leaves the store as it was. The `IntegrityError` that `insert` swallows leaves the store as it was, with status `Done`.
- **Database** (`database.dfy`): class `DataBase`. Its `tables` field is the store. Each method applies one Store function to it.
- **Game** (`game.dfy`): the `CONFIG` constants, the table layouts, and the engine as functions of the store:
  - `get_time_next_play`, `add_group`, `get_n_top`, `get_top`;
  - one whole `dick` call (`Attempt`) and its played branch (`Play`);
  - `ensure_user_in_db` and `init_func` (`Init`);
  - the lemmas that state what the game promises.
- **Manager** (`manager.dfy`): class `DickManager`, with the fields `db` and `data`, and the module-level helpers `ensure_user_in_db`, `setup_group_table` and `init_func`. These are written as statements in the source's order: the redraw `while` loop, the `enumerate` scan of `get_n_top`, the list comprehension of `get_top` and the `for` loop that builds `dick_sizes`. Each method is proved equal to the matching Game function.
- **Runs** (`runs.dfy`): the store after `main` creates `users`, followed by any sequence of `init_func` calls and `/dick` attempts. Over every such run, no stored size is negative and no membership list names a chat twice.
- **Text** and **Wrappers**: Python's `str()` of an integer, `join`, and character counting; plus `Option` and `Result`.

Conventions:

- Time is whole seconds on one clock, and `now` is a parameter.
- `last_played` holds `Int(seconds)`. The default `2000-01-01 00:00:00` is 946684800.
- The `groups` column holds a typed list of chat ids (`Ints`).
- A Python exception becomes an `EngineError`. Writes made before the exception stay in the store.
- `ORDER BY size DESC` has a fixed order:
  - text sizes first, then integers in descending order, then NULL (SQLite's cross-type order);
  - ties are broken by ascending `id`.

## Model

| member | source | states |
|---|---|---|
| Store.PrepareConditions | src.py:85-90 | An empty filter gives `("", ())`. Otherwise the text is `WHERE ` followed by the `k = ?` tests of the filter's keys joined by ` AND `. The parameters are the filter's values, one per key, in order. |
| Store.WhereSingle | src.py:89-90 | A one-key filter gives `WHERE k = ?` with its one value. |
| Store.WhereExtend | src.py:89-90 | Each further key appends ` AND k = ?` to the text and its value to the parameters. |
| Store.PlaceholdersMatchParams | src.py:85-90 | The WHERE clause holds exactly as many `?` placeholders as there are parameters. |
| Store.Matches | src.py:89-90 | What the WHERE clause selects: a row passes when it holds every filter column with the filter's value; a test against NULL is never true. |
| Store.MatchesConjunction | src.py:89-90 | The filter is the AND of its tests: a row passes a concatenation of filters exactly when it passes both. |
| Store.NullNeverMatches | src.py:89-90 | A filter that tests a column against NULL selects no row. |
| Store.CreateTable | src.py:48-50 | `CREATE TABLE IF NOT EXISTS`: adds an empty table with the schema, leaves an existing table and every other table untouched, and fails only on an empty column list. |
| Store.CreateTableIdempotent | src.py:48-50 | A second `create_table` of the same name changes nothing, whatever schema it names. |
| Store.NextRowid | src.py:57 | The rowid SQLite gives an INSERT without an id: 1 in an empty table, otherwise one more than the largest rowid in use, so it is above every key. |
| Store.InsertKey | src.py:57-62 | The key an INSERT writes: the given integer `id`; a fresh rowid when `id` is absent or NULL; none (the swallowed IntegrityError) exactly when `id` is some other value. |
| Store.Insert | src.py:52-62 | Succeeds exactly when the data is non-empty and names only existing columns of an existing table. It never alters an existing row (first write wins). A new row appears only under the insert's own key, holding the given values and the defaults. A failure leaves the store as it was. |
| Store.InsertTwice | src.py:52-62 | Inserting the same row with an integer id twice gives the same store and status as inserting it once, so `ensure_user_in_db` twice leaves one row. |
| Store.Bigger | src.py:149 | `ORDER BY size DESC` compares by storage class first (text, then integer, then NULL; a missing size counts as NULL), then integers by value. |
| Store.InOrder | src.py:149 | A row may stand before another when it is bigger, or of the same size and no greater rowid. |
| Store.SizeClasses | src.py:149 | Text sorts above integers and NULL, an integer above NULL, integers by value, and equal sizes by ascending rowid. |
| Store.InOrderTotal | src.py:149 | Of any two rows, one may stand before the other. |
| Store.InOrderTransitive | src.py:149 | The order is transitive, so a sorted answer is descending throughout. |
| Store.SortBySize | src.py:149 | `ORDER BY size DESC` gives a descending permutation of the rows. |
| Store.Find | src.py:70-73 | It fails exactly on a missing table, an unknown filter column, or an order by a missing `size` column. Otherwise every returned row is a row of the table that matches the filter. Without LIMIT, every matching row is returned. With LIMIT n, at most n rows are returned. The rows are descending under `ORDER BY size DESC`. How often each row appears is stated by `Store.FindExactly`. |
| Store.FindExactly | src.py:70-73 | Without LIMIT the answer is a permutation of the matching rows, each row once. Without an ORDER BY it is exactly those rows in ascending rowid order. |
| Store.AllRows | src.py:70-73 | A table read in full: one entry per key (as many rows as keys), every row of the table included. |
| Store.FindEverything | src.py:149-161 | An unfiltered, unlimited `find` returns every row of the table exactly once. |
| Store.FindLimited | src.py:149 | `LIMIT n` returns the first n rows of the unlimited answer, or all of them when there are fewer. |
| Store.Get | src.py:64-68 | It fails exactly when `find` would. None means no row matches. Otherwise the result is the matching row with the least id. |
| Store.GetFirstFound | src.py:64-68 | `get` is the first row of the same `find`, or None when `find` returns nothing. |
| Store.GetById | src.py:121-123 | In a keyed table, `get` by `{"id": k}` gives the row under key k, or None. |
| Store.Update | src.py:75-79 | A failure leaves the store as it was. It succeeds whenever the data and filter name existing columns (and the data does not name `id`). Rows the filter does not select, other tables and the schema are unchanged. |
| Store.UpdateOnlyNamedColumns | src.py:75-79 | On matching rows, only the named columns take the new values; every other column keeps its value. Non-matching rows are unchanged. |
| Store.Delete | src.py:81-83 | It fails exactly on a missing table or an unknown filter column. Exactly the matching rows are removed; the others and every other table stay as they were. |
| Database.DataBase.constructor | src.py:21-23 | A new database holds no tables. |
| Database.DataBase.CreateTable | src.py:48-50 | The new state and status are those of `Store.CreateTable` on the old state. |
| Database.DataBase.Insert | src.py:52-62 | The new state and status are those of `Store.Insert` on the old state. |
| Database.DataBase.Update | src.py:75-79 | The new state and status are those of `Store.Update` on the old state. |
| Database.DataBase.Delete | src.py:81-83 | The new state and status are those of `Store.Delete` on the old state. |
| Database.DataBase.Find | src.py:70-73 | The answer is `Store.Find` of the current state. |
| Database.DataBase.Get | src.py:64-68 | Runs `find` and keeps the first row; the result equals `Store.Get`. |
| Game.GroupTableInjective | src.py:161 | Different chats get different `group_<chat>` tables. |
| Game.GroupTableIsNotUsers | src.py:161 | No chat table is `users`. |
| Game.Ranking | src.py:161 | The query `get_n_top` runs: the chat's table under `ORDER BY size DESC`, with no filter and no LIMIT. |
| Game.RankingIsTable | src.py:161 | The ranking exists exactly when the chat's table exists and has a `size` column. It is then every row of that table once, in descending order. |
| Game.TimeNextPlay | src.py:131-144 | (0, 0, 0) when the remaining cooldown is at most 0. Otherwise `0 <= m, s < 60` and `h*3600 + m*60 + s` equals the remaining seconds. |
| Game.TimeNextPlayUnique | src.py:140-142 | These h, m and s are the only ones with that property. |
| Game.JoinGroup | src.py:125-128 | The chat is in the result, which extends the old list by at most that chat. The members are the old ones plus the chat. A duplicate-free list stays duplicate-free. |
| Game.JoinGroupTwice | src.py:125-128 | Joining the same chat a second time changes nothing. |
| Game.AddGroup | src.py:125-129 | The list becomes `JoinGroup`. An already-present chat writes nothing. Only `users` can change. |
| Game.AddGroupRecords | src.py:125-129 | On the player's stored list, `add_group` succeeds and rewrites only the `groups` column of their `users` row. |
| Game.Position | src.py:164-166 | The 1-based index of the first row whose `id` is the player. None when no row has it. An error (the source's KeyError) only when some row lacks `id`. |
| Game.Entry | src.py:154 | One top-list line succeeds exactly when the row has `username`, `url` and `size`. It then carries the place and those three values. |
| Game.PlaceOfPresentPlayer | src.py:160-166 | A player with a row has a place in the ranking, and the ranking holds their row at that place. |
| Game.RankOfPresentPlayer | src.py:160-166 | At the reported place the ranking holds the player's row. Every row ahead is at least as large, and every strictly larger row is ahead. |
| Game.RankOfLeader | src.py:160-166 | A player strictly larger than everyone else in the chat is ranked 1. |
| Game.RankOfAbsentPlayer | src.py:160-166 | A player without a row gets 0 in an empty chat and None otherwise. |
| Game.Entries | src.py:153-156 | One line per row with places 1, 2, …, each built from that row. A failure (the source's KeyError) only when some row's line cannot be built. |
| Game.EntriesComplete | src.py:153-156 | Rows with `username`, `url` and `size` always give their lines. |
| Game.Top | src.py:146-158 | At most 10 lines, numbered from 1. A failure of the query is reported as such. |
| Game.ListedAreLargest | src.py:149 | Exactly min(10, n) rows of an n-row table are listed, in descending order, and none is listed more often than the table holds it. Every row left out is ordered after every listed row, so all rows are listed when there are fewer than 10. |
| Game.ListedCount | src.py:149 | `LIMIT 10` on an n-row table returns min(10, n) rows, a sub-multiset of the table's rows. |
| Game.TopLines | src.py:149-156 | `get_top` on a table with the display columns gives line i as (i, username, url, size) of the i-th listed row. |
| Game.FirstNonZero | src.py:187-188 | The redraw loop stops at the first non-zero draw. |
| Game.Draw | src.py:186-188 | The draw a play uses is one of the draws and is never 0. When every draw lies in [-5, 10], so does it. |
| Game.GatherContents | src.py:208-212 | The `dick_sizes` loop completes exactly when every read succeeds. It keeps exactly the non-NULL sizes. |
| Game.SizeOfRow | src.py:210-211 | A chat read yields a size exactly when the row was found and holds `size` as an integer or NULL. NULL is skipped and an integer gives its value. A missing row is the error of subscripting None. |
| Game.Gather | src.py:208-212 | The `for` loop over the reads: it stops at the first failed read, skips a NULL size and appends an integer, in list order. |
| Game.CollectSizes | src.py:208-212 | `dick_sizes`: the loop run over the player's reads from each chat of the membership list. |
| Game.CollectSizesContents | src.py:208-212 | `dick_sizes` holds exactly the player's non-NULL sizes over the chats of the list, and exists exactly when every read succeeds. |
| Game.GatherError | src.py:208-212 | A failed loop fails with the error of one of its reads. |
| Game.CollectSizesError | src.py:208-212 | `dick_sizes` never fails for want of sizes; only a read fails. |
| Game.Largest | src.py:216 | Python's `max`: an element that no element exceeds. |
| Game.LoadFindsRows | src.py:121-123 | The loaded rows are the rows the tables hold under the player's id. |
| Game.Prepare | src.py:180-182 | On success: the chat row has `size` and an integer `last_played`, the rank is `get_n_top` of the unchanged store, and the membership list is the `users` row's `groups`. |
| Game.Attempt | src.py:174-229 | No table is added or removed, and a well-formed store stays well formed. A reply comes only after both of the player's rows were loaded. |
| Game.AttemptBranches | src.py:186 | A reply is the played one exactly when `now - last_played > delay`. |
| Game.GateOpensStrictly | src.py:186 | Same, for the `last_played` stored in the player's chat row. |
| Game.AttemptWaits | src.py:225-229 | The "not yet" reply comes after `add_group` succeeded. It carries the pre-call size, the pre-call rank and `get_time_next_play`, and the store is what `add_group` left. |
| Game.AttemptPlays | src.py:184-223 | A played reply is the played branch run on the store and list that `add_group` left. |
| Game.AttemptAfterJoin | src.py:184-229 | After loading, the attempt is exactly: the `add_group` error, or the played branch when the gate opens, or the "not yet" reply. |
| Game.AttemptFailsLoading | src.py:175-178 | A failed load leaves the store and `self.data` untouched. |
| Game.AttemptFailsPreparing | src.py:180-182 | A failure before `add_group` changes no table. |
| Game.NotYetReportsStoredState | src.py:181-229 | The "not yet" reply reports the stored size, the rank before any write and the remaining wait. No chat table changes. |
| Game.NotYetOnlyJoins | src.py:184-229 | On the "not yet" branch the only write is `add_group`'s. |
| Game.Play | src.py:186-223 | A success is a played reply. `self.data` is always set, and on success it keeps the loaded `users` row. No table is added or removed, and a well-formed store stays well formed. |
| Game.PlaySteps | src.py:194-223 | A successful play is, in order: the chat row update, the rank, the sizes loop, the `users` update, and the reply built from them. |
| Game.Replayed | src.py:190-195 | The row written back: the clamped `size` and the new `last_played`, with the other loaded columns as they were. |
| Game.ReplayedRow | src.py:190-195 | That row's size is a non-negative integer, equal to old + delta when that is non-negative. `last_played` is `now` and every other column is unchanged. |
| Game.UpdatePlayerRow | src.py:197-201 | An update by `{"id": user}` that keeps the id merges the data into that one row and changes nothing else. |
| Game.ChatWrite | src.py:194-201 | Writing back `self.data["group"]` replaces exactly the player's chat row with the clamped size and the new `last_played`. |
| Game.UsersWrite | src.py:214-218 | Writing the global size replaces only the `size` of the player's `users` row. |
| Game.PlayWrites | src.py:194-218 | The store after a play is the old store with the chat row rewritten and then the `users` size set to the maximum of the sizes collected. |
| Game.PlayedClampsSize | src.py:190-205 | A play reports size `max(old + delta, 0)`, direction grew exactly when delta > 0, magnitude `abs(delta)` and the full 24-hour wait. |
| Game.PlayReply | src.py:203-223 | The reply of the played branch in terms of the loaded chat row. |
| Game.PlayedStampsRow | src.py:194-201 | A play writes the player's chat row with the new size and `last_played`. Other rows of that chat and other chats' tables are unchanged. |
| Game.GlobalMaxStore | src.py:214-216 | The value written to `users.size` is the maximum of the player's sizes over the list. |
| Game.PlayMaxes | src.py:208-218 | After the played branch, `users.size` is the maximum of the player's non-NULL sizes over the list. |
| Game.PlayedSetsGlobalMax | src.py:184-218 | After a play, `users.size` is the maximum over the membership list extended with the current chat. |
| Game.SizesHoldNewSize | src.py:184-212 | Once the chat row holds its new size, `dick_sizes` over a list naming the chat contains that size. |
| Game.PlayNeverLacksSizes | src.py:208-216 | The played branch on a list naming the chat never reaches `max` of an empty list. |
| Game.PlayedNeverLacksSizes | src.py:184-216 | An attempt whose cooldown is over never fails for want of sizes. |
| Game.PlayKeepsGroups | src.py:194-218 | The played branch leaves the membership list as `add_group` wrote it. |
| Game.AttemptRecordsMembership | src.py:182-184 | After any successful attempt, played or not, the stored list is the old one joined with the chat. |
| Game.Joinable | src.py:175-184 | The rows `dick` reads before the gate are in place: both tables, the player's `users` row with a membership list, and a chat row with an integer `last_played`. |
| Game.JoinableLoads | src.py:175-182 | With those rows in place, loading returns them, `get_n_top` succeeds, and the pre-gate reads give the stored row, `last_played`, rank and list. |
| Game.Playable | src.py:190-212 | What the played branch reads is in place as well: an integer chat size, and a readable row in every chat of the membership list. |
| Game.AttemptPlaysWhenDue | src.py:184-223 | When the rows are in place and `now - last_played > delay`, the attempt always answers with a play. |
| Game.AttemptWaitsWhenNotDue | src.py:181-229 | When the rows are in place and `now - last_played <= delay`, the attempt always answers "not yet", with the stored size, the pre-call rank and `get_time_next_play`, and only `add_group`'s write. |
| Game.JoinedStorePlayable | src.py:184-212 | After `add_group`, the chat row is unchanged and every chat on the extended list still holds a readable row. |
| Game.PlayProceeds | src.py:190-218 | On such rows the played branch gets through both writes and the sizes loop. |
| Game.SolePlayerLeads | src.py:206 | A player alone in the chat's table reports place 1 after a play. |
| Game.InitNewcomer | src.py:234-268 | For a newcomer in a group new to the store, `init_func` adds their `users` row and a new chat table holding only their row, both with the schema defaults. |
| Game.NewcomerPlayable | src.py:238-249 | Those rows are ready for a play: size 0, `last_played` 2000-01-01, an empty list, alone in the chat. |
| Game.NewcomerPlays | src.py:174-223 | On such rows, once the cooldown is over, the attempt plays with size `max(0 + delta, 0)`, direction and magnitude from delta, place 1 and the full wait. |
| Game.FirstPlayInNewGroup | src.py:174-268 | `init_func` then `dick` for a newcomer in a new group, at a time more than a day after 2000-01-01, plays with size `max(delta, 0)` and place 1. |
| Game.OncePerCooldown | src.py:186-195 | After a play at `now`, any attempt no more than `delay` later does not play again. |
| Game.PlayRank | src.py:206 | The rank the played branch reports is `get_n_top` of the store it leaves. |
| Game.PlayedReportsNewRank | src.py:206 | After a play, the reported rank is the player's rank in the new store. |
| Game.PlayedMovesByDraw | src.py:187-205 | With draws from [-5, 10], a play moves the size by 1 to 10 when it grew and by 1 to 5 when it shrank. |
| Game.UserRow | src.py:234-235 | The row `ensure_user_in_db` inserts has exactly `id`, `firstname`, `username` and `url`: the sender's id, first name and url, and the username or NULL when there is none. |
| Game.Init | src.py:252-268 | Returns the sender, the absolute chat id, the chat type and whether it is a group or supergroup. It adds no table other than the chat's, and removes none. In a group, success means that table exists. Well-formed stores stay well formed. |
| Game.InitIdempotent | src.py:252-268 | A second `init_func` with the same sender and chat changes nothing and gives the same answer. |
| Game.InitEnsuresRows | src.py:252-268 | When the tables accept the row, `init_func` succeeds and leaves the sender a `users` row and, in a group, a row in the chat's table. |
| Manager.Place | src.py:164-166 | The early-returning `enumerate` scan gives `Position`. |
| Manager.GatherStopsAtFailure | src.py:209-211 | Once a read in the `dick_sizes` loop fails, the later chats do not matter. |
| Manager.EntriesStopAtFailure | src.py:153-156 | The first row lacking a column sets the error of the whole comprehension. |
| Manager.EntriesFailurePersists | src.py:153-156 | A comprehension that failed on a prefix fails the same way on the whole list. |
| Manager.DickManager.constructor | src.py:117-119 | Keeps the database and starts with no `data`. |
| Manager.DickManager.AddGroup | src.py:125-129 | Returns the extended list; the new state is `Game.AddGroup` of the old. |
| Manager.DickManager.GetNTop | src.py:160-166 | Returns `Game.NTop` of the current state. |
| Manager.DickManager.GetTop | src.py:146-158 | The comprehension loop returns `Game.Top`. |
| Manager.DickManager.GetGlobalTop | src.py:168-169 | `get_top("users")`. |
| Manager.DickManager.GetChatTop | src.py:171-172 | `get_top("group_<chat>")`. |
| Manager.DickManager.DickSizes | src.py:208-212 | The `for` loop returns `CollectSizes`. |
| Manager.DickManager.Prepare | src.py:180-182 | The reads before `add_group` give `Game.Prepare`. |
| Manager.DickManager.Play | src.py:186-223 | The new store, `self.data` and the reply are those of `Game.Play`. |
| Manager.DickManager.Redraw | src.py:187-188 | The `while` redraw loop returns the first non-zero draw. |
| Manager.DickManager.Dick | src.py:174-229 | The new store and the reply are those of `Game.Attempt` with the drawn delta. `self.data` is the loaded pair, or is kept when loading failed. |
| Manager.EnsureUserInDb | src.py:234-235 | The new state and status are those of inserting `UserRow`. |
| Manager.SetupGroupTable | src.py:238-249 | Creates the table with the chat schema and its defaults. |
| Manager.InitFunc | src.py:252-268 | The new state and the result are those of `Game.Init`. |
| Runs.InsertHealthy | src.py:52-62 | An insert of display columns keeps every size non-negative and every list duplicate-free. |
| Runs.CreateTableHealthy | src.py:238-249 | Creating a chat table keeps the store healthy. |
| Runs.InitHealthy | src.py:252-268 | `init_func` keeps the store healthy. |
| Runs.SizesNonNegative | src.py:208-212 | In a healthy store, every size `dick_sizes` collects is non-negative. |
| Runs.JoinedHealthy | src.py:125-129 | `add_group` keeps the membership list duplicate-free. |
| Runs.PlayHealthy | src.py:190-218 | The played branch keeps every size non-negative, at whatever step it stops. |
| Runs.AttemptStores | src.py:174-229 | An attempt leaves the store untouched, as `add_group` left it, or as the played branch left it. |
| Runs.AttemptHealthy | src.py:174-229 | A `dick` attempt keeps the store healthy. |
| Runs.RunHealthy | src.py:174-268 | Any sequence of `init_func` calls and attempts keeps a healthy store healthy. |
| Runs.SizesNeverNegative | src.py:190-192 | Over any run from the store `main` creates, no integer size is negative and no membership list names a chat twice. |
| Runs.FreshHealthy | src.py:283-294 | The store after `main` creates `users` holds only that empty table with its schema, and is healthy. |

## Left out

- The SQL text, the aiosqlite connection (`connect`, `close`, the context manager) and `query`/`execute`: the store is modelled by what each statement does.
- The async structure and races between concurrent `dick` calls: calls are sequential.
- `random.randint` and `datetime.now()`. The draws are a parameter. `Dick` takes a sequence of draws with at least one non-zero among them (`SomeNonZero`), which stands for a redraw loop that terminates.
- Each `datetime.now()` call in `dick` and `get_time_next_play` is the same `now`.
- `strptime`/`strftime` and sub-second time: timestamps are whole seconds.
- `str(groups)` and `ast.literal_eval`: the list is stored as a typed value.
- `timedelta.total_seconds()` floats: the remaining cooldown is whole seconds.
- SQLite type affinity and text-to-text comparison. All text sizes compare equal, and a size read that is neither an integer nor NULL is a `BadValue` error.
- SQLite's 64-bit rowid limit: ids are unbounded integers.
- The Russian message templates and Markdown: replies carry the values put into them.
- Game.Top: returns an empty list for an empty table where the source returns the "empty list" message.
- Game.Init: does not inspect the status of `setup_group_table`, as the source does not. Its schema is non-empty, so it always succeeds.
- `main`, the aiogram handlers and the keyboard (src.py:271-364) are not part of this model. Their only appearance is the initial store `Runs.Fresh`, after `main` creates `users`.
- `get_data` (src.py:121-123) is folded into `Game.Load`.
- An existing `database.db` from an earlier run (src.py:21-23, 283): `Database.DataBase.constructor` and `Runs.Fresh` start from an empty file. A file an earlier run left holds the store that run produced, and `Runs.RunHealthy` covers runs starting from any healthy store.
