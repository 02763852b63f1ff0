/**
 * The record store behind the bot (class `DataBase` of src.py), described by
 * what its SQL statements do rather than by SQL text.  A store is a map from
 * table name to a table; a table has a schema (each column with its DEFAULT)
 * and rows keyed by rowid; a row maps every column of the schema to a value.
 * Every table of the bot declares `id INTEGER PRIMARY KEY`, which makes `id`
 * the rowid, so a row's `id` equals its key.
 *
 * Each mutating operation returns the new store and a status.  An SQLite
 * error that the Python code lets escape becomes `Failed(..)` with the store
 * unchanged (a failed statement is rolled back); the one error the code
 * swallows, an IntegrityError on insert, becomes `Done` with the store
 * unchanged.
 */
module Store {
  import opened Wrappers
  import Text

  /** A column value: SQL NULL, an integer, a text, or the list of chat ids held by `users.groups`. */
  datatype Value = Null | Int(i: int) | Str(s: string) | Ints(xs: seq<int>)

  type Row = map<string, Value>

  /** A `where` dictionary: column/value pairs in insertion order. */
  type Filter = seq<(string, Value)>

  /** Column name to the column's DEFAULT value (NULL when it declares none). */
  type Schema = map<string, Value>

  datatype Table = Table(schema: Schema, rows: map<int, Row>)

  type Tables = map<string, Table>

  datatype StoreError =
    | NoSuchTable(name: string)
    | NoSuchColumn
    | SyntaxError
    | ConstraintFailed

  datatype Status = Done | Failed(error: StoreError)

  datatype Effect = Effect(after: Tables, status: Status)

  /** No ORDER BY clause (rowid order), or `ORDER BY size DESC`. */
  datatype Order = Natural | SizeDesc

  const IdColumn := "id"
  const SizeColumn := "size"

  /** Every row has exactly the schema's columns, and a table with an `id` column keys each row by it. */
  predicate TableOk(t: Table) {
    forall k | k in t.rows ::
      t.rows[k].Keys == t.schema.Keys && (IdColumn in t.schema ==> t.rows[k][IdColumn] == Int(k))
  }

  predicate WellFormed(s: Tables) {
    forall n | n in s :: TableOk(s[n])
  }

  /** The filter `{"id": k}` every caller in the bot uses. */
  function IdIs(k: int): Filter {
    [(IdColumn, Int(k))]
  }

  /** The conjunction of `column = ?` tests; `x = NULL` is never true in SQL. */
  predicate Matches(row: Row, where: Filter) {
    forall i | 0 <= i < |where| ::
      where[i].1 != Null && where[i].0 in row && row[where[i].0] == where[i].1
  }

  lemma MatchesId(row: Row, k: int)
    ensures Matches(row, IdIs(k)) <==> IdColumn in row && row[IdColumn] == Int(k)
  {
    var f := IdIs(k);
    assert |f| == 1 && f[0] == (IdColumn, Int(k));
  }

  /** A filter is the conjunction of its tests, and a test against NULL selects nothing. */
  lemma MatchesConjunction(row: Row, w1: Filter, w2: Filter)
    ensures Matches(row, w1 + w2) <==> Matches(row, w1) && Matches(row, w2)
  {
    var w := w1 + w2;
    assert forall i | 0 <= i < |w1| :: w[i] == w1[i];
    assert forall i | 0 <= i < |w2| :: w[|w1| + i] == w2[i];
  }

  lemma NullNeverMatches(row: Row, where: Filter, i: nat)
    requires i < |where| && where[i].1 == Null
    ensures !Matches(row, where)
  {
  }

  predicate KnownColumns(schema: Schema, where: Filter) {
    forall i | 0 <= i < |where| :: where[i].0 in schema
  }

  // ---------------------------------------------------------------------------
  // _prepare_conditions
  // ---------------------------------------------------------------------------

  function Clauses(where: Filter): seq<string> {
    seq(|where|, i requires 0 <= i < |where| => where[i].0 + " = ?")
  }

  /** The WHERE clause text and its parameter tuple; an empty filter gives `("", ())`. */
  function PrepareConditions(conditions: Filter): (r: (string, seq<Value>))
    ensures conditions == [] ==> r == ("", [])
    ensures conditions != [] ==> r.0 == "WHERE " + Text.Join(" AND ", Clauses(conditions))
    ensures |r.1| == |conditions|
    ensures forall i | 0 <= i < |conditions| :: r.1[i] == conditions[i].1
  {
    if |conditions| == 0 then ("", [])
    else
      var joined := Text.Join(" AND ", Clauses(conditions));
      ("WHERE " + joined, seq(|conditions|, i requires 0 <= i < |conditions| => conditions[i].1))
  }

  /** A one-key filter is a single `k = ?` test. */
  lemma WhereSingle(k: string, v: Value)
    ensures PrepareConditions([(k, v)]) == ("WHERE " + k + " = ?", [v])
  {
    var r := PrepareConditions([(k, v)]);
    assert Clauses([(k, v)]) == [k + " = ?"];
    assert Text.Join(" AND ", [k + " = ?"]) == k + " = ?";
    assert r.0 == "WHERE " + (k + " = ?") == "WHERE " + k + " = ?";
    assert r.1 == [v];
  }

  /** Each further key adds ` AND k = ?` to the text and its value to the parameters. */
  lemma WhereExtend(conditions: Filter, k: string, v: Value)
    requires conditions != []
    ensures PrepareConditions(conditions + [(k, v)]).0 == PrepareConditions(conditions).0 + " AND " + k + " = ?"
    ensures PrepareConditions(conditions + [(k, v)]).1 == PrepareConditions(conditions).1 + [v]
  {
    var more := conditions + [(k, v)];
    assert Clauses(more) == Clauses(conditions) + [k + " = ?"];
    Text.JoinAppend(" AND ", Clauses(conditions), k + " = ?");
  }

  lemma {:induction false} JoinedPlaceholders(parts: seq<string>)
    requires forall i | 0 <= i < |parts| :: Text.CountChar(parts[i], '?') == 1
    ensures Text.CountChar(Text.Join(" AND ", parts), '?') == |parts|
  {
    if |parts| > 1 {
      JoinedPlaceholders(parts[1..]);
      Text.CountCharAppend(parts[0], " AND ", '?');
      Text.CountCharAppend(parts[0] + " AND ", Text.Join(" AND ", parts[1..]), '?');
    }
  }

  /** The clause text carries exactly one `?` per parameter, so SQLite binds each value to its column. */
  lemma PlaceholdersMatchParams(conditions: Filter)
    requires forall i | 0 <= i < |conditions| :: Text.CountChar(conditions[i].0, '?') == 0
    ensures Text.CountChar(PrepareConditions(conditions).0, '?') == |PrepareConditions(conditions).1|
  {
    if |conditions| > 0 {
      var parts := Clauses(conditions);
      forall i | 0 <= i < |parts| ensures Text.CountChar(parts[i], '?') == 1 {
        Text.CountCharAppend(conditions[i].0, " = ?", '?');
      }
      JoinedPlaceholders(parts);
      Text.CountCharAppend("WHERE ", Text.Join(" AND ", parts), '?');
    }
  }

  // ---------------------------------------------------------------------------
  // Scan order: a plain SELECT over a rowid table visits rows by ascending rowid.
  // ---------------------------------------------------------------------------

  predicate Increasing(ks: seq<int>) {
    forall i, j | 0 <= i < j < |ks| :: ks[i] < ks[j]
  }

  lemma HasMember(s: set<int>)
    ensures s == {} || exists y :: y in s
  {
    if !exists y :: y in s {
      assert s == {};
    }
  }

  lemma {:induction false} LeastExists(s: set<int>)
    requires s != {}
    ensures exists m :: m in s && forall x | x in s :: m <= x
  {
    HasMember(s);
    var x :| x in s;
    var rest := s - {x};
    if rest == {} {
      forall y | y in s ensures x <= y { assert y !in rest; }
    } else {
      LeastExists(rest);
      var m :| m in rest && forall y | y in rest :: m <= y;
      var least := if x < m then x else m;
      forall y | y in s ensures least <= y { if y != x { assert y in rest; } }
      assert least in s;
    }
  }

  lemma {:induction false} GreatestExists(s: set<int>)
    requires s != {}
    ensures exists m :: m in s && forall x | x in s :: x <= m
  {
    HasMember(s);
    var x :| x in s;
    var rest := s - {x};
    if rest == {} {
      forall y | y in s ensures y <= x { assert y !in rest; }
    } else {
      GreatestExists(rest);
      var m :| m in rest && forall y | y in rest :: y <= m;
      var most := if x > m then x else m;
      forall y | y in s ensures y <= most { if y != x { assert y in rest; } }
      assert most in s;
    }
  }

  function Least(s: set<int>): (m: int)
    requires s != {}
    ensures m in s && forall x | x in s :: m <= x
  {
    LeastExists(s);
    var m :| m in s && forall x | x in s :: m <= x; m
  }

  function Greatest(s: set<int>): (m: int)
    requires s != {}
    ensures m in s && forall x | x in s :: x <= m
  {
    GreatestExists(s);
    var m :| m in s && forall x | x in s :: x <= m; m
  }

  function SortedKeys(s: set<int>): (ks: seq<int>)
    ensures Increasing(ks)
    ensures forall k :: k in ks <==> k in s
    decreases |s|
  {
    if s == {} then []
    else
      var m := Least(s);
      [m] + SortedKeys(s - {m})
  }

  /** The keys of `ks`, in the same order, whose rows pass the filter. */
  function KeysWhere(ks: seq<int>, rows: map<int, Row>, where: Filter): (r: seq<int>)
    requires forall k | k in ks :: k in rows
    ensures forall k :: k in r <==> k in ks && Matches(rows[k], where)
    ensures Increasing(ks) ==> Increasing(r)
  {
    if |ks| == 0 then []
    else
      var k := ks[0];
      assert k in ks;
      var rest := KeysWhere(ks[1..], rows, where);
      if Matches(rows[k], where) then
        assert Increasing(ks) ==> Increasing([k] + rest) by {
          if Increasing(ks) {
            assert Increasing(ks[1..]);
            forall j | 0 <= j < |rest| ensures k < rest[j] {
              assert rest[j] in rest;
              var m :| 0 <= m < |ks[1..]| && ks[1..][m] == rest[j];
              assert ks[m + 1] == rest[j];
            }
          }
        }
        [k] + rest
      else rest
  }

  /** Keys of the rows that pass the filter, in scan order. */
  function MatchingKeys(t: Table, where: Filter): (ks: seq<int>)
    ensures Increasing(ks)
    ensures forall k :: k in ks <==> k in t.rows && Matches(t.rows[k], where)
  {
    KeysWhere(SortedKeys(t.rows.Keys), t.rows, where)
  }

  function RowsAt(t: Table, ks: seq<int>): (r: seq<Row>)
    requires forall k | k in ks :: k in t.rows
    ensures |r| == |ks| && forall i | 0 <= i < |ks| :: ks[i] in t.rows && r[i] == t.rows[ks[i]]
  {
    assert forall i | 0 <= i < |ks| :: ks[i] in t.rows by {
      forall i | 0 <= i < |ks| ensures ks[i] in t.rows {
        var k := ks[i];
        assert k in ks;
      }
    }
    seq(|ks|, i requires 0 <= i < |ks| => t.rows[ks[i]])
  }

  // ---------------------------------------------------------------------------
  // ORDER BY size DESC.  SQLite orders NULL below integers and integers below
  // text; this model breaks ties, including ties between two texts, by
  // ascending id.
  // ---------------------------------------------------------------------------

  function SizeOf(row: Row): Value {
    if SizeColumn in row then row[SizeColumn] else Null
  }

  function RowId(row: Row): int {
    if IdColumn in row && row[IdColumn].Int? then row[IdColumn].i else 0
  }

  function Class(v: Value): int {
    match v
    case Null => 0
    case Int(_) => 1
    case _ => 2
  }

  function Magnitude(v: Value): int {
    if v.Int? then v.i else 0
  }

  /** `a` has the larger size, so it comes first under `ORDER BY size DESC`. */
  predicate Bigger(a: Row, b: Row) {
    var x, y := SizeOf(a), SizeOf(b);
    Class(x) > Class(y) || (Class(x) == Class(y) && Magnitude(x) > Magnitude(y))
  }

  predicate SameSize(a: Row, b: Row) {
    Class(SizeOf(a)) == Class(SizeOf(b)) && Magnitude(SizeOf(a)) == Magnitude(SizeOf(b))
  }

  /** `a` may stand before `b` in the ordering. */
  predicate InOrder(a: Row, b: Row) {
    Bigger(a, b) || (SameSize(a, b) && RowId(a) <= RowId(b))
  }

  predicate Descending(rows: seq<Row>) {
    forall i, j | 0 <= i < j < |rows| :: InOrder(rows[i], rows[j])
  }

  lemma InOrderTotal(a: Row, b: Row)
    ensures InOrder(a, b) || InOrder(b, a)
  {
  }

  lemma InOrderTransitive(a: Row, b: Row, c: Row)
    requires InOrder(a, b) && InOrder(b, c)
    ensures InOrder(a, c)
  {
  }

  /** Text sorts above every integer, an integer above NULL, and integers by value. */
  lemma SizeClasses(a: Row, b: Row)
    requires SizeColumn in a && SizeColumn in b
    ensures a[SizeColumn].Str? && (b[SizeColumn].Int? || b[SizeColumn].Null?) ==> Bigger(a, b)
    ensures a[SizeColumn].Int? && b[SizeColumn].Null? ==> Bigger(a, b)
    ensures a[SizeColumn].Int? && b[SizeColumn].Int? ==> (Bigger(a, b) <==> a[SizeColumn].i > b[SizeColumn].i)
    ensures a[SizeColumn] == b[SizeColumn] && RowId(a) != RowId(b) ==> (InOrder(a, b) <==> RowId(a) < RowId(b))
  {
  }

  /** A row that may stand before every row of a descending sequence may head it. */
  lemma ConsDescending(x: Row, rows: seq<Row>)
    requires Descending(rows) && forall j | 0 <= j < |rows| :: InOrder(x, rows[j])
    ensures Descending([x] + rows)
  {
    var r := [x] + rows;
    forall i, j | 0 <= i < j < |r| ensures InOrder(r[i], r[j]) {
      assert r[j] == rows[j - 1];
      if i > 0 {
        assert r[i] == rows[i - 1];
      }
    }
  }

  /** A row ordered before the head of a descending sequence goes in front. */
  lemma GoesFirst(x: Row, rows: seq<Row>)
    requires Descending(rows) && |rows| > 0 && InOrder(x, rows[0])
    ensures Descending([x] + rows)
  {
    forall j | 0 <= j < |rows| ensures InOrder(x, rows[j]) {
      if j > 0 { InOrderTransitive(x, rows[0], rows[j]); }
    }
    ConsDescending(x, rows);
  }

  /** A row not ordered before the head goes among the rest, and the head stays in front. */
  lemma HeadStays(x: Row, rows: seq<Row>, rest: seq<Row>)
    requires Descending(rows) && |rows| > 0 && !InOrder(x, rows[0])
    requires Descending(rest) && multiset(rest) == multiset(rows[1..]) + multiset{x}
    ensures Descending([rows[0]] + rest)
    ensures multiset([rows[0]] + rest) == multiset(rows) + multiset{x}
  {
    InOrderTotal(x, rows[0]);
    forall j | 0 <= j < |rest| ensures InOrder(rows[0], rest[j]) {
      assert rest[j] in multiset(rest);
      assert rest[j] == x || rest[j] in multiset(rows[1..]);
    }
    ConsDescending(rows[0], rest);
    assert rows == [rows[0]] + rows[1..];
  }

  function InsertSorted(x: Row, rows: seq<Row>): (r: seq<Row>)
    requires Descending(rows)
    ensures Descending(r)
    ensures multiset(r) == multiset(rows) + multiset{x}
  {
    if |rows| == 0 then [x]
    else if InOrder(x, rows[0]) then
      GoesFirst(x, rows);
      [x] + rows
    else
      var rest := InsertSorted(x, rows[1..]);
      HeadStays(x, rows, rest);
      [rows[0]] + rest
  }

  /** The rows, re-ordered by `ORDER BY size DESC` (ties by ascending id). */
  function SortBySize(rows: seq<Row>): (r: seq<Row>)
    ensures Descending(r)
    ensures multiset(r) == multiset(rows)
  {
    if |rows| == 0 then []
    else
      assert rows == [rows[0]] + rows[1..];
      InsertSorted(rows[0], SortBySize(rows[1..]))
  }

  // ---------------------------------------------------------------------------
  // find and get
  // ---------------------------------------------------------------------------

  /** All rows passing the filter, in scan order or by size descending. */
  function Ordered(t: Table, where: Filter, order: Order): (r: seq<Row>)
    ensures multiset(r) == multiset(RowsAt(t, MatchingKeys(t, where)))
    ensures order == SizeDesc ==> Descending(r)
    ensures order == Natural ==> r == RowsAt(t, MatchingKeys(t, where))
  {
    var scanned := RowsAt(t, MatchingKeys(t, where));
    if order == SizeDesc then SortBySize(scanned) else scanned
  }

  /** A strictly increasing key sequence covering a set lists each member once. */
  lemma {:induction false} IncreasingCovers(ks: seq<int>, keys: set<int>)
    requires Increasing(ks) && forall k :: k in ks <==> k in keys
    ensures |ks| == |keys|
    decreases |ks|
  {
    if |ks| > 0 {
      var rest := keys - {ks[0]};
      forall k ensures k in ks[1..] <==> k in rest {
        if k in ks[1..] {
          var j :| 0 <= j < |ks[1..]| && ks[1..][j] == k;
          assert ks[0] < ks[j + 1];
        }
        if k in rest {
          var j :| 0 <= j < |ks| && ks[j] == k;
          assert j != 0 && ks[1..][j - 1] == k;
        }
      }
      IncreasingCovers(ks[1..], rest);
    } else {
      assert forall k :: k !in keys;
      assert keys == {};
    }
  }

  /** Every row of a table once, in scan order. */
  function AllRows(t: Table): (r: seq<Row>)
    ensures |r| == |t.rows|
    ensures forall k | k in t.rows :: t.rows[k] in r
  {
    var ks := MatchingKeys(t, []);
    IncreasingCovers(ks, t.rows.Keys);
    var r := RowsAt(t, ks);
    assert forall k | k in t.rows :: k in ks;
    forall k | k in t.rows ensures t.rows[k] in r {
      var j :| 0 <= j < |ks| && ks[j] == k;
      assert r[j] == t.rows[k];
    }
    r
  }

  /** The `LIMIT n` clause. */
  function Limit(rows: seq<Row>, limit: Option<nat>): (r: seq<Row>)
    ensures limit.None? ==> r == rows
    ensures limit.Some? ==> |r| == (if limit.value < |rows| then limit.value else |rows|)
    ensures r == rows[..|r|]
  {
    if limit.Some? && limit.value < |rows| then rows[..limit.value] else rows
  }

  /**
   * `find`: the rows matching the equality filter, optionally ordered by size
   * descending and limited.  A missing table or an unknown column is an error.
   */
  function Find(s: Tables, name: string, where: Filter, order: Order, limit: Option<nat>)
    : (r: Result<seq<Row>, StoreError>)
    ensures name !in s ==> r == Failure(NoSuchTable(name))
    ensures name in s ==> (r.Failure? <==> !KnownColumns(s[name].schema, where)
                                           || (order == SizeDesc && SizeColumn !in s[name].schema))
    ensures r.Success? ==> forall i | 0 <= i < |r.value| ::
      r.value[i] in s[name].rows.Values && Matches(r.value[i], where)
    ensures r.Success? && limit.None? ==> forall k | k in s[name].rows && Matches(s[name].rows[k], where) ::
      s[name].rows[k] in r.value
    ensures r.Success? && limit.Some? ==> |r.value| <= limit.value
    ensures r.Success? && order == SizeDesc ==> Descending(r.value)
  {
    if name !in s then Failure(NoSuchTable(name))
    else
      var t := s[name];
      if !KnownColumns(t.schema, where) || (order == SizeDesc && SizeColumn !in t.schema) then
        Failure(NoSuchColumn)
      else
        LimitedRows(t, where, order, limit);
        Success(Limit(Ordered(t, where, order), limit))
  }

  /**
   * Without LIMIT, `find` returns each matching row exactly once: a
   * permutation of the selected rows, in scan order unless ordered by size.
   */
  lemma FindExactly(s: Tables, name: string, where: Filter, order: Order)
    ensures var r := Find(s, name, where, order, None);
      r.Success? ==>
        && multiset(r.value) == multiset(RowsAt(s[name], MatchingKeys(s[name], where)))
        && (order == Natural ==> r.value == RowsAt(s[name], MatchingKeys(s[name], where)))
  {
  }

  /** With the empty filter that is every row of the table once. */
  lemma FindEverything(s: Tables, name: string, order: Order)
    ensures var r := Find(s, name, [], order, None);
      r.Success? ==> multiset(r.value) == multiset(AllRows(s[name])) && |r.value| == |s[name].rows|
  {
    FindExactly(s, name, [], order);
    var r := Find(s, name, [], order, None);
    if r.Success? {
      assert |r.value| == |multiset(r.value)| == |multiset(AllRows(s[name]))| == |AllRows(s[name])|;
    }
  }

  /** `LIMIT n` keeps the first n rows of the unlimited answer, or all of them when there are fewer. */
  lemma FindLimited(s: Tables, name: string, where: Filter, order: Order, n: nat)
    ensures Find(s, name, where, order, Some(n)).Success? <==> Find(s, name, where, order, None).Success?
    ensures Find(s, name, where, order, None).Success? ==>
      var all := Find(s, name, where, order, None).value;
      Find(s, name, where, order, Some(n)).value == all[..if n < |all| then n else |all|]
  {
  }

  lemma LimitedRows(t: Table, where: Filter, order: Order, limit: Option<nat>)
    ensures var r := Limit(Ordered(t, where, order), limit);
      && (forall i | 0 <= i < |r| :: r[i] in t.rows.Values && Matches(r[i], where))
      && (limit.None? ==> forall k | k in t.rows && Matches(t.rows[k], where) :: t.rows[k] in r)
      && (limit.Some? ==> |r| <= limit.value)
      && (order == SizeDesc ==> Descending(r))
  {
    var all := Ordered(t, where, order);
    var r := Limit(all, limit);
    OrderedRowsMatch(t, where, order);
    OrderedRowsComplete(t, where, order);
    forall i | 0 <= i < |r| ensures r[i] in t.rows.Values && Matches(r[i], where) {
      assert r[i] == all[i];
    }
    assert order == SizeDesc ==> Descending(r) by {
      if order == SizeDesc {
        forall i, j | 0 <= i < j < |r| ensures InOrder(r[i], r[j]) {
          assert r[i] == all[i] && r[j] == all[j];
        }
      }
    }
  }

  lemma OrderedRowsMatch(t: Table, where: Filter, order: Order)
    ensures forall i | 0 <= i < |Ordered(t, where, order)| ::
      Ordered(t, where, order)[i] in t.rows.Values && Matches(Ordered(t, where, order)[i], where)
  {
    var ks := MatchingKeys(t, where);
    var all := Ordered(t, where, order);
    forall i | 0 <= i < |all| ensures all[i] in t.rows.Values && Matches(all[i], where) {
      assert all[i] in multiset(RowsAt(t, ks));
      var j :| 0 <= j < |ks| && RowsAt(t, ks)[j] == all[i];
      assert ks[j] in ks;
    }
  }

  lemma OrderedRowsComplete(t: Table, where: Filter, order: Order)
    ensures forall k | k in t.rows && Matches(t.rows[k], where) :: t.rows[k] in Ordered(t, where, order)
  {
    var ks := MatchingKeys(t, where);
    forall k | k in t.rows && Matches(t.rows[k], where) ensures t.rows[k] in Ordered(t, where, order) {
      var j :| 0 <= j < |ks| && ks[j] == k;
      assert RowsAt(t, ks)[j] == t.rows[k];
      assert t.rows[k] in multiset(RowsAt(t, ks));
    }
  }

  /** `get`: the first row `find` would return, or None. */
  function Get(s: Tables, name: string, where: Filter): (r: Result<Option<Row>, StoreError>)
    ensures r.Failure? <==> name !in s || !KnownColumns(s[name].schema, where)
    ensures r.Failure? ==> r.error == if name !in s then NoSuchTable(name) else NoSuchColumn
    ensures r.Success? ==> (r.value.None? <==> forall k | k in s[name].rows :: !Matches(s[name].rows[k], where))
    ensures r.Success? && r.value.Some? ==>
      exists k | k in s[name].rows :: r.value.value == s[name].rows[k] && Matches(s[name].rows[k], where)
        && forall j | j in s[name].rows && Matches(s[name].rows[j], where) :: k <= j
  {
    if name !in s then Failure(NoSuchTable(name))
    else if !KnownColumns(s[name].schema, where) then Failure(NoSuchColumn)
    else
      var t := s[name];
      var ks := MatchingKeys(t, where);
      if |ks| == 0 then
        NoKeysNoMatch(t, where);
        Success(None)
      else
        FirstKeyLeast(t, where);
        Success(Some(t.rows[ks[0]]))
  }

  lemma NoKeysNoMatch(t: Table, where: Filter)
    requires |MatchingKeys(t, where)| == 0
    ensures forall k | k in t.rows :: !Matches(t.rows[k], where)
  {
    forall k | k in t.rows ensures !Matches(t.rows[k], where) {
      assert k !in MatchingKeys(t, where);
    }
  }

  /** The first matching key is the least one. */
  lemma FirstKeyLeast(t: Table, where: Filter)
    requires |MatchingKeys(t, where)| > 0
    ensures var k := MatchingKeys(t, where)[0];
      && k in t.rows && Matches(t.rows[k], where)
      && forall j | j in t.rows && Matches(t.rows[j], where) :: k <= j
  {
    var ks := MatchingKeys(t, where);
    assert ks[0] in ks;
    forall j | j in t.rows && Matches(t.rows[j], where) ensures ks[0] <= j {
      var i :| 0 <= i < |ks| && ks[i] == j;
    }
  }

  /** `get` runs the query of `find` and keeps its first row, or None when there is none. */
  lemma GetFirstFound(s: Tables, name: string, where: Filter)
    ensures Get(s, name, where) ==
      match Find(s, name, where, Natural, None)
      case Failure(e) => Failure(e)
      case Success(rows) => if |rows| == 0 then Success(None) else Success(Some(rows[0]))
  {
    if name in s && KnownColumns(s[name].schema, where) {
      var t := s[name];
      assert Find(s, name, where, Natural, None).value == RowsAt(t, MatchingKeys(t, where));
    }
  }

  // ---------------------------------------------------------------------------
  // create_table: CREATE TABLE IF NOT EXISTS
  // ---------------------------------------------------------------------------

  function CreateTable(s: Tables, name: string, schema: Schema): (r: Effect)
    ensures |schema| == 0 ==> r == Effect(s, Failed(SyntaxError))
    ensures |schema| > 0 ==> r.status == Done && name in r.after && r.after.Keys == s.Keys + {name}
    ensures name in s ==> r.after == s
    ensures |schema| > 0 && name !in s ==> r.after[name] == Table(schema, map[])
    ensures forall n | n in s :: n in r.after && r.after[n] == s[n]
    ensures WellFormed(s) ==> WellFormed(r.after)
  {
    if |schema| == 0 then Effect(s, Failed(SyntaxError))
    else if name in s then Effect(s, Done)
    else Effect(s[name := Table(schema, map[])], Done)
  }

  /** Creating a table twice is the same as creating it once, whatever schema the second call gives. */
  lemma CreateTableIdempotent(s: Tables, name: string, schema: Schema, again: Schema)
    requires |schema| > 0
    ensures CreateTable(CreateTable(s, name, schema).after, name, again).after == CreateTable(s, name, schema).after
  {
  }

  // ---------------------------------------------------------------------------
  // insert.  A duplicate rowid raises IntegrityError, which `insert` swallows.
  // ---------------------------------------------------------------------------

  /** SQLite's rowid for an INSERT that names none: one more than the largest in use, or 1. */
  function NextRowid(keys: set<int>): (k: int)
    ensures forall x | x in keys :: x < k
    ensures keys == {} ==> k == 1
    ensures keys != {} ==> k - 1 in keys
  {
    if keys == {} then 1 else Greatest(keys) + 1
  }

  /**
   * The rowid an INSERT writes: the integer `id` given, the next rowid when
   * `id` is absent or NULL, or None when the value is rejected as a datatype
   * mismatch (an IntegrityError).
   */
  function InsertKey(t: Table, data: Row): (r: Option<int>)
    ensures IdColumn in data && data[IdColumn].Int? ==> r == Some(data[IdColumn].i)
    ensures IdColumn !in data || data[IdColumn] == Null ==> r.Some? && r.value !in t.rows
    ensures r.None? <==> IdColumn in data && data[IdColumn] != Null && !data[IdColumn].Int?
  {
    if IdColumn in data && data[IdColumn] != Null then
      (if data[IdColumn].Int? then Some(data[IdColumn].i) else None)
    else Some(NextRowid(t.rows.Keys))
  }

  /** The inserted row: the given values, the key as `id`, and the defaults elsewhere. */
  function NewRow(schema: Schema, data: Row, k: int): (row: Row)
    ensures row.Keys == schema.Keys
    ensures IdColumn in schema ==> row[IdColumn] == Int(k)
    ensures forall c | c in schema && c != IdColumn :: row[c] == if c in data then data[c] else schema[c]
  {
    map c | c in schema :: if c == IdColumn then Int(k) else if c in data then data[c] else schema[c]
  }

  function Insert(s: Tables, name: string, data: Row): (r: Effect)
    ensures r.status.Done? <==> |data| > 0 && name in s && data.Keys <= s[name].schema.Keys
    ensures r.status.Failed? ==> (r.after == s && r.status.error ==
      (if |data| == 0 then SyntaxError else if name !in s then NoSuchTable(name) else NoSuchColumn))
    ensures r.after.Keys == s.Keys && forall n | n in s && n != name :: r.after[n] == s[n]
    ensures name in s ==> r.after[name].schema == s[name].schema
    // first write wins: a row that exists is never altered
    ensures name in s ==> forall k | k in s[name].rows ::
      k in r.after[name].rows && r.after[name].rows[k] == s[name].rows[k]
    // a new row can only appear under the insert's own key, holding the given values and the defaults
    ensures name in s ==> forall k | k in r.after[name].rows && k !in s[name].rows ::
      && InsertKey(s[name], data) == Some(k)
      && r.after[name].rows.Keys == s[name].rows.Keys + {k}
      && r.after[name].rows[k] == NewRow(s[name].schema, data, k)
    // a row is present afterwards under the insert's own key, new or old
    ensures name in s && r.status.Done? && InsertKey(s[name], data).Some? ==>
      InsertKey(s[name], data).value in r.after[name].rows
    ensures r.status.Done? && IdColumn in data && data[IdColumn].Int? ==> data[IdColumn].i in r.after[name].rows
    ensures WellFormed(s) ==> WellFormed(r.after)
  {
    if |data| == 0 then Effect(s, Failed(SyntaxError))
    else if name !in s then Effect(s, Failed(NoSuchTable(name)))
    else
      var t := s[name];
      if !(data.Keys <= t.schema.Keys) then Effect(s, Failed(NoSuchColumn))
      else
        match InsertKey(t, data)
        case None => Effect(s, Done)
        case Some(k) =>
          if k in t.rows then Effect(s, Done)
          else Effect(s[name := t.(rows := t.rows[k := NewRow(t.schema, data, k)])], Done)
  }

  /** Inserting a row whose integer id is new to the table adds exactly that row, with the defaults filled in. */
  lemma InsertNewId(s: Tables, name: string, data: Row, k: int)
    requires name in s && |data| > 0 && data.Keys <= s[name].schema.Keys
    requires IdColumn in data && data[IdColumn] == Int(k) && k !in s[name].rows
    ensures Insert(s, name, data) ==
      Effect(s[name := s[name].(rows := s[name].rows[k := NewRow(s[name].schema, data, k)])], Done)
  {
  }

  /** With an explicit integer id, inserting the same row twice leaves what inserting it once left. */
  lemma InsertTwice(s: Tables, name: string, data: Row)
    requires IdColumn in data && data[IdColumn].Int?
    ensures Insert(Insert(s, name, data).after, name, data) == Insert(s, name, data)
  {
    var once := Insert(s, name, data);
    if once.status.Done? {
      var k := data[IdColumn].i;
      assert InsertKey(s[name], data) == Some(k);
      assert k in once.after[name].rows;
    }
  }

  // ---------------------------------------------------------------------------
  // update: UPDATE .. SET named columns WHERE filter
  // ---------------------------------------------------------------------------

  function Hits(t: Table, where: Filter): (h: set<int>)
    ensures forall k :: k in h <==> k in t.rows && Matches(t.rows[k], where)
  {
    set k | k in t.rows && Matches(t.rows[k], where)
  }

  /** What writing the `id` column does to the rowids of the matching rows. */
  datatype KeyWrite = KeepKeys | MoveKey(from: int, to: int) | KeyConflict

  /**
   * Writing a non-integer `id`, the same `id` to two rows, or an `id` that
   * another row holds fails a constraint; writing a row's own `id` keeps it.
   */
  function KeyChange(t: Table, hits: set<int>, data: Row): KeyWrite {
    if IdColumn !in data || hits == {} then KeepKeys
    else if !data[IdColumn].Int? || hits != {Least(hits)} then KeyConflict
    else
      var k := Least(hits);
      var k' := data[IdColumn].i;
      if k' == k then KeepKeys else if k' in t.rows then KeyConflict else MoveKey(k, k')
  }

  function Patch(rows: map<int, Row>, hits: set<int>, data: Row): (r: map<int, Row>)
    ensures r.Keys == rows.Keys
  {
    map k | k in rows :: if k in hits then rows[k] + data else rows[k]
  }

  function Update(s: Tables, name: string, data: Row, where: Filter): (r: Effect)
    ensures r.status.Failed? ==> r.after == s
    ensures r.status.Done? ==>
      |data| > 0 && name in s && data.Keys <= s[name].schema.Keys && KnownColumns(s[name].schema, where)
    ensures (|data| > 0 && name in s && data.Keys <= s[name].schema.Keys && KnownColumns(s[name].schema, where)
             && IdColumn !in data) ==> r.status.Done?
    ensures r.after.Keys == s.Keys && forall n | n in s && n != name :: r.after[n] == s[n]
    ensures name in s ==> r.after[name].schema == s[name].schema
    // rows the filter does not select are left as they were
    ensures name in s ==> forall k | k in s[name].rows && !Matches(s[name].rows[k], where) ::
      k in r.after[name].rows && r.after[name].rows[k] == s[name].rows[k]
    ensures WellFormed(s) ==> WellFormed(r.after)
  {
    if |data| == 0 then Effect(s, Failed(SyntaxError))
    else if name !in s then Effect(s, Failed(NoSuchTable(name)))
    else
      var t := s[name];
      if !(data.Keys <= t.schema.Keys) || !KnownColumns(t.schema, where) then Effect(s, Failed(NoSuchColumn))
      else
        var hits := Hits(t, where);
        match KeyChange(t, hits, data)
        case KeyConflict => Effect(s, Failed(ConstraintFailed))
        case KeepKeys =>
          Effect(s[name := t.(rows := Patch(t.rows, hits, data))], Done)
        case MoveKey(k, k') =>
          Effect(s[name := t.(rows := (t.rows - {k})[k' := t.rows[k] + data])], Done)
  }

  /**
   * When the write keeps every row's `id`, `update` changes exactly the named
   * columns of the matching rows and nothing else.
   */
  lemma UpdateOnlyNamedColumns(s: Tables, name: string, data: Row, where: Filter)
    requires name in s
    requires Update(s, name, data, where).status.Done?
    requires IdColumn in data ==> forall k | k in s[name].rows && Matches(s[name].rows[k], where) ::
      data[IdColumn] == Int(k)
    ensures var after := Update(s, name, data, where).after[name].rows;
      && after.Keys == s[name].rows.Keys
      && forall k | k in s[name].rows ::
        && (Matches(s[name].rows[k], where) ==>
              && (forall c | c in data :: after[k][c] == data[c])
              && (forall c | c in s[name].rows[k] && c !in data :: after[k][c] == s[name].rows[k][c]))
        && (!Matches(s[name].rows[k], where) ==> after[k] == s[name].rows[k])
  {
    var t := s[name];
    var hits := Hits(t, where);
    if IdColumn in data && hits != {} {
      var k := Least(hits);
      assert data[IdColumn] == Int(k);
      forall j | j in hits ensures j == k { assert data[IdColumn] == Int(j); }
      assert hits == {k};
      assert KeyChange(t, hits, data) == KeepKeys;
    }
  }

  // ---------------------------------------------------------------------------
  // delete
  // ---------------------------------------------------------------------------

  function Delete(s: Tables, name: string, where: Filter): (r: Effect)
    ensures r.status.Failed? <==> name !in s || !KnownColumns(s[name].schema, where)
    ensures r.status.Failed? ==> r.after == s
    ensures r.after.Keys == s.Keys && forall n | n in s && n != name :: r.after[n] == s[n]
    ensures name in s ==> r.after[name].schema == s[name].schema
    // exactly the matching rows go; the others stay as they were
    ensures r.status.Done? ==> forall k | k in s[name].rows ::
      (k in r.after[name].rows <==> !Matches(s[name].rows[k], where))
    ensures r.status.Done? ==> forall k | k in r.after[name].rows ::
      k in s[name].rows && r.after[name].rows[k] == s[name].rows[k]
    ensures WellFormed(s) ==> WellFormed(r.after)
  {
    if name !in s then Effect(s, Failed(NoSuchTable(name)))
    else if !KnownColumns(s[name].schema, where) then Effect(s, Failed(NoSuchColumn))
    else
      var t := s[name];
      Effect(s[name := t.(rows := map k | k in t.rows && !Matches(t.rows[k], where) :: t.rows[k])], Done)
  }

  /** In a well-formed table keyed by `id`, the filter `{"id": k}` finds exactly the row with key k. */
  lemma GetById(s: Tables, name: string, k: int)
    requires WellFormed(s) && name in s && IdColumn in s[name].schema
    ensures Get(s, name, IdIs(k)) == Success(if k in s[name].rows then Some(s[name].rows[k]) else None)
  {
    var t := s[name];
    assert TableOk(t);
    forall j | j in t.rows ensures Matches(t.rows[j], IdIs(k)) <==> j == k {
      MatchesId(t.rows[j], k);
    }
    var r := Get(s, name, IdIs(k));
    if k in t.rows {
      assert Matches(t.rows[k], IdIs(k));
      var j :| j in t.rows && r.value.value == t.rows[j] && Matches(t.rows[j], IdIs(k))
        && forall i | i in t.rows && Matches(t.rows[i], IdIs(k)) :: j <= i;
    }
  }

  /** `get` reads only the table it names. */
  lemma GetLocal(s: Tables, s': Tables, name: string, where: Filter)
    requires name in s <==> name in s'
    requires name in s ==> s[name] == s'[name]
    ensures Get(s, name, where) == Get(s', name, where)
  {
    if name in s {
      assert Find(s, name, where, Natural, None) == Find(s', name, where, Natural, None);
    }
  }
}
