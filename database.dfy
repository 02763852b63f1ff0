/**
 * Class `DataBase` of src.py (lines 16-90): the object through which the
 * bot reads and writes its SQLite file.  Its state is the abstract store of
 * module Store; each method runs one statement and reports an escaping
 * SQLite error as a `Failed` status or a `Failure` result.
 */
module Database {
  import opened Wrappers
  import opened Store

  class DataBase {
    var tables: Tables

    ghost predicate Valid()
      reads this
    {
      WellFormed(tables)
    }

    /** A freshly opened, empty database file. */
    constructor ()
      ensures Valid() && tables == map[]
    {
      tables := map[];
    }

    method CreateTable(name: string, schema: Schema) returns (status: Status)
      requires Valid()
      modifies this
      ensures Valid()
      ensures Effect(tables, status) == Store.CreateTable(old(tables), name, schema)
    {
      var e := Store.CreateTable(tables, name, schema);
      tables, status := e.after, e.status;
    }

    method Insert(name: string, data: Row) returns (status: Status)
      requires Valid()
      modifies this
      ensures Valid()
      ensures Effect(tables, status) == Store.Insert(old(tables), name, data)
    {
      var e := Store.Insert(tables, name, data);
      tables, status := e.after, e.status;
    }

    method Update(name: string, data: Row, where: Filter) returns (status: Status)
      requires Valid()
      modifies this
      ensures Valid()
      ensures Effect(tables, status) == Store.Update(old(tables), name, data, where)
    {
      var e := Store.Update(tables, name, data, where);
      tables, status := e.after, e.status;
    }

    method Delete(name: string, where: Filter) returns (status: Status)
      requires Valid()
      modifies this
      ensures Valid()
      ensures Effect(tables, status) == Store.Delete(old(tables), name, where)
    {
      var e := Store.Delete(tables, name, where);
      tables, status := e.after, e.status;
    }

    method Find(name: string, where: Filter, order: Order, limit: Option<nat>)
      returns (r: Result<seq<Row>, StoreError>)
      ensures r == Store.Find(tables, name, where, order, limit)
    {
      r := Store.Find(tables, name, where, order, limit);
    }

    /** `get`: runs the same query as `find` and keeps the first row. */
    method Get(name: string, where: Filter) returns (r: Result<Option<Row>, StoreError>)
      ensures r == Store.Get(tables, name, where)
    {
      var rows := Find(name, where, Natural, None);
      GetFirstFound(tables, name, where);
      if rows.Failure? {
        r := Failure(rows.error);
      } else if |rows.value| == 0 {
        r := Success(None);
      } else {
        r := Success(Some(rows.value[0]));
      }
    }
  }
}
