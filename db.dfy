/**
 * The SQLite database file behind `initDB`: whether the `employees` table has been
 * created, its rows in rowid order, and the AUTOINCREMENT counter (the value SQLite
 * keeps in `sqlite_sequence`: the largest id ever handed out). `issued` is the ghost
 * record of every id ever handed out, so that "ids are never reused" can be stated.
 */
module Db {
  import opened Wrappers
  import opened Table

  /** What `db.run` reports for one statement. */
  datatype RunResult = Done | NotNullViolated | TableFull

  class Database {
    var tableExists: bool
    var rows: seq<Employee>
    var lastId: int
    ghost var issued: set<int>

    /**
     * The schema's guarantees: ids stay in rowid order (hence are unique, being the
     * primary key), every present id was issued, and every issued id lies between
     * 1 and the counter, which fits a 64-bit rowid.
     */
    ghost predicate Valid()
      reads this
    {
      && 0 <= lastId <= MaxRowId
      && IdsAscending(rows)
      && Ids(rows) <= issued
      && (forall k | k in issued :: 1 <= k <= lastId)
      && (!tableExists ==> rows == [] && lastId == 0 && issued == {})
    }

    /** A database file in which the table has not been created yet. */
    constructor ()
      ensures Valid() && !tableExists
      ensures rows == [] && lastId == 0 && issued == {}
    {
      tableExists, rows, lastId := false, [], 0;
      issued := {};
    }

    /**
     * `initDB`: `CREATE TABLE IF NOT EXISTS employees (...)`. On a store that already
     * has the table this changes nothing, so it is safe to run before every request.
     */
    method InitDB()
      requires Valid()
      modifies this
      ensures Valid() && tableExists
      ensures rows == old(rows) && lastId == old(lastId) && issued == old(issued)
      ensures old(tableExists) ==> unchanged(this)
      ensures !old(tableExists) ==> rows == [] && lastId == 0
    {
      if !tableExists {
        tableExists := true;
      }
    }

    /** `SELECT * FROM employees`: every row, as stored, in rowid order. */
    method SelectAll() returns (r: seq<Employee>)
      requires Valid() && tableExists
      ensures r == rows
      ensures forall i, j | 0 <= i < j < |r| :: r[i].id < r[j].id
    {
      r := rows;
    }

    /**
     * `INSERT INTO employees (name, email, department, salary) VALUES (?, ?, ?, ?)`.
     * AUTOINCREMENT gives the new row the id one above the largest ever issued, and
     * fails with SQLITE_FULL once that would exceed the largest rowid. A NULL value
     * breaks a NOT NULL constraint. A failed statement changes nothing. `id` is the
     * driver's `lastID`, which the route does not pass on.
     */
    method Insert(b: Body) returns (res: RunResult, id: int)
      requires Valid() && tableExists
      modifies this
      ensures Valid() && tableExists
      ensures res == if old(lastId) == MaxRowId then TableFull
                     else if !Complete(b) then NotNullViolated
                     else Done
      ensures res.Done? ==>
        && id == old(lastId) + 1
        && id !in old(issued) && (forall k | k in old(issued) :: k < id)
        && rows == InsertRow(old(rows), id, b)
        && lastId == id && issued == old(issued) + {id}
        && Ids(rows) == Ids(old(rows)) + {id}
      ensures !res.Done? ==> unchanged(this)
    {
      if lastId == MaxRowId {
        res, id := TableFull, lastId;
      } else if !Complete(b) {
        res, id := NotNullViolated, lastId;
      } else {
        id := lastId + 1;
        assert forall k | k in Ids(rows) :: k < id;
        InsertKeepsAscending(rows, id, b);
        rows := InsertRow(rows, id, b);
        lastId := id;
        issued := issued + {id};
        res := Done;
      }
    }

    /**
     * `UPDATE employees SET name = ?, email = ?, department = ?, salary = ? WHERE id = ?`.
     * The NOT NULL constraints are checked only on rows the statement writes, so a body
     * with a NULL fails against a present id and succeeds, writing nothing, against a
     * missing one.
     */
    method Update(id: int, b: Body) returns (res: RunResult)
      requires Valid() && tableExists
      modifies this
      ensures Valid() && tableExists
      ensures lastId == old(lastId) && issued == old(issued)
      ensures res == if id in Ids(old(rows)) && !Complete(b) then NotNullViolated else Done
      ensures rows == if id in Ids(old(rows)) && Complete(b) then UpdateWhere(old(rows), id, b) else old(rows)
      ensures Ids(rows) == Ids(old(rows))
    {
      if id in Ids(rows) {
        if Complete(b) {
          UpdateKeepsIds(rows, id, b);
          rows := UpdateWhere(rows, id, b);
          res := Done;
        } else {
          res := NotNullViolated;
        }
      } else {
        res := Done;
      }
    }

    /** `DELETE FROM employees WHERE id = ?`: never fails; a missing id deletes nothing. */
    method Delete(id: int) returns (res: RunResult)
      requires Valid() && tableExists
      modifies this
      ensures Valid() && tableExists
      ensures res == Done
      ensures rows == DeleteWhere(old(rows), id)
      ensures lastId == old(lastId) && issued == old(issued)
      ensures Ids(rows) == Ids(old(rows)) - {id}
      ensures id !in Ids(old(rows)) ==> rows == old(rows)
      ensures id in Ids(old(rows)) ==> |rows| == |old(rows)| - 1
    {
      DeleteKeepsAscending(rows, id);
      DeleteIds(rows, id);
      if id in Ids(rows) {
        DeletePresentRemovesOne(rows, id);
      } else {
        DeleteMissingIsNoop(rows, id);
      }
      rows := DeleteWhere(rows, id);
      res := Done;
    }
  }
}
