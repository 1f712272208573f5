/**
 * The `employees` table of the SQLite store and the meaning of the three SQL
 * statements the routes run against it (INSERT, UPDATE ... WHERE id = ?,
 * DELETE ... WHERE id = ?), stated on the sequence of rows in rowid order.
 * SQL gives `SELECT *` without `ORDER BY` no order; the model takes SQLite's
 * full-table scan, which visits rows in rowid order.
 */
module Table {
  import opened Wrappers

  /** The largest value an `INTEGER PRIMARY KEY` (a 64-bit signed rowid) can hold. */
  const MaxRowId: int := 0x7FFF_FFFF_FFFF_FFFF

  /** One row: the integer primary key and the four NOT NULL columns. */
  datatype Employee = Employee(id: int, name: string, email: string, department: string, salary: real)

  /**
   * The four values a request body supplies. A field missing from the JSON body is
   * bound as SQL NULL, which the column's NOT NULL constraint refuses.
   */
  datatype Body = Body(name: Option<string>, email: Option<string>, department: Option<string>, salary: Option<real>)

  /** The body satisfies all four NOT NULL constraints. */
  predicate Complete(b: Body) {
    b.name.Some? && b.email.Some? && b.department.Some? && b.salary.Some?
  }

  /** The row with id `id` holding the body's values. */
  function Record(id: int, b: Body): (e: Employee)
    requires Complete(b)
    ensures e.id == id
    ensures Some(e.name) == b.name && Some(e.email) == b.email
    ensures Some(e.department) == b.department && Some(e.salary) == b.salary
  {
    Employee(id, b.name.value, b.email.value, b.department.value, b.salary.value)
  }

  /** The set of ids present in the table. */
  function Ids(rows: seq<Employee>): set<int> {
    set e | e in rows :: e.id
  }

  /** Rowid order: ids strictly increase along the table, so in particular no two rows share one. */
  ghost predicate IdsAscending(rows: seq<Employee>) {
    forall i, j | 0 <= i < j < |rows| :: rows[i].id < rows[j].id
  }

  /** `INSERT INTO employees (name, email, department, salary) VALUES (?, ?, ?, ?)` under the id `id`. */
  function InsertRow(rows: seq<Employee>, id: int, b: Body): (r: seq<Employee>)
    requires Complete(b)
    ensures |r| == |rows| + 1
    ensures r[..|rows|] == rows && r[|rows|] == Record(id, b)
    ensures forall e :: e in r <==> e in rows || e == Record(id, b)
  {
    rows + [Record(id, b)]
  }

  /** `UPDATE employees SET name = ?, email = ?, department = ?, salary = ? WHERE id = ?` */
  function UpdateWhere(rows: seq<Employee>, id: int, b: Body): (r: seq<Employee>)
    requires Complete(b)
    ensures |r| == |rows|
    ensures forall i | 0 <= i < |rows| :: r[i] == if rows[i].id == id then Record(id, b) else rows[i]
  {
    if rows == [] then []
    else [if rows[0].id == id then Record(id, b) else rows[0]] + UpdateWhere(rows[1..], id, b)
  }

  /** `DELETE FROM employees WHERE id = ?` */
  function DeleteWhere(rows: seq<Employee>, id: int): (r: seq<Employee>)
    ensures forall e :: e in r <==> e in rows && e.id != id
    ensures |r| <= |rows|
  {
    if rows == [] then []
    else if rows[0].id == id then DeleteWhere(rows[1..], id)
    else [rows[0]] + DeleteWhere(rows[1..], id)
  }

  /** UPDATE changes no id: the ids along the table are the same before and after. */
  lemma UpdateKeepsIds(rows: seq<Employee>, id: int, b: Body)
    requires Complete(b)
    ensures var r := UpdateWhere(rows, id, b);
      (forall i | 0 <= i < |r| :: r[i].id == rows[i].id) && Ids(r) == Ids(rows)
  {
    var r := UpdateWhere(rows, id, b);
    forall k | k in Ids(rows) ensures k in Ids(r) {
      var i :| 0 <= i < |rows| && rows[i].id == k;
      assert r[i].id == k;
    }
    forall k | k in Ids(r) ensures k in Ids(rows) {
      var i :| 0 <= i < |r| && r[i].id == k;
      assert rows[i].id == k;
    }
  }

  /** UPDATE on an id that no row has leaves the table identical. */
  lemma UpdateMissingIsNoop(rows: seq<Employee>, id: int, b: Body)
    requires Complete(b) && id !in Ids(rows)
    ensures UpdateWhere(rows, id, b) == rows
  {
    var r := UpdateWhere(rows, id, b);
    forall i | 0 <= i < |rows| ensures r[i] == rows[i] {
      assert rows[i] in rows;
    }
  }

  /**
   * Reading a row back and writing the same values with UPDATE changes nothing:
   * there is no silent mutation of the stored fields.
   */
  lemma UpdateWithOwnValuesIsNoop(rows: seq<Employee>, i: int, b: Body)
    requires IdsAscending(rows) && 0 <= i < |rows|
    requires b == Body(Some(rows[i].name), Some(rows[i].email), Some(rows[i].department), Some(rows[i].salary))
    ensures UpdateWhere(rows, rows[i].id, b) == rows
  {
    var r := UpdateWhere(rows, rows[i].id, b);
    forall j | 0 <= j < |rows| ensures r[j] == rows[j] {
      if rows[j].id == rows[i].id {
        assert !(j < i) && !(i < j);
      }
    }
  }

  /** INSERT of a row whose id exceeds every present id keeps the rowid order. */
  lemma InsertKeepsAscending(rows: seq<Employee>, id: int, b: Body)
    requires Complete(b) && IdsAscending(rows)
    requires forall k | k in Ids(rows) :: k < id
    ensures IdsAscending(InsertRow(rows, id, b))
    ensures Ids(InsertRow(rows, id, b)) == Ids(rows) + {id}
  {
    var r := InsertRow(rows, id, b);
    forall i, j | 0 <= i < j < |r| ensures r[i].id < r[j].id {
      if j == |rows| {
        assert rows[i] in rows;
        assert rows[i].id in Ids(rows);
      }
    }
    forall k | k in Ids(r) ensures k in Ids(rows) + {id} {
      var e :| e in r && e.id == k;
      if e != Record(id, b) { assert e in rows; }
    }
    assert Record(id, b) in r;
    forall k | k in Ids(rows) ensures k in Ids(r) {
      var e :| e in rows && e.id == k;
      assert e in r;
    }
  }

  /** DELETE of an id that no row has leaves the table identical (a successful no-op). */
  lemma {:induction false} DeleteMissingIsNoop(rows: seq<Employee>, id: int)
    requires id !in Ids(rows)
    ensures DeleteWhere(rows, id) == rows
  {
    if rows != [] {
      assert rows[0] in rows;
      assert Ids(rows[1..]) <= Ids(rows) by {
        forall k | k in Ids(rows[1..]) ensures k in Ids(rows) {
          var e :| e in rows[1..] && e.id == k;
          assert e in rows;
        }
      }
      DeleteMissingIsNoop(rows[1..], id);
      assert rows == [rows[0]] + rows[1..];
    }
  }

  /** Deleting twice gives the same table as deleting once. */
  lemma DeleteIdempotent(rows: seq<Employee>, id: int)
    ensures DeleteWhere(DeleteWhere(rows, id), id) == DeleteWhere(rows, id)
  {
    var r := DeleteWhere(rows, id);
    assert id !in Ids(r);
    DeleteMissingIsNoop(r, id);
  }

  /** DELETE removes exactly the id it names from the set of ids and changes no other id. */
  lemma DeleteIds(rows: seq<Employee>, id: int)
    ensures Ids(DeleteWhere(rows, id)) == Ids(rows) - {id}
  {
    var r := DeleteWhere(rows, id);
    forall k | k in Ids(rows) - {id} ensures k in Ids(r) {
      var e :| e in rows && e.id == k;
      assert e in r;
    }
  }

  /** In rowid order, every row after the first has a larger id than the first. */
  lemma HeadBelowTail(rows: seq<Employee>)
    requires IdsAscending(rows) && rows != []
    ensures forall e | e in rows[1..] :: rows[0].id < e.id
  {
    forall e | e in rows[1..] ensures rows[0].id < e.id {
      var k :| 0 <= k < |rows[1..]| && rows[1..][k] == e;
      assert rows[k + 1] == e;
    }
  }

  /** A row below every id of an ascending table can go in front of it. */
  lemma ConsAscending(x: Employee, rest: seq<Employee>)
    requires IdsAscending(rest)
    requires forall e | e in rest :: x.id < e.id
    ensures IdsAscending([x] + rest)
  {
    var r := [x] + rest;
    forall i, j | 0 <= i < j < |r| ensures r[i].id < r[j].id {
      assert r[j] == rest[j - 1];
      if i == 0 {
        assert rest[j - 1] in rest;
      } else {
        assert r[i] == rest[i - 1];
      }
    }
  }

  /** DELETE keeps the surviving rows in rowid order. */
  lemma {:induction false} DeleteKeepsAscending(rows: seq<Employee>, id: int)
    requires IdsAscending(rows)
    ensures IdsAscending(DeleteWhere(rows, id))
  {
    if rows != [] {
      var tail := rows[1..];
      assert IdsAscending(tail);
      DeleteKeepsAscending(tail, id);
      if rows[0].id != id {
        HeadBelowTail(rows);
        ConsAscending(rows[0], DeleteWhere(tail, id));
      }
    }
  }

  /** DELETE of a present id removes exactly one row, since ids are unique. */
  lemma {:induction false} DeletePresentRemovesOne(rows: seq<Employee>, id: int)
    requires IdsAscending(rows) && id in Ids(rows)
    ensures |DeleteWhere(rows, id)| == |rows| - 1
  {
    var tail := rows[1..];
    if rows[0].id == id {
      assert id !in Ids(tail) by {
        forall e | e in tail ensures e.id != id {
          var k :| 0 <= k < |tail| && tail[k] == e;
          assert rows[k + 1] == e;
        }
      }
      DeleteMissingIsNoop(tail, id);
    } else {
      var e :| e in rows && e.id == id;
      assert e in tail by { assert e != rows[0]; }
      assert IdsAscending(tail);
      DeletePresentRemovesOne(tail, id);
    }
  }
}
