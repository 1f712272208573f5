/**
 * The four Express handlers mounted under `/employees`. Each one opens the store
 * with `initDB`, runs a single SQL statement and answers with a fixed JSON message.
 * A statement that fails makes the awaited `db.run` throw before any answer is
 * written: that is `Thrown`.
 */
module Routes {
  import opened Wrappers
  import opened Table
  import opened Db

  /** A request as the client sends it: method, path (with the id) and JSON body. */
  datatype Request = Get | Post(body: Body) | Put(id: int, body: Body) | Delete(id: int)

  /** What a mutating handler answers: a status and `{ message }`, or nothing because it threw. */
  datatype Reply = Json(status: int, message: string) | Thrown

  /** The client's `res.ok`: a response with a 2xx status. */
  predicate Succeeded(r: Reply) {
    r.Json? && 200 <= r.status < 300
  }

  /** GET `/`: status 200 with exactly the stored rows, unfiltered and unchanged. */
  method GetEmployees(db: Database) returns (status: int, employees: seq<Employee>)
    requires db.Valid()
    modifies db
    ensures db.Valid() && db.tableExists
    ensures db.rows == old(db.rows) && db.lastId == old(db.lastId) && db.issued == old(db.issued)
    ensures status == 200 && employees == db.rows
  {
    db.InitDB();
    employees := db.SelectAll();
    status := 200;
  }

  /**
   * POST `/`: inserts one row carrying the body's four values under a fresh id and
   * answers 201 "Employee added" without the id; a failed insert answers nothing and
   * leaves the table as it was.
   */
  method PostEmployee(db: Database, body: Body) returns (reply: Reply)
    requires db.Valid()
    modifies db
    ensures db.Valid() && db.tableExists
    ensures reply == if Complete(body) && old(db.lastId) < MaxRowId then Json(201, "Employee added") else Thrown
    ensures reply.Json? ==>
      var id := old(db.lastId) + 1;
      && id !in old(db.issued) && (forall k | k in old(db.issued) :: k < id)
      && db.rows == InsertRow(old(db.rows), id, body)
      && |db.rows| == |old(db.rows)| + 1
      && Ids(db.rows) == Ids(old(db.rows)) + {id}
      && db.lastId == id && db.issued == old(db.issued) + {id}
    ensures reply.Thrown? ==>
      db.rows == old(db.rows) && db.lastId == old(db.lastId) && db.issued == old(db.issued)
  {
    db.InitDB();
    var res, _ := db.Insert(body);
    if res.Done? {
      reply := Json(201, "Employee added");
    } else {
      reply := Thrown;
    }
  }

  /**
   * PUT `/:id`: overwrites all four fields of the row with that id and answers
   * "Employee updated"; a missing id is a no-op that still answers success.
   */
  method PutEmployee(db: Database, id: int, body: Body) returns (reply: Reply)
    requires db.Valid()
    modifies db
    ensures db.Valid() && db.tableExists
    ensures db.lastId == old(db.lastId) && db.issued == old(db.issued)
    ensures Ids(db.rows) == Ids(old(db.rows))
    ensures id !in Ids(old(db.rows)) ==> reply == Json(200, "Employee updated") && db.rows == old(db.rows)
    ensures id in Ids(old(db.rows)) ==>
      if Complete(body) then reply == Json(200, "Employee updated") && db.rows == UpdateWhere(old(db.rows), id, body)
      else reply == Thrown && db.rows == old(db.rows)
  {
    db.InitDB();
    var res := db.Update(id, body);
    if res.Done? {
      reply := Json(200, "Employee updated");
    } else {
      reply := Thrown;
    }
  }

  /**
   * DELETE `/:id`: removes the row with that id, if there is one, and answers
   * "Employee deleted" either way.
   */
  method DeleteEmployee(db: Database, id: int) returns (reply: Reply)
    requires db.Valid()
    modifies db
    ensures db.Valid() && db.tableExists
    ensures reply == Json(200, "Employee deleted")
    ensures db.rows == DeleteWhere(old(db.rows), id)
    ensures db.lastId == old(db.lastId) && db.issued == old(db.issued)
    ensures Ids(db.rows) == Ids(old(db.rows)) - {id}
    ensures id !in Ids(old(db.rows)) ==> db.rows == old(db.rows)
  {
    db.InitDB();
    var _ := db.Delete(id);
    reply := Json(200, "Employee deleted");
  }
}
