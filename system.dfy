/**
 * The client and the server together: each user action runs the client handler,
 * the route it calls on the shared store, and the refetch that follows an ok
 * response. After every successful mutation the client's list is the store's.
 */
module System {
  import opened Wrappers
  import opened Table
  import opened Db
  import opened Routes
  import opened Client

  /** Mounting the page: the initial state, then `fetchEmployees` on the store. */
  method Mount(db: Database) returns (app: App)
    requires db.Valid()
    modifies db
    ensures fresh(app)
    ensures db.Valid() && db.rows == old(db.rows)
    ensures app.employees == db.rows && app.form == EmptyForm && app.editId == None && app.prompts == []
  {
    app := new App();
    var _, data := GetEmployees(db);
    app.FetchEmployees(data);
  }

  /**
   * Submitting the form (after the browser's validation of the inputs) against the store:
   * POST or PUT as `handleSubmit` chooses, then the refetch if the response was ok.
   */
  method Submit(app: App, db: Database) returns (req: Option<Request>, reply: Option<Reply>)
    requires db.Valid()
    modifies app, db
    ensures db.Valid()
    ensures !PassesBrowserValidation(old(app.form)) ==> req.None?
    ensures PassesBrowserValidation(old(app.form)) ==> req == SubmitRequest(old(app.form), old(app.editId))
    ensures req.None? ==>
      && reply.None? && unchanged(db)
      && app.employees == old(app.employees) && app.form == old(app.form) && app.editId == old(app.editId)
    ensures req.Some? <==> reply.Some?
    ensures reply.Some? && Succeeded(reply.value) ==>
      app.employees == db.rows && app.form == EmptyForm && app.editId == None
    ensures reply.Some? && !Succeeded(reply.value) ==>
      && app.employees == old(app.employees) && app.form == old(app.form) && app.editId == old(app.editId)
      && db.rows == old(db.rows)
    ensures req.Some? && req.value.Post? && old(db.lastId) < MaxRowId ==>
      && Succeeded(reply.value)
      && db.rows == old(db.rows) + [Employee(old(db.lastId) + 1, old(app.form.name), old(app.form.email),
                                             old(app.form.department), old(app.form.salary))]
    ensures req.Some? && req.value.Put? ==>
      && Succeeded(reply.value)
      && db.rows == (if req.value.id in Ids(old(db.rows)) then UpdateWhere(old(db.rows), req.value.id, FormBody(old(app.form)))
                     else old(db.rows))
    ensures app.prompts == old(app.prompts)
  {
    if !PassesBrowserValidation(app.form) {
      return None, None;
    }
    req := SubmitRequest(app.form, app.editId);
    var ok := false;
    var data := [];
    if req.Some? {
      var r;
      if req.value.Post? {
        r := PostEmployee(db, req.value.body);
      } else {
        r := PutEmployee(db, req.value.id, req.value.body);
      }
      reply := Some(r);
      ok := Succeeded(r);
      if ok {
        var _, fetched := GetEmployees(db);
        data := fetched;
      }
    } else {
      reply := None;
    }
    var sent := app.SubmitButton(ok, data);
    assert sent == req;
  }

  /**
   * "Yes, Delete" on prompt `k` against the store: the row goes (if it was there),
   * the answer is always ok, and the refetched list is the store's.
   */
  method ConfirmDelete(app: App, db: Database, k: nat) returns (reply: Reply)
    requires db.Valid() && k < |app.prompts|
    modifies app, db
    ensures db.Valid()
    ensures Succeeded(reply)
    ensures db.rows == DeleteWhere(old(db.rows), old(app.prompts[k]))
    ensures app.employees == db.rows
    ensures app.form == old(app.form) && app.editId == old(app.editId)
    ensures app.prompts == old(app.prompts[..k] + app.prompts[k + 1..])
  {
    reply := DeleteEmployee(db, app.prompts[k]);
    var _, data := GetEmployees(db);
    var _ := app.ConfirmDelete(k, Succeeded(reply), data);
  }

  /**
   * The worked example on an empty store: create Ada, raise her salary, delete her.
   * The lists read back after each step are returned.
   */
  method AdaScenario() returns (afterCreate: seq<Employee>, afterUpdate: seq<Employee>, afterDelete: seq<Employee>)
    ensures afterCreate == [Employee(1, "Ada", "ada@example.com", "Eng", 90000.0)]
    ensures afterUpdate == [Employee(1, "Ada", "ada@example.com", "Eng", 95000.0)]
    ensures afterDelete == []
  {
    var db := new Database();
    var r1 := PostEmployee(db, Body(Some("Ada"), Some("ada@example.com"), Some("Eng"), Some(90000.0)));
    var _, list1 := GetEmployees(db);
    afterCreate := list1;
    var body := Body(Some("Ada"), Some("ada@example.com"), Some("Eng"), Some(95000.0));
    assert 1 in Ids(db.rows) by { assert db.rows[0].id == 1; }
    var r2 := PutEmployee(db, 1, body);
    var _, list2 := GetEmployees(db);
    afterUpdate := list2;
    var r3 := DeleteEmployee(db, 1);
    var _, list3 := GetEmployees(db);
    afterDelete := list3;
  }
}
