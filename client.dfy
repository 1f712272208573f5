/**
 * The React client `App`: its three state cells (`employees`, `form`, `editId`),
 * the delete-confirmation prompts it opens, and one method per event handler.
 * The HTTP outcome (`res.ok`) and the list a refetch returns are parameters; each
 * handler returns the request it issues, if any.
 */
module Client {
  import opened Wrappers
  import opened Table
  import opened Email
  import opened Routes

  /** The form: the four non-id fields of a record in progress. */
  datatype Form = Form(name: string, email: string, department: string, salary: real)

  /** The form's initial and reset value `{ name: '', email: '', department: '', salary: 0 }`. */
  const EmptyForm: Form := Form("", "", "", 0.0)

  /** `JSON.stringify(form)` as the server reads it: all four fields present. */
  function FormBody(f: Form): (b: Body)
    ensures Complete(b)
    ensures forall id :: Record(id, b) == Employee(id, f.name, f.email, f.department, f.salary)
  {
    Body(Some(f.name), Some(f.email), Some(f.department), Some(f.salary))
  }

  /** JavaScript truthiness of `editId: number | null`: null and 0 are both false. */
  predicate Truthy(editId: Option<int>) {
    editId.Some? && editId.value != 0
  }

  /**
   * The request `handleSubmit` sends: none if the email fails the pattern, otherwise
   * PUT `/employees/{editId}` when `editId` is truthy and POST `/employees` when not,
   * with the form as body.
   */
  function SubmitRequest(form: Form, editId: Option<int>): (r: Option<Request>)
    ensures r.None? <==> !IsValidEmail(form.email)
    ensures r.Some? ==> (r.value.Post? || r.value.Put?) && r.value.body == FormBody(form)
    ensures r.Some? ==> (r.value.Put? <==> Truthy(editId))
    ensures r.Some? && r.value.Put? ==> editId == Some(r.value.id) && r.value.id != 0
  {
    if !IsValidEmail(form.email) then None
    else if Truthy(editId) then Some(Put(editId.value, FormBody(form)))
    else Some(Post(FormBody(form)))
  }

  /** An `editId` of 0 is falsy, so submitting then creates a record exactly as with null. */
  lemma ZeroEditIdActsAsNull(form: Form)
    ensures SubmitRequest(form, Some(0)) == SubmitRequest(form, None)
  {
  }

  /**
   * The browser's constraint validation before `onSubmit` fires. The four inputs are
   * `required`; the salary input displays '' while the salary is 0, so a salary of 0
   * counts as missing. The salary input is also `type="number" min="0"` with the
   * default step of 1 from that minimum, so a negative or fractional salary blocks too.
   */
  predicate PassesBrowserValidation(form: Form) {
    && form.name != "" && form.email != "" && form.department != ""
    && form.salary != 0.0
    && form.salary >= 0.0
    && form.salary.Floor as real == form.salary
  }

  /** A salary that the salary guard lets through but that is not a whole number never submits. */
  lemma FractionalSalaryBlocked(form: Form)
    requires form.salary == 1234.5
    ensures !PassesBrowserValidation(form)
  {
    assert form.salary.Floor == 1234;
  }

  class App {
    var employees: seq<Employee>
    var form: Form
    var editId: Option<int>
    /** The open "Are you sure?" prompts, each holding the id its "Yes, Delete" deletes. */
    var prompts: seq<int>

    /** The initial state of the `useState` cells, before the mount-time fetch. */
    constructor ()
      ensures employees == [] && form == EmptyForm && editId == None && prompts == []
    {
      employees, form, editId, prompts := [], EmptyForm, None, [];
    }

    /** `fetchEmployees`: the fetched list replaces `employees` wholesale. */
    method FetchEmployees(data: seq<Employee>)
      modifies this
      ensures employees == data
      ensures form == old(form) && editId == old(editId) && prompts == old(prompts)
    {
      employees := data;
    }

    /**
     * `handleSubmit`: an invalid email stops here with no request. Otherwise the
     * request goes out; on an ok response the form and `editId` are reset and the
     * list is refetched (`data`), on any other outcome nothing changes.
     */
    method HandleSubmit(ok: bool, data: seq<Employee>) returns (req: Option<Request>)
      modifies this
      ensures req == SubmitRequest(old(form), old(editId))
      ensures !IsValidEmail(old(form.email)) ==> req.None? && unchanged(this)
      ensures req.Some? && ok ==> form == EmptyForm && editId == None && employees == data
      ensures req.None? || !ok ==>
        form == old(form) && editId == old(editId) && employees == old(employees)
      ensures prompts == old(prompts)
    {
      if !IsValidEmail(form.email) {
        return None;
      }
      req := SubmitRequest(form, editId);
      if ok {
        form := EmptyForm;
        editId := None;
        FetchEmployees(data);
      }
    }

    /**
     * Pressing the submit button: the browser validates the inputs first, and
     * `handleSubmit` runs only when every constraint holds.
     */
    method SubmitButton(ok: bool, data: seq<Employee>) returns (req: Option<Request>)
      modifies this
      ensures !PassesBrowserValidation(old(form)) ==> req.None? && unchanged(this)
      ensures old(form.salary) == 0.0 ==> req.None?
      ensures old(form.salary) < 0.0 || old(form.salary).Floor as real != old(form.salary) ==> req.None?
      ensures PassesBrowserValidation(old(form)) ==> req == SubmitRequest(old(form), old(editId))
      ensures req.Some? && ok ==> form == EmptyForm && editId == None && employees == data
      ensures req.None? || !ok ==>
        form == old(form) && editId == old(editId) && employees == old(employees)
      ensures prompts == old(prompts)
    {
      if !PassesBrowserValidation(form) {
        return None;
      }
      req := HandleSubmit(ok, data);
    }

    /** `handleEdit`: loads the row into the form and remembers its id; no request. */
    method HandleEdit(e: Employee)
      modifies this
      ensures form == Form(e.name, e.email, e.department, e.salary) && editId == Some(e.id)
      ensures employees == old(employees) && prompts == old(prompts)
    {
      form := Form(e.name, e.email, e.department, e.salary);
      editId := Some(e.id);
    }

    /** The Clear button: back to an empty form for a new record; no request. */
    method Clear()
      modifies this
      ensures form == EmptyForm && editId == None
      ensures employees == old(employees) && prompts == old(prompts)
    {
      form := EmptyForm;
      editId := None;
    }

    /** The name input changes the name and nothing else. */
    method NameChanged(value: string)
      modifies this
      ensures form == old(form).(name := value)
      ensures employees == old(employees) && editId == old(editId) && prompts == old(prompts)
    {
      form := form.(name := value);
    }

    /** The email input changes the email and nothing else; it is checked only on submit. */
    method EmailChanged(value: string)
      modifies this
      ensures form == old(form).(email := value)
      ensures employees == old(employees) && editId == old(editId) && prompts == old(prompts)
    {
      form := form.(email := value);
    }

    /** The department input changes the department and nothing else. */
    method DepartmentChanged(value: string)
      modifies this
      ensures form == old(form).(department := value)
      ensures employees == old(employees) && editId == old(editId) && prompts == old(prompts)
    {
      form := form.(department := value);
    }

    /**
     * The salary input: `parsed` is `Number(value)`, `None` standing for NaN. The
     * salary changes only to a parsed number that is not negative.
     */
    method SalaryChanged(parsed: Option<real>)
      modifies this
      ensures parsed.Some? && parsed.value >= 0.0 ==> form == old(form).(salary := parsed.value)
      ensures !(parsed.Some? && parsed.value >= 0.0) ==> form == old(form)
      ensures form.salary >= 0.0 || form.salary == old(form.salary)
      ensures employees == old(employees) && editId == old(editId) && prompts == old(prompts)
    {
      if parsed.Some? && parsed.value >= 0.0 {
        form := form.(salary := parsed.value);
      }
    }

    /** `handleDelete`: opens a confirmation prompt for `id` and sends nothing. */
    method HandleDelete(id: int)
      modifies this
      ensures prompts == old(prompts) + [id]
      ensures employees == old(employees) && form == old(form) && editId == old(editId)
    {
      prompts := prompts + [id];
    }

    /** "Cancel" on prompt `k`: closes it; no request, no other change. */
    method CancelDelete(k: nat)
      requires k < |prompts|
      modifies this
      ensures prompts == old(prompts[..k] + prompts[k + 1..])
      ensures employees == old(employees) && form == old(form) && editId == old(editId)
    {
      prompts := prompts[..k] + prompts[k + 1..];
    }

    /**
     * "Yes, Delete" on prompt `k`: sends DELETE for the prompt's id and closes the
     * prompt; on an ok response the list is refetched, otherwise it stays. The form
     * and `editId` are untouched either way.
     */
    method ConfirmDelete(k: nat, ok: bool, data: seq<Employee>) returns (req: Request)
      requires k < |prompts|
      modifies this
      ensures req == Delete(old(prompts[k]))
      ensures prompts == old(prompts[..k] + prompts[k + 1..])
      ensures employees == if ok then data else old(employees)
      ensures form == old(form) && editId == old(editId)
    {
      req := Delete(prompts[k]);
      prompts := prompts[..k] + prompts[k + 1..];
      if ok {
        FetchEmployees(data);
      }
    }
  }
}
