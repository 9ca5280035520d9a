/** The todo service: five operations over the repository, each answering with a
    success/failure envelope and never raising. A store round-trip that raises is modelled
    by a `fails` flag on the call; the service maps it to its fixed "Error ..." message. */
module Service {
  import opened Util
  import opened Entity
  import opened Store

  /** The payload of `create`: already validated upstream. */
  datatype CreateTodoDto = CreateTodoDto(details: string, dueDate: Day)

  /** The payload of `update`: every field optional, enum values still plain strings. */
  datatype UpdateTodoDto = UpdateTodoDto(details: Option<string>, status: Option<string>, priority: Option<string>)

  /** The envelope of `create`, `findOne`, `update` and `remove`. An absent `message` or
      `todo` is a key the returned object does not carry (or carries as undefined). */
  datatype Reply = Reply(success: bool, message: Option<string>, todo: Option<Todo>)

  /** The envelope of `findAll`. */
  datatype ListReply =
    | Listed(todos: seq<Todo>, total: nat, totalPages: nat, currentPage: int)
    | ListFailed(message: string)

  const CreatedMessage := "Todo created successfully"
  const CreateErrorMessage := "Error creating todo"
  const ListErrorMessage := "Error fetching todos"
  const UpdatedMessage := "Todo updated successfully"

  function NotFoundMessage(id: int): string {
    "Todo with ID " + IntToString(id) + " not found"
  }

  function FetchErrorMessage(id: int): string {
    "Error fetching todo with ID " + IntToString(id)
  }

  function UpdateNotFoundMessage(id: int): string {
    "Todo with ID " + IntToString(id) + " not found for update"
  }

  function UpdateErrorMessage(id: int): string {
    "Error updating todo with ID " + IntToString(id)
  }

  function DeletedMessage(id: int): string {
    "Todo with ID " + IntToString(id) + " deleted successfully"
  }

  function DeleteNotFoundMessage(id: int): string {
    "Todo with ID " + IntToString(id) + " not found for deletion"
  }

  function DeleteErrorMessage(id: int): string {
    "Error deleting todo with ID " + IntToString(id)
  }

  /** Each id-bearing message names exactly one id: two equal messages of the same kind
      carry the same id. */
  lemma MessagesNameTheirId(a: int, b: int)
    ensures NotFoundMessage(a) == NotFoundMessage(b) ==> a == b
    ensures FetchErrorMessage(a) == FetchErrorMessage(b) ==> a == b
    ensures UpdateNotFoundMessage(a) == UpdateNotFoundMessage(b) ==> a == b
    ensures UpdateErrorMessage(a) == UpdateErrorMessage(b) ==> a == b
    ensures DeletedMessage(a) == DeletedMessage(b) ==> a == b
    ensures DeleteNotFoundMessage(a) == DeleteNotFoundMessage(b) ==> a == b
    ensures DeleteErrorMessage(a) == DeleteErrorMessage(b) ==> a == b
  {
    var x, y := IntToString(a), IntToString(b);
    if NotFoundMessage(a) == NotFoundMessage(b) {
      CancelAffixes("Todo with ID ", x, y, " not found");
    }
    if FetchErrorMessage(a) == FetchErrorMessage(b) {
      CancelAffixes("Error fetching todo with ID ", x, y, "");
    }
    if UpdateNotFoundMessage(a) == UpdateNotFoundMessage(b) {
      CancelAffixes("Todo with ID ", x, y, " not found for update");
    }
    if UpdateErrorMessage(a) == UpdateErrorMessage(b) {
      CancelAffixes("Error updating todo with ID ", x, y, "");
    }
    if DeletedMessage(a) == DeletedMessage(b) {
      CancelAffixes("Todo with ID ", x, y, " deleted successfully");
    }
    if DeleteNotFoundMessage(a) == DeleteNotFoundMessage(b) {
      CancelAffixes("Todo with ID ", x, y, " not found for deletion");
    }
    if DeleteErrorMessage(a) == DeleteErrorMessage(b) {
      CancelAffixes("Error deleting todo with ID ", x, y, "");
    }
    if x == y {
      IntToStringInjective(a, b);
    }
  }

  lemma CancelAffixes(p: string, x: string, y: string, q: string)
    requires p + x + q == p + y + q
    ensures x == y
  {
    assert |x| == |y|;
    assert x == (p + x + q)[|p|..|p| + |x|];
    assert y == (p + y + q)[|p|..|p| + |y|];
  }

  /** The replies of one operation never share a message, whatever the ids, and the three
      not-found messages of `findOne`, `update` and `remove` are told apart. */
  lemma MessagesDistinct(a: int, b: int)
    ensures NotFoundMessage(a) != FetchErrorMessage(b)
    ensures UpdateNotFoundMessage(a) != UpdateErrorMessage(b)
    ensures UpdateNotFoundMessage(a) != UpdatedMessage && UpdateErrorMessage(a) != UpdatedMessage
    ensures DeletedMessage(a) != DeleteNotFoundMessage(b) && DeletedMessage(a) != DeleteErrorMessage(b)
    ensures DeleteNotFoundMessage(a) != DeleteErrorMessage(b)
    ensures NotFoundMessage(a) != UpdateNotFoundMessage(b) && NotFoundMessage(a) != DeleteNotFoundMessage(b)
    ensures UpdateNotFoundMessage(a) != DeleteNotFoundMessage(b)
  {
    var x, y := IntToString(a), IntToString(b);
    var todoPrefix := "Todo with ID ";
    Ends(todoPrefix, x, " not found");
    Ends(todoPrefix, y, " not found");
    Ends(todoPrefix, x, " not found for update");
    Ends(todoPrefix, y, " not found for update");
    Ends(todoPrefix, x, " deleted successfully");
    Ends(todoPrefix, y, " not found for deletion");
    Ends("Error fetching todo with ID ", y, "");
    Ends("Error updating todo with ID ", x, "");
    Ends("Error updating todo with ID ", y, "");
    Ends("Error deleting todo with ID ", y, "");
    assert UpdatedMessage[0] == 'T' && UpdatedMessage[5] == 'u';
  }

  /** The first characters of a message come from its fixed prefix, the last from its suffix.
      Indices 0 and 5 are where the fixed message texts first differ ("Todo " against
      "Error", "Todo w" against "Todo u"). */
  lemma Ends(p: string, x: string, q: string)
    requires |p| > 5
    ensures (p + x + q)[0] == p[0] && (p + x + q)[5] == p[5]
    ensures |q| > 0 ==> (p + x + q)[|p + x + q| - 1] == q[|q| - 1]
  {
  }

  /** A string filter counts only when it is truthy: present and not empty. */
  predicate Truthy(s: Option<string>) {
    s.Some? && s.value != ""
  }

  /** The rows before page `page` (1-based) of `limit` rows each. */
  function Skip(page: int, limit: int): (r: nat)
    requires page >= 1 && limit > 0
    ensures r % limit == 0 && r / limit == page - 1
  {
    MulDivExact(page - 1, limit);
    (page - 1) * limit
  }

  lemma MulDivExact(q: nat, l: int)
    requires l > 0
    ensures (q * l) % l == 0 && (q * l) / l == q
  {
    var a := q * l;
    var d := q - a / l;
    assert l * d == a % l;
    if d >= 1 {
      MulMonotone(1, d, l);
      assert false;
    } else if d <= -1 {
      MulMonotone(d, -1, l);
      assert false;
    }
  }

  /** `Math.ceil(total / limit)`: the fewest pages of `limit` rows that hold `total` rows. */
  function TotalPages(total: nat, limit: int): (r: nat)
    requires limit > 0
    ensures total <= r * limit < total + limit
  {
    var n := total + limit - 1;
    var q := n / limit;
    assert n == q * limit + n % limit;
    q
  }

  /** The `where` object `findAll` hands to the store, stated in one go. It admits active
      rows, equal to each truthy enum filter, and for the due date `>= startDate` when both
      dates are given (the end date is dropped), `<= endDate` when only the end date is
      given, and nothing otherwise. */
  function WhereFor(status: Option<string>, priority: Option<string>, startDate: Option<Day>, endDate: Option<Day>): (w: Where)
    ensures forall t :: Matches(w, t) <==>
      && t.isActive
      && (Truthy(status) ==> StatusName(t.status) == status.value)
      && (Truthy(priority) ==> PriorityName(t.priority) == priority.value)
      && (startDate.Some? && endDate.Some? ==> startDate.value <= t.dueDate)
      && (startDate.None? && endDate.Some? ==> t.dueDate <= endDate.value)
  {
    Where(
      true,
      if Truthy(status) then status else None,
      if Truthy(priority) then priority else None,
      if startDate.Some? && endDate.Some? then AtLeast(startDate.value)
      else if endDate.Some? then AtMost(endDate.value)
      else AnyDate)
  }

  /** With both dates given, an active row due after `endDate` is still listed as long as it
      is due on or after `startDate`. */
  lemma UpperBoundDropped(rows: seq<Todo>, startDate: Day, endDate: Day, t: Todo)
    requires t in rows && t.isActive && startDate <= t.dueDate && endDate < t.dueDate
    ensures t in Filter(rows, WhereFor(None, None, Some(startDate), Some(endDate)))
  {
    FilterMembers(rows, WhereFor(None, None, Some(startDate), Some(endDate)));
  }

  /** Page `page` is non-empty exactly when it is one of the `totalPages` pages. */
  lemma PageNonEmptyIffWithinTotal(ms: seq<Todo>, page: int, limit: int)
    requires page >= 1 && limit > 0
    ensures |Window(ms, Skip(page, limit), limit)| > 0 <==> page <= TotalPages(|ms|, limit)
  {
    var tp := TotalPages(|ms|, limit);
    var skip := Skip(page, limit);
    assert skip == (page - 1) * limit;
    if page <= tp {
      assert (page - 1) * limit <= (tp - 1) * limit by {
        MulMonotone(page - 1, tp - 1, limit);
      }
      assert (tp - 1) * limit == tp * limit - limit;
      assert skip < |ms|;
    } else {
      assert tp * limit <= (page - 1) * limit by {
        MulMonotone(tp, page - 1, limit);
      }
      assert skip >= |ms|;
    }
  }

  lemma MulMonotone(a: int, b: int, c: nat)
    requires a <= b
    ensures a * c <= b * c
  {
    assert b * c - a * c == (b - a) * c;
  }

  /** The partial object `update` sends: the three editable fields, never `isActive`. */
  function ChangesOf(dto: UpdateTodoDto): (c: Changes)
    ensures c.isActive.None?
  {
    Changes(dto.details, dto.status, dto.priority, None)
  }

  /** The partial object `remove` sends: only `isActive := false`. */
  const SoftDelete: Changes := Changes(None, None, None, Some(false))

  /** Removing twice: the second call still finds the row (so it reports success too) and
      leaves the table exactly as the first call left it. */
  lemma {:induction false} RemoveTwice(rows: seq<Todo>, id: int)
    ensures Conforms(SoftDelete)
    ensures var once := PatchRows(rows, id, ToPatch(SoftDelete));
      && PatchRows(once, id, ToPatch(SoftDelete)) == once
      && (HasRow(once, id) <==> HasRow(rows, id))
  {
    var p := ToPatch(SoftDelete);
    var once := PatchRows(rows, id, p);
    PatchIdempotent(rows, id, p);
    PatchFrame(rows, id, p);
    if HasRow(rows, id) {
      var t :| t in rows && t.id == id;
      var k :| 0 <= k < |rows| && rows[k] == t;
      assert once[k].id == id;
    }
    if HasRow(once, id) {
      var t :| t in once && t.id == id;
      var k :| 0 <= k < |once| && once[k] == t;
      assert rows[k].id == id;
    }
  }

  /** Soft delete never erases: the table keeps every row, and only `isActive` of the rows
      with that id can change. */
  lemma {:induction false} RemoveKeepsRows(rows: seq<Todo>, id: int)
    ensures Conforms(SoftDelete)
    ensures var after := PatchRows(rows, id, ToPatch(SoftDelete));
      && |after| == |rows|
      && forall i :: 0 <= i < |rows| ==> after[i] == if rows[i].id == id then rows[i].(isActive := false) else rows[i]
  {
    PatchFrame(rows, id, ToPatch(SoftDelete));
  }

  /** `update` writes only the fields the payload supplies among details, status and
      priority; `id`, `dueDate`, `dateOfCreation`, `isActive` and every other row stay. */
  lemma {:induction false} UpdateFrame(rows: seq<Todo>, id: int, dto: UpdateTodoDto)
    requires Conforms(ChangesOf(dto))
    ensures var p := ToPatch(ChangesOf(dto)); var after := PatchRows(rows, id, p);
      && |after| == |rows|
      && forall i :: 0 <= i < |rows| ==>
        var t, u := rows[i], after[i];
        && u.id == t.id && u.dueDate == t.dueDate && u.dateOfCreation == t.dateOfCreation
        && u.isActive == t.isActive
        && (t.id != id ==> u == t)
        && (t.id == id ==> u.details == dto.details.GetOr(t.details))
        && (t.id == id && dto.status.None? ==> u.status == t.status)
        && (t.id == id && dto.status.Some? ==> StatusName(u.status) == dto.status.value)
        && (t.id == id && dto.priority.None? ==> u.priority == t.priority)
        && (t.id == id && dto.priority.Some? ==> PriorityName(u.priority) == dto.priority.value)
  {
    PatchFrame(rows, id, ToPatch(ChangesOf(dto)));
  }

  class TodoService {
    const repo: Repository

    ghost predicate Valid()
      reads this, repo
    {
      repo.Valid()
    }

    constructor (repo: Repository)
      requires repo.Valid()
      ensures this.repo == repo && Valid()
    {
      this.repo := repo;
    }

    /** `create`: insert one row with the column defaults and hand it back. */
    method Create(dto: CreateTodoDto, created: Timestamp, fails: bool) returns (r: Reply)
      requires Valid()
      modifies repo
      ensures Valid()
      ensures fails ==> r == Reply(false, Some(CreateErrorMessage), None)
      ensures fails ==> repo.rows == old(repo.rows) && repo.nextId == old(repo.nextId)
      ensures !fails ==> r.success && r.message == Some(CreatedMessage) && r.todo.Some?
      ensures !fails ==> var t := r.todo.value;
        && t == Todo(old(repo.nextId), dto.details, dto.dueDate, Pending, Normal, created, true)
        && !HasRow(old(repo.rows), t.id)
        && repo.rows == old(repo.rows) + [t]
        && repo.nextId == old(repo.nextId) + 1
    {
      var saved := repo.Insert(dto.details, dto.dueDate, created, fails);
      if saved.Failed? {
        return Reply(false, Some(CreateErrorMessage), None);
      }
      r := Reply(true, Some(CreatedMessage), Some(saved.value));
    }

    /** The `where` object exactly as `findAll` assembles it, one key at a time. */
    static method BuildWhere(status: Option<string>, priority: Option<string>, startDate: Option<Day>, endDate: Option<Day>) returns (w: Where)
      ensures w == WhereFor(status, priority, startDate, endDate)
    {
      w := Where(true, None, None, AnyDate);
      if Truthy(status) {
        w := w.(status := status);
      }
      if Truthy(priority) {
        w := w.(priority := priority);
      }
      if startDate.Some? && endDate.Some? {
        w := w.(dueDate := Between(startDate.value, endDate.value));
        w := w.(dueDate := AtLeast(startDate.value));
      } else if endDate.Some? {
        w := w.(dueDate := AtMost(endDate.value));
      }
    }

    /** `findAll`: one page of the active rows passing the filters, the count of all of
        them, and the page arithmetic. */
    method FindAll(page: int, limit: int, status: Option<string>, priority: Option<string>,
                   startDate: Option<Day>, endDate: Option<Day>, fails: bool) returns (r: ListReply)
      requires page >= 1 && limit > 0
      ensures fails <==> r.ListFailed?
      ensures fails ==> r == ListFailed(ListErrorMessage)
      ensures r.Listed? ==> var ms := Filter(repo.rows, WhereFor(status, priority, startDate, endDate));
        && r.todos == Window(ms, (page - 1) * limit, limit)
        && r.total == |ms|
        && r.currentPage == page
        && r.total <= r.totalPages * limit < r.total + limit
      ensures r.Listed? ==> |r.todos| <= limit
      ensures r.Listed? ==> forall t :: t in r.todos ==> t in repo.rows && t.isActive
      ensures r.Listed? && Truthy(status) ==> forall t :: t in r.todos ==> StatusName(t.status) == status.value
      ensures r.Listed? && Truthy(priority) ==> forall t :: t in r.todos ==> PriorityName(t.priority) == priority.value
      ensures r.Listed? && startDate.Some? && endDate.Some? ==> forall t :: t in r.todos ==> startDate.value <= t.dueDate
      ensures r.Listed? && startDate.None? && endDate.Some? ==> forall t :: t in r.todos ==> t.dueDate <= endDate.value
    {
      var pageSize := limit;
      var skip := Skip(page, pageSize);
      var w := BuildWhere(status, priority, startDate, endDate);
      var found := repo.FindAndCount(w, skip, pageSize, fails);
      if found.Failed? {
        return ListFailed(ListErrorMessage);
      }
      var (todos, total) := found.value;
      FilterMembers(repo.rows, w);
      forall t | t in todos ensures t in Filter(repo.rows, w) {
        var k :| 0 <= k < |todos| && todos[k] == t;
      }
      forall t | t in todos
        ensures Matches(w, t)
      {
      }
      r := Listed(todos, total, TotalPages(total, pageSize), page);
    }

    /** `findOne`: the row if it exists and is active; a missing and an inactive row give the
        same not-found reply. */
    method FindOne(id: int, fails: bool) returns (r: Reply)
      ensures fails ==> r == Reply(false, Some(FetchErrorMessage(id)), None)
      ensures !fails ==> r.todo == Lookup(repo.rows, id)
      ensures !fails ==> (r.success <==> exists t :: t in repo.rows && t.id == id && t.isActive)
      ensures !fails && r.success ==> r.message.None? && r.todo.Some?
      ensures !fails && r.success ==> r.todo.value in repo.rows && r.todo.value.id == id && r.todo.value.isActive
      ensures !fails && !r.success ==> r == Reply(false, Some(NotFoundMessage(id)), None)
    {
      var found := repo.FindOne(id, fails);
      if found.Failed? {
        return Reply(false, Some(FetchErrorMessage(id)), None);
      }
      if found.value.None? {
        return Reply(false, Some(NotFoundMessage(id)), None);
      }
      r := Reply(true, None, found.value);
    }

    /** `update`: write the supplied fields whatever the row's `isActive`, then refetch
        through `findOne`, whose `todo` (absent for an inactive row) is what is returned. */
    method Update(id: int, dto: UpdateTodoDto, writeFails: bool, refetchFails: bool) returns (r: Reply)
      requires Valid()
      modifies repo
      ensures Valid() && repo.nextId == old(repo.nextId)
      ensures writeFails || !Accepted(ChangesOf(dto)) ==>
        r == Reply(false, Some(UpdateErrorMessage(id)), None) && repo.rows == old(repo.rows)
      ensures !writeFails && Accepted(ChangesOf(dto)) && !HasRow(old(repo.rows), id) ==>
        r == Reply(false, Some(UpdateNotFoundMessage(id)), None) && repo.rows == old(repo.rows)
      ensures !writeFails && Accepted(ChangesOf(dto)) && HasRow(old(repo.rows), id) ==>
        && repo.rows == PatchRows(old(repo.rows), id, ToPatch(ChangesOf(dto)))
        && r.success && r.message == Some(UpdatedMessage)
        && (refetchFails ==> r.todo.None?)
        && (!refetchFails && Lookup(old(repo.rows), id).Some? ==>
              r.todo == Some(ApplyPatch(Lookup(old(repo.rows), id).value, ToPatch(ChangesOf(dto)))))
        && (Lookup(old(repo.rows), id).None? ==> r.todo.None?)
    {
      var c := ChangesOf(dto);
      ghost var before := repo.rows;
      var written := repo.Update(id, c, writeFails);
      if written.Failed? {
        return Reply(false, Some(UpdateErrorMessage(id)), None);
      }
      if written.value == 0 {
        return Reply(false, Some(UpdateNotFoundMessage(id)), None);
      }
      if Lookup(before, id).Some? {
        PatchShowsPatched(before, id, ToPatch(c));
      } else {
        PatchKeepsHidden(before, id, ToPatch(c));
      }
      var refetched := FindOne(id, refetchFails);
      r := Reply(true, Some(UpdatedMessage), refetched.todo);
    }

    /** `remove`: a soft delete. The row stays in the table with `isActive` false, and no
        check of its current `isActive` is made first. */
    method Remove(id: int, fails: bool) returns (r: Reply)
      requires Valid()
      modifies repo
      ensures Valid() && repo.nextId == old(repo.nextId)
      ensures fails ==> r == Reply(false, Some(DeleteErrorMessage(id)), None) && repo.rows == old(repo.rows)
      ensures !fails && !HasRow(old(repo.rows), id) ==>
        r == Reply(false, Some(DeleteNotFoundMessage(id)), None) && repo.rows == old(repo.rows)
      ensures !fails && HasRow(old(repo.rows), id) ==>
        && r == Reply(true, Some(DeletedMessage(id)), None)
        && repo.rows == PatchRows(old(repo.rows), id, ToPatch(SoftDelete))
        && Lookup(repo.rows, id).None?
    {
      var written := repo.Update(id, SoftDelete, fails);
      if written.Failed? {
        return Reply(false, Some(DeleteErrorMessage(id)), None);
      }
      if written.value == 0 {
        return Reply(false, Some(DeleteNotFoundMessage(id)), None);
      }
      DeactivateHides(old(repo.rows), id, ToPatch(SoftDelete));
      r := Reply(true, Some(DeletedMessage(id)), None);
    }
  }

  /** Create "buy milk", mark it done, remove it, and look it up again; then the two quirks:
      an update of the removed row still succeeds without a todo, and a second remove
      succeeds too. */
  method BuyMilkScenario() {
    var repo := new Repository();
    var service := new TodoService(repo);
    var created := service.Create(CreateTodoDto("buy milk", 19732), 0, false);
    assert created.success && created.todo.value.status == Pending;
    var a := created.todo.value;
    assert repo.rows == [a];
    assert a in repo.rows;
    var updated := service.Update(a.id, UpdateTodoDto(None, Some("done"), None), false, false);
    assert updated.success && updated.todo == Some(a.(status := Done));
    assert updated.todo.value.details == "buy milk";
    assert repo.rows == [a.(status := Done)];
    assert repo.rows[0] in repo.rows;
    var removed := service.Remove(a.id, false);
    assert removed == Reply(true, Some(DeletedMessage(a.id)), None);
    var fetched := service.FindOne(a.id, false);
    assert fetched == Reply(false, Some(NotFoundMessage(a.id)), None);
    assert |repo.rows| == 1 && repo.rows[0] in repo.rows;
    var late := service.Update(a.id, UpdateTodoDto(Some("buy oat milk"), None, None), false, false);
    assert late == Reply(true, Some(UpdatedMessage), None);
    assert repo.rows[0] in repo.rows;
    var again := service.Remove(a.id, false);
    assert again.success;
  }
  /** Three active pending rows, two active done rows and one removed pending row. */
  function SampleRows(): seq<Todo> {
    [ Todo(1, "a", 1, Pending, Normal, 0, true),
      Todo(2, "b", 2, Pending, High, 0, true),
      Todo(3, "c", 3, Pending, Normal, 0, true),
      Todo(4, "d", 4, Done, Normal, 0, true),
      Todo(5, "e", 5, Done, Medium, 0, true),
      Todo(6, "f", 6, Pending, Normal, 0, false) ]
  }

  lemma SamplePendingFilter()
    ensures Filter(SampleRows(), WhereFor(Some("pending"), None, None, None)) == SampleRows()[..3]
  {
    var rows, w := SampleRows(), WhereFor(Some("pending"), None, None, None);
    assert StatusName(Done) != "pending" by {
      assert StatusName(Done)[0] != "pending"[0];
    }
    assert Filter(rows[5..], w) == [];
    assert Filter(rows[4..], w) == [];
    assert Filter(rows[3..], w) == [];
    assert Filter(rows[2..], w) == rows[2..3];
    assert Filter(rows[1..], w) == rows[1..3];
  }

  /** The sample table satisfies the primary-key invariant of a table whose next id is 7. */
  lemma SampleRowsKeyed()
    ensures IdsBelow(SampleRows(), 7) && UniqueIds(SampleRows())
  {
  }

  /** Listing page 1 of 10 filtered on "pending" over the sample table gives exactly the
      three active pending rows, in one page. */
  method PendingListScenario() {
    var repo := new Repository();
    repo.rows, repo.nextId := SampleRows(), 7;
    SampleRowsKeyed();
    var service := new TodoService(repo);
    var listed := service.FindAll(1, 10, Some("pending"), None, None, None, false);
    SamplePendingFilter();
    assert listed.todos == Window(SampleRows()[..3], 0, 10);
    assert listed.total == 3 && listed.currentPage == 1;
    assert listed.totalPages == 1;
  }
}
