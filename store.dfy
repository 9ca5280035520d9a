/** The single soft-delete table behind the service, as an in-memory store: a sequence of
    rows in store-default order and the next value of the auto-increment id. The ORM calls
    the service makes (`create`/`save`, `findAndCount`, `findOne`, `update`) are its methods;
    what they mean is given by the functions below, and the lemmas say what the service
    relies on (visibility, identity, which fields a partial update can touch). */
module Store {
  import opened Util
  import opened Entity

  /** The due-date condition of a query (the ORM's `Between`, `MoreThanOrEqual` and
      `LessThanOrEqual`, or no condition). */
  datatype DateBound = AnyDate | Between(lo: Day, hi: Day) | AtLeast(lo: Day) | AtMost(hi: Day)

  /** A `where` object: the required `isActive` value, optional string equalities on the
      two enum columns, and a due-date condition. */
  datatype Where = Where(isActive: bool, status: Option<string>, priority: Option<string>, dueDate: DateBound)

  /** The ORM date operators, all inclusive. */
  predicate InBound(b: DateBound, d: Day) {
    match b
    case AnyDate => true
    case Between(lo, hi) => lo <= d <= hi
    case AtLeast(lo) => lo <= d
    case AtMost(hi) => d <= hi
  }

  /** A row satisfies a `where` object when every condition holds. An enum filter is a
      string equality against the stored name, so a string that names no enum value
      matches no row. */
  predicate Matches(w: Where, t: Todo)
    ensures Matches(w, t) && w.status.Some? ==> ParseStatus(w.status.value) == Some(t.status)
    ensures Matches(w, t) && w.priority.Some? ==> ParsePriority(w.priority.value) == Some(t.priority)
  {
    && t.isActive == w.isActive
    && (w.status.Some? ==> StatusName(t.status) == w.status.value)
    && (w.priority.Some? ==> PriorityName(t.priority) == w.priority.value)
    && InBound(w.dueDate, t.dueDate)
  }

  /** The rows matching `w`, in store order. */
  function Filter(rows: seq<Todo>, w: Where): (r: seq<Todo>)
    ensures |r| <= |rows|
  {
    if rows == [] then []
    else (if Matches(w, rows[0]) then [rows[0]] else []) + Filter(rows[1..], w)
  }

  /** `Between(lo, hi)` is `MoreThanOrEqual(lo)` and `LessThanOrEqual(hi)` together, so
      replacing it by `MoreThanOrEqual(lo)` drops exactly the upper bound: the dates it
      newly admits are those after `hi`. */
  lemma BetweenIsBothBounds(lo: Day, hi: Day, d: Day)
    ensures InBound(Between(lo, hi), d) <==> InBound(AtLeast(lo), d) && InBound(AtMost(hi), d)
    ensures InBound(AtLeast(lo), d) && !InBound(Between(lo, hi), d) <==> lo <= d && hi < d
  {
  }

  /** Each matching row occurs among the matches as often as in the table, and a row that
      does not match never occurs: the match count covers every match exactly once. */
  lemma {:induction false} FilterCounts(rows: seq<Todo>, w: Where)
    ensures forall t :: multiset(Filter(rows, w))[t] == if Matches(w, t) then multiset(rows)[t] else 0
  {
    if rows != [] {
      FilterCounts(rows[1..], w);
      assert rows == [rows[0]] + rows[1..];
      assert multiset(rows) == multiset([rows[0]]) + multiset(rows[1..]);
      var head := if Matches(w, rows[0]) then [rows[0]] else [];
      assert multiset(Filter(rows, w)) == multiset(head) + multiset(Filter(rows[1..], w));
    }
  }

  /** A row is among the matches exactly when it is in the table and satisfies `w`. */
  lemma {:induction false} FilterMembers(rows: seq<Todo>, w: Where)
    ensures forall t :: t in Filter(rows, w) <==> t in rows && Matches(w, t)
  {
    if rows != [] {
      FilterMembers(rows[1..], w);
      assert rows == [rows[0]] + rows[1..];
    }
  }

  function Min(a: int, b: int): int { if a <= b then a else b }

  /** `skip` then `take` over the matches. */
  function Window(ms: seq<Todo>, skip: nat, take: nat): (r: seq<Todo>)
    ensures |r| == if skip >= |ms| then 0 else Min(take, |ms| - skip)
    ensures |r| <= take
    ensures forall i :: 0 <= i < |r| ==> r[i] == ms[skip + i]
  {
    var lo := Min(skip, |ms|);
    ms[lo..Min(skip + take, |ms|)]
  }

  predicate HasRow(rows: seq<Todo>, id: int) {
    exists t :: t in rows && t.id == id
  }

  /** The lookup `findOne({ where: { id, isActive: true } })`: the row with that id if it
      is active, nothing otherwise. */
  function Lookup(rows: seq<Todo>, id: int): (r: Option<Todo>)
    ensures r.Some? ==> r.value in rows && r.value.id == id && r.value.isActive
    ensures r.None? <==> forall t :: t in rows ==> !(t.id == id && t.isActive)
  {
    if rows == [] then None
    else if rows[0].id == id && rows[0].isActive then Some(rows[0])
    else Lookup(rows[1..], id)
  }

  /** The partial object passed to the ORM's `update`: a field that is absent is left alone. */
  datatype Changes = Changes(details: Option<string>, status: Option<string>, priority: Option<string>, isActive: Option<bool>)

  /** The same partial object once the enum columns have accepted its values. */
  datatype Patch = Patch(details: Option<string>, status: Option<Status>, priority: Option<Priority>, isActive: Option<bool>)

  /** The schema accepts a change only if each supplied enum value is one of the enum's names. */
  predicate Conforms(c: Changes)
    ensures Conforms(c) <==>
      && (c.status.Some? ==> exists s :: StatusName(s) == c.status.value)
      && (c.priority.Some? ==> exists p :: PriorityName(p) == c.priority.value)
  {
    && (c.status.Some? ==> ParseStatus(c.status.value).Some?)
    && (c.priority.Some? ==> ParsePriority(c.priority.value).Some?)
  }

  /** The ORM leaves an absent field out of the `SET` list and refuses an update whose
      list ends up empty. */
  predicate SetsSomething(c: Changes) {
    c.details.Some? || c.status.Some? || c.priority.Some? || c.isActive.Some?
  }

  /** The changes an `update` round-trip carries out rather than raising. */
  predicate Accepted(c: Changes) {
    Conforms(c) && SetsSomething(c)
  }

  function ToPatch(c: Changes): (p: Patch)
    requires Conforms(c)
    ensures p.details == c.details && p.isActive == c.isActive
    ensures p.status.Some? <==> c.status.Some?
    ensures p.status.Some? ==> StatusName(p.status.value) == c.status.value
    ensures p.priority.Some? <==> c.priority.Some?
    ensures p.priority.Some? ==> PriorityName(p.priority.value) == c.priority.value
  {
    Patch(
      c.details,
      if c.status.Some? then ParseStatus(c.status.value) else None,
      if c.priority.Some? then ParsePriority(c.priority.value) else None,
      c.isActive)
  }

  function ApplyPatch(t: Todo, p: Patch): Todo {
    t.(details := p.details.GetOr(t.details),
       status := p.status.GetOr(t.status),
       priority := p.priority.GetOr(t.priority),
       isActive := p.isActive.GetOr(t.isActive))
  }

  /** The table after `update(id, p)`: every row with that id patched, the rest as they were. */
  function PatchRows(rows: seq<Todo>, id: int, p: Patch): (r: seq<Todo>)
    ensures |r| == |rows|
    ensures forall i :: 0 <= i < |r| ==> r[i].id == rows[i].id
  {
    if rows == [] then []
    else [if rows[0].id == id then ApplyPatch(rows[0], p) else rows[0]] + PatchRows(rows[1..], id, p)
  }

  /** The number of rows an `update` by id reports as affected. */
  function CountId(rows: seq<Todo>, id: int): (r: nat)
    ensures r <= |rows|
    ensures r == 0 <==> !HasRow(rows, id)
  {
    if rows == [] then 0
    else (if rows[0].id == id then 1 else 0) + CountId(rows[1..], id)
  }

  /** The primary-key constraint. */
  ghost predicate UniqueIds(rows: seq<Todo>) {
    forall i, j :: 0 <= i < |rows| && 0 <= j < |rows| && rows[i].id == rows[j].id ==> i == j
  }

  /** Every generated id so far is in `[1, next)`. */
  ghost predicate IdsBelow(rows: seq<Todo>, next: int) {
    forall i :: 0 <= i < |rows| ==> 1 <= rows[i].id < next
  }

  lemma {:induction false} PatchRowsAt(rows: seq<Todo>, id: int, p: Patch, i: int)
    requires 0 <= i < |rows|
    ensures PatchRows(rows, id, p)[i] == if rows[i].id == id then ApplyPatch(rows[i], p) else rows[i]
  {
    if i > 0 {
      PatchRowsAt(rows[1..], id, p, i - 1);
    }
  }

  /** A partial update changes only the rows with that id, and in them only the fields it
      supplies; the id, the due date and the creation time are never written. */
  lemma {:induction false} PatchFrame(rows: seq<Todo>, id: int, p: Patch)
    ensures forall i :: 0 <= i < |rows| ==>
      var t, u := rows[i], PatchRows(rows, id, p)[i];
      && u.id == t.id && u.dueDate == t.dueDate && u.dateOfCreation == t.dateOfCreation
      && (t.id != id ==> u == t)
      && (t.id == id ==> u == ApplyPatch(t, p))
  {
    forall i | 0 <= i < |rows| ensures PatchRows(rows, id, p)[i] == if rows[i].id == id then ApplyPatch(rows[i], p) else rows[i] {
      PatchRowsAt(rows, id, p, i);
    }
  }

  lemma PatchKeepsIds(rows: seq<Todo>, id: int, p: Patch, next: int)
    ensures UniqueIds(rows) ==> UniqueIds(PatchRows(rows, id, p))
    ensures IdsBelow(rows, next) ==> IdsBelow(PatchRows(rows, id, p), next)
  {
    PatchFrame(rows, id, p);
  }

  /** An update on an id no row holds leaves the table as it was. */
  lemma {:induction false} PatchMissingId(rows: seq<Todo>, id: int, p: Patch)
    requires !HasRow(rows, id)
    ensures PatchRows(rows, id, p) == rows
  {
    if rows != [] {
      assert rows[0] in rows;
      forall u | u in rows[1..] ensures u.id != id {
        assert u in rows;
      }
      PatchMissingId(rows[1..], id, p);
    }
  }

  /** With a primary key, an update by id affects one row if the id exists and none otherwise. */
  lemma {:induction false} CountIdUnique(rows: seq<Todo>, id: int)
    requires UniqueIds(rows)
    ensures CountId(rows, id) == if HasRow(rows, id) then 1 else 0
  {
    if rows != [] {
      var tail := rows[1..];
      assert UniqueIds(tail) by {
        forall i, j | 0 <= i < |tail| && 0 <= j < |tail| && tail[i].id == tail[j].id ensures i == j {
          assert rows[i + 1].id == rows[j + 1].id;
        }
      }
      CountIdUnique(tail, id);
      if rows[0].id == id {
        forall t | t in tail ensures t.id != id {
          var k :| 0 <= k < |tail| && tail[k] == t;
          assert rows[k + 1] == t;
        }
      } else {
        assert HasRow(rows, id) <==> HasRow(tail, id) by {
          if HasRow(rows, id) {
            var t :| t in rows && t.id == id;
            assert t in tail;
          }
        }
      }
    }
  }

  /** Applying the same patch twice leaves the table as applying it once: a second soft
      delete of the same id changes nothing. */
  lemma {:induction false} PatchIdempotent(rows: seq<Todo>, id: int, p: Patch)
    ensures PatchRows(PatchRows(rows, id, p), id, p) == PatchRows(rows, id, p)
  {
    if rows != [] {
      PatchIdempotent(rows[1..], id, p);
    }
  }

  /** After `isActive := false` on an id, the active-only lookup finds nothing for it. */
  lemma {:induction false} DeactivateHides(rows: seq<Todo>, id: int, p: Patch)
    requires p.isActive == Some(false)
    ensures Lookup(PatchRows(rows, id, p), id) == None
  {
    if rows != [] {
      DeactivateHides(rows[1..], id, p);
    }
  }

  /** A patch that leaves `isActive` alone cannot make a hidden id visible: updating an
      inactive (or missing) row still leaves the active-only lookup empty. */
  lemma {:induction false} PatchKeepsHidden(rows: seq<Todo>, id: int, p: Patch)
    requires p.isActive.None?
    requires Lookup(rows, id).None?
    ensures Lookup(PatchRows(rows, id, p), id).None?
  {
    if rows != [] {
      PatchKeepsHidden(rows[1..], id, p);
    }
  }

  /** On an active row, the lookup after the patch returns the patched row. */
  lemma {:induction false} PatchShowsPatched(rows: seq<Todo>, id: int, p: Patch)
    requires p.isActive.None?
    requires Lookup(rows, id).Some?
    ensures Lookup(PatchRows(rows, id, p), id) == Some(ApplyPatch(Lookup(rows, id).value, p))
  {
    if !(rows[0].id == id && rows[0].isActive) {
      PatchShowsPatched(rows[1..], id, p);
    }
  }

  /** Appending a row with a fresh id leaves every other id's lookup as it was, and makes
      the new row the lookup of its own id. */
  lemma {:induction false} LookupAfterAppend(rows: seq<Todo>, t: Todo, id: int)
    requires !HasRow(rows, t.id)
    ensures Lookup(rows + [t], id) == if id == t.id && t.isActive then Some(t) else Lookup(rows, id)
  {
    if rows == [] {
      assert [t][1..] == [];
    } else {
      assert (rows + [t])[1..] == rows[1..] + [t];
      forall u | u in rows[1..] ensures u.id != t.id {
        assert u in rows;
      }
      LookupAfterAppend(rows[1..], t, id);
    }
  }

  class Repository {
    var rows: seq<Todo>
    var nextId: int

    ghost predicate Valid()
      reads this
    {
      1 <= nextId && IdsBelow(rows, nextId) && UniqueIds(rows)
    }

    /** An empty table whose auto-increment starts at 1. */
    constructor ()
      ensures Valid() && rows == [] && nextId == 1
    {
      rows := [];
      nextId := 1;
    }

    /** `create({ details, dueDate })` then `save`: one new row with a never-used id and the
        column defaults. */
    method Insert(details: string, dueDate: Day, created: Timestamp, fails: bool) returns (r: StoreResult<Todo>)
      requires Valid()
      modifies this
      ensures Valid()
      ensures fails ==> r == Failed && rows == old(rows) && nextId == old(nextId)
      ensures !fails ==> r == Ok(NewTodo(old(nextId), details, dueDate, created))
      ensures !fails ==> rows == old(rows) + [r.value] && nextId == old(nextId) + 1
      ensures !fails ==> !HasRow(old(rows), r.value.id)
    {
      if fails {
        return Failed;
      }
      var t := NewTodo(nextId, details, dueDate, created);
      forall u | u in rows ensures u.id != t.id {
        var k :| 0 <= k < |rows| && rows[k] == u;
      }
      rows := rows + [t];
      nextId := nextId + 1;
      r := Ok(t);
    }

    /** `findAndCount({ where, skip, take })`: one page of the matches and the count of all
        of them. */
    method FindAndCount(w: Where, skip: nat, take: nat, fails: bool) returns (r: StoreResult<(seq<Todo>, nat)>)
      ensures fails <==> r == Failed
      ensures r.Ok? ==> r.value.0 == Window(Filter(rows, w), skip, take)
      ensures r.Ok? ==> r.value.1 == |Filter(rows, w)|
    {
      if fails {
        return Failed;
      }
      var matches := Filter(rows, w);
      r := Ok((Window(matches, skip, take), |matches|));
    }

    /** `findOne({ where: { id, isActive: true } })`. */
    method FindOne(id: int, fails: bool) returns (r: StoreResult<Option<Todo>>)
      ensures fails <==> r == Failed
      ensures r.Ok? ==> r.value == Lookup(rows, id)
    {
      if fails {
        return Failed;
      }
      r := Ok(Lookup(rows, id));
    }

    /** `update(id, changes)`: the enum columns reject a value outside their domain;
        otherwise the matching row is patched and the affected count returned. The row's
        `isActive` is not consulted. */
    method Update(id: int, c: Changes, fails: bool) returns (r: StoreResult<nat>)
      requires Valid()
      modifies this
      ensures Valid() && nextId == old(nextId)
      ensures fails || !Accepted(c) ==> r == Failed && rows == old(rows)
      ensures !fails && Accepted(c) ==> r == Ok(if HasRow(old(rows), id) then 1 else 0)
      ensures !fails && Accepted(c) ==> rows == PatchRows(old(rows), id, ToPatch(c))
      ensures !HasRow(old(rows), id) ==> rows == old(rows)
    {
      if fails || !Accepted(c) {
        return Failed;
      }
      var affected := CountId(rows, id);
      CountIdUnique(rows, id);
      PatchKeepsIds(rows, id, ToPatch(c), nextId);
      if !HasRow(rows, id) {
        PatchMissingId(rows, id, ToPatch(c));
      }
      rows := PatchRows(rows, id, ToPatch(c));
      r := Ok(affected);
    }
  }
}
