/**
 * The persistence layer `TaskRepository` (src/repositories/TaskRepository.ts) over an
 * in-memory table instead of Prisma.
 *
 * The table is a sequence of rows in insertion order. The queries (`findById`, `findAll`,
 * `count`, `findByTitle`, `findCompletedInPeriod`) are functions of that sequence; the
 * `where` objects the source hands to Prisma are values of `Where`, and `Satisfies` is how
 * the database evaluates them. The operations that write (`create`, `update`, `delete`,
 * `bulkUpdateCompleted`) are methods of the class `TaskRepository`, which owns the table.
 */
module Repository {
  import opened Wrappers
  import opened Text
  import opened TaskTypes

  /**
   * A Prisma `where` object over tasks. Each present part is one conjunct:
   * `{ id: { in: ids } }`, `{ completed }`, `{ priority }`,
   * `AND: [{ completed: false }, { dueDate: { lt: instant } }]` and
   * `{ updatedAt: { gte: lo, lte: hi } }`.
   */
  datatype Where = Where(
    idIn: Option<seq<Id>>,
    completed: Option<bool>,
    priority: Option<Priority>,
    pendingDueBefore: Option<int>,
    updatedWithin: Option<(int, int)>)

  /** Whether a row satisfies a `where` object; a `null` due date is never less than an instant. */
  predicate Satisfies(t: Task, w: Where)
  {
    && (w.idIn.Some? ==> t.id in w.idIn.value)
    && (w.completed.Some? ==> t.completed == w.completed.value)
    && (w.priority.Some? ==> t.priority == w.priority.value)
    && (w.pendingDueBefore.Some? ==>
          !t.completed && t.dueDate.Some? && t.dueDate.value < w.pendingDueBefore.value)
    && (w.updatedWithin.Some? ==>
          w.updatedWithin.value.0 <= t.updatedAt <= w.updatedWithin.value.1)
  }

  /**
   * The `where` object `findAll` and `count` build from their filters, conjunct by conjunct:
   * `completed` when it is given, `priority` when it is given, and the overdue conjunction
   * when `overdue` is true.
   */
  function BuildWhere(f: TaskFilters, now: int): (w: Where)
    ensures forall t :: Satisfies(t, w) <==>
              && (f.completed.Some? ==> t.completed == f.completed.value)
              && (f.priority.Some? ==> t.priority == f.priority.value)
              && (f.overdue == Some(true) ==> !t.completed && t.dueDate.Some? && t.dueDate.value < now)
  {
    Where(
      idIn := None,
      completed := f.completed,
      priority := f.priority,
      pendingDueBefore := if f.overdue == Some(true) then Some(now) else None,
      updatedWithin := None)
  }

  /** The rows that satisfy `w`, in table order. */
  function Matching(store: seq<Task>, w: Where): (r: seq<Task>)
    ensures |r| <= |store|
    ensures forall t :: t in r <==> t in store && Satisfies(t, w)
    ensures forall t :: multiset(r)[t] == if Satisfies(t, w) then multiset(store)[t] else 0
  {
    if store == [] then []
    else
      assert store == [store[0]] + store[1..];
      (if Satisfies(store[0], w) then [store[0]] else []) + Matching(store[1..], w)
  }

  /** When no row satisfies `w`, nothing matches. */
  lemma {:induction false} NothingSatisfiesMatchesNothing(store: seq<Task>, w: Where)
    requires forall t :: t in store ==> !Satisfies(t, w)
    ensures Matching(store, w) == []
  {
    if store != [] {
      assert store[0] in store;
      NothingSatisfiesMatchesNothing(store[1..], w);
    }
  }

  /** How many rows satisfy `w`: the database's `count({ where })`. */
  function CountWhere(store: seq<Task>, w: Where): (n: nat)
    ensures n <= |store|
    ensures n == 0 <==> forall t :: t in store ==> !Satisfies(t, w)
  {
    if store == [] then 0
    else (if Satisfies(store[0], w) then 1 else 0) + CountWhere(store[1..], w)
  }

  /** Counting the rows that satisfy `w` gives as many as there are rows that satisfy it. */
  lemma {:induction false} CountWhereIsMatchingLength(store: seq<Task>, w: Where)
    ensures CountWhere(store, w) == |Matching(store, w)|
  {
    if store != [] {
      CountWhereIsMatchingLength(store[1..], w);
    }
  }

  /** The order of `orderBy: [{ completed: "asc" }, { createdAt: "desc" }]`: pending first, then newest first. */
  predicate ListedBefore(a: Task, b: Task)
  {
    (!a.completed && b.completed) || (a.completed == b.completed && a.createdAt >= b.createdAt)
  }

  /** A sequence in listing order. */
  predicate InListingOrder(s: seq<Task>)
  {
    forall i, j :: 0 <= i < j < |s| ==> ListedBefore(s[i], s[j])
  }

  /** Putting in front of a sequence in listing order an element that may precede all of it keeps the order. */
  lemma PrependListed(a: Task, s: seq<Task>)
    requires InListingOrder(s)
    requires forall y :: y in s ==> ListedBefore(a, y)
    ensures InListingOrder([a] + s)
  {
  }

  /** `s` with `x` inserted before the first element it may precede. */
  function InsertListed(x: Task, s: seq<Task>): (r: seq<Task>)
    requires InListingOrder(s)
    ensures InListingOrder(r)
    ensures multiset(r) == multiset(s) + multiset{x}
  {
    if s == [] then [x]
    else if ListedBefore(x, s[0]) then
      assert forall y :: y in s ==> ListedBefore(s[0], y) by {
        forall y | y in s ensures ListedBefore(s[0], y) {
          var k :| 0 <= k < |s| && s[k] == y;
          if k > 0 { assert ListedBefore(s[0], s[k]); }
        }
      }
      PrependListed(x, s);
      [x] + s
    else
      var rest := InsertListed(x, s[1..]);
      assert forall y :: y in rest ==> ListedBefore(s[0], y) by {
        forall y | y in rest ensures ListedBefore(s[0], y) {
          assert y in multiset(rest);
          if y != x {
            var k :| 0 <= k < |s[1..]| && s[1..][k] == y;
            assert s[k + 1] == y;
          }
        }
      }
      PrependListed(s[0], rest);
      assert s == [s[0]] + s[1..];
      [s[0]] + rest
  }

  /** `s` rearranged into listing order (an insertion sort; rows that tie keep table order). */
  function SortListed(s: seq<Task>): (r: seq<Task>)
    ensures InListingOrder(r)
    ensures multiset(r) == multiset(s)
  {
    if s == [] then []
    else
      assert s == [s[0]] + s[1..];
      InsertListed(s[0], SortListed(s[1..]))
  }

  /**
   * `findAll(filters)`: exactly the rows that satisfy every given filter (a permutation of
   * the matching rows), pending before completed and newer before older.
   */
  function FindAll(store: seq<Task>, f: TaskFilters, now: int): (r: seq<Task>)
    ensures InListingOrder(r)
    ensures multiset(r) == multiset(Matching(store, BuildWhere(f, now)))
    ensures forall t :: t in r <==>
              && t in store
              && (f.completed.Some? ==> t.completed == f.completed.value)
              && (f.priority.Some? ==> t.priority == f.priority.value)
              && (f.overdue == Some(true) ==> !t.completed && t.dueDate.Some? && t.dueDate.value < now)
  {
    var r := SortListed(Matching(store, BuildWhere(f, now)));
    assert forall t :: t in r <==> t in multiset(r);
    r
  }

  /** `count(filters)`: the database count under the same `where` object `findAll` builds. */
  function Count(store: seq<Task>, f: TaskFilters, now: int): (n: nat)
    ensures n <= |store|
    ensures n == |Matching(store, BuildWhere(f, now))|
  {
    CountWhereIsMatchingLength(store, BuildWhere(f, now));
    CountWhere(store, BuildWhere(f, now))
  }

  /** `count(filters)` always equals the length of `findAll(filters)`. */
  lemma CountIsFindAllLength(store: seq<Task>, f: TaskFilters, now: int)
    ensures Count(store, f, now) == |FindAll(store, f, now)|
  {
    var w := BuildWhere(f, now);
    CountWhereIsMatchingLength(store, w);
    assert |multiset(FindAll(store, f, now))| == |multiset(Matching(store, w))|;
  }

  /** A filter asking for completed tasks that are also overdue can match nothing. */
  lemma CompletedAndOverdueIsEmpty(store: seq<Task>, f: TaskFilters, now: int)
    requires f.completed == Some(true) && f.overdue == Some(true)
    ensures FindAll(store, f, now) == []
    ensures Count(store, f, now) == 0
  {
    NothingSatisfiesMatchesNothing(store, BuildWhere(f, now));
    CountIsFindAllLength(store, f, now);
  }

  /** Without filters, `count()` is the number of rows. */
  lemma {:induction false} CountNoFiltersIsSize(store: seq<Task>, now: int)
    ensures Count(store, NoFilters, now) == |store|
  {
    if store != [] {
      CountNoFiltersIsSize(store[1..], now);
    }
  }

  /** The row counts behind `getTaskStats`: every row is completed or pending, and every overdue row is pending. */
  lemma {:induction false} CountSplitsByCompletion(store: seq<Task>, now: int)
    ensures Count(store, NoFilters, now)
              == Count(store, NoFilters.(completed := Some(true)), now)
               + Count(store, NoFilters.(completed := Some(false)), now)
    ensures Count(store, NoFilters.(overdue := Some(true)), now)
              <= Count(store, NoFilters.(completed := Some(false)), now)
  {
    CountWhereSplits(store, BuildWhere(NoFilters, now), BuildWhere(NoFilters.(completed := Some(true)), now),
                     BuildWhere(NoFilters.(completed := Some(false)), now), BuildWhere(NoFilters.(overdue := Some(true)), now));
  }

  /** The database counts split the same way, row by row, for `where` objects related as in `CountSplitsByCompletion`. */
  lemma {:induction false} CountWhereSplits(store: seq<Task>, all: Where, done: Where, open: Where, late: Where)
    requires forall t :: Satisfies(t, all) && (Satisfies(t, done) <==> t.completed)
    requires forall t :: Satisfies(t, open) <==> !t.completed
    requires forall t :: Satisfies(t, late) ==> !t.completed
    ensures CountWhere(store, all) == CountWhere(store, done) + CountWhere(store, open)
    ensures CountWhere(store, late) <= CountWhere(store, open)
  {
    if store != [] {
      CountWhereSplits(store[1..], all, done, open, late);
    }
  }

  /** Whether the rows carry pairwise distinct ids, as a primary key guarantees. */
  predicate DistinctIds(s: seq<Task>)
  {
    forall i, j :: 0 <= i < j < |s| ==> s[i].id != s[j].id
  }

  /** The position of the row with id `id`, if any (the first one). */
  function FindIndex(store: seq<Task>, id: Id): (r: Option<nat>)
    ensures r.Some? ==> r.value < |store| && store[r.value].id == id
    ensures r.Some? ==> forall j :: 0 <= j < r.value ==> store[j].id != id
    ensures r.None? <==> forall t :: t in store ==> t.id != id
  {
    if store == [] then None
    else if store[0].id == id then Some(0)
    else
      var rest := FindIndex(store[1..], id);
      if rest.Some? then Some(rest.value + 1) else None
  }

  /** With distinct ids, the row found is the only one with that id. */
  lemma FindIndexUnique(store: seq<Task>, id: Id, i: nat)
    requires DistinctIds(store) && i < |store| && store[i].id == id
    ensures FindIndex(store, id) == Some(i)
  {
  }

  /** `findById(id)`: the row with that id, or `null` when there is none. */
  function FindById(store: seq<Task>, id: Id): (r: Option<Task>)
    ensures r.Some? ==> r.value in store && r.value.id == id
    ensures r.None? <==> forall t :: t in store ==> t.id != id
  {
    var i := FindIndex(store, id);
    if i.Some? then Some(store[i.value]) else None
  }

  /** The position of the first row whose title equals `title` ignoring case, or `|store|`. */
  function FirstTitleMatch(store: seq<Task>, title: string): (i: nat)
    ensures i <= |store|
    ensures forall j :: 0 <= j < i ==> !EqualsIgnoreCase(store[j].title, title)
    ensures i < |store| ==> EqualsIgnoreCase(store[i].title, title)
  {
    if store == [] then 0
    else if EqualsIgnoreCase(store[0].title, title) then 0
    else 1 + FirstTitleMatch(store[1..], title)
  }

  /**
   * `findByTitle(title)`: a row whose title equals `title` ignoring case, or `null` when there
   * is none. `findFirst` has no `orderBy`; the model returns the earliest row in the table.
   */
  function FindByTitle(store: seq<Task>, title: string): (r: Option<Task>)
    ensures r.Some? ==> r.value in store && EqualsIgnoreCase(r.value.title, title)
    ensures r.None? <==> forall t :: t in store ==> !EqualsIgnoreCase(t.title, title)
    ensures r.Some? ==> exists i :: 0 <= i < |store| && store[i] == r.value
                                   && forall j :: 0 <= j < i ==> !EqualsIgnoreCase(store[j].title, title)
  {
    var i := FirstTitleMatch(store, title);
    if i < |store| then Some(store[i]) else None
  }

  /** The `where` object of `findCompletedInPeriod`. */
  function CompletedInPeriodWhere(startDate: int, endDate: int): Where
  {
    Where(None, Some(true), None, None, Some((startDate, endDate)))
  }

  /** `findCompletedInPeriod(start, end)`: the completed rows last updated between the two instants, both included. */
  function FindCompletedInPeriod(store: seq<Task>, startDate: int, endDate: int): (r: seq<Task>)
    ensures forall t :: t in r <==> t in store && t.completed && startDate <= t.updatedAt <= endDate
    ensures forall t :: multiset(r)[t] ==
              if t.completed && startDate <= t.updatedAt <= endDate then multiset(store)[t] else 0
  {
    Matching(store, CompletedInPeriodWhere(startDate, endDate))
  }

  /** A period that ends before it starts contains no completion. */
  lemma EmptyPeriodFindsNothing(store: seq<Task>, startDate: int, endDate: int)
    requires startDate > endDate
    ensures FindCompletedInPeriod(store, startDate, endDate) == []
  {
    NothingSatisfiesMatchesNothing(store, CompletedInPeriodWhere(startDate, endDate));
  }

  /** The row `create` inserts: the data with its defaults, a new id and both timestamps at `now`. */
  function NewRecord(data: CreateTaskData, id: Id, now: int): (t: Task)
    ensures t.id == id && t.title == data.title && !t.completed
    ensures t.priority == (if data.priority.Some? then data.priority.value else MEDIUM)
    ensures t.description == (if data.description.Some? then data.description.value else None)
    ensures t.dueDate == (if data.dueDate.Some? then data.dueDate.value else None)
    ensures t.pixelReward == (if data.pixelReward.Some? then data.pixelReward.value else None)
    ensures t.createdAt == now && t.updatedAt == now
  {
    Task(
      id := id,
      title := data.title,
      description := if data.description.Some? then data.description.value else None,
      completed := false,
      priority := if data.priority.Some? then data.priority.value else MEDIUM,
      dueDate := if data.dueDate.Some? then data.dueDate.value else None,
      pixelReward := if data.pixelReward.Some? then data.pixelReward.value else None,
      createdAt := now,
      updatedAt := now)
  }

  /** A field after an update: the supplied value, or the old one when it is absent. */
  function Patched<T>(old_: T, supplied: Option<T>): (r: T)
    ensures supplied.None? ==> r == old_
    ensures supplied.Some? ==> r == supplied.value
  {
    if supplied.Some? then supplied.value else old_
  }

  /** The row `update` writes: the supplied fields overwritten, the rest kept, `updatedAt` moved to `now`. */
  function ApplyUpdate(t: Task, d: UpdateTaskData, now: int): (u: Task)
    ensures u.id == t.id && u.createdAt == t.createdAt && u.updatedAt == now
    ensures u.title == Patched(t.title, d.title)
    ensures u.description == Patched(t.description, d.description)
    ensures u.completed == Patched(t.completed, d.completed)
    ensures u.priority == Patched(t.priority, d.priority)
    ensures u.dueDate == Patched(t.dueDate, d.dueDate)
    ensures u.pixelReward == Patched(t.pixelReward, d.pixelReward)
  {
    t.(title := Patched(t.title, d.title),
       description := Patched(t.description, d.description),
       completed := Patched(t.completed, d.completed),
       priority := Patched(t.priority, d.priority),
       dueDate := Patched(t.dueDate, d.dueDate),
       pixelReward := Patched(t.pixelReward, d.pixelReward),
       updatedAt := now)
  }

  /** An update that supplies no field changes nothing but `updatedAt`. */
  lemma EmptyUpdateKeepsFields(t: Task, now: int)
    ensures ApplyUpdate(t, UpdateTaskData(None, None, None, None, None, None), now) == t.(updatedAt := now)
  {
  }

  /** Removing the row at `i` from a table with distinct ids leaves no row with its id, and keeps the ids distinct. */
  lemma RemoveAtDropsId(store: seq<Task>, i: nat)
    requires DistinctIds(store) && i < |store|
    ensures var rest := store[..i] + store[i + 1..];
              DistinctIds(rest) && FindById(rest, store[i].id).None?
  {
  }

  /** The repository: the task table and the source of fresh ids. */
  class TaskRepository {
    var tasks: seq<Task>
    var nextId: nat

    /** Ids are distinct and below `nextId`, so `nextId` is always fresh. */
    ghost predicate Valid()
      reads this
    {
      DistinctIds(tasks) && forall t :: t in tasks ==> t.id < nextId
    }

    /** An empty table. */
    constructor ()
      ensures Valid() && tasks == []
    {
      tasks := [];
      nextId := 0;
    }

    /** `create(data)`: appends one row built from `data` with its defaults under a fresh id. */
    method Create(data: CreateTaskData, now: int) returns (t: Task)
      requires Valid()
      modifies this
      ensures Valid()
      ensures t == NewRecord(data, old(nextId), now)
      ensures FindById(old(tasks), t.id).None?
      ensures tasks == old(tasks) + [t]
    {
      t := NewRecord(data, nextId, now);
      tasks := tasks + [t];
      nextId := nextId + 1;
    }

    /**
     * `update(id, data)`: `null` and no change when no row has that id; otherwise that one
     * row gets the supplied fields and is returned, and every other row is unchanged.
     */
    method Update(id: Id, data: UpdateTaskData, now: int) returns (r: Option<Task>)
      requires Valid()
      modifies this
      ensures Valid() && nextId == old(nextId)
      ensures FindIndex(old(tasks), id).None? ==> r.None? && tasks == old(tasks)
      ensures FindIndex(old(tasks), id).Some? ==>
                var i := FindIndex(old(tasks), id).value;
                && tasks == old(tasks)[i := ApplyUpdate(old(tasks)[i], data, now)]
                && r == Some(tasks[i])
    {
      var i := FindIndex(tasks, id);
      if i.None? {
        r := None;
        return;
      }
      var updated := ApplyUpdate(tasks[i.value], data, now);
      ghost var before := tasks;
      tasks := tasks[i.value := updated];
      assert forall k :: 0 <= k < |tasks| ==> tasks[k].id == before[k].id;
      assert forall t :: t in tasks ==> exists k :: 0 <= k < |tasks| && tasks[k] == t && before[k] in before;
      r := Some(updated);
    }

    /** `delete(id)`: removes the row with that id and returns true, or returns false with no change. */
    method Delete(id: Id) returns (deleted: bool)
      requires Valid()
      modifies this
      ensures Valid() && nextId == old(nextId)
      ensures deleted <==> FindIndex(old(tasks), id).Some?
      ensures !deleted ==> tasks == old(tasks)
      ensures deleted ==>
                var i := FindIndex(old(tasks), id).value;
                tasks == old(tasks)[..i] + old(tasks)[i + 1..]
      ensures FindById(tasks, id).None?
    {
      var i := FindIndex(tasks, id);
      if i.None? {
        deleted := false;
        return;
      }
      RemoveAtDropsId(tasks, i.value);
      ghost var before := tasks;
      tasks := tasks[..i.value] + tasks[i.value + 1..];
      assert forall t :: t in tasks ==> t in before;
      deleted := true;
    }

    /**
     * `bulkUpdateCompleted(ids, completed)`: sets `completed` on exactly the rows whose id is
     * in `ids`, leaves every other row alone, and returns how many rows matched.
     */
    method BulkUpdateCompleted(ids: seq<Id>, completed: bool, now: int) returns (n: nat)
      requires Valid()
      modifies this
      ensures Valid() && nextId == old(nextId)
      ensures n == CountWhere(old(tasks), Where(Some(ids), None, None, None, None))
      ensures |tasks| == |old(tasks)|
      ensures forall k :: 0 <= k < |tasks| ==>
                tasks[k] == if old(tasks)[k].id in ids
                            then old(tasks)[k].(completed := completed, updatedAt := now)
                            else old(tasks)[k]
    {
      var w := Where(Some(ids), None, None, None, None);
      n := CountWhere(tasks, w);
      var before := tasks;
      tasks := seq(|before|, k requires 0 <= k < |before| =>
                 if before[k].id in ids then before[k].(completed := completed, updatedAt := now) else before[k]);
      assert forall k :: 0 <= k < |tasks| ==> tasks[k].id == before[k].id;
      assert forall t :: t in tasks ==> exists k :: 0 <= k < |tasks| && tasks[k] == t && before[k] in before;
    }
  }
}
