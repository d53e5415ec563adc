/** The tasks handlers: list (optionally hiding completed tasks, sorted by
    completion, priority and age), getStats, create, toggle, remove and
    clearCompleted over the tasks table. */
module Tasks {

  import opened Store
  import Seqs
  import Sorting

  datatype Priority = Low | Medium | High

  /** A row of the tasks table. Timestamps are milliseconds. */
  datatype Task = Task(
    text: string,
    isCompleted: bool,
    priority: Priority,
    dueDate: Option<int>,
    createdAt: int)

  /** The aggregate `getStats` returns. */
  datatype Stats = Stats(total: int, completed: int, pending: int, highPriority: int)

  /** The `priorityOrder` table of `list`: high sorts first. */
  function Rank(p: Priority): int
  {
    match p
    case High => 0
    case Medium => 1
    case Low => 2
  }

  /** The comparator `list` hands to `sort`: incomplete before completed,
      then by rank, then larger `createdAt` first. */
  function Compare(a: Doc<Task>, b: Doc<Task>): int
  {
    if a.value.isCompleted != b.value.isCompleted then
      (if a.value.isCompleted then 1 else -1)
    else
      var priorityDiff := Rank(a.value.priority) - Rank(b.value.priority);
      if priorityDiff != 0 then priorityDiff
      else b.value.createdAt - a.value.createdAt
  }

  /** `Compare` is a consistent comparator, so the stable sort's result is
      determined. */
  lemma CompareIsComparator()
    ensures Sorting.IsComparator(Compare)
  {
    forall a, b
      ensures Sorting.Sign(Compare(a, b)) == -Sorting.Sign(Compare(b, a))
    {
    }
    forall a, b, c | Compare(a, b) <= 0 && Compare(b, c) <= 0
      ensures Compare(a, c) <= 0
    {
    }
  }

  predicate IsDone(d: Doc<Task>)
  {
    d.value.isCompleted
  }

  predicate IsOpen(d: Doc<Task>)
  {
    !d.value.isCompleted
  }

  predicate IsHighPending(d: Doc<Task>)
  {
    d.value.priority == High && !d.value.isCompleted
  }

  /** Neither task is ordered before the other by `list`. */
  predicate Tied(a: Doc<Task>, b: Doc<Task>)
  {
    && a.value.isCompleted == b.value.isCompleted
    && a.value.priority == b.value.priority
    && a.value.createdAt == b.value.createdAt
  }

  /** The order `list` promises: incomplete tasks before completed ones,
      then higher priority first, then newer `createdAt` first. */
  predicate InListOrder(r: seq<Doc<Task>>)
  {
    && (forall i, j :: 0 <= i < j < |r| && r[i].value.isCompleted ==> r[j].value.isCompleted)
    && (forall i, j :: 0 <= i < j < |r| && r[i].value.isCompleted == r[j].value.isCompleted ==>
          Rank(r[i].value.priority) <= Rank(r[j].value.priority))
    && (forall i, j :: (0 <= i < j < |r| && r[i].value.isCompleted == r[j].value.isCompleted
          && r[i].value.priority == r[j].value.priority) ==> r[i].value.createdAt >= r[j].value.createdAt)
  }

  /** Tasks that tie on all keys of `list` are listed newest first. */
  predicate TiesNewestFirst(r: seq<Doc<Task>>)
  {
    forall i, j :: 0 <= i < j < |r| && Tied(r[i], r[j]) ==> r[i].id > r[j].id
  }

  /** The tasks `list` keeps: all of them, unless `showCompleted` is
      explicitly false, in which case the incomplete ones. */
  function Visible(scan: seq<Doc<Task>>, showCompleted: Option<bool>): (r: seq<Doc<Task>>)
    ensures forall d {:trigger d in r} :: d in r <==> d in scan && (showCompleted == Some(false) ==> !d.value.isCompleted)
  {
    if showCompleted == Some(false) then Seqs.Filter(scan, IsOpen) else scan
  }

  /** The filter-then-sort of `list` on the newest-first scan. The result
      holds exactly the visible tasks, each as often as in the scan;
      incomplete tasks come first, then rank does not decrease, then
      `createdAt` does not increase; tasks that tie on all three keep their
      scan order: when the scan's ids decrease, so do theirs. */
  function Arrange(scan: seq<Doc<Task>>, showCompleted: Option<bool>): (r: seq<Doc<Task>>)
    ensures multiset(r) == multiset(Visible(scan, showCompleted))
    ensures showCompleted != Some(false) ==> multiset(r) == multiset(scan)
    ensures forall d {:trigger d in r} {:trigger d in scan} :: d in r <==> d in scan && (showCompleted == Some(false) ==> !d.value.isCompleted)
    ensures InListOrder(r)
    ensures forall p :: Sorting.Class(r, Compare, p) == Sorting.Class(Visible(scan, showCompleted), Compare, p)
    ensures Seqs.Ordered(scan, Newer) ==> TiesNewestFirst(r)
  {
    var visible := Visible(scan, showCompleted);
    CompareIsComparator();
    Sorting.SortFacts(visible, Compare);
    var r := Sorting.Sort(visible, Compare);
    SortedOrder(r);
    ArrangedMembers(r, scan, showCompleted);
    if Seqs.Ordered(scan, Newer) then
      Seqs.FilterKeepsOrder(scan, IsOpen, Newer);
      NewerIds(visible);
      Sorting.SortTiedDescend(visible, Compare, Tied, IdOf);
      r
    else
      r
  }

  /** A rearrangement of the visible tasks holds exactly the scanned tasks
      `list` keeps. */
  lemma {:induction false} ArrangedMembers(r: seq<Doc<Task>>, scan: seq<Doc<Task>>, showCompleted: Option<bool>)
    requires multiset(r) == multiset(Visible(scan, showCompleted))
    ensures forall d {:trigger d in r} {:trigger d in scan} ::
              d in r <==> d in scan && (showCompleted == Some(false) ==> !d.value.isCompleted)
  {
    Seqs.SameMembers(r, Visible(scan, showCompleted));
  }

  /** A sequence sorted by `Compare` satisfies the three ordering rules of
      `list`. */
  lemma SortedOrder(r: seq<Doc<Task>>)
    requires Sorting.SortedBy(r, Compare)
    ensures InListOrder(r)
  {
    forall i, j | 0 <= i < j < |r|
      ensures r[i].value.isCompleted ==> r[j].value.isCompleted
      ensures r[i].value.isCompleted == r[j].value.isCompleted ==>
                Rank(r[i].value.priority) <= Rank(r[j].value.priority)
      ensures r[i].value.isCompleted == r[j].value.isCompleted && r[i].value.priority == r[j].value.priority ==>
                r[i].value.createdAt >= r[j].value.createdAt
    {
      assert Compare(r[i], r[j]) <= 0;
    }
  }

  /** `list`: the tasks of the table, each once, completed ones left out
      exactly when `showCompleted` is false, in `Arrange` order; tasks that
      tie on all three keys come newest first. */
  function List(db: Table<Task>, showCompleted: Option<bool>): (r: seq<Doc<Task>>)
    reads db
    requires db.Valid()
    ensures forall d {:trigger d in r} :: d in r <==>
              d.id in db.rows && db.rows[d.id] == d.value && (showCompleted == Some(false) ==> !d.value.isCompleted)
    ensures showCompleted != Some(false) ==> |r| == |db.rows|
    ensures InListOrder(r)
    ensures TiesNewestFirst(r)
  {
    var scan := db.ScanDesc();
    assert Seqs.Ordered(scan, Newer);
    Arrange(scan, showCompleted)
  }

  /** Over a scan of every row, the filters of `getStats` count the
      completed, the incomplete and the incomplete high-priority tasks. */
  lemma {:induction false} ScanCounts(rows: map<Id, Task>, scan: seq<Doc<Task>>)
    requires forall d {:trigger d in scan} :: d in scan <==> d.id in rows && rows[d.id] == d.value
    requires Seqs.Ordered(scan, Older)
    ensures |Seqs.Filter(scan, IsDone)| == |DoneIds(rows)|
    ensures |Seqs.Filter(scan, IsOpen)| == |OpenIds(rows)|
    ensures |Seqs.Filter(scan, IsHighPending)| == |HighPendingIds(rows)|
  {
    FilterCount(rows, scan, IsDone);
    FilterCount(rows, scan, IsOpen);
    FilterCount(rows, scan, IsHighPending);
  }

  /** The ids of the completed tasks. */
  ghost function DoneIds(rows: map<Id, Task>): (r: set<Id>)
    ensures forall id :: id in r <==> id in rows && rows[id].isCompleted
  {
    IdsWhere(rows, IsDone)
  }

  /** The ids of the incomplete tasks. */
  ghost function OpenIds(rows: map<Id, Task>): (r: set<Id>)
    ensures forall id :: id in r <==> id in rows && !rows[id].isCompleted
  {
    IdsWhere(rows, IsOpen)
  }

  /** The ids of the incomplete high-priority tasks. */
  ghost function HighPendingIds(rows: map<Id, Task>): (r: set<Id>)
    ensures forall id :: id in r <==> id in rows && rows[id].priority == High && !rows[id].isCompleted
  {
    IdsWhere(rows, IsHighPending)
  }

  /** The counts of `getStats` over a scan: `completed` counts the completed
      tasks, `pending` the others, `highPriority` the high-priority pending
      ones, so `highPriority <= pending` and `completed + pending == total`. */
  function Tally(tasks: seq<Doc<Task>>): (st: Stats)
    ensures st.total == |tasks|
    ensures st.completed == |Seqs.Filter(tasks, IsDone)|
    ensures st.highPriority == |Seqs.Filter(tasks, IsHighPending)|
    ensures 0 <= st.completed <= st.total
    ensures st.pending == st.total - st.completed == |Seqs.Filter(tasks, IsOpen)|
    ensures 0 <= st.highPriority <= st.pending
    ensures st.completed == 0 <==> forall d {:trigger d in tasks} :: d in tasks ==> !d.value.isCompleted
  {
    var total := |tasks|;
    var completed := |Seqs.Filter(tasks, IsDone)|;
    Seqs.FilterPartition(tasks, IsDone, IsOpen);
    Seqs.FilterMonotonic(tasks, IsHighPending, IsOpen);
    var highPriority := |Seqs.Filter(tasks, IsHighPending)|;
    assert completed == 0 <==> forall d {:trigger d in tasks} :: d in tasks ==> !d.value.isCompleted by {
      if completed != 0 {
        assert Seqs.Filter(tasks, IsDone)[0] in Seqs.Filter(tasks, IsDone);
      }
    }
    Stats(total, completed, total - completed, highPriority)
  }

  /** `getStats`, computed afresh from the table on every call. */
  function GetStats(db: Table<Task>): (st: Stats)
    reads db
    requires db.Valid()
    ensures st.total == |db.rows|
    ensures 0 <= st.completed <= st.total && st.pending == st.total - st.completed
    ensures 0 <= st.highPriority <= st.pending
    ensures st.completed == 0 <==> forall id :: id in db.rows ==> !db.rows[id].isCompleted
    ensures st.completed == |DoneIds(db.rows)|
    ensures st.pending == |OpenIds(db.rows)|
    ensures st.highPriority == |HighPendingIds(db.rows)|
  {
    var scan := db.Scan();
    ScanCounts(db.rows, scan);
    assert (forall d {:trigger d in scan} :: d in scan ==> !d.value.isCompleted) <==>
           (forall id :: id in db.rows ==> !db.rows[id].isCompleted) by {
      if forall d {:trigger d in scan} :: d in scan ==> !d.value.isCompleted {
        forall id | id in db.rows
          ensures !db.rows[id].isCompleted
        {
          assert Doc(id, db.rows[id]) in scan;
        }
      }
    }
    Tally(scan)
  }

  /** The query of `clearCompleted`: the completed tasks, oldest first, as
      many as `getStats` counts. */
  function Completed(db: Table<Task>): (r: seq<Doc<Task>>)
    reads db
    requires db.Valid()
    ensures forall d {:trigger d in r} :: d in r <==> d.id in db.rows && db.rows[d.id] == d.value && d.value.isCompleted
    ensures Seqs.Ordered(r, Older)
    ensures |r| == GetStats(db).completed
  {
    Seqs.FilterKeepsOrder(db.Scan(), IsDone, Older);
    Seqs.Filter(db.Scan(), IsDone)
  }

  /** The ids of a listing of exactly the completed rows are the completed
      rows' ids, and each of them is stored. */
  lemma CompletedIds(rows: map<Id, Task>, docs: seq<Doc<Task>>)
    requires forall d {:trigger d in docs} :: d in docs <==> d.id in rows && rows[d.id] == d.value && d.value.isCompleted
    ensures FirstIds(docs, |docs|) == DoneIds(rows)
    ensures forall k :: 0 <= k < |docs| ==> docs[k].id in rows
  {
    forall id | id in DoneIds(rows)
      ensures id in FirstIds(docs, |docs|)
    {
      var d := Doc(id, rows[id]);
      assert d in docs;
      var k :| 0 <= k < |docs| && docs[k] == d;
    }
    forall k | 0 <= k < |docs|
      ensures docs[k].id in DoneIds(rows)
    {
      assert docs[k] in docs;
    }
  }

  /** `create`: a new incomplete task stamped `now`; no other task changes. */
  method Create(db: Table<Task>, text: string, priority: Priority, dueDate: Option<int>, now: int)
    returns (id: Id)
    requires db.Valid()
    modifies db
    ensures db.Valid()
    ensures id !in old(db.rows) && id == old(db.nextId) && db.nextId == id + 1
    ensures db.rows == old(db.rows)[id := Task(text, false, priority, dueDate, now)]
    ensures db.order == old(db.order) + [id]
  {
    id := db.Insert(Task(text, false, priority, dueDate, now));
  }

  /** `toggle`: NotFound on a missing id, with nothing changed; otherwise
      flips `isCompleted` of that task only, with no timestamp bumped. */
  method Toggle(db: Table<Task>, id: Id) returns (s: Status)
    requires db.Valid()
    modifies db
    ensures db.Valid()
    ensures id !in old(db.rows) ==> s == Failed(NotFound) && db.rows == old(db.rows)
    ensures id in old(db.rows) ==>
              var t := old(db.rows)[id];
              s == Done && db.rows == old(db.rows)[id := t.(isCompleted := !t.isCompleted)]
    ensures db.order == old(db.order) && db.nextId == old(db.nextId)
  {
    var task := db.Get(id);
    if task.None? {
      return Failed(NotFound);
    }
    var t := task.value;
    s := db.Patch(id, t.(isCompleted := !t.isCompleted));
  }

  /** `remove`: deletes the task; removing an absent id changes nothing. */
  method Remove(db: Table<Task>, id: Id)
    requires db.Valid()
    modifies db
    ensures db.Valid()
    ensures db.rows == old(db.rows) - {id}
    ensures db.order == Without(old(db.order), {id}) && db.nextId == old(db.nextId)
    ensures id !in old(db.rows) ==> db.rows == old(db.rows) && db.order == old(db.order)
  {
    db.Delete(id);
  }

  /** `clearCompleted`: collects the completed tasks, deletes them one by
      one and returns how many there were. Afterwards exactly the incomplete
      tasks remain, unchanged and in their order, and the result equals both
      the `completed` count of `getStats` beforehand and the number of rows
      removed. */
  method ClearCompleted(db: Table<Task>) returns (n: int)
    requires db.Valid()
    modifies db
    ensures db.Valid()
    ensures n == old(GetStats(db)).completed
    ensures n == |old(db.rows)| - |db.rows|
    ensures db.rows == old(db.rows) - DoneIds(old(db.rows))
    ensures db.order == Without(old(db.order), DoneIds(old(db.rows))) && db.nextId == old(db.nextId)
    ensures forall id :: id in db.rows ==> !db.rows[id].isCompleted
  {
    var completed := Completed(db);
    CompletedIds(db.rows, completed);
    db.DeleteEach(completed);
    n := |completed|;
  }
}
