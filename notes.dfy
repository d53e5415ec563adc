/** The notes handlers: list (pinned first, then most recently updated),
    get, create, update, remove and togglePin over the notes table. */
module Notes {

  import opened Store
  import Seqs
  import Sorting

  /** A row of the notes table. Timestamps are milliseconds. */
  datatype Note = Note(
    title: string,
    content: string,
    color: string,
    isPinned: bool,
    createdAt: int,
    updatedAt: int)

  /** The optional fields of an `update` call; `None` leaves a field as it is. */
  datatype NoteUpdate = NoteUpdate(
    title: Option<string>,
    content: Option<string>,
    color: Option<string>,
    isPinned: Option<bool>)

  /** The comparator `list` hands to `sort`: pinned before unpinned, then
      larger `updatedAt` first. */
  function Compare(a: Doc<Note>, b: Doc<Note>): int
  {
    if a.value.isPinned && !b.value.isPinned then -1
    else if !a.value.isPinned && b.value.isPinned then 1
    else b.value.updatedAt - a.value.updatedAt
  }

  /** `Compare` is a consistent comparator, so the stable sort's result is
      determined. */
  lemma CompareIsComparator()
    ensures Sorting.IsComparator(Compare)
  {
    forall a, b
      ensures Sorting.Sign(Compare(a, b)) == -Sorting.Sign(Compare(b, a))
    {
    }
    forall a, b, c | Compare(a, b) <= 0 && Compare(b, c) <= 0
      ensures Compare(a, c) <= 0
    {
    }
  }

  /** The two ordering rules of `list`: pinned notes come first, and within
      either group `updatedAt` does not increase. */
  predicate InListOrder(r: seq<Doc<Note>>)
  {
    && (forall i, j :: 0 <= i < j < |r| && r[j].value.isPinned ==> r[i].value.isPinned)
    && (forall i, j :: 0 <= i < j < |r| && r[i].value.isPinned == r[j].value.isPinned ==>
          r[i].value.updatedAt >= r[j].value.updatedAt)
  }

  /** Neither note is ordered before the other by `list`. */
  predicate Tied(a: Doc<Note>, b: Doc<Note>)
  {
    a.value.isPinned == b.value.isPinned && a.value.updatedAt == b.value.updatedAt
  }

  /** Notes that tie on both keys come newest first. */
  predicate TiesNewestFirst(r: seq<Doc<Note>>)
  {
    forall i, j :: 0 <= i < j < |r| && Tied(r[i], r[j]) ==> r[i].id > r[j].id
  }

  /** The sort performed by `list` on the newest-first scan. The result is a
      permutation of the scan in `list` order, and notes that tie on both
      keys keep their scan order: when the scan's ids decrease, so do
      theirs. */
  function Arrange(scan: seq<Doc<Note>>): (r: seq<Doc<Note>>)
    ensures multiset(r) == multiset(scan)
    ensures InListOrder(r)
    ensures forall p :: Sorting.Class(r, Compare, p) == Sorting.Class(scan, Compare, p)
    ensures Seqs.Ordered(scan, Newer) ==> TiesNewestFirst(r)
  {
    CompareIsComparator();
    Sorting.SortFacts(scan, Compare);
    var r := Sorting.Sort(scan, Compare);
    SortedOrder(r);
    if Seqs.Ordered(scan, Newer) then
      NewerIds(scan);
      Sorting.SortTiedDescend(scan, Compare, Tied, IdOf);
      r
    else
      r
  }

  /** A sequence sorted by `Compare` satisfies the ordering rules of `list`. */
  lemma {:induction false} SortedOrder(r: seq<Doc<Note>>)
    requires Sorting.SortedBy(r, Compare)
    ensures InListOrder(r)
  {
    forall i, j | 0 <= i < j < |r|
      ensures r[j].value.isPinned ==> r[i].value.isPinned
      ensures r[i].value.isPinned == r[j].value.isPinned ==>
                r[i].value.updatedAt >= r[j].value.updatedAt
    {
      assert Compare(r[i], r[j]) <= 0;
    }
  }

  /** `list`: every note of the table exactly once, pinned notes first,
      then by decreasing `updatedAt`; notes that tie on both keys come newest
      first, as the descending scan delivered them. */
  function List(db: Table<Note>): (r: seq<Doc<Note>>)
    reads db
    requires db.Valid()
    ensures |r| == |db.rows|
    ensures forall d {:trigger d in r} :: d in r <==> d.id in db.rows && db.rows[d.id] == d.value
    ensures InListOrder(r)
    ensures TiesNewestFirst(r)
  {
    var scan := db.ScanDesc();
    assert Seqs.Ordered(scan, Newer);
    var r := Arrange(scan);
    Seqs.SameMembers(r, scan);
    r
  }

  /** `get`: the stored note, or absent. */
  function Get(db: Table<Note>, id: Id): (r: Option<Note>)
    reads db
    ensures r.Some? <==> id in db.rows
    ensures r.Some? ==> r.value == db.rows[id]
  {
    db.Get(id)
  }

  /** The note `update` writes back: every field the call provides is
      overwritten, `updatedAt` becomes `now`, the rest is kept. */
  function Patched(n: Note, u: NoteUpdate, now: int): (r: Note)
    ensures r.title == u.title.GetOr(n.title)
    ensures r.content == u.content.GetOr(n.content)
    ensures r.color == u.color.GetOr(n.color)
    ensures r.isPinned == u.isPinned.GetOr(n.isPinned)
    ensures r.createdAt == n.createdAt && r.updatedAt == now
  {
    n.(title := u.title.GetOr(n.title),
       content := u.content.GetOr(n.content),
       color := u.color.GetOr(n.color),
       isPinned := u.isPinned.GetOr(n.isPinned),
       updatedAt := now)
  }

  /** Every note was updated no earlier than it was created. */
  ghost predicate Chronological(rows: map<Id, Note>)
  {
    forall id :: id in rows ==> rows[id].createdAt <= rows[id].updatedAt
  }

  /** The clock reads `now` or later than every timestamp in the table:
      it has not run backwards. */
  ghost predicate ClockNotBehind(rows: map<Id, Note>, now: int)
  {
    forall id :: id in rows ==> rows[id].updatedAt <= now
  }

  /** `togglePin` is the `update` that provides only the flipped pin. */
  lemma TogglePinIsUpdate(n: Note, now: int)
    ensures Patched(n, NoteUpdate(None, None, None, Some(!n.isPinned)), now)
         == n.(isPinned := !n.isPinned, updatedAt := now)
  {
  }

  /** `create`: a new unpinned note stamped `now`; no other note changes. */
  method Create(db: Table<Note>, title: string, content: string, color: string, now: int)
    returns (id: Id)
    requires db.Valid()
    modifies db
    ensures db.Valid()
    ensures id !in old(db.rows) && id == old(db.nextId) && db.nextId == id + 1
    ensures db.rows == old(db.rows)[id := Note(title, content, color, false, now, now)]
    ensures db.order == old(db.order) + [id]
    ensures Chronological(old(db.rows)) ==> Chronological(db.rows)
  {
    id := db.Insert(Note(title, content, color, false, now, now));
  }

  /** `update`: NotFound on a missing id, with nothing changed; otherwise only
      the note `id` changes, to `Patched(old note, u, now)`. */
  method Update(db: Table<Note>, id: Id, u: NoteUpdate, now: int) returns (s: Status)
    requires db.Valid()
    modifies db
    ensures db.Valid()
    ensures id !in old(db.rows) ==> s == Failed(NotFound) && db.rows == old(db.rows)
    ensures id in old(db.rows) ==>
              s == Done && db.rows == old(db.rows)[id := Patched(old(db.rows)[id], u, now)]
    ensures db.order == old(db.order) && db.nextId == old(db.nextId)
    ensures Chronological(old(db.rows)) && ClockNotBehind(old(db.rows), now) ==>
              Chronological(db.rows)
  {
    var existing := db.Get(id);
    if existing.None? {
      return Failed(NotFound);
    }
    s := db.Patch(id, Patched(existing.value, u, now));
  }

  /** `remove`: deletes the note; removing an absent id changes nothing. */
  method Remove(db: Table<Note>, id: Id)
    requires db.Valid()
    modifies db
    ensures db.Valid()
    ensures db.rows == old(db.rows) - {id}
    ensures db.order == Without(old(db.order), {id}) && db.nextId == old(db.nextId)
    ensures id !in old(db.rows) ==> db.rows == old(db.rows) && db.order == old(db.order)
  {
    db.Delete(id);
  }

  /** `togglePin`: NotFound on a missing id, with nothing changed; otherwise
      flips `isPinned` and sets `updatedAt` to `now`, leaving the other
      fields and the other notes alone. */
  method TogglePin(db: Table<Note>, id: Id, now: int) returns (s: Status)
    requires db.Valid()
    modifies db
    ensures db.Valid()
    ensures id !in old(db.rows) ==> s == Failed(NotFound) && db.rows == old(db.rows)
    ensures id in old(db.rows) ==>
              var n := old(db.rows)[id];
              s == Done && db.rows == old(db.rows)[id := n.(isPinned := !n.isPinned, updatedAt := now)]
    ensures db.order == old(db.order) && db.nextId == old(db.nextId)
    ensures Chronological(old(db.rows)) && ClockNotBehind(old(db.rows), now) ==>
              Chronological(db.rows)
  {
    var note := db.Get(id);
    if note.None? {
      return Failed(NotFound);
    }
    var n := note.value;
    s := db.Patch(id, n.(isPinned := !n.isPinned, updatedAt := now));
  }
}
