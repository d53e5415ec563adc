/** The document store behind `ctx.db`, one table at a time: documents keyed
    by a freshly generated id, kept in insertion order for scans. */
module Store {

  import Seqs

  type Id = nat

  /** A stored document: its system id and its user fields. */
  datatype Doc<R> = Doc(id: Id, value: R)

  /** The ids of the first `n` documents of `docs`. */
  function FirstIds<R>(docs: seq<Doc<R>>, n: nat): set<Id>
    requires n <= |docs|
  {
    set k | 0 <= k < n :: docs[k].id
  }

  /** The ids of a listing of every row are the table's ids. */
  lemma ListedIds<R>(rows: map<Id, R>, docs: seq<Doc<R>>)
    requires forall d {:trigger d in docs} :: d in docs <==> d.id in rows && rows[d.id] == d.value
    ensures FirstIds(docs, |docs|) == rows.Keys
  {
    forall id | id in rows
      ensures id in FirstIds(docs, |docs|)
    {
      assert Doc(id, rows[id]) in docs;
      var k :| 0 <= k < |docs| && docs[k] == Doc(id, rows[id]);
      assert docs[k].id in FirstIds(docs, |docs|);
    }
    forall id | id in FirstIds(docs, |docs|)
      ensures id in rows
    {
      var k :| 0 <= k < |docs| && docs[k].id == id;
      assert docs[k] in docs;
    }
  }

  /** The ids of the rows whose documents satisfy `p`. */
  ghost function IdsWhere<R>(rows: map<Id, R>, p: Doc<R> -> bool): set<Id>
  {
    set id | id in rows && p(Doc(id, rows[id]))
  }

  /** Filtering a listing of every row, in increasing id order, keeps one
      document per row that satisfies `p`: what `filter(...).length` counts
      over a scan is the number of such rows. */
  lemma {:induction false} FilterCount<R(!new)>(rows: map<Id, R>, docs: seq<Doc<R>>, p: Doc<R> -> bool)
    requires forall d {:trigger d in docs} :: d in docs <==> d.id in rows && rows[d.id] == d.value
    requires Seqs.Ordered(docs, Older)
    ensures |Seqs.Filter(docs, p)| == |IdsWhere(rows, p)|
  {
    var f := Seqs.Filter(docs, p);
    var sub := map id | id in IdsWhere(rows, p) :: rows[id];
    assert sub.Keys == IdsWhere(rows, p);
    Seqs.FilterKeepsOrder(docs, p, Older);
    forall d {:trigger d in f}
      ensures d in f <==> d.id in sub && sub[d.id] == d.value
    {
      assert d in f <==> d in docs && p(d);
    }
    ListedIds(sub, f);
    FirstIdsCount(f, |f|);
  }

  /** Along documents with increasing ids, each next id is new and extends
      the set of ids seen so far by one. */
  lemma FirstIdsStep<R>(docs: seq<Doc<R>>, i: nat)
    requires i < |docs|
    requires Seqs.Ordered(docs, Older)
    ensures docs[i].id !in FirstIds(docs, i)
    ensures FirstIds(docs, i + 1) == FirstIds(docs, i) + {docs[i].id}
  {
    assert forall a :: 0 <= a < i ==> Older(docs[a], docs[i]);
  }

  /** `a` was inserted after `b`. */
  predicate Newer<R>(a: Doc<R>, b: Doc<R>)
  {
    a.id > b.id
  }

  /** `a` was inserted before `b`. */
  predicate Older<R>(a: Doc<R>, b: Doc<R>)
  {
    a.id < b.id
  }

  /** A document's id, as a sort key. */
  function IdOf<R>(d: Doc<R>): int
  {
    d.id
  }

  /** Along documents listed newest first, ids strictly decrease. */
  lemma NewerIds<R>(s: seq<Doc<R>>)
    requires Seqs.Ordered(s, Newer)
    ensures forall i, j :: 0 <= i < j < |s| ==> IdOf(s[i]) > IdOf(s[j])
  {
    forall i, j | 0 <= i < j < |s|
      ensures IdOf(s[i]) > IdOf(s[j])
    {
      assert Newer(s[i], s[j]);
    }
  }

  datatype Option<T> = None | Some(value: T)
  {
    function GetOr(default: T): T
    {
      match this
      case Some(v) => v
      case None => default
    }
  }

  /** The failures a handler can report. */
  datatype Error = NotFound | InvalidArgument

  /** The outcome of a mutation that returns nothing on success. */
  datatype Status = Done | Failed(error: Error)

  /** The outcome of a mutation that returns a value on success. */
  datatype Result<T> = Ok(value: T) | Err(error: Error)

  /** Ids strictly increase along `ids`: later insertions have larger ids. */
  predicate Ascending(ids: seq<Id>)
  {
    forall i, j :: 0 <= i < j < |ids| ==> ids[i] < ids[j]
  }

  /** The table invariant: the insertion order lists every stored id once,
      in increasing order, and every id handed out so far is below `nextId`. */
  ghost predicate Consistent<R>(rows: map<Id, R>, order: seq<Id>, nextId: Id)
  {
    && Ascending(order)
    && (forall id :: id in rows <==> id in order)
    && (forall id :: id in rows ==> id < nextId)
  }

  /** `ids` with the members of `gone` removed, order kept. */
  function Without(ids: seq<Id>, gone: set<Id>): (r: seq<Id>)
    ensures forall id :: id in r <==> id in ids && id !in gone
    ensures (forall id :: id in ids ==> id !in gone) ==> r == ids
  {
    if ids == [] then []
    else
      var rest := Without(ids[1..], gone);
      if ids[0] in gone then rest else [ids[0]] + rest
  }

  /** Removing ids keeps the remaining ones in increasing order. */
  lemma {:induction false} WithoutAscending(ids: seq<Id>, gone: set<Id>)
    requires Ascending(ids)
    ensures Ascending(Without(ids, gone))
  {
    if ids != [] {
      var rest := Without(ids[1..], gone);
      WithoutAscending(ids[1..], gone);
      if ids[0] !in gone {
        forall k | 0 <= k < |rest|
          ensures ids[0] < rest[k]
        {
          assert rest[k] in ids[1..];
          var m :| 0 <= m < |ids[1..]| && ids[1..][m] == rest[k];
          assert ids[m + 1] == rest[k];
        }
        var r := [ids[0]] + rest;
        forall i, j | 0 <= i < j < |r|
          ensures r[i] < r[j]
        {
          if i > 0 {
            assert r[i] == rest[i - 1] && r[j] == rest[j - 1];
          }
        }
      }
    }
  }

  /** Deleting one id from the rows and from the insertion order keeps a
      table consistent. */
  lemma {:induction false} DeleteConsistent<R>(rows: map<Id, R>, order: seq<Id>, nextId: Id, id: Id)
    requires Consistent(rows, order, nextId)
    ensures Consistent(rows - {id}, Without(order, {id}), nextId)
  {
    WithoutAscending(order, {id});
  }

  /** Deleting an id a consistent table does not hold changes nothing. */
  lemma {:induction false} DeleteAbsent<R>(rows: map<Id, R>, order: seq<Id>, nextId: Id, id: Id)
    requires Consistent(rows, order, nextId)
    requires id !in rows
    ensures rows - {id} == rows
    ensures Without(order, {id}) == order
  {
    assert forall x :: x in order ==> x !in {id};
  }

  /** Two increasing id sequences with the same members are equal: the rows
      of a consistent table determine its insertion order. */
  lemma {:induction false} AscendingUnique(a: seq<Id>, b: seq<Id>)
    requires Ascending(a) && Ascending(b)
    requires forall id :: id in a <==> id in b
    ensures a == b
  {
    assert a != [] ==> a[0] in a;
    assert b != [] ==> b[0] in b;
    if a != [] && b != [] {
      assert a[0] == b[0] by {
        assert a[0] in b && b[0] in a;
        var i :| 0 <= i < |b| && b[i] == a[0];
        var j :| 0 <= j < |a| && a[j] == b[0];
      }
      TailIn(a, b);
      TailIn(b, a);
      AscendingUnique(a[1..], b[1..]);
      assert a == [a[0]] + a[1..] && b == [b[0]] + b[1..];
    }
  }

  /** Increasing sequences with the same members and the same head: what
      follows the head in one follows it in the other. */
  lemma {:induction false} TailIn(a: seq<Id>, b: seq<Id>)
    requires Ascending(a) && Ascending(b)
    requires forall id :: id in a <==> id in b
    requires a != [] && b != [] && a[0] == b[0]
    ensures forall id :: id in a[1..] ==> id in b[1..]
  {
    forall id | id in a[1..]
      ensures id in b[1..]
    {
      var k :| 0 <= k < |a| - 1 && a[1..][k] == id;
      assert a[0] < a[k + 1] == id;
      assert id in b;
      var m :| 0 <= m < |b| && b[m] == id;
      assert m != 0 && b[1..][m - 1] == id;
    }
  }

  /** After removing some rows of a consistent table, however that was done,
      the consistent insertion order is the old one without those ids. */
  lemma {:induction false} OrderAfterRemoval<R>(rows0: map<Id, R>, order0: seq<Id>, next0: Id,
                             rows: map<Id, R>, order: seq<Id>, next: Id, gone: set<Id>)
    requires Consistent(rows0, order0, next0) && Consistent(rows, order, next)
    requires rows == rows0 - gone
    ensures order == Without(order0, gone)
  {
    WithoutAscending(order0, gone);
    AscendingUnique(order, Without(order0, gone));
  }

  /** The documents named by `ids`, in that order. */
  function DocsOf<R>(ids: seq<Id>, rows: map<Id, R>): (r: seq<Doc<R>>)
    requires forall id :: id in ids ==> id in rows
    ensures |r| == |ids|
    ensures forall k {:trigger r[k]} :: 0 <= k < |ids| ==> r[k] == Doc(ids[k], rows[ids[k]])
  {
    if ids == [] then [] else [Doc(ids[0], rows[ids[0]])] + DocsOf(ids[1..], rows)
  }

  /** Looking up the ids back to front gives the lookup back to front. */
  lemma {:induction false} DocsOfReverse<R>(ids: seq<Id>, rows: map<Id, R>)
    requires forall id :: id in ids ==> id in rows
    ensures forall id :: id in Seqs.Reverse(ids) ==> id in rows
    ensures DocsOf(Seqs.Reverse(ids), rows) == Seqs.Reverse(DocsOf(ids, rows))
  {
    Seqs.ReverseMembers(ids);
    var a, b := DocsOf(Seqs.Reverse(ids), rows), Seqs.Reverse(DocsOf(ids, rows));
    assert |a| == |b|;
    forall k | 0 <= k < |ids|
      ensures a[k] == b[k]
    {
      DocsOfReverseAt(ids, rows, k);
    }
  }

  /** The pointwise step of `DocsOfReverse`. */
  lemma {:induction false} DocsOfReverseAt<R>(ids: seq<Id>, rows: map<Id, R>, k: nat)
    requires forall id :: id in ids ==> id in rows
    requires forall id :: id in Seqs.Reverse(ids) ==> id in rows
    requires k < |ids|
    ensures DocsOf(Seqs.Reverse(ids), rows)[k] == Seqs.Reverse(DocsOf(ids, rows))[k]
  {
    var n := |ids|;
    var d := DocsOf(ids, rows);
    assert |d| == n;
    assert Seqs.Reverse(ids)[k] == ids[n - 1 - k];
    assert Seqs.Reverse(d)[k] == d[n - 1 - k];
  }

  /** The ids occurring in `ids`. */
  function IdSet(ids: seq<Id>): (r: set<Id>)
    ensures forall id :: id in r <==> id in ids
  {
    if ids == [] then {} else {ids[0]} + IdSet(ids[1..])
  }

  lemma {:induction false} DocsOfMembers<R(!new)>(ids: seq<Id>, rows: map<Id, R>)
    requires forall id :: id in ids ==> id in rows
    ensures forall d {:trigger d in DocsOf(ids, rows)} :: d in DocsOf(ids, rows) <==> d.id in ids && rows[d.id] == d.value
  {
    var r := DocsOf(ids, rows);
    forall d | d in r
      ensures d.id in ids && rows[d.id] == d.value
    {
      var k :| 0 <= k < |r| && r[k] == d;
    }
    forall d: Doc<R> | d.id in ids && rows[d.id] == d.value
      ensures d in r
    {
      var k :| 0 <= k < |ids| && ids[k] == d.id;
      assert r[k] == d;
    }
  }

  /** Reversing increasing ids gives decreasing ids. */
  lemma {:induction false} ReverseDescends(ids: seq<Id>)
    requires Ascending(ids)
    ensures var r := Seqs.Reverse(ids); forall i, j :: 0 <= i < j < |r| ==> r[i] > r[j]
  {
    var r := Seqs.Reverse(ids);
    var n := |r|;
    forall i, j | 0 <= i < j < n
      ensures r[i] > r[j]
    {
      assert r[i] == ids[n - 1 - i];
      assert r[j] == ids[n - 1 - j];
    }
  }

  /** The documents of a consistent table listed by decreasing id: each
      row once, newest first. */
  lemma {:induction false} NewestFirst<R(!new)>(rows: map<Id, R>, order: seq<Id>, nextId: Id)
    requires Consistent(rows, order, nextId)
    ensures forall id :: id in Seqs.Reverse(order) ==> id in rows
    ensures forall i, j :: 0 <= i < j < |DocsOf(Seqs.Reverse(order), rows)| ==>
              DocsOf(Seqs.Reverse(order), rows)[i].id > DocsOf(Seqs.Reverse(order), rows)[j].id
    ensures forall d {:trigger d in DocsOf(Seqs.Reverse(order), rows)} ::
              d in DocsOf(Seqs.Reverse(order), rows) <==> d.id in rows && rows[d.id] == d.value
  {
    var ids := Seqs.Reverse(order);
    Seqs.ReverseMembers(order);
    ReverseDescends(order);
    DocsOfMembers(ids, rows);
    var r := DocsOf(ids, rows);
    assert forall k :: 0 <= k < |r| ==> r[k].id == ids[k];
  }

  /** A sequence of increasing ids has as many elements as its set of ids. */
  lemma {:induction false} AscendingCount(ids: seq<Id>)
    requires Ascending(ids)
    ensures |IdSet(ids)| == |ids|
  {
    if ids != [] {
      var rest := ids[1..];
      AscendingCount(rest);
      assert ids[0] !in IdSet(rest);
    }
  }

  /** Removing two sets of keys one after the other removes their union. */
  lemma RemoveRemove<R>(rows: map<Id, R>, a: set<Id>, b: set<Id>)
    ensures rows - a - b == rows - (a + b)
  {
  }

  /** Removing stored keys leaves that many rows fewer. */
  lemma RemoveAllCount<R>(rows: map<Id, R>, gone: set<Id>)
    requires gone <= rows.Keys
    ensures |rows - gone| == |rows| - |gone|
  {
    var rest := (rows - gone).Keys;
    assert rest == rows.Keys - gone;
    assert rows.Keys == rest + gone && rest * gone == {};
  }

  /** Documents with increasing ids have as many ids as documents. */
  lemma {:induction false} FirstIdsCount<R>(docs: seq<Doc<R>>, n: nat)
    requires n <= |docs|
    requires Seqs.Ordered(docs, Older)
    ensures |FirstIds(docs, n)| == n
  {
    if n > 0 {
      FirstIdsCount(docs, n - 1);
      FirstIdsStep(docs, n - 1);
    }
  }

  /** A consistent table without rows has an empty insertion order. */
  lemma EmptyOrder<R>(rows: map<Id, R>, order: seq<Id>, nextId: Id)
    requires Consistent(rows, order, nextId)
    requires rows == map[]
    ensures order == []
  {
    RowCount(rows, order, nextId);
  }

  /** In a consistent table the insertion order lists every row once. */
  lemma RowCount<R>(rows: map<Id, R>, order: seq<Id>, nextId: Id)
    requires Consistent(rows, order, nextId)
    ensures |rows| == |order|
  {
    AscendingCount(order);
    assert rows.Keys == IdSet(order);
  }

  /** One table. `rows` maps ids to documents, `order` lists the ids in
      insertion order, and `nextId` is the next id to hand out. */
  class Table<R(!new)> {
    var rows: map<Id, R>
    var order: seq<Id>
    var nextId: Id

    ghost predicate Valid()
      reads this
    {
      Consistent(rows, order, nextId)
    }

    constructor ()
      ensures Valid()
      ensures rows == map[] && order == []
    {
      rows, order, nextId := map[], [], 0;
    }

    /** `db.get(id)`: the document, or absent. */
    function Get(id: Id): (r: Option<R>)
      reads this
      ensures r.Some? <==> id in rows
      ensures r.Some? ==> r.value == rows[id]
    {
      if id in rows then Some(rows[id]) else None
    }

    /** `db.query(table).collect()`: every document, in insertion order. */
    function Scan(): (r: seq<Doc<R>>)
      reads this
      requires Valid()
      ensures |r| == |order| == |rows|
      ensures forall k :: 0 <= k < |r| ==> r[k] == Doc(order[k], rows[order[k]])
      ensures forall d {:trigger d in r} :: d in r <==> d.id in rows && rows[d.id] == d.value
      ensures Seqs.Ordered(r, Older)
    {
      RowCount(rows, order, nextId);
      DocsOfMembers(order, rows);
      DocsOf(order, rows)
    }

    /** `db.query(table).order("desc").collect()`: every document, newest
        first. */
    function ScanDesc(): (r: seq<Doc<R>>)
      reads this
      requires Valid()
      ensures |r| == |order| == |rows|
      ensures forall k :: 0 <= k < |r| ==> r[k] == Doc(order[|r| - 1 - k], rows[order[|r| - 1 - k]])
      ensures forall i, j :: 0 <= i < j < |r| ==> r[i].id > r[j].id
      ensures forall d {:trigger d in r} :: d in r <==> d.id in rows && rows[d.id] == d.value
    {
      RowCount(rows, order, nextId);
      NewestFirst(rows, order, nextId);
      DocsOf(Seqs.Reverse(order), rows)
    }

    /** The newest-first scan is the insertion-order scan reversed. */
    lemma ScanDescReversed()
      requires Valid()
      ensures ScanDesc() == Seqs.Reverse(Scan())
    {
      Seqs.ReverseMembers(order);
      DocsOfReverse(order, rows);
    }

    /** `db.insert(table, value)`: stores `value` under a fresh id, which
        goes last in insertion order. */
    method Insert(value: R) returns (id: Id)
      requires Valid()
      modifies this
      ensures Valid()
      ensures id == old(nextId) && nextId == id + 1
      ensures id !in old(rows)
      ensures rows == old(rows)[id := value]
      ensures order == old(order) + [id]
    {
      id := nextId;
      assert forall k :: 0 <= k < |order| ==> order[k] < id by {
        forall k | 0 <= k < |order|
          ensures order[k] < id
        {
          assert order[k] in rows;
        }
      }
      rows := rows[id := value];
      order := order + [id];
      nextId := nextId + 1;
    }

    /** `db.patch(id, ...)` with the merged document already computed:
        fails with NotFound on a missing id. */
    method Patch(id: Id, value: R) returns (s: Status)
      requires Valid()
      modifies this
      ensures Valid()
      ensures s == (if id in old(rows) then Done else Failed(NotFound))
      ensures rows == (if id in old(rows) then old(rows)[id := value] else old(rows))
      ensures order == old(order) && nextId == old(nextId)
    {
      if id in rows {
        rows := rows[id := value];
        s := Done;
      } else {
        s := Failed(NotFound);
      }
    }

    /** `db.delete(id)`: removes the document; nothing happens when the id
        is absent. */
    method Delete(id: Id)
      requires Valid()
      modifies this
      ensures Valid()
      ensures rows == old(rows) - {id}
      ensures order == Without(old(order), {id})
      ensures nextId == old(nextId)
      ensures id !in old(rows) ==> rows == old(rows) && order == old(order)
    {
      if id in rows {
        DeleteConsistent(rows, order, nextId, id);
        rows := rows - {id};
        order := Without(order, {id});
      } else {
        DeleteAbsent(rows, order, nextId, id);
      }
    }

    /** The delete loop of `clear` and `clearCompleted`: deletes the listed
        documents one after the other, by id. The rows
        listed go, the others stay as they were, the insertion order loses
        exactly those ids, and when every listed document was stored, one
        row goes per document. */
    method DeleteEach(docs: seq<Doc<R>>)
      requires Valid()
      requires Seqs.Ordered(docs, Older)
      modifies this
      ensures Valid()
      ensures rows == old(rows) - FirstIds(docs, |docs|)
      ensures order == Without(old(order), FirstIds(docs, |docs|))
      ensures nextId == old(nextId)
      ensures (forall k :: 0 <= k < |docs| ==> docs[k].id in old(rows)) ==> |rows| == |old(rows)| - |docs|
    {
      ghost var rows0, order0, next0 := rows, order, nextId;
      var i := 0;
      while i < |docs|
        invariant 0 <= i <= |docs|
        invariant Valid()
        invariant rows == rows0 - FirstIds(docs, i)
        invariant nextId == next0
      {
        var id := docs[i].id;
        FirstIdsStep(docs, i);
        RemoveRemove(rows0, FirstIds(docs, i), {id});
        Delete(id);
        i := i + 1;
      }
      OrderAfterRemoval(rows0, order0, next0, rows, order, nextId, FirstIds(docs, i));
      if forall k :: 0 <= k < |docs| ==> docs[k].id in rows0 {
        FirstIdsCount(docs, |docs|);
        RemoveAllCount(rows0, FirstIds(docs, |docs|));
      }
    }
  }
}
