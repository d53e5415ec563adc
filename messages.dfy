/** The messages handlers: list (the latest messages, oldest first), send
    (rejecting blank bodies, storing the trimmed body) and clear. */
module Messages {

  import opened Store
  import Seqs

  /** A row of the messages table. `createdAt` is in milliseconds. */
  datatype Message = Message(author: string, body: string, createdAt: int)

  /** How many messages `list` returns when the caller gives no limit. */
  const DefaultLimit: nat := 50

  /** The characters `String.prototype.trim` strips: the WhiteSpace and
      LineTerminator code points of ECMAScript (tab, vertical tab, form feed,
      space, no-break space, the byte order mark, every space separator, line
      feed, carriage return, line and paragraph separator). */
  predicate IsWhitespace(c: char)
  {
    || c == '\t' || c == '\n' || c == '\U{000B}' || c == '\U{000C}' || c == '\r' || c == ' '
    || c == '\U{00A0}' || c == '\U{1680}' || ('\U{2000}' <= c <= '\U{200A}')
    || c == '\U{2028}' || c == '\U{2029}' || c == '\U{202F}' || c == '\U{205F}'
    || c == '\U{3000}' || c == '\U{FEFF}'
  }

  /** `s` without its leading whitespace: a suffix of `s` that starts with a
      non-whitespace character, everything cut off being whitespace. */
  function TrimStart(s: string): (r: string)
    ensures |r| <= |s| && r == s[|s| - |r|..]
    ensures forall k :: 0 <= k < |s| - |r| ==> IsWhitespace(s[k])
    ensures r != [] ==> !IsWhitespace(r[0])
  {
    if s != [] && IsWhitespace(s[0]) then TrimStart(s[1..]) else s
  }

  /** `s` without its trailing whitespace: a prefix of `s` that ends with a
      non-whitespace character, everything cut off being whitespace. */
  function TrimEnd(s: string): (r: string)
    ensures |r| <= |s| && r == s[..|r|]
    ensures forall k :: |r| <= k < |s| ==> IsWhitespace(s[k])
    ensures r != [] ==> !IsWhitespace(r[|r| - 1])
  {
    if s != [] && IsWhitespace(s[|s| - 1]) then TrimEnd(s[..|s| - 1]) else s
  }

  /** `s.trim()`: empty exactly when `s` is all whitespace, and otherwise
      beginning and ending with a non-whitespace character. */
  function Trim(s: string): (r: string)
    ensures |r| <= |s|
    ensures r == [] <==> forall k :: 0 <= k < |s| ==> IsWhitespace(s[k])
    ensures r != [] ==> !IsWhitespace(r[0]) && !IsWhitespace(r[|r| - 1])
  {
    var t := TrimStart(s);
    var r := TrimEnd(t);
    assert r != [] ==> r[0] == t[0];
    assert t != [] ==> r != [];
    assert t == [] ==> forall k :: 0 <= k < |s| ==> IsWhitespace(s[k]);
    assert t != [] ==> t[0] == s[|s| - |t|];
    r
  }

  /** `s[i..j]` is `s` with whitespace only outside it and, unless it is
      empty, a non-whitespace character at either end. */
  predicate TrimmedSlice(s: string, i: nat, j: nat)
  {
    && i <= j <= |s|
    && (forall k :: 0 <= k < i ==> IsWhitespace(s[k]))
    && (forall k :: j <= k < |s| ==> IsWhitespace(s[k]))
    && (i < j ==> !IsWhitespace(s[i]) && !IsWhitespace(s[j - 1]))
  }

  /** `Trim` removes exactly the whitespace around the first and the last
      non-whitespace character. */
  lemma TrimUnique(s: string, i: nat, j: nat)
    requires TrimmedSlice(s, i, j)
    ensures Trim(s) == s[i..j]
  {
    var t := TrimStart(s);
    var a := |s| - |t|;
    if i == j {
      assert forall k :: 0 <= k < |s| ==> IsWhitespace(s[k]) by {
        forall k | 0 <= k < |s|
          ensures IsWhitespace(s[k])
        {
          if k >= i {
            assert j <= k;
          }
        }
      }
    } else {
      assert a == i;
      var r := TrimEnd(t);
      var b := a + |r|;
      assert b == j;
    }
  }

  /** Trimming twice is trimming once. */
  lemma TrimIdempotent(s: string)
    ensures Trim(Trim(s)) == Trim(s)
  {
    var r := Trim(s);
    assert TrimmedSlice(r, 0, |r|);
    TrimUnique(r, 0, |r|);
  }

  /** `list`: the `limit` (by default 50) newest messages, returned oldest
      first: exactly the last that many of the chronological scan. A limit
      of zero returns nothing. */
  function List(db: Table<Message>, limit: Option<nat>): (r: seq<Doc<Message>>)
    reads db
    requires db.Valid()
    ensures |r| == Seqs.Min(limit.GetOr(DefaultLimit), |db.rows|)
    ensures r == db.Scan()[|db.rows| - |r|..]
    ensures Seqs.Ordered(r, Older)
  {
    var n := limit.GetOr(DefaultLimit);
    db.ScanDescReversed();
    Seqs.LastOfReversed(db.Scan(), n);
    Seqs.OrderedSuffix(db.Scan(), |db.rows| - Seqs.Min(n, |db.rows|), Older);
    Seqs.Reverse(Seqs.Take(db.ScanDesc(), n))
  }

  /** Every stored body is non-blank and already trimmed, as `send` leaves
      it. */
  ghost predicate WellFormed(rows: map<Id, Message>)
  {
    forall id :: id in rows ==> rows[id].body != [] && Trim(rows[id].body) == rows[id].body
  }

  /** `send`: a body that is empty after trimming is rejected with nothing
      stored; otherwise the message is stored with its body trimmed and
      stamped `now`, and its new id returned. */
  method Send(db: Table<Message>, author: string, body: string, now: int) returns (res: Result<Id>)
    requires db.Valid()
    modifies db
    ensures db.Valid()
    ensures Trim(body) == [] ==>
              && res == Err(InvalidArgument)
              && db.rows == old(db.rows) && db.order == old(db.order) && db.nextId == old(db.nextId)
    ensures Trim(body) != [] ==>
              && res.Ok?
              && res.value !in old(db.rows)
              && res.value == old(db.nextId) && db.nextId == res.value + 1
              && db.rows == old(db.rows)[res.value := Message(author, Trim(body), now)]
              && db.order == old(db.order) + [res.value]
    ensures WellFormed(old(db.rows)) ==> WellFormed(db.rows)
  {
    var trimmed := Trim(body);
    if trimmed == [] {
      return Err(InvalidArgument);
    }
    TrimIdempotent(body);
    var id := db.Insert(Message(author, trimmed, now));
    res := Ok(id);
  }

  /** `clear`: deletes every message, one by one, leaving the table empty. */
  method Clear(db: Table<Message>)
    requires db.Valid()
    modifies db
    ensures db.Valid()
    ensures db.rows == map[] && db.order == [] && db.nextId == old(db.nextId)
  {
    var messages := db.Scan();
    ListedIds(db.rows, messages);
    db.DeleteEach(messages);
    assert db.rows == map[];
    EmptyOrder(db.rows, db.order, db.nextId);
  }
}
