/** Ordered key-value stores: what a range scan yields, how a cursor resumes it, and paging. */
module Stores {
  import opened Bytes
  import opened Prefixes

  type Store = map<bytes, bytes>

  datatype Direction = LeftToRight | RightToLeft

  datatype Entry = Entry(key: bytes, value: bytes)

  datatype Cursor = NoCursor | At(key: bytes)

  /** `a` is yielded before `b`. */
  predicate Precedes(d: Direction, a: bytes, b: bytes) {
    if d.LeftToRight? then Less(a, b) else Less(b, a)
  }

  ghost predicate Sorted(d: Direction, ks: seq<bytes>) {
    forall i, j | 0 <= i < j < |ks| :: Precedes(d, ks[i], ks[j])
  }

  ghost predicate Lists(ks: seq<bytes>, s: set<bytes>) {
    forall k :: k in ks <==> k in s
  }

  lemma PrecedesTransitive(d: Direction, a: bytes, b: bytes, c: bytes)
    requires Precedes(d, a, b) && Precedes(d, b, c)
    ensures Precedes(d, a, c)
  {
    if d.LeftToRight? {
      LessTransitive(a, b, c);
    } else {
      LessTransitive(c, b, a);
    }
  }

  lemma PrecedesTotal(d: Direction, a: bytes, b: bytes)
    ensures Precedes(d, a, b) || a == b || Precedes(d, b, a)
    ensures !(Precedes(d, a, b) && Precedes(d, b, a)) && !Precedes(d, a, a)
  {
    LessTotal(a, b);
    LessIrreflexive(a);
  }

  predicate IsLeast(m: bytes, s: set<bytes>) {
    m in s && forall k :: k in s ==> AtMost(m, k)
  }

  lemma {:induction false} LeastExists(s: set<bytes>)
    requires s != {}
    ensures exists m :: IsLeast(m, s)
  {
    var x :| x in s;
    LessIrreflexive(x);
    if s == {x} {
      assert IsLeast(x, s);
    } else {
      LeastExists(s - {x});
      var m :| IsLeast(m, s - {x});
      LessTotal(m, x);
      var least := if Less(x, m) then x else m;
      forall k | k in s
        ensures AtMost(least, k)
      {
        if least == x && k != x {
          LessAtMost(x, m, k);
          LessTotal(x, k);
        }
      }
      assert IsLeast(least, s);
    }
  }

  lemma LeastUnique(s: set<bytes>)
    ensures forall m, n | IsLeast(m, s) && IsLeast(n, s) :: m == n
  {
    forall m, n | IsLeast(m, s) && IsLeast(n, s)
      ensures m == n
    {
      LessTotal(m, n);
    }
  }

  function Least(s: set<bytes>): (m: bytes)
    requires s != {}
    ensures IsLeast(m, s)
  {
    LeastExists(s);
    LeastUnique(s);
    var m :| m in s && IsLeast(m, s);
    m
  }

  /** The elements in ascending byte order, as an ordered map iterates over them. */
  function Ascending(s: set<bytes>): (ks: seq<bytes>)
    ensures Sorted(LeftToRight, ks) && Lists(ks, s)
  {
    if s == {} then []
    else
      var m := Least(s);
      var rest := Ascending(s - {m});
      assert forall i | 0 <= i < |rest| :: Less(m, rest[i]) by {
        forall i | 0 <= i < |rest|
          ensures Less(m, rest[i])
        {
          assert rest[i] in rest;
          LessTotal(m, rest[i]);
        }
      }
      [m] + rest
  }

  function Reversed<T>(s: seq<T>): (r: seq<T>)
    ensures |r| == |s| && forall i | 0 <= i < |s| :: r[i] == s[|s| - 1 - i]
  {
    seq(|s|, i requires 0 <= i < |s| => s[|s| - 1 - i])
  }

  function KeysIn(store: Store, r: Range<bytes>): set<bytes> {
    set k | k in store && Contains(r, k)
  }

  /** The keys a scan yields: those in the range, in ascending order or in its reverse. */
  function ScanKeys(store: Store, r: Range<bytes>, d: Direction): (ks: seq<bytes>)
    ensures Sorted(d, ks) && Lists(ks, KeysIn(store, r))
  {
    var up := Ascending(KeysIn(store, r));
    if d.LeftToRight? then up
    else
      var down := Reversed(up);
      assert Lists(down, KeysIn(store, r)) by {
        forall k
          ensures k in down <==> k in up
        {
          if k in up {
            var i :| 0 <= i < |up| && up[i] == k;
            assert down[|up| - 1 - i] == k;
          }
        }
      }
      down
  }

  function ScanEntries(store: Store, r: Range<bytes>, d: Direction): (es: seq<Entry>)
    ensures |es| == |ScanKeys(store, r, d)|
    ensures forall i | 0 <= i < |es| ::
              es[i].key == ScanKeys(store, r, d)[i] && es[i].key in store && es[i].value == store[es[i].key]
  {
    var ks := ScanKeys(store, r, d);
    assert forall i | 0 <= i < |ks| :: ks[i] in ks && ks[i] in KeysIn(store, r);
    seq(|ks|, i requires 0 <= i < |ks| => Entry(ks[i], store[ks[i]]))
  }

  lemma SortedTail(d: Direction, ks: seq<bytes>)
    requires Sorted(d, ks) && ks != []
    ensures Sorted(d, ks[1..]) && ks[0] !in ks[1..]
    ensures forall k | k in ks[1..] :: Precedes(d, ks[0], k)
  {
    forall k | k in ks[1..]
      ensures Precedes(d, ks[0], k) && k != ks[0]
    {
      var i :| 0 <= i < |ks[1..]| && ks[1..][i] == k;
      assert ks[i + 1] == k;
      PrecedesTotal(d, k, k);
    }
  }

  lemma ListsEmpty(ks: seq<bytes>, s: set<bytes>)
    requires Lists(ks, s)
    ensures ks == [] <==> s == {}
  {
    if ks != [] {
      assert ks[0] in ks;
    }
  }

  /** A set has one sorted listing only, so sorting by direction and listing a set determine a scan. */
  lemma {:induction false} SortedUnique(d: Direction, ks: seq<bytes>, ls: seq<bytes>, s: set<bytes>)
    requires Sorted(d, ks) && Sorted(d, ls) && Lists(ks, s) && Lists(ls, s)
    ensures ks == ls
    decreases |ks|
  {
    ListsEmpty(ks, s);
    ListsEmpty(ls, s);
    if ks != [] {
      SortedTail(d, ks);
      SortedTail(d, ls);
      assert ks[0] in ks && ls[0] in ls;
      assert ks == [ks[0]] + ks[1..] && ls == [ls[0]] + ls[1..];
      PrecedesTotal(d, ks[0], ls[0]);
      assert ks[0] in ls && ls[0] in ks;
      assert ks[0] == ls[0];
      SortedUnique(d, ks[1..], ls[1..], s - {ks[0]});
    }
  }

  // Resuming after a cursor.

  /** The range left after a cursor, depending on the direction. */
  function WithCursor(r: Range<bytes>, d: Direction, c: bytes): Range<bytes> {
    if d.LeftToRight? then Range(Excluded(c), r.end) else Range(r.start, Excluded(c))
  }

  function From(r: Range<bytes>, d: Direction, c: Cursor): Range<bytes> {
    if c.NoCursor? then r else WithCursor(r, d, c.key)
  }

  /** A cursor inside the range leaves exactly the keys of the range that come after it. */
  lemma CursorMeaning(r: Range<bytes>, d: Direction, c: bytes, k: bytes)
    requires Contains(r, c)
    ensures Contains(WithCursor(r, d, c), k) <==> Contains(r, k) && Precedes(d, c, k)
  {
    if d.LeftToRight? && Less(c, k) && !r.start.Unbounded? {
      LessTotal(r.start.value, k);
      if r.start.Excluded? {
        LessTransitive(r.start.value, c, k);
      } else {
        AtMostLess(r.start.value, c, k);
      }
    }
    if d.RightToLeft? && Less(k, c) && !r.end.Unbounded? {
      LessTotal(k, r.end.value);
      if r.end.Excluded? {
        LessTransitive(k, c, r.end.value);
      } else {
        LessAtMost(k, c, r.end.value);
      }
    }
  }

  /** A range that contains anything is acceptable, and so is what a cursor inside it leaves of it. */
  lemma CursorKeepsAcceptable(r: Range<bytes>, d: Direction, c: bytes)
    requires Contains(r, c)
    ensures Acceptable(r) && Acceptable(WithCursor(r, d, c))
  {
    if !r.start.Unbounded? {
      LessTotal(r.start.value, c);
    }
    if !r.end.Unbounded? {
      LessTotal(c, r.end.value);
    }
    if !r.start.Unbounded? && !r.end.Unbounded? && Less(r.start.value, c) && Less(c, r.end.value) {
      LessTransitive(r.start.value, c, r.end.value);
    }
  }

  /** Within one snapshot, resuming after the i-th key yields exactly the keys after it. */
  lemma ResumeYieldsRest(store: Store, r: Range<bytes>, d: Direction, i: nat)
    requires i < |ScanKeys(store, r, d)|
    ensures Contains(r, ScanKeys(store, r, d)[i])
    ensures ScanKeys(store, WithCursor(r, d, ScanKeys(store, r, d)[i]), d) == ScanKeys(store, r, d)[i + 1..]
  {
    var ks := ScanKeys(store, r, d);
    var c, rest := ks[i], ks[i + 1..];
    assert c in ks && c in KeysIn(store, r);
    var left := WithCursor(r, d, c);
    forall k | k in rest
      ensures k in KeysIn(store, left)
    {
      var j :| 0 <= j < |rest| && rest[j] == k;
      assert ks[i + 1 + j] == k && k in ks;
      CursorMeaning(r, d, c, k);
    }
    forall k | k in KeysIn(store, left)
      ensures k in rest
    {
      CursorMeaning(r, d, c, k);
      assert k in ks;
      var j :| 0 <= j < |ks| && ks[j] == k;
      PrecedesTotal(d, c, k);
      assert rest[j - i - 1] == k;
    }
    assert Lists(rest, KeysIn(store, left));
    SortedUnique(d, rest, ScanKeys(store, left, d), KeysIn(store, left));
  }

  // Paging: each page is read from its own snapshot and resumes after the last key of the page before.

  ghost predicate Paged(snapshots: seq<Store>, r: Range<bytes>, d: Direction, c: Cursor, pages: seq<seq<bytes>>)
    decreases |snapshots|
  {
    snapshots != [] && |pages| == |snapshots| && Acceptable(From(r, d, c))
    && var all := ScanKeys(snapshots[0], From(r, d, c), d);
       if |snapshots| == 1 then pages[0] == all
       else
         pages[0] != [] && pages[0] <= all
         && Paged(snapshots[1..], r, d, At(pages[0][|pages[0]| - 1]), pages[1..])
  }

  function Flatten<T>(pages: seq<seq<T>>): seq<T> {
    if pages == [] then [] else pages[0] + Flatten(pages[1..])
  }

  predicate CursorInside(r: Range<bytes>, c: Cursor) {
    c.At? ==> Contains(r, c.key)
  }

  predicate ComesAfter(d: Direction, c: Cursor, k: bytes) {
    c.At? ==> Precedes(d, c.key, k)
  }

  lemma FromMeaning(r: Range<bytes>, d: Direction, c: Cursor, k: bytes)
    requires CursorInside(r, c)
    ensures Contains(From(r, d, c), k) <==> Contains(r, k) && ComesAfter(d, c, k)
  {
    if c.At? {
      CursorMeaning(r, d, c.key, k);
    }
  }

  /** What the first page holds: sorted keys of the range after the cursor, and all of those up to its last one. */
  lemma PageHolds(store: Store, r: Range<bytes>, d: Direction, c: Cursor, page: seq<bytes>)
    requires CursorInside(r, c) && page <= ScanKeys(store, From(r, d, c), d)
    ensures Sorted(d, page)
    ensures forall k | k in page :: k in store && Contains(r, k) && ComesAfter(d, c, k)
    ensures page != [] ==> forall k | k in store && Contains(r, k) && ComesAfter(d, c, k) ::
              k in page || Precedes(d, page[|page| - 1], k)
  {
    var all := ScanKeys(store, From(r, d, c), d);
    forall k
      ensures k in KeysIn(store, From(r, d, c)) <==> k in store && Contains(r, k) && ComesAfter(d, c, k)
    {
      FromMeaning(r, d, c, k);
    }
    forall k | k in page
      ensures k in all
    {
      var i :| 0 <= i < |page| && page[i] == k;
      assert all[i] == k;
    }
    if page != [] {
      forall k | k in all
        ensures k in page || Precedes(d, page[|page| - 1], k)
      {
        var i :| 0 <= i < |all| && all[i] == k;
        if i < |page| {
          assert page[i] == k;
        } else {
          assert page[|page| - 1] == all[|page| - 1];
        }
      }
    }
  }

  lemma SortedConcat(d: Direction, a: seq<bytes>, b: seq<bytes>)
    requires Sorted(d, a) && Sorted(d, b)
    requires a != [] ==> forall k | k in b :: Precedes(d, a[|a| - 1], k)
    ensures Sorted(d, a + b)
  {
    forall i, j | 0 <= i < j < |a + b|
      ensures Precedes(d, (a + b)[i], (a + b)[j])
    {
      if i < |a| <= j {
        var k := b[j - |a|];
        assert k in b;
        if i < |a| - 1 {
          PrecedesTransitive(d, a[i], a[|a| - 1], k);
        }
      }
    }
  }

  ghost predicate InSome(snapshots: seq<Store>, k: bytes) {
    exists s :: s in snapshots && k in s
  }

  ghost predicate InAll(snapshots: seq<Store>, k: bytes) {
    forall s | s in snapshots :: k in s
  }

  /**
   * What paging must yield: keys strictly sorted in the direction, hence none twice; only keys of the range after
   * the cursor that some snapshot holds; and every such key that all the snapshots hold.
   */
  ghost predicate ExactPaging(snapshots: seq<Store>, r: Range<bytes>, d: Direction, c: Cursor, out: seq<bytes>) {
    && Sorted(d, out)
    && (forall k | k in out :: Contains(r, k) && ComesAfter(d, c, k) && InSome(snapshots, k))
    && (forall k | Contains(r, k) && ComesAfter(d, c, k) && InAll(snapshots, k) :: k in out)
  }

  lemma PageThenRest(snapshots: seq<Store>, r: Range<bytes>, d: Direction, c: Cursor, page: seq<bytes>,
                     rest: seq<bytes>)
    requires snapshots != [] && page != []
    requires CursorInside(r, c) && page <= ScanKeys(snapshots[0], From(r, d, c), d)
    requires ExactPaging(snapshots[1..], r, d, At(page[|page| - 1]), rest)
    ensures ExactPaging(snapshots, r, d, c, page + rest)
  {
    var last, first, others := page[|page| - 1], snapshots[0], snapshots[1..];
    PageHolds(first, r, d, c, page);
    assert last in page && first in snapshots;
    SortedConcat(d, page, rest);
    forall k | k in rest
      ensures ComesAfter(d, c, k) && InSome(snapshots, k)
    {
      if c.At? {
        PrecedesTransitive(d, c.key, last, k);
      }
      var s :| s in others && k in s;
      assert s in snapshots;
    }
    forall k | Contains(r, k) && ComesAfter(d, c, k) && InAll(snapshots, k)
      ensures k in page + rest
    {
      assert forall s | s in others :: s in snapshots;
      assert k in page || ComesAfter(d, At(last), k);
    }
  }

  lemma OnlyPage(store: Store, r: Range<bytes>, d: Direction, c: Cursor)
    requires CursorInside(r, c)
    ensures ExactPaging([store], r, d, c, ScanKeys(store, From(r, d, c), d))
  {
    var all := ScanKeys(store, From(r, d, c), d);
    PageHolds(store, r, d, c, all);
    assert store in [store];
    forall k | Contains(r, k) && ComesAfter(d, c, k) && InAll([store], k)
      ensures k in all
    {
      FromMeaning(r, d, c, k);
      assert k in KeysIn(store, From(r, d, c));
    }
  }

  /** Pages chained by their last keys, each read from its own snapshot, page exactly. */
  lemma {:induction false} PagingIsExact(snapshots: seq<Store>, r: Range<bytes>, d: Direction, c: Cursor,
                                         pages: seq<seq<bytes>>)
    requires CursorInside(r, c) && Paged(snapshots, r, d, c, pages)
    ensures ExactPaging(snapshots, r, d, c, Flatten(pages))
    decreases |snapshots|
  {
    var page := pages[0];
    if |snapshots| == 1 {
      assert snapshots == [snapshots[0]] && page + Flatten(pages[1..]) == page;
      OnlyPage(snapshots[0], r, d, c);
    } else {
      var last := page[|page| - 1];
      PageHolds(snapshots[0], r, d, c, page);
      assert last in page;
      PagingIsExact(snapshots[1..], r, d, At(last), pages[1..]);
      PageThenRest(snapshots, r, d, c, page, Flatten(pages[1..]));
    }
  }
}
