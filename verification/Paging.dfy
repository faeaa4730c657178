/**
 * Cursor pagination over tuples: the in-place insertion sort of `paginateTuples`, the page it
 * cuts, and the walk a client makes by following `NextCursor`.
 */
module Paging {
  import opened Common
  import opened TupleStore

  // ---------------------------------------------------------------- the order of rows

  /** Byte-wise string order. */
  predicate StringLess(a: string, b: string)
    decreases |a|
  {
    if b == [] then false
    else if a == [] then true
    else if a[0] != b[0] then a[0] < b[0]
    else StringLess(a[1..], b[1..])
  }

  lemma {:induction false} StringLessTotal(a: string, b: string)
    ensures (StringLess(a, b) && !StringLess(b, a) && a != b)
         || (StringLess(b, a) && !StringLess(a, b) && a != b)
         || (a == b && !StringLess(a, b))
    decreases |a|
  {
    if a != [] && b != [] {
      if a[0] == b[0] {
        StringLessTotal(a[1..], b[1..]);
        assert a == [a[0]] + a[1..] && b == [b[0]] + b[1..];
      }
    }
  }

  lemma {:induction false} StringLessTransitive(a: string, b: string, c: string)
    requires StringLess(a, b) && StringLess(b, c)
    ensures StringLess(a, c)
    decreases |a|
  {
    if a != [] && a[0] == b[0] && b[0] == c[0] {
      StringLessTransitive(a[1..], b[1..], c[1..]);
    }
  }

  /** (CreatedAt, ID) order. */
  predicate Before(a: Tuple, b: Tuple) {
    a.createdAt < b.createdAt || (a.createdAt == b.createdAt && StringLess(a.id, b.id))
  }

  lemma BeforeIsOrder(a: Tuple, b: Tuple, c: Tuple)
    ensures !(Before(a, b) && Before(b, a))
    ensures Before(a, b) && Before(b, c) ==> Before(a, c)
    ensures a.id != b.id ==> Before(a, b) || Before(b, a)
  {
    StringLessTotal(a.id, b.id);
    if StringLess(a.id, b.id) && StringLess(b.id, c.id) {
      StringLessTransitive(a.id, b.id, c.id);
    }
  }

  // ---------------------------------------------------------------- listings

  /** No two rows share an id. */
  ghost predicate UniqueIds(rows: seq<Tuple>) {
    forall i, j :: 0 <= i < j < |rows| ==> rows[i].id != rows[j].id
  }

  ghost predicate Sorted(rows: seq<Tuple>) {
    forall i, j :: 0 <= i < j < |rows| ==> Before(rows[i], rows[j])
  }

  /** `rows` lists the set in (CreatedAt, ID) order. */
  ghost predicate Lists(rows: seq<Tuple>, stored: set<Tuple>) {
    Sorted(rows) && UniqueIds(rows) && Elements(rows) == stored
  }

  /** Rows that all come later extend the listing at its end. */
  lemma {:induction false} LaterRowsExtend(rows: seq<Tuple>, stored: set<Tuple>, rows': seq<Tuple>, stored': set<Tuple>, n: nat)
    requires Lists(rows, stored) && Lists(rows', stored') && stored <= stored'
    requires forall t, t' :: t in stored && t' in stored' - stored ==> Before(t, t')
    requires n <= |rows|
    ensures n <= |rows'| && rows[..n] == rows'[..n]
  {
    if n > 0 {
      var m := n - 1;
      LaterRowsExtend(rows, stored, rows', stored', m);
      var x := rows[m];
      assert x in Elements(rows);
      assert x in Elements(rows');
      var k :| 0 <= k < |rows'| && rows'[k] == x;
      assert forall j :: 0 <= j < m ==> rows[..m][j] == rows'[..m][j];
      assert forall j :: 0 <= j < m ==> rows[j] == rows'[j];
      assert k >= m;
      var y := rows'[m];
      assert y in Elements(rows');
      assert k > m ==> Before(y, x);
      if y in stored {
        assert y in Elements(rows);
        var i :| 0 <= i < |rows| && rows[i] == y;
        assert i >= m;
        assert i > m ==> Before(x, y);
      } else {
        assert Before(x, y);
      }
      BeforeIsOrder(x, y, x);
      assert rows[..n] == rows[..m] + [x] && rows'[..n] == rows'[..m] + [y];
    }
  }

  // ---------------------------------------------------------------- one page

  datatype Page = Page(data: seq<Tuple>, nextCursor: Option<string>)

  function EffectiveLimit(limit: int): (r: nat)
    ensures r >= 1
  {
    if limit <= 0 then 50 else limit
  }

  /** The index after the first row with the cursor's id, from `i` on; 0 when there is none. */
  function StartFrom(rows: seq<Tuple>, cursor: string, i: nat): (r: nat)
    requires i <= |rows|
    ensures r <= |rows|
    decreases |rows| - i
  {
    if i == |rows| then 0
    else if rows[i].id == cursor then i + 1
    else StartFrom(rows, cursor, i + 1)
  }

  function StartIndex(rows: seq<Tuple>, cursor: Option<string>): (r: nat)
    ensures r <= |rows|
  {
    if cursor.None? || cursor.value == "" then 0 else StartFrom(rows, cursor.value, 0)
  }

  function Cut(rows: seq<Tuple>, cursor: Option<string>, limit: nat): Page
    requires limit >= 1
  {
    var start := StartIndex(rows, cursor);
    var end := if start + limit > |rows| then |rows| else start + limit;
    Page(rows[start..end],
         if end < |rows| && end > start then Some(rows[end - 1].id) else None)
  }

  lemma {:induction false} StartAfter(rows: seq<Tuple>, k: nat, i: nat)
    requires UniqueIds(rows) && i <= k < |rows|
    ensures StartFrom(rows, rows[k].id, i) == k + 1
    decreases k - i
  {
    if i < k {
      StartAfter(rows, k, i + 1);
    }
  }

  lemma {:induction false} StartUnknown(rows: seq<Tuple>, cursor: string, i: nat)
    requires i <= |rows| && forall k :: i <= k < |rows| ==> rows[k].id != cursor
    ensures StartFrom(rows, cursor, i) == 0
    decreases |rows| - i
  {
    if i < |rows| {
      StartUnknown(rows, cursor, i + 1);
    }
  }

  /** A page holds the rows after the cursor's row, or the first rows when no row has the cursor's id, up to the limit; it names
      its last row as the next cursor exactly when rows remain. */
  lemma PageExact(rows: seq<Tuple>, cursor: Option<string>, limit: nat, n: nat)
    requires limit >= 1 && UniqueIds(rows) && n <= |rows|
    requires cursor.Some? && cursor.value != "" && n > 0 ==> rows[n - 1].id == cursor.value
    requires cursor.Some? && cursor.value != "" && n == 0 ==> forall k :: 0 <= k < |rows| ==> rows[k].id != cursor.value
    requires cursor.None? || cursor.value == "" ==> n == 0
    ensures var page := Cut(rows, cursor, limit);
      if n + limit < |rows| then page == Page(rows[n..n + limit], Some(rows[n + limit - 1].id)) else page == Page(rows[n..], None)
  {
    if cursor.Some? && cursor.value != "" {
      if n > 0 {
        StartAfter(rows, n - 1, 0);
      } else {
        StartUnknown(rows, cursor.value, 0);
      }
    }
  }

  // ---------------------------------------------------------------- the sort

  method Swap(a: array<Tuple>, j: nat)
    requires 0 < j < a.Length
    modifies a
    ensures a[..] == old(a[..])[j - 1 := old(a[j])][j := old(a[j - 1])]
    ensures multiset(a[..]) == multiset(old(a[..]))
  {
    a[j - 1], a[j] := a[j], a[j - 1];
  }

  /** The loop invariant of the insertion: everything up to `i` is in order, except that the
      moving row `j` has not yet been compared with the rows before it. */
  ghost predicate SortedExcept(rows: seq<Tuple>, i: nat, j: nat) {
    && j <= i < |rows|
    && (forall p, q :: 0 <= p < q <= i && q != j ==> Before(rows[p], rows[q]))
  }

  lemma SwapStep(rows: seq<Tuple>, rows': seq<Tuple>, i: nat, j: nat)
    requires SortedExcept(rows, i, j) && 0 < j && UniqueIds(rows)
    requires Before(rows[j], rows[j - 1])
    requires rows' == rows[j - 1 := rows[j]][j := rows[j - 1]]
    ensures SortedExcept(rows', i, j - 1) && UniqueIds(rows')
  {
    forall p, q | 0 <= p < q <= i && q != j - 1 ensures Before(rows'[p], rows'[q]) {
      if q == j {
        assert p < j - 1 ==> Before(rows[p], rows[j - 1]);
      } else if q > j {
        assert Before(rows[j], rows[q]) && Before(rows[j - 1], rows[q]) && Before(rows[p], rows[q]);
      } else {
        assert Before(rows[p], rows[q]);
      }
    }
  }

  lemma StopStep(rows: seq<Tuple>, i: nat, j: nat)
    requires SortedExcept(rows, i, j) && UniqueIds(rows)
    requires j > 0 ==> !Before(rows[j], rows[j - 1])
    ensures Sorted(rows[..i + 1])
  {
    if j > 0 {
      BeforeIsOrder(rows[j - 1], rows[j], rows[j]);
      forall p | 0 <= p < j ensures Before(rows[p], rows[j]) {
        if p < j - 1 {
          assert Before(rows[p], rows[j - 1]);
          BeforeIsOrder(rows[p], rows[j - 1], rows[j]);
        }
      }
    }
  }

  lemma SortedExtends(rows: seq<Tuple>, i: nat)
    requires i < |rows| && Sorted(rows[..i])
    ensures SortedExcept(rows, i, i)
  {
    forall p, q | 0 <= p < q < i ensures Before(rows[p], rows[q]) {
      assert rows[..i][p] == rows[p] && rows[..i][q] == rows[q];
    }
  }

  /** Sorts the matched rows in place and cuts one page out of them. */
  method PaginateTuples(matched: array<Tuple>, cursor: Option<string>, limit: nat) returns (page: Page)
    requires UniqueIds(matched[..]) && limit >= 1
    modifies matched
    ensures Sorted(matched[..]) && UniqueIds(matched[..])
    ensures multiset(matched[..]) == multiset(old(matched[..]))
    ensures page == Cut(matched[..], cursor, limit)
  {
    var i := 1;
    while i < matched.Length
      invariant 1 <= i && (i <= matched.Length || matched.Length == 0)
      invariant UniqueIds(matched[..]) && multiset(matched[..]) == multiset(old(matched[..]))
      invariant Sorted(matched[..if i <= matched.Length then i else 0])
    {
      var j := i;
      SortedExtends(matched[..], i);
      while j > 0
        invariant SortedExcept(matched[..], i, j)
        invariant UniqueIds(matched[..]) && multiset(matched[..]) == multiset(old(matched[..]))
      {
        if Before(matched[j], matched[j - 1]) {
          ghost var rows := matched[..];
          Swap(matched, j);
          SwapStep(rows, matched[..], i, j);
        } else {
          break;
        }
        j := j - 1;
      }
      StopStep(matched[..], i, j);
      i := i + 1;
      assert matched[..][..i] == matched[..i];
    }
    assert matched[..matched.Length] == matched[..];
    page := CutPage(matched, cursor, limit);
  }

  method CutPage(matched: array<Tuple>, cursor: Option<string>, limit: nat) returns (page: Page)
    requires limit >= 1
    ensures page == Cut(matched[..], cursor, limit)
  {
    var startIdx := 0;
    if cursor.Some? && cursor.value != "" {
      var i := 0;
      while i < matched.Length
        invariant i <= matched.Length && startIdx == 0
        invariant StartFrom(matched[..], cursor.value, 0) == StartFrom(matched[..], cursor.value, i)
      {
        if matched[i].id == cursor.value {
          startIdx := i + 1;
          break;
        }
        i := i + 1;
      }
    }
    var end := startIdx + limit;
    if end > matched.Length {
      end := matched.Length;
    }
    var data := matched[startIdx..end];
    assert data == matched[..][startIdx..end];
    var next: Option<string> := None;
    if end < matched.Length && |data| > 0 {
      next := Some(data[|data| - 1].id);
    }
    page := Page(data, next);
  }

  // ---------------------------------------------------------------- listing a subject's tuples

  function TuplesOfSubject(tuples: map<string, Tuple>, st: string, sid: string): set<Tuple> {
    set id | id in tuples && tuples[id].HeldBy(st, sid) :: tuples[id]
  }

  lemma SortedRowsList(rows: seq<Tuple>, gathered: seq<Tuple>, stored: set<Tuple>)
    requires Sorted(rows) && UniqueIds(rows) && multiset(rows) == multiset(gathered) && Elements(gathered) == stored
    ensures Lists(rows, stored)
  {
    forall t ensures t in rows <==> t in gathered {
      assert t in rows <==> t in multiset(rows);
      assert t in gathered <==> t in multiset(gathered);
    }
  }

  /** Gathers the subject's tuples in whatever order the map yields them. */
  method GatherSubject(store: InMemoryTupleStore, st: string, sid: string) returns (matched: seq<Tuple>)
    requires store.Valid()
    ensures UniqueIds(matched) && Elements(matched) == TuplesOfSubject(store.tuples, st, sid)
  {
    matched := [];
    var pending := store.tuples.Keys;
    while pending != {}
      invariant pending <= store.tuples.Keys
      invariant UniqueIds(matched)
      invariant forall t :: t in matched <==>
        t.id in store.tuples && t == store.tuples[t.id] && t.HeldBy(st, sid) && t.id !in pending
      decreases pending
    {
      var id :| id in pending;
      var t := store.tuples[id];
      if t.subjectType == st && t.subjectId == sid {
        assert forall i :: 0 <= i < |matched| ==> matched[i] in matched && matched[i].id != id;
        matched := matched + [t];
      }
      pending := pending - {id};
    }
  }

  /** A page of the subject's tuples is cut from their listing in (CreatedAt, ID) order. */
  method ListTuplesBySubject(store: InMemoryTupleStore, st: string, sid: string, cursor: Option<string>, limit: int)
    returns (page: Page)
    requires store.Valid()
    ensures exists rows :: Lists(rows, TuplesOfSubject(store.tuples, st, sid)) && page == Cut(rows, cursor, if limit <= 0 then 50 else limit)
  {
    var gathered := GatherSubject(store, st, sid);
    var matched := new Tuple[|gathered|](i requires 0 <= i < |gathered| => gathered[i]);
    assert matched[..] == gathered;
    page := PaginateTuples(matched, cursor, EffectiveLimit(limit));
    SortedRowsList(matched[..], gathered, TuplesOfSubject(store.tuples, st, sid));
  }

  /** A set has one listing, so a page does not depend on the order in which tuples were gathered. */
  lemma ListingUnique(rows: seq<Tuple>, rows': seq<Tuple>, stored: set<Tuple>)
    requires Lists(rows, stored) && Lists(rows', stored)
    ensures rows == rows'
  {
    LaterRowsExtend(rows, stored, rows', stored, |rows|);
    LaterRowsExtend(rows', stored, rows, stored, |rows'|);
    assert rows[..|rows|] == rows && rows'[..|rows'|] == rows';
  }

  /** Creating a tuple with a later key extends the subject's listing at its end. */
  lemma CreateGrowsAtTheEnd(s: State, input: CreateTupleInput, id: string, now: int, st: string, sid: string)
    requires Fresh(s, Create(input, id, now))
    requires forall t :: t in TuplesOfSubject(s.tuples, st, sid) ==> Before(t, NewTuple(input, id, now))
    ensures GrowsAtTheEnd([TuplesOfSubject(s.tuples, st, sid), TuplesOfSubject(Apply(s, Create(input, id, now)).tuples, st, sid)])
  {
    var s' := Apply(s, Create(input, id, now));
    var before, after := TuplesOfSubject(s.tuples, st, sid), TuplesOfSubject(s'.tuples, st, sid);
    forall t | t in before ensures t in after {
      var x :| x in s.tuples && s.tuples[x].HeldBy(st, sid) && s.tuples[x] == t;
      assert s'.tuples[x] == t;
    }
    forall t | t in after ensures t in before || t == NewTuple(input, id, now) {
      var x :| x in s'.tuples && s'.tuples[x].HeldBy(st, sid) && s'.tuples[x] == t;
      if x in s.tuples {
        assert s.tuples[x] == t;
      }
    }
  }

  // ---------------------------------------------------------------- the walk

  /** The cursor a client holds after `k` calls; call `i` sees the listing `views[i]`. */
  function CursorAfter(views: seq<seq<Tuple>>, limit: nat, k: nat): Option<string>
    requires limit >= 1 && k <= |views|
  {
    if k == 0 then None else Cut(views[k - 1], CursorAfter(views, limit, k - 1), limit).nextCursor
  }

  /** Everything the first `k` calls returned. */
  function Collected(views: seq<seq<Tuple>>, limit: nat, k: nat): seq<Tuple>
    requires limit >= 1 && k <= |views|
  {
    if k == 0 then []
    else Collected(views, limit, k - 1) + Cut(views[k - 1], CursorAfter(views, limit, k - 1), limit).data
  }

  /** What the store looks like at each call: nothing is deleted, and what is added comes
      later than everything already there. */
  ghost predicate GrowsAtTheEnd(stored: seq<set<Tuple>>) {
    forall i :: 0 <= i < |stored| - 1 ==>
      && stored[i] <= stored[i + 1]
      && forall t, t' :: t in stored[i] && t' in stored[i + 1] - stored[i] ==> Before(t, t')
  }

  ghost predicate Views(views: seq<seq<Tuple>>, stored: seq<set<Tuple>>) {
    && |views| == |stored|
    && (forall i :: 0 <= i < |views| ==> Lists(views[i], stored[i]))
    && (forall i :: 0 <= i < |stored| ==> forall t :: t in stored[i] ==> t.id != "")
  }

  /** The walk has not yet met a nil cursor in its first `k` calls. */
  ghost predicate StillWalking(views: seq<seq<Tuple>>, limit: nat, k: nat)
    requires limit >= 1 && k <= |views|
  {
    forall i :: 0 < i <= k ==> CursorAfter(views, limit, i).Some?
  }

  /** After `k` calls the client has exactly the first k * limit rows, and more are left. */
  ghost predicate HoldsPrefix(views: seq<seq<Tuple>>, limit: nat, k: nat)
    requires limit >= 1 && k <= |views|
  {
    k > 0 ==>
      && 0 < k * limit < |views[k - 1]|
      && Collected(views, limit, k) == views[k - 1][..k * limit]
      && CursorAfter(views, limit, k) == Some(views[k - 1][k * limit - 1].id)
  }

  lemma {:induction false} WalkPrefix(views: seq<seq<Tuple>>, stored: seq<set<Tuple>>, limit: nat, k: nat)
    requires limit >= 1 && k <= |views| && Views(views, stored) && GrowsAtTheEnd(stored)
    requires StillWalking(views, limit, k)
    ensures HoldsPrefix(views, limit, k)
  {
    if k > 0 {
      WalkPrefix(views, stored, limit, k - 1);
      WalkStep(views, stored, limit, k - 1);
      assert CursorAfter(views, limit, k).Some?;
    }
  }

  lemma CutAt(rows: seq<Tuple>, cursor: Option<string>, limit: nat, n: nat)
    requires limit >= 1 && n <= |rows| && StartIndex(rows, cursor) == n
    ensures var page := Cut(rows, cursor, limit);
      && (page.nextCursor.Some? ==>
            && n + limit < |rows|
            && rows[..n] + page.data == rows[..n + limit]
            && page.nextCursor == Some(rows[n + limit - 1].id))
      && (page.nextCursor.None? ==> rows[..n] + page.data == rows)
  {
    var end := if n + limit > |rows| then |rows| else n + limit;
    assert rows[..n] + rows[n..end] == rows[..end];
    assert rows[..|rows|] == rows;
  }

  /** The rows already collected are still the first rows of the next listing, and the cursor
      still points at the last of them. */
  lemma CursorStillThere(views: seq<seq<Tuple>>, stored: seq<set<Tuple>>, limit: nat, k: nat)
    requires limit >= 1 && k < |views| && Views(views, stored) && GrowsAtTheEnd(stored)
    requires HoldsPrefix(views, limit, k)
    ensures k * limit <= |views[k]|
    ensures Collected(views, limit, k) == views[k][..k * limit]
    ensures StartIndex(views[k], CursorAfter(views, limit, k)) == k * limit
  {
    if k > 0 {
      var prev, rows, n := views[k - 1], views[k], k * limit;
      assert stored[k - 1] <= stored[(k - 1) + 1];
      LaterRowsExtend(prev, stored[k - 1], rows, stored[k], n);
      assert prev[n - 1] == prev[..n][n - 1] == rows[..n][n - 1] == rows[n - 1];
      assert rows[n - 1] in Elements(rows);
      assert rows[n - 1] in stored[k];
      StartAfter(rows, n - 1, 0);
    }
  }

  lemma WalkStep(views: seq<seq<Tuple>>, stored: seq<set<Tuple>>, limit: nat, k: nat)
    requires limit >= 1 && k < |views| && Views(views, stored) && GrowsAtTheEnd(stored)
    requires HoldsPrefix(views, limit, k)
    ensures CursorAfter(views, limit, k + 1).Some? ==> HoldsPrefix(views, limit, k + 1)
    ensures CursorAfter(views, limit, k + 1).None? ==> Collected(views, limit, k + 1) == views[k]
  {
    hide StartIndex, Cut;
    CursorStillThere(views, stored, limit, k);
    CutAt(views[k], CursorAfter(views, limit, k), limit, k * limit);
    assert (k + 1) * limit == k * limit + limit;
  }

  /** Following NextCursor to the end returns exactly the listing of the store as the last
      call saw it: every row present at the start once, in order, whatever was added later. */
  lemma CursorWalk(views: seq<seq<Tuple>>, stored: seq<set<Tuple>>, limit: nat, k: nat)
    requires limit >= 1 && k < |views| && Views(views, stored) && GrowsAtTheEnd(stored)
    requires StillWalking(views, limit, k) && CursorAfter(views, limit, k + 1).None?
    ensures Collected(views, limit, k + 1) == views[k]
    ensures Sorted(Collected(views, limit, k + 1)) && UniqueIds(Collected(views, limit, k + 1))
    ensures forall t :: t in stored[0] ==> t in Collected(views, limit, k + 1)
  {
    WalkPrefix(views, stored, limit, k);
    WalkStep(views, stored, limit, k);
    StoredGrows(stored, k);
    forall t | t in stored[0] ensures t in views[k] {
      assert t in Elements(views[k]);
    }
  }

  lemma {:induction false} StoredGrows(stored: seq<set<Tuple>>, k: nat)
    requires GrowsAtTheEnd(stored) && k < |stored|
    ensures stored[0] <= stored[k]
  {
    if k > 0 {
      StoredGrows(stored, k - 1);
      assert stored[k - 1] <= stored[(k - 1) + 1];
    }
  }

  /** The walk ends: it can make at most as many calls that return a cursor as there are rows. */
  lemma WalkEnds(views: seq<seq<Tuple>>, stored: seq<set<Tuple>>, limit: nat, k: nat)
    requires limit >= 1 && 0 < k <= |views| && Views(views, stored) && GrowsAtTheEnd(stored)
    requires |views[k - 1]| <= k * limit
    ensures !StillWalking(views, limit, k)
  {
    if StillWalking(views, limit, k) {
      WalkPrefix(views, stored, limit, k);
    }
  }
}
