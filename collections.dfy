/** The query steps the controllers ask of the document store, as functions on
    the collection's records in their natural (insertion) order: `find` with a
    filter, `countDocuments`, `sort` on one numeric field, `skip`/`limit`, and the
    `findOne` that picks the first match. */
module Collections {
  import opened Common

  // Facts about sequences, each proved apart from the recursive functions
  // below so that the solver meets them without those functions' axioms.

  lemma SplitAt<T>(s: seq<T>, k: nat)
    requires k < |s|
    ensures s == (s[..k] + [s[k]]) + s[k + 1..]
  {
  }

  lemma ReplaceAt<T>(s: seq<T>, k: nat, x: T)
    requires k < |s|
    ensures s[k := x] == (s[..k] + [x]) + s[k + 1..]
  {
  }

  lemma HeadOfAppend<T>(a: seq<T>, b: seq<T>)
    ensures a == [] ==> a + b == b
    ensures a != [] ==> (a + b)[0] == a[0] && (a + b)[1..] == a[1..] + b
  {
  }

  lemma MultisetSplit<T>(s: seq<T>, k: nat)
    requires k < |s|
    ensures multiset(s[..k] + s[k + 1..]) == multiset(s) - multiset{s[k]}
    ensures k == 0 ==> s[..k] + s[k + 1..] == s[1..]
  {
    SplitAt(s, k);
  }

  lemma SingletonTail<T>(x: T)
    ensures [x][1..] == []
  {
  }

  /** The records of `s` that satisfy `keep`, in their order in `s`. */
  function Filter<T>(s: seq<T>, keep: T -> bool): (r: seq<T>)
    ensures |r| <= |s|
    ensures forall i :: 0 <= i < |r| ==> keep(r[i]) && r[i] in s
    ensures forall i :: 0 <= i < |s| && keep(s[i]) ==> s[i] in r
  {
    if s == [] then []
    else (if keep(s[0]) then [s[0]] else []) + Filter(s[1..], keep)
  }

  /** Filtering distributes over the concatenation of two collections. */
  lemma {:induction false} FilterAppend<T>(a: seq<T>, b: seq<T>, keep: T -> bool)
    ensures Filter(a + b, keep) == Filter(a, keep) + Filter(b, keep)
  {
    HeadOfAppend(a, b);
    if a != [] {
      FilterAppend(a[1..], b, keep);
    }
  }

  /** Two filters that agree on every record of `s` select the same records. */
  lemma {:induction false} FilterCongruent<T>(s: seq<T>, keep: T -> bool, keep': T -> bool)
    requires forall i :: 0 <= i < |s| ==> keep(s[i]) == keep'(s[i])
    ensures Filter(s, keep) == Filter(s, keep')
  {
    if s != [] {
      FilterCongruent(s[1..], keep, keep');
    }
  }

  /** Removing a record the filter rejects does not change what it selects. */
  lemma {:induction false} FilterRemoveRejected<T>(s: seq<T>, i: nat, keep: T -> bool)
    requires i < |s| && !keep(s[i])
    ensures Filter(RemoveAt(s, i), keep) == Filter(s, keep)
  {
    var a, x, b := s[..i], [s[i]], s[i + 1..];
    SplitAt(s, i);
    FilterSingle(s[i], keep);
    FilterAppend(a + x, b, keep);
    FilterAppend(a, x, keep);
    FilterAppend(a, b, keep);
    assert Filter(a + x, keep) == Filter(a, keep);
  }

  /** Removing a record the filter selects lowers its count by one. */
  lemma {:induction false} CountRemoveSelected<T>(s: seq<T>, i: nat, keep: T -> bool)
    requires i < |s| && keep(s[i])
    ensures Count(RemoveAt(s, i), keep) == Count(s, keep) - 1
  {
    SplitAt(s, i);
    FilterAppend(s[..i] + [s[i]], s[i + 1..], keep);
    FilterAppend(s[..i], [s[i]], keep);
    FilterAppend(s[..i], s[i + 1..], keep);
    FilterSingle(s[i], keep);
  }

  /** A filter every record passes keeps the collection as it is. */
  lemma {:induction false} FilterKeepsAll<T>(s: seq<T>, keep: T -> bool)
    requires forall i :: 0 <= i < |s| ==> keep(s[i])
    ensures Filter(s, keep) == s
  {
    if s != [] {
      FilterKeepsAll(s[1..], keep);
      assert s == [s[0]] + s[1..];
    }
  }

  lemma FilterSingle<T>(x: T, keep: T -> bool)
    ensures Filter([x], keep) == if keep(x) then [x] else []
  {
    SingletonTail(x);
  }

  /** `countDocuments`: how many records satisfy `keep`. */
  function Count<T>(s: seq<T>, keep: T -> bool): (n: nat)
    ensures n <= |s|
    ensures n == 0 <==> forall i :: 0 <= i < |s| ==> !keep(s[i])
  {
    var r := Filter(s, keep);
    assert r != [] ==> keep(r[0]) && r[0] in s;
    |r|
  }

  /** Counting distributes over concatenation. */
  lemma CountAppend<T>(a: seq<T>, b: seq<T>, keep: T -> bool)
    ensures Count(a + b, keep) == Count(a, keep) + Count(b, keep)
  {
    FilterAppend(a, b, keep);
  }

  /** The order a `$sort` stage asks for: `1` (ascending) or `-1` (descending). */
  predicate InOrder(x: nat, y: nat, ascending: bool) {
    if ascending then x <= y else x >= y
  }

  predicate SortedBy<T>(s: seq<T>, key: T -> nat, ascending: bool) {
    forall i, j :: 0 <= i < j < |s| ==> InOrder(key(s[i]), key(s[j]), ascending)
  }

  /** Places `x` before the first record it may precede. */
  function Insert<T>(x: T, s: seq<T>, key: T -> nat, ascending: bool): (r: seq<T>)
    ensures multiset(r) == multiset(s) + multiset{x}
  {
    if s == [] then [x]
    else if InOrder(key(x), key(s[0]), ascending) then [x] + s
    else
      assert s == [s[0]] + s[1..];
      [s[0]] + Insert(x, s[1..], key, ascending)
  }

  /** In a sorted collection the first record may precede every other. */
  lemma HeadPrecedesRest<T>(s: seq<T>, key: T -> nat, ascending: bool)
    requires s != [] && SortedBy(s, key, ascending)
    ensures forall y :: y in multiset(s[1..]) ==> InOrder(key(s[0]), key(y), ascending)
  {
    forall y | y in multiset(s[1..]) ensures InOrder(key(s[0]), key(y), ascending) {
      var k :| 0 <= k < |s[1..]| && s[1..][k] == y;
      assert s[k + 1] == y;
    }
  }

  /** A record that may precede every record of a sorted collection can be
      put in front of it. */
  lemma ConsKeepsSorted<T>(h: T, rest: seq<T>, key: T -> nat, ascending: bool)
    requires SortedBy(rest, key, ascending)
    requires forall y :: y in multiset(rest) ==> InOrder(key(h), key(y), ascending)
    ensures SortedBy([h] + rest, key, ascending)
  {
    var r := [h] + rest;
    forall i, j | 0 <= i < j < |r| ensures InOrder(key(r[i]), key(r[j]), ascending) {
      assert r[j] == rest[j - 1] && rest[j - 1] in multiset(rest);
      if i > 0 {
        assert r[i] == rest[i - 1];
      }
    }
  }

  /** Inserting into a sorted collection keeps it sorted. */
  lemma {:induction false} InsertKeepsSorted<T>(x: T, s: seq<T>, key: T -> nat, ascending: bool)
    requires SortedBy(s, key, ascending)
    ensures SortedBy(Insert(x, s, key, ascending), key, ascending)
  {
    if s != [] && !InOrder(key(x), key(s[0]), ascending) {
      var rest := Insert(x, s[1..], key, ascending);
      assert SortedBy(s[1..], key, ascending) by {
        forall i, j | 0 <= i < j < |s[1..]| ensures InOrder(key(s[1..][i]), key(s[1..][j]), ascending) {
          assert s[1..][i] == s[i + 1] && s[1..][j] == s[j + 1];
        }
      }
      InsertKeepsSorted(x, s[1..], key, ascending);
      HeadPrecedesRest(s, key, ascending);
      assert multiset(rest) == multiset(s[1..]) + multiset{x};
      ConsKeepsSorted(s[0], rest, key, ascending);
    }
  }

  /** No two elements share a sort key. */
  predicate DistinctKeys<T>(s: seq<T>, key: T -> nat) {
    forall i, j :: 0 <= i < j < |s| ==> key(s[i]) != key(s[j])
  }

  /** Without ties the sort order is determined: two sorted arrangements of
      the same elements are the same sequence. */
  lemma {:induction false} SortedWithoutTiesIsUnique<T>(a: seq<T>, b: seq<T>, key: T -> nat, ascending: bool)
    requires SortedBy(a, key, ascending) && SortedBy(b, key, ascending)
    requires multiset(a) == multiset(b) && DistinctKeys(a, key)
    ensures a == b
    decreases |a|
  {
    assert |a| == |multiset(a)| == |multiset(b)| == |b|;
    if |a| > 0 {
      assert a[0] in multiset(b) && b[0] in multiset(a);
      var k :| 0 <= k < |b| && b[k] == a[0];
      var m :| 0 <= m < |a| && a[m] == b[0];
      assert m == 0;
      MultisetSplit(a, 0);
      MultisetSplit(b, 0);
      SortedWithoutTiesIsUnique(a[1..], b[1..], key, ascending);
      SplitAt(a, 0);
      SplitAt(b, 0);
    }
  }

  /** `sort({ field: ascending ? 1 : -1 })`: the same records, ordered by `key`.
      Records with equal keys keep their store order. */
  function SortBy<T>(s: seq<T>, key: T -> nat, ascending: bool): (r: seq<T>)
    ensures SortedBy(r, key, ascending)
    ensures multiset(r) == multiset(s)
    ensures |r| == |s| && forall i :: 0 <= i < |r| ==> r[i] in s
  {
    if s == [] then []
    else
      assert s == [s[0]] + s[1..];
      InsertKeepsSorted(s[0], SortBy(s[1..], key, ascending), key, ascending);
      var r := Insert(s[0], SortBy(s[1..], key, ascending), key, ascending);
      assert forall i :: 0 <= i < |r| ==> r[i] in multiset(r);
      r
  }

  /** Every record of the sorted selection is a record of the collection
      that the filter keeps. */
  lemma SortedSelectionMembers<T>(s: seq<T>, keep: T -> bool, key: T -> nat, ascending: bool)
    ensures var r := SortBy(Filter(s, keep), key, ascending);
      forall i :: 0 <= i < |r| ==> r[i] in s && keep(r[i])
  {
    var m := Filter(s, keep);
    var r := SortBy(m, key, ascending);
    forall i | 0 <= i < |r| ensures r[i] in s && keep(r[i]) {
      var k :| 0 <= k < |m| && m[k] == r[i];
    }
  }

  /** The number of records `skip` passes over to reach page `page`: the
      `limit` records of each earlier page. */
  function Offset(page: nat, limit: nat): nat
    requires page >= 1
  {
    if page == 1 then 0 else Offset(page - 1, limit) + limit
  }

  /** The offset is the `(page - 1) * limit` the handlers compute. */
  lemma {:induction false} OffsetIsProduct(page: nat, limit: nat)
    requires page >= 1
    ensures Offset(page, limit) == (page - 1) * limit
  {
    if page > 1 {
      OffsetIsProduct(page - 1, limit);
      assert (page - 1) * limit == (page - 2) * limit + limit;
    }
  }

  /** `skip((page - 1) * limit).limit(limit)`: the window of `s` that page
      `page` shows when pages hold `limit` records each. */
  function Paginate<T>(s: seq<T>, page: nat, limit: nat): (r: seq<T>)
    requires page >= 1 && limit >= 1
    ensures |r| == Min(limit, Max(0, |s| - Offset(page, limit)))
    ensures forall i :: 0 <= i < |r| ==> Offset(page, limit) + i < |s| && r[i] == s[Offset(page, limit) + i]
  {
    var skip := Offset(page, limit);
    if skip >= |s| then [] else s[skip..Min(skip + limit, |s|)]
  }

  /** The length of a page, stated for a collection of `n` records. */
  lemma PaginateLength<T>(s: seq<T>, n: nat, page: nat, limit: nat)
    requires page >= 1 && limit >= 1 && |s| == n
    ensures |Paginate(s, page, limit)| == Min(limit, Max(0, n - Offset(page, limit)))
  {
  }

  /** A page of a sorted collection is sorted. */
  lemma PaginateKeepsSorted<T>(s: seq<T>, page: nat, limit: nat, key: T -> nat, ascending: bool)
    requires page >= 1 && limit >= 1 && SortedBy(s, key, ascending)
    ensures SortedBy(Paginate(s, page, limit), key, ascending)
  {
    var r := Paginate(s, page, limit);
    forall i, j | 0 <= i < j < |r| ensures InOrder(key(r[i]), key(r[j]), ascending) {
      assert r[i] == s[Offset(page, limit) + i] && r[j] == s[Offset(page, limit) + j];
    }
  }

  /** Every record of a page is a record of the collection. */
  lemma PaginateKeepsMembers<T>(s: seq<T>, page: nat, limit: nat)
    requires page >= 1 && limit >= 1
    ensures forall i :: 0 <= i < |Paginate(s, page, limit)| ==> Paginate(s, page, limit)[i] in s
  {
  }

  /** The first `pages` pages, one after the other. */
  function FirstPages<T>(s: seq<T>, pages: nat, limit: nat): seq<T>
    requires limit >= 1
  {
    if pages == 0 then [] else FirstPages(s, pages - 1, limit) + Paginate(s, pages, limit)
  }

  lemma PrefixThenSlice<T>(s: seq<T>, lo: nat, hi: nat)
    requires lo <= hi <= |s|
    ensures s[..lo] + s[lo..hi] == s[..hi]
  {
  }

  /** A page is the window of `s` from its offset, cut at the end of `s`. */
  lemma PaginateIsSlice<T>(s: seq<T>, page: nat, limit: nat)
    requires page >= 1 && limit >= 1
    ensures Paginate(s, page, limit)
      == s[Min(Offset(page, limit), |s|)..Min(Offset(page, limit) + limit, |s|)]
  {
  }

  /** The first `pages` pages are the records before the offset of the
      next page. */
  lemma {:induction false} FirstPagesArePrefix<T>(s: seq<T>, pages: nat, limit: nat)
    requires limit >= 1
    ensures FirstPages(s, pages, limit) == s[..Min(Offset(pages + 1, limit), |s|)]
  {
    if pages > 0 {
      FirstPagesArePrefix(s, pages - 1, limit);
      assert Offset(pages + 1, limit) == Offset(pages, limit) + limit;
      PaginateIsSlice(s, pages, limit);
      PrefixThenSlice(s, Min(Offset(pages, limit), |s|), Min(Offset(pages + 1, limit), |s|));
    }
  }

  /** For a collection that does not change between requests, fetching pages
      1, 2, ..., n in turn yields exactly the first n * limit records, each
      once and in order: pages neither overlap nor leave gaps. */
  lemma PagesTileTheListing<T>(s: seq<T>, pages: nat, limit: nat)
    requires limit >= 1
    ensures FirstPages(s, pages, limit) == s[..Min(pages * limit, |s|)]
  {
    FirstPagesArePrefix(s, pages, limit);
    OffsetIsProduct(pages + 1, limit);
  }

  /** `findOne`: the position of the first record satisfying `p`, if any. */
  function FirstIndex<T>(s: seq<T>, p: T -> bool): (r: Option<nat>)
    ensures r.Some? ==> r.value < |s| && p(s[r.value])
    ensures r.Some? ==> forall j :: 0 <= j < r.value ==> !p(s[j])
    ensures r.None? <==> forall j :: 0 <= j < |s| ==> !p(s[j])
  {
    if s == [] then None
    else if p(s[0]) then Some(0)
    else match FirstIndex(s[1..], p)
      case None => None
      case Some(k) => Some(k + 1)
  }

  /** The collection without the record at position `i` (a delete by `_id`). */
  function RemoveAt<T>(s: seq<T>, i: nat): (r: seq<T>)
    requires i < |s|
    ensures |r| == |s| - 1
    ensures forall j :: 0 <= j < i ==> r[j] == s[j]
    ensures forall j :: i <= j < |r| ==> r[j] == s[j + 1]
    ensures multiset(r) == multiset(s) - multiset{s[i]}
  {
    assert s == s[..i] + [s[i]] + s[i + 1..];
    s[..i] + s[i + 1..]
  }

  /** `i` is the position of the first record satisfying `p`. */
  predicate FirstMatch<T>(s: seq<T>, p: T -> bool, i: int) {
    0 <= i < |s| && p(s[i]) && forall j :: 0 <= j < i ==> !p(s[j])
  }

  /** The first match is the one `findOne` finds. */
  lemma FirstMatchIsFound<T>(s: seq<T>, p: T -> bool, i: int)
    requires FirstMatch(s, p, i)
    ensures FirstIndex(s, p) == Some(i)
  {
  }

  /** `findOneAndUpdate(filter, update, { new: true })`: the first record the
      filter selects is replaced by its updated version, which is returned;
      when no record is selected nothing changes and nothing is returned. */
  function FindOneAndUpdate<T>(s: seq<T>, p: T -> bool, update: T -> T): (r: (seq<T>, Option<T>))
    ensures |r.0| == |s|
    ensures r.1.None? <==> forall j :: 0 <= j < |s| ==> !p(s[j])
    ensures r.1.None? ==> r.0 == s
    ensures r.1.Some? ==> exists i :: FirstMatch(s, p, i) && r.0 == s[i := update(s[i])] && r.1.value == update(s[i])
  {
    match FirstIndex(s, p)
    case None => (s, None)
    case Some(i) =>
      assert FirstMatch(s, p, i);
      (s[i := update(s[i])], Some(update(s[i])))
  }

  /** `findOneAndDelete(filter)`: the first record the filter selects is
      removed and returned; when none is selected nothing changes. */
  function FindOneAndDelete<T>(s: seq<T>, p: T -> bool): (r: (seq<T>, Option<T>))
    ensures r.1.None? <==> forall j :: 0 <= j < |s| ==> !p(s[j])
    ensures r.1.None? ==> r.0 == s
    ensures r.1.Some? ==> exists i :: FirstMatch(s, p, i) && r.0 == RemoveAt(s, i) && r.1.value == s[i]
  {
    match FirstIndex(s, p)
    case None => (s, None)
    case Some(i) =>
      assert FirstMatch(s, p, i);
      (RemoveAt(s, i), Some(s[i]))
  }

  /** The records `p` rejects. */
  function Not<T>(p: T -> bool): T -> bool {
    x => !p(x)
  }

  /** The toggle the like and subscription handlers build from `findOne`,
      a delete and a `create`: the first record `p` selects is deleted; when
      there is none, `added` is appended. The flag says whether it was
      appended. */
  function Toggle<T>(s: seq<T>, p: T -> bool, added: T): (r: (seq<T>, bool))
    ensures r.1 <==> forall j :: 0 <= j < |s| ==> !p(s[j])
    ensures r.1 ==> r.0 == s + [added]
    ensures !r.1 ==> exists i :: FirstMatch(s, p, i) && r.0 == RemoveAt(s, i)
  {
    match FirstIndex(s, p)
    case Some(i) =>
      assert FirstMatch(s, p, i);
      (RemoveAt(s, i), false)
    case None => (s + [added], true)
  }

  /** When the appended record is one `p` selects, a toggle takes the number
      of selected records from 0 to 1, or lowers it by one. */
  lemma ToggleFlipsCount<T>(s: seq<T>, p: T -> bool, added: T)
    requires p(added)
    ensures Count(s, p) == 0 ==> Count(Toggle(s, p, added).0, p) == 1
    ensures Count(s, p) > 0 ==> Count(Toggle(s, p, added).0, p) == Count(s, p) - 1
  {
    var r := Toggle(s, p, added);
    if r.1 {
      CountAppend(s, [added], p);
      FilterSingle(added, p);
    } else {
      var i :| FirstMatch(s, p, i) && r.0 == RemoveAt(s, i);
      CountRemoveSelected(s, i, p);
    }
  }

  /** A toggle leaves the records `p` rejects, and their order, as they were. */
  lemma ToggleKeepsRest<T>(s: seq<T>, p: T -> bool, added: T)
    requires p(added)
    ensures Filter(Toggle(s, p, added).0, Not(p)) == Filter(s, Not(p))
  {
    var r := Toggle(s, p, added);
    if r.1 {
      FilterAppend(s, [added], Not(p));
      FilterSingle(added, Not(p));
    } else {
      var i :| FirstMatch(s, p, i) && r.0 == RemoveAt(s, i);
      FilterRemoveRejected(s, i, Not(p));
    }
  }

  /** From a state with no selected record, a second toggle undoes the first
      exactly. */
  lemma ToggleTwiceFromAbsent<T>(s: seq<T>, p: T -> bool, added: T, added': T)
    requires p(added)
    requires forall j :: 0 <= j < |s| ==> !p(s[j])
    ensures Toggle(s, p, added).1
    ensures Toggle(Toggle(s, p, added).0, p, added') == (s, false)
  {
    var once := Toggle(s, p, added).0;
    assert once == s + [added];
    assert FirstMatch(once, p, |s|);
    FirstMatchIsFound(once, p, |s|);
    assert RemoveAt(once, |s|) == s;
  }

  /** A toggle keeps a property every record has, when the appended record
      has it too. */
  lemma ToggleKeepsAll<T>(s: seq<T>, p: T -> bool, added: T, holds: T -> bool)
    requires holds(added) && forall j :: 0 <= j < |s| ==> holds(s[j])
    ensures forall j :: 0 <= j < |Toggle(s, p, added).0| ==> holds(Toggle(s, p, added).0[j])
  {
    var r := Toggle(s, p, added);
    if !r.1 {
      var i :| FirstMatch(s, p, i) && r.0 == RemoveAt(s, i);
      forall j | 0 <= j < |r.0| ensures holds(r.0[j]) {
        if j < i { assert r.0[j] == s[j]; } else { assert r.0[j] == s[j + 1]; }
      }
    }
  }

  /** No two records share an `_id` (MongoDB's unique index on `_id`). */
  predicate UniqueIds<T>(s: seq<T>, idOf: T -> Id) {
    forall i, j :: 0 <= i < j < |s| ==> idOf(s[i]) != idOf(s[j])
  }

  /** Deleting the record at `i` of a collection with unique `_id`s removes
      exactly the records with that `_id`, that is, that one record. */
  lemma RemoveAtUniqueId<T>(s: seq<T>, idOf: T -> Id, i: nat)
    requires UniqueIds(s, idOf) && i < |s|
    ensures forall x :: x in RemoveAt(s, i) <==> x in s && idOf(x) != idOf(s[i])
    ensures UniqueIds(RemoveAt(s, i), idOf)
  {
    var after := RemoveAt(s, i);
    forall x ensures x in after <==> x in s && idOf(x) != idOf(s[i]) {
      if x in after {
        var k :| 0 <= k < |after| && after[k] == x;
        assert k < i ==> idOf(s[k]) != idOf(s[i]);
        assert k >= i ==> idOf(s[k + 1]) != idOf(s[i]);
      }
      if x in s && idOf(x) != idOf(s[i]) {
        var k :| 0 <= k < |s| && s[k] == x;
        assert k != i;
        if k < i { assert after[k] == x; } else { assert after[k - 1] == x; }
      }
    }
  }

  /** Appending a record whose `_id` is not yet in use keeps the `_id`s
      unique. */
  lemma AppendFreshKeepsUnique<T>(s: seq<T>, idOf: T -> Id, x: T)
    requires UniqueIds(s, idOf) && idOf(x) !in IdsOf(s, idOf)
    ensures UniqueIds(s + [x], idOf)
  {
  }

  /** Replacing a record by one with the same `_id` keeps the `_id`s unique. */
  lemma ReplaceKeepsUnique<T>(s: seq<T>, idOf: T -> Id, i: nat, x: T)
    requires UniqueIds(s, idOf) && i < |s| && idOf(x) == idOf(s[i])
    ensures UniqueIds(s[i := x], idOf)
  {
    assert forall j :: 0 <= j < |s| ==> idOf(s[i := x][j]) == idOf(s[j]);
  }

  /** `findOneAndDelete` on a collection with unique `_id`s keeps them unique. */
  lemma DeleteKeepsUnique<T>(s: seq<T>, idOf: T -> Id, p: T -> bool)
    requires UniqueIds(s, idOf)
    ensures UniqueIds(FindOneAndDelete(s, p).0, idOf)
  {
    var r := FindOneAndDelete(s, p);
    if r.1.Some? {
      var i :| FirstMatch(s, p, i) && r.0 == RemoveAt(s, i) && r.1.value == s[i];
      RemoveAtUniqueId(s, idOf, i);
    }
  }

  /** `findOneAndUpdate` with an update that keeps the `_id` keeps the
      `_id`s unique. */
  lemma UpdateKeepsUnique<T>(s: seq<T>, idOf: T -> Id, p: T -> bool, update: T -> T)
    requires UniqueIds(s, idOf)
    requires forall i :: 0 <= i < |s| ==> idOf(update(s[i])) == idOf(s[i])
    ensures UniqueIds(FindOneAndUpdate(s, p, update).0, idOf)
  {
    var r := FindOneAndUpdate(s, p, update);
    if r.1.Some? {
      var i :| FirstMatch(s, p, i) && r.0 == s[i := update(s[i])] && r.1.value == update(s[i]);
      ReplaceKeepsUnique(s, idOf, i, update(s[i]));
    }
  }

  /** Updating the first match again, with an update that keeps it a match
      and changes nothing the second time, leaves the collection as it is. */
  lemma UpdateAgainChangesNothing<T>(s: seq<T>, p: T -> bool, update: T -> T, i: nat)
    requires FirstMatch(s, p, i) && p(update(s[i])) && update(update(s[i])) == update(s[i])
    ensures FindOneAndUpdate(s[i := update(s[i])], p, update) == (s[i := update(s[i])], Some(update(s[i])))
  {
    var after := s[i := update(s[i])];
    assert FirstMatch(after, p, i);
    FirstMatchIsFound(after, p, i);
    assert after[i := update(after[i])] == after;
  }

  /** Replacing a record by one the filter judges the same way leaves the
      count unchanged. */
  lemma CountReplaceSameVerdict<T>(s: seq<T>, i: nat, x: T, keep: T -> bool)
    requires i < |s| && keep(x) == keep(s[i])
    ensures Count(s[i := x], keep) == Count(s, keep)
  {
    var a, b := s[..i], s[i + 1..];
    SplitAt(s, i);
    ReplaceAt(s, i, x);
    FilterAppend(a + [s[i]], b, keep);
    FilterAppend(a, [s[i]], keep);
    FilterAppend(a + [x], b, keep);
    FilterAppend(a, [x], keep);
    FilterSingle(x, keep);
    FilterSingle(s[i], keep);
  }

  /** The `_id`s in use, so that a new record can be given a fresh one. */
  function IdsOf<T>(s: seq<T>, idOf: T -> Id): (ids: set<Id>)
    ensures forall i :: 0 <= i < |s| ==> idOf(s[i]) in ids
    ensures forall x :: x in ids ==> exists i :: 0 <= i < |s| && idOf(s[i]) == x
  {
    set i | 0 <= i < |s| :: idOf(s[i])
  }
}
