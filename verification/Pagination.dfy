/** Cursor pagination. Items are known by the key they are sorted on: (created_at, id) for
    personal access tokens, (0, id) for users and sessions, which are sorted on the id alone. */
module Pagination {
  import opened Prelude

  datatype Key = Key(at: int, id: string)

  // ----- The order: Python compares strings by code points, tuples component by component -----

  predicate StringLess(a: string, b: string) {
    b != [] && (a == [] || a[0] < b[0] || (a[0] == b[0] && StringLess(a[1..], b[1..])))
  }

  predicate Less(a: Key, b: Key) {
    a.at < b.at || (a.at == b.at && StringLess(a.id, b.id))
  }

  lemma {:induction false} StringLessIsTotal(a: string, b: string)
    ensures a == b || StringLess(a, b) || StringLess(b, a)
    ensures !(StringLess(a, b) && StringLess(b, a))
    ensures a == b ==> !StringLess(a, b)
  {
    if a != [] && b != [] {
      StringLessIsTotal(a[1..], b[1..]);
      assert a == [a[0]] + a[1..] && b == [b[0]] + b[1..];
    }
  }

  lemma {:induction false} StringLessIsTransitive(a: string, b: string, c: string)
    requires StringLess(a, b) && StringLess(b, c)
    ensures StringLess(a, c)
  {
    if a != [] && a[0] == b[0] && b[0] == c[0] {
      StringLessIsTransitive(a[1..], b[1..], c[1..]);
    }
  }

  /** One string is before another when it is a proper prefix or smaller at the first difference. */
  lemma {:induction false} StringLessExactly(a: string, b: string)
    ensures StringLess(a, b) <==> exists k :: 0 <= k <= |a| && k < |b| && a[..k] == b[..k] && (k == |a| || a[k] < b[k])
  {
    if a != [] && b != [] {
      var a', b' := a[1..], b[1..];
      StringLessExactly(a', b');
      if a[0] == b[0] && StringLess(a', b') {
        var k :| 0 <= k <= |a'| && k < |b'| && a'[..k] == b'[..k] && (k == |a'| || a'[k] < b'[k]);
        assert a[..k + 1] == [a[0]] + a'[..k] && b[..k + 1] == [b[0]] + b'[..k];
      } else if a[0] < b[0] {
        assert a[..0] == b[..0];
      }
      if k :| 0 <= k <= |a| && k < |b| && a[..k] == b[..k] && (k == |a| || a[k] < b[k]) {
        if k > 0 {
          assert a[0] == a[..k][0] == b[..k][0] == b[0];
          assert a'[..k - 1] == a[..k][1..] && b'[..k - 1] == b[..k][1..];
        }
      }
    } else if b != [] {
      assert a[..0] == b[..0];
    }
  }

  lemma LessIsTotal(a: Key, b: Key)
    ensures a == b || Less(a, b) || Less(b, a)
    ensures !(Less(a, b) && Less(b, a))
    ensures a == b ==> !Less(a, b)
  {
    StringLessIsTotal(a.id, b.id);
  }

  lemma LessIsTransitive(a: Key, b: Key, c: Key)
    requires Less(a, b) && Less(b, c)
    ensures Less(a, c)
  {
    if a.at == b.at && b.at == c.at {
      StringLessIsTransitive(a.id, b.id, c.id);
    }
  }

  // ----- Sorting -----

  predicate IsSorted(s: seq<Key>) {
    forall i, j :: 0 <= i < j < |s| ==> Less(s[i], s[j])
  }

  predicate IsLeast(k: Key, keys: set<Key>) {
    k in keys && forall x :: x in keys && x != k ==> Less(k, x)
  }

  lemma {:induction false} LeastExists(keys: set<Key>)
    requires keys != {}
    ensures exists k :: IsLeast(k, keys)
    decreases keys
  {
    hide Less;
    var x :| x in keys;
    if keys == {x} {
      assert IsLeast(x, keys);
    } else {
      LeastExists(keys - {x});
      var k :| IsLeast(k, keys - {x});
      LessIsTotal(x, k);
      var least := if Less(x, k) then x else k;
      forall y | y in keys && y != least
        ensures Less(least, y)
      {
        if y != x && y != k && least == x {
          LessIsTransitive(x, k, y);
        }
      }
      assert IsLeast(least, keys);
    }
  }

  lemma LeastIsUnique(j: Key, k: Key, keys: set<Key>)
    requires IsLeast(j, keys) && IsLeast(k, keys)
    ensures j == k
  {
    LessIsTotal(j, k);
  }

  function Least(keys: set<Key>): (k: Key)
    requires keys != {}
    ensures IsLeast(k, keys)
  {
    LeastExists(keys);
    assert forall j, k :: IsLeast(j, keys) && IsLeast(k, keys) ==> j == k by {
      forall j, k | IsLeast(j, keys) && IsLeast(k, keys) ensures j == k { LeastIsUnique(j, k, keys); }
    }
    var k :| k in keys && IsLeast(k, keys);
    k
  }

  /** Python's `sorted(items, key=...)` for items with different keys. */
  function Sorted(keys: set<Key>): (s: seq<Key>)
    ensures IsSorted(s)
    ensures forall k :: k in s <==> k in keys
    ensures |s| == |keys|
    decreases |keys|
  {
    if keys == {} then [] else
    var k, rest := Least(keys), Sorted(keys - {Least(keys)});
    assert forall i :: 0 <= i < |rest| ==> rest[i] in keys - {k};
    [k] + rest
  }

  lemma {:induction false} SortedIsUnique(s: seq<Key>, t: seq<Key>)
    requires IsSorted(s) && IsSorted(t) && forall k :: k in s <==> k in t
    ensures s == t
  {
    hide Less;
    if s == [] {
      assert forall i :: 0 <= i < |t| ==> t[i] in t;
    } else {
      assert s[0] in s && s[0] in t && t[0] in t && t[0] in s;
      var i :| 0 <= i < |t| && t[i] == s[0];
      var j :| 0 <= j < |s| && s[j] == t[0];
      LessIsTotal(s[0], t[0]);
      assert s[0] == t[0];
      forall k
        ensures k in s[1..] <==> k in t[1..]
      {
        LessIsTotal(s[0], s[0]);
        TailWithoutHead(s, k);
        TailWithoutHead(t, k);
      }
      SortedIsUnique(s[1..], t[1..]);
      assert s == [s[0]] + s[1..] && t == [t[0]] + t[1..];
    }
  }

  lemma TailWithoutHead(s: seq<Key>, k: Key)
    requires s != [] && IsSorted(s)
    ensures k in s[1..] <==> k in s && k != s[0]
  {
    hide Less;
    if k in s[1..] {
      var i :| 0 <= i < |s[1..]| && s[1..][i] == k;
      assert Less(s[0], s[i + 1]);
      LessIsTotal(s[0], k);
    }
    if k in s && k != s[0] {
      var i :| 0 <= i < |s| && s[i] == k;
      assert s[1..][i - 1] == k;
    }
  }

  // ----- Pages -----

  datatype Page = Page(data: seq<Key>, next: Option<Key>)

  predicate IsAfter(cursor: Option<Key>, k: Key) {
    cursor.None? || Less(cursor.value, k)
  }

  function After(keys: set<Key>, cursor: Option<Key>): set<Key> {
    set k | k in keys && IsAfter(cursor, k)
  }

  /** The Postgres page: WHERE id > cursor ORDER BY id LIMIT limit + 1, and a cursor when the
      extra row came back. */
  function RowScan(keys: set<Key>, cursor: Option<Key>, limit: nat): Page {
    var all := Sorted(After(keys, cursor));
    var rows := all[..Min(|all|, limit + 1)];
    var data := rows[..Min(|rows|, limit)];
    Page(data, if |rows| > limit && data != [] then Some(Last(data)) else None)
  }

  /** First index from `i` on whose item lies after the cursor, or the length. */
  function FirstAfter(sorted: seq<Key>, cursor: Option<Key>, i: nat): (start: nat)
    requires i <= |sorted|
    ensures i <= start <= |sorted|
    ensures forall j :: i <= j < start ==> !IsAfter(cursor, sorted[j])
    ensures start < |sorted| ==> IsAfter(cursor, sorted[start])
    decreases |sorted| - i
  {
    if i == |sorted| || IsAfter(cursor, sorted[i]) then i else FirstAfter(sorted, cursor, i + 1)
  }

  /** The in-memory page: one slice of the sorted list, and a cursor when the list goes on.
      The limit is the caller's, of either sign. */
  function SlicePage(sorted: seq<Key>, start: nat, limit: int): Page {
    var data := Slice(sorted, start, start + limit);
    Page(data, if start + limit < |sorted| && data != [] then Some(Last(data)) else None)
  }

  function InMemoryPage(keys: set<Key>, cursor: Option<Key>, limit: int): Page {
    var sorted := Sorted(keys);
    SlicePage(sorted, FirstAfter(sorted, cursor, 0), limit)
  }

  /** In a sorted list everything from the first item after the cursor on is after it. */
  lemma AfterFromFirst(sorted: seq<Key>, cursor: Option<Key>, j: nat)
    requires IsSorted(sorted) && j < |sorted|
    ensures j >= FirstAfter(sorted, cursor, 0) <==> IsAfter(cursor, sorted[j])
  {
    hide Less;
    var start := FirstAfter(sorted, cursor, 0);
    if cursor.Some? && j > start {
      LessIsTransitive(cursor.value, sorted[start], sorted[j]);
    }
  }

  lemma SuffixIsAfter(keys: set<Key>, cursor: Option<Key>)
    ensures var sorted := Sorted(keys);
      sorted[FirstAfter(sorted, cursor, 0)..] == Sorted(After(keys, cursor))
  {
    hide Less, Sorted, FirstAfter, IsAfter;
    var sorted := Sorted(keys);
    var start := FirstAfter(sorted, cursor, 0);
    var suffix := sorted[start..];
    forall k
      ensures k in suffix <==> k in keys && IsAfter(cursor, k)
    {
      if k in suffix {
        var i :| 0 <= i < |suffix| && suffix[i] == k;
        assert sorted[start + i] == k;
        AfterFromFirst(sorted, cursor, start + i);
      }
      if k in keys && IsAfter(cursor, k) {
        assert k in sorted;
        var i :| 0 <= i < |sorted| && sorted[i] == k;
        AfterFromFirst(sorted, cursor, i);
        assert suffix[i - start] == k;
      }
    }
    SortedIsUnique(suffix, Sorted(After(keys, cursor)));
  }

  /** Slicing the sorted list in memory gives the page and the cursor of the row scan. */
  lemma InMemoryPageIsRowScan(keys: set<Key>, cursor: Option<Key>, limit: nat)
    requires limit >= 1
    ensures InMemoryPage(keys, cursor, limit) == RowScan(keys, cursor, limit)
  {
    SuffixIsAfter(keys, cursor);
    hide Sorted, FirstAfter, After, Less, IsSorted;
    var sorted, all := Sorted(keys), Sorted(After(keys, cursor));
    var start := FirstAfter(sorted, cursor, 0);
    var n := Min(|all|, limit);
    assert Slice(sorted, start, start + limit) == all[..n];
    assert all[..Min(|all|, limit + 1)][..n] == all[..n];
  }

  /** A page of at most `n` of the items that are left, in order, with a cursor iff some remain. */
  predicate IsPageOf(page: Page, rest: set<Key>, n: nat) {
    && page.data == Sorted(rest)[..Min(|rest|, n)]
    && page.next == if |rest| > n && n > 0 then Some(Last(Sorted(rest)[..n])) else None
  }

  lemma RowScanIsPage(keys: set<Key>, cursor: Option<Key>, limit: nat)
    requires limit >= 1
    ensures IsPageOf(RowScan(keys, cursor, limit), After(keys, cursor), limit)
  {
    hide After, IsSorted;
    var all := Sorted(After(keys, cursor));
    assert all[..Min(|all|, limit + 1)][..Min(|all|, limit)] == all[..Min(|all|, limit)];
  }

  /** The token list looks its cursor up by equality of ids, and starts over when it is absent. */
  function IndexAfterId(sorted: seq<Key>, id: string, i: nat): (start: nat)
    requires i <= |sorted|
    ensures start <= |sorted|
    decreases |sorted| - i
  {
    if i == |sorted| then 0 else if sorted[i].id == id then i + 1 else IndexAfterId(sorted, id, i + 1)
  }

  function PageByEquality(keys: set<Key>, cursor: string, limit: int): Page {
    var sorted := Sorted(keys);
    SlicePage(sorted, if cursor == "" then 0 else IndexAfterId(sorted, cursor, 0), limit)
  }

  ghost predicate IdsAreUnique(keys: set<Key>) {
    forall j, k :: j in keys && k in keys && j.id == k.id ==> j == k
  }

  lemma {:induction false} IndexAfterIdFinds(sorted: seq<Key>, k: Key, i: nat)
    requires i <= |sorted| && IsSorted(sorted) && k in sorted[i..]
    requires forall x :: x in sorted && x.id == k.id ==> x == k
    ensures IndexAfterId(sorted, k.id, i) == FirstAfter(sorted, Some(k), i)
    decreases |sorted| - i
  {
    hide Less;
    var j :| 0 <= j < |sorted[i..]| && sorted[i..][j] == k;
    assert sorted[i + j] == k && sorted[i] in sorted;
    LessIsTotal(k, sorted[i]);
    if sorted[i].id == k.id {
      assert i + 1 < |sorted| ==> IsAfter(Some(k), sorted[i + 1]);
    } else {
      assert j != 0 && Less(sorted[i], sorted[i + j]);
      assert sorted[i + 1..][j - 1] == k;
      IndexAfterIdFinds(sorted, k, i + 1);
    }
  }

  /** As long as the cursor names a listed token, lookup by equality is lookup by order. */
  lemma PageByEqualityIsRowScan(keys: set<Key>, cursor: Option<Key>, limit: nat)
    requires limit >= 1 && IdsAreUnique(keys)
    requires cursor.Some? ==> cursor.value in keys && cursor.value.id != ""
    ensures PageByEquality(keys, if cursor.Some? then cursor.value.id else "", limit) == RowScan(keys, cursor, limit)
  {
    InMemoryPageIsRowScan(keys, cursor, limit);
    var sorted := Sorted(keys);
    if cursor.Some? {
      assert sorted[0..] == sorted;
      IndexAfterIdFinds(sorted, cursor.value, 0);
    }
  }

  // ----- Walks: following next cursors while the store changes between the pages -----

  /** The pages fetched, one snapshot of the matching items per fetch, until a page has no
      cursor or the snapshots run out. */
  function Walk(snapshots: seq<set<Key>>, cursor: Option<Key>, limit: nat): seq<Page> {
    if snapshots == [] then [] else
    var page := RowScan(snapshots[0], cursor, limit);
    if page.next.None? then [page] else [page] + Walk(snapshots[1..], page.next, limit)
  }

  function Items(pages: seq<Page>): seq<Key> {
    if pages == [] then [] else pages[0].data + Items(pages[1..])
  }

  predicate IsComplete(pages: seq<Page>) {
    pages != [] && Last(pages).next.None?
  }

  /** What one page holds: items after the cursor, in order, every item up to the next
      cursor, or every item that is left when there is no next cursor. */
  lemma PageContents(keys: set<Key>, cursor: Option<Key>, limit: nat)
    requires limit >= 1
    ensures var page := RowScan(keys, cursor, limit);
      && |page.data| <= limit && IsSorted(page.data)
      && (forall k :: k in page.data ==> k in keys && IsAfter(cursor, k))
      && (page.next.Some? ==> page.data != [] && page.next.value == Last(page.data))
      && (forall k :: k in keys && IsAfter(cursor, k) && (page.next.None? || !Less(page.next.value, k)) ==>
            k in page.data)
  {
    hide Less;
    var page, all := RowScan(keys, cursor, limit), Sorted(After(keys, cursor));
    hide Sorted;
    var n := Min(|all|, limit);
    assert page.data == all[..n];
    assert page.next.Some? ==> forall j :: n <= j < |all| ==> Less(page.next.value, all[j]);
    forall k | k in page.data
      ensures k in keys && IsAfter(cursor, k)
    {
      assert k in all;
    }
    forall k | k in keys && IsAfter(cursor, k) && (page.next.None? || !Less(page.next.value, k))
      ensures k in page.data
    {
      assert k in After(keys, cursor) && k in all;
      var i :| 0 <= i < |all| && all[i] == k;
      assert page.data[i] == k;
    }
  }

  lemma AfterIsTransitive(cursor: Option<Key>, j: Key, k: Key)
    requires IsAfter(cursor, j) && Less(j, k)
    ensures IsAfter(cursor, k)
  {
    if cursor.Some? {
      LessIsTransitive(cursor.value, j, k);
    }
  }

  lemma SortedConcat(s: seq<Key>, t: seq<Key>)
    requires IsSorted(s) && IsSorted(t)
    requires s != [] ==> forall k :: k in t ==> Less(Last(s), k)
    ensures IsSorted(s + t)
  {
    hide Less;
    forall i, j | 0 <= i < j < |s + t|
      ensures Less((s + t)[i], (s + t)[j])
    {
      if i < |s| <= j {
        assert t[j - |s|] in t;
        if i < |s| - 1 {
          LessIsTransitive(s[i], Last(s), t[j - |s|]);
        }
      }
    }
  }

  lemma WalkUnfolds(snapshots: seq<set<Key>>, cursor: Option<Key>, limit: nat)
    requires snapshots != []
    ensures var page, pages := RowScan(snapshots[0], cursor, limit), Walk(snapshots, cursor, limit);
      var rest := Walk(snapshots[1..], page.next, limit);
      if page.next.None? then Items(pages) == page.data && IsComplete(pages)
      else Items(pages) == page.data + Items(rest) && (IsComplete(pages) <==> IsComplete(rest))
  {
    hide RowScan;
    var page, pages := RowScan(snapshots[0], cursor, limit), Walk(snapshots, cursor, limit);
    if page.next.None? {
      assert pages[1..] == [] && page.data + [] == page.data;
    } else {
      assert pages[1..] == Walk(snapshots[1..], page.next, limit);
    }
  }

  /** Whatever happens between the fetches, ids strictly increase along the whole walk, so no
      item appears twice; and nothing at or before the cursor appears. */
  lemma {:induction false} WalkIncreases(snapshots: seq<set<Key>>, cursor: Option<Key>, limit: nat)
    requires limit >= 1
    ensures var items := Items(Walk(snapshots, cursor, limit));
      IsSorted(items) && forall k :: k in items ==> IsAfter(cursor, k)
  {
    if snapshots != [] {
      hide Less, RowScan, Walk, Items;
      var page := RowScan(snapshots[0], cursor, limit);
      PageContents(snapshots[0], cursor, limit);
      WalkUnfolds(snapshots, cursor, limit);
      if page.next.Some? {
        var rest := Items(Walk(snapshots[1..], page.next, limit));
        WalkIncreases(snapshots[1..], page.next, limit);
        SortedConcat(page.data, rest);
        forall k | k in rest
          ensures IsAfter(cursor, k)
        {
          AfterIsTransitive(cursor, page.next.value, k);
        }
      }
    }
  }

  /** In a walk that reaches its end, every item that matched at each fetch was delivered
      (once, by `WalkIncreases`), whatever was added, removed or changed around it. */
  lemma {:induction false} WalkCoversPersistentItems(snapshots: seq<set<Key>>, cursor: Option<Key>, limit: nat, k: Key)
    requires limit >= 1
    requires var pages := Walk(snapshots, cursor, limit);
      IsComplete(pages) && forall i :: 0 <= i < |pages| && i < |snapshots| ==> k in snapshots[i]
    requires IsAfter(cursor, k)
    ensures k in Items(Walk(snapshots, cursor, limit))
  {
    hide Less, RowScan;
    var pages := Walk(snapshots, cursor, limit);
    var page := RowScan(snapshots[0], cursor, limit);
    PageContents(snapshots[0], cursor, limit);
    assert k in snapshots[0];
    if page.next.Some? {
      var rest := Walk(snapshots[1..], page.next, limit);
      assert pages[1..] == rest;
      if Less(page.next.value, k) {
        forall i | 0 <= i < |rest| && i < |snapshots[1..]|
          ensures k in snapshots[1..][i]
        {
          assert snapshots[1..][i] == snapshots[i + 1];
        }
        WalkCoversPersistentItems(snapshots[1..], page.next, limit, k);
      }
    }
  }

  lemma AfterPage(keys: set<Key>, cursor: Option<Key>, limit: nat)
    requires limit >= 1
    ensures var page, all := RowScan(keys, cursor, limit), Sorted(After(keys, cursor));
      if page.next.None? then page.data == all
      else |page.data| == limit < |all| && all == page.data + Sorted(After(keys, page.next))
  {
    hide Less, Sorted, After;
    var page, all := RowScan(keys, cursor, limit), Sorted(After(keys, cursor));
    var n := Min(|all|, limit);
    assert page.data == all[..n];
    if page.next.Some? {
      AfterLimit(keys, cursor, all, limit);
      assert all == all[..limit] + all[limit..];
    }
  }

  lemma AfterLimit(keys: set<Key>, cursor: Option<Key>, all: seq<Key>, n: nat)
    requires all == Sorted(After(keys, cursor)) && 0 < n < |all|
    ensures all[n..] == Sorted(After(keys, Some(all[n - 1])))
  {
    hide Less;
    var rest := all[n..];
    forall k
      ensures k in rest <==> k in After(keys, Some(all[n - 1]))
    {
      if k in rest {
        var i :| 0 <= i < |rest| && rest[i] == k;
        assert all[n + i] == k && k in all;
      }
      if k in After(keys, Some(all[n - 1])) {
        assert all[n - 1] in all;
        AfterIsTransitive(cursor, all[n - 1], k);
        assert k in all;
        var i :| 0 <= i < |all| && all[i] == k;
        if i < n {
          LessIsTotal(k, all[n - 1]);
        }
        assert rest[i - n] == k;
      }
    }
    hide Sorted;
    SortedIsUnique(rest, Sorted(After(keys, Some(all[n - 1]))));
  }

  /** On a store that does not change, the walk ends, after at most as many fetches as there
      are items plus one, and its pages concatenate to the full sorted list. */
  lemma {:induction false} FixedWalk(keys: set<Key>, cursor: Option<Key>, limit: nat, snapshots: seq<set<Key>>)
    requires limit >= 1 && |snapshots| > |After(keys, cursor)|
    requires forall i :: 0 <= i < |snapshots| ==> snapshots[i] == keys
    ensures var pages := Walk(snapshots, cursor, limit);
      IsComplete(pages) && Items(pages) == Sorted(After(keys, cursor))
    decreases |snapshots|
  {
    AfterPage(keys, cursor, limit);
    hide RowScan, Sorted, After, Less, IsSorted, Walk, Items, IsComplete;
    WalkUnfolds(snapshots, cursor, limit);
    var page := RowScan(keys, cursor, limit);
    if page.next.Some? {
      assert |Sorted(After(keys, page.next))| < |Sorted(After(keys, cursor))|;
      FixedWalk(keys, page.next, limit, snapshots[1..]);
    }
  }
}
