/** Keyset pagination of `app/search.py`: the order, one page, and a whole traversal. */
module Keyset {
  import opened Options
  import opened Bytes

  // ---- ORDER BY rank DESC, md5 ASC -------------------------------------------------

  /** `bytea` comparison. */
  predicate LexLess(a: Md5, b: Md5) {
    b != [] && (a == [] || a[0] < b[0] || (a[0] == b[0] && LexLess(a[1..], b[1..])))
  }

  lemma {:induction false} LexIrreflexive(a: Md5)
    ensures !LexLess(a, a)
  {
    if a != [] { LexIrreflexive(a[1..]); }
  }

  lemma {:induction false} LexTransitive(a: Md5, b: Md5, c: Md5)
    requires LexLess(a, b) && LexLess(b, c)
    ensures LexLess(a, c)
    decreases |a|
  {
    if a != [] && a[0] == b[0] && b[0] == c[0] { LexTransitive(a[1..], b[1..], c[1..]); }
  }

  lemma {:induction false} LexTotal(a: Md5, b: Md5)
    ensures a == b || LexLess(a, b) || LexLess(b, a)
  {
    if a != [] && b != [] && a[0] == b[0] {
      LexTotal(a[1..], b[1..]);
      assert a == [a[0]] + a[1..] && b == [b[0]] + b[1..];
    }
  }

  /** `a` and `b` agree up to place `i`, where `a` ends or has the smaller byte. */
  predicate SmallerAt(a: Md5, b: Md5, i: nat) {
    i <= |a| && i < |b| && a[..i] == b[..i] && (i == |a| || a[i] < b[i])
  }

  lemma SmallerAtStart(a: Md5, b: Md5, i: nat)
    requires SmallerAt(a, b, i)
    ensures i == 0 || (a != [] && b != [] && a[0] == b[0])
  {
    if i > 0 { assert a[..i][0] == a[0] && b[..i][0] == b[0]; }
  }

  /** The order is decided at the first place where the two differ, and there by the smaller byte. */
  lemma {:induction false} LexLessIff(a: Md5, b: Md5)
    ensures LexLess(a, b) <==> exists i: nat :: SmallerAt(a, b, i)
  {
    if a != [] && b != [] && a[0] == b[0] {
      LexLessIff(a[1..], b[1..]);
      if i: nat :| SmallerAt(a[1..], b[1..], i) {
        assert a[..i + 1] == [a[0]] + a[1..][..i] && b[..i + 1] == [b[0]] + b[1..][..i];
        assert SmallerAt(a, b, i + 1);
      }
      if i: nat :| SmallerAt(a, b, i) {
        if i > 0 {
          assert a[1..][..i - 1] == a[..i][1..] && b[1..][..i - 1] == b[..i][1..];
          assert SmallerAt(a[1..], b[1..], i - 1);
        }
      }
    } else if LexLess(a, b) {
      assert SmallerAt(a, b, 0);
    } else if i: nat :| SmallerAt(a, b, i) {
      SmallerAtStart(a, b, i);
    }
  }

  datatype Key = Key(rank: real, md5: Md5)

  /** `a` is listed before `b`; also the keyset predicate for a cursor at `a`. */
  predicate Before(a: Key, b: Key) {
    b.rank < a.rank || (b.rank == a.rank && LexLess(a.md5, b.md5))
  }

  /** Higher ranks come first, and at equal ranks the smaller md5. */
  lemma BeforeIff(a: Key, b: Key)
    ensures Before(a, b) <==> a.rank > b.rank || (a.rank == b.rank && exists i: nat :: SmallerAt(a.md5, b.md5, i))
  {
    LexLessIff(a.md5, b.md5);
  }

  lemma BeforeTransitive(a: Key, b: Key, c: Key)
    requires Before(a, b) && Before(b, c)
    ensures Before(a, c)
  {
    if a.rank == b.rank == c.rank { LexTransitive(a.md5, b.md5, c.md5); }
  }

  lemma BeforeTotal(a: Key, b: Key)
    ensures a == b || Before(a, b) || Before(b, a)
    ensures !Before(a, a)
  {
    LexTotal(a.md5, b.md5);
    LexIrreflexive(a.md5);
  }

  ghost predicate Ascending(s: seq<Key>) {
    forall i, j :: 0 <= i < j < |s| ==> Before(s[i], s[j])
  }

  // ---- Sorting a finite set of keys --------------------------------------------------

  ghost predicate IsFirst(keys: set<Key>, k: Key) {
    k in keys && forall j :: j in keys && j != k ==> Before(k, j)
  }

  lemma {:induction false} FirstExists(keys: set<Key>)
    requires keys != {}
    ensures exists k :: IsFirst(keys, k)
  {
    hide Before;
    var x :| x in keys;
    if keys == {x} {
      assert IsFirst(keys, x);
    } else {
      var rest := keys - {x};
      assert rest != {} by { assert keys == rest + {x}; }
      FirstExists(rest);
      var k :| IsFirst(rest, k);
      BeforeTotal(k, x);
      if Before(k, x) {
        assert IsFirst(keys, k);
      } else {
        forall j | j in keys && j != x ensures Before(x, j) {
          if j != k { BeforeTransitive(x, k, j); }
        }
        assert IsFirst(keys, x);
      }
    }
  }

  lemma FirstUnique(keys: set<Key>, a: Key, b: Key)
    requires IsFirst(keys, a) && IsFirst(keys, b)
    ensures a == b
  {
    if a != b {
      BeforeTransitive(a, b, a);
      BeforeTotal(a, a);
    }
  }

  ghost function Sorted(keys: set<Key>): seq<Key> {
    if keys == {} then []
    else
      FirstExists(keys);
      var k :| IsFirst(keys, k);
      [k] + Sorted(keys - {k})
  }

  ghost function KeysOf(s: seq<Key>): set<Key> {
    set k | k in s
  }

  lemma {:induction false} SortedIsSorted(keys: set<Key>)
    ensures Ascending(Sorted(keys)) && KeysOf(Sorted(keys)) == keys && |Sorted(keys)| == |keys|
  {
    hide Before;
    if keys != {} {
      FirstExists(keys);
      var k :| IsFirst(keys, k) && Sorted(keys) == [k] + Sorted(keys - {k});
      var rest := Sorted(keys - {k});
      SortedIsSorted(keys - {k});
      assert forall x :: x in KeysOf(rest) ==> Before(k, x);
      assert forall j :: 0 <= j < |rest| ==> rest[j] in KeysOf(rest);
      AscendingCons(k, rest);
    }
  }

  lemma AscendingCons(k: Key, s: seq<Key>)
    requires Ascending(s) && forall j :: 0 <= j < |s| ==> Before(k, s[j])
    ensures Ascending([k] + s) && KeysOf([k] + s) == {k} + KeysOf(s)
  {
    hide Before;
  }

  /** There is only one way to list a set in order. */
  lemma {:induction false} SortedUnique(s: seq<Key>)
    requires Ascending(s)
    ensures Sorted(KeysOf(s)) == s
  {
    hide Before;
    if s != [] {
      var keys, rest := KeysOf(s), s[1..];
      assert IsFirst(keys, s[0]);
      var k :| IsFirst(keys, k) && Sorted(keys) == [k] + Sorted(keys - {k});
      FirstUnique(keys, k, s[0]);
      forall x | x in rest ensures x != s[0] {
        var i :| 0 <= i < |rest| && rest[i] == x;
        assert s[i + 1] == x;
        BeforeTotal(s[0], s[0]);
      }
      assert keys - {k} == KeysOf(rest) by {
        assert s == [s[0]] + rest;
      }
      SortedUnique(rest);
    }
  }

  // ---- One page -----------------------------------------------------------------------

  /** The rows a search sees: those that match and are not deleted, with their rank. */
  type Snapshot = map<Md5, real>

  ghost function Visible(t: Snapshot): set<Key> {
    set m | m in t :: Key(t[m], m)
  }

  predicate PastCursor(cursor: Option<Key>, k: Key) {
    cursor.None? || Before(cursor.value, k)
  }

  ghost function Remaining(t: Snapshot, cursor: Option<Key>): set<Key> {
    set k | k in Visible(t) && PastCursor(cursor, k)
  }

  function Take(s: seq<Key>, n: nat): seq<Key> {
    if |s| <= n then s else s[..n]
  }

  /** `ORDER BY rank DESC, md5 ASC LIMIT limit + 1`, with the keyset predicate of the cursor. */
  ghost function QueryRows(t: Snapshot, cursor: Option<Key>, limit: nat): seq<Key> {
    Take(Sorted(Remaining(t, cursor)), limit + 1)
  }

  datatype Page = Page(rows: seq<Key>, next: Option<Key>, totalLowerBound: nat)

  /**
    What becomes of a rank on its way from the database through the cursor back into a query: from a
    `real` column through its decimal text into a double precision parameter.
    */
  type Trip = real -> real

  /** The key that the next query is given for a last row `k`. */
  function Carried(k: Key, trip: Trip): Key {
    k.(rank := trip(k.rank))
  }

  /** `fetch_search_page` */
  function PageOf(rows: seq<Key>, limit: nat, trip: Trip): Page {
    var pageRows := Take(rows, limit);
    Page(
      pageRows,
      if |rows| > limit && pageRows != [] then Some(Carried(pageRows[|pageRows| - 1], trip)) else None,
      |rows|)
  }

  ghost function FetchPage(t: Snapshot, cursor: Option<Key>, limit: nat, trip: Trip): Page {
    PageOf(QueryRows(t, cursor, limit), limit, trip)
  }

  /** A page is the beginning of what remains, and has a cursor exactly when that is not all. */
  lemma PageSplits(t: Snapshot, cursor: Option<Key>, limit: nat, trip: Trip)
    requires limit >= 1
    ensures var all, page := Sorted(Remaining(t, cursor)), FetchPage(t, cursor, limit, trip);
            && Ascending(page.rows) && (forall k :: k in page.rows ==> PastCursor(cursor, k) && k in Visible(t))
            && (page.next.None? ==> page.rows == all && |all| <= limit)
            && (page.next.Some? ==> |all| > limit && page.rows == all[..limit] && page.next == Some(Carried(all[limit - 1], trip)))
  {
    hide Before;
    var keys := Remaining(t, cursor);
    SortedIsSorted(keys);
    var all, page := Sorted(keys), FetchPage(t, cursor, limit, trip);
    forall k | k in page.rows ensures PastCursor(cursor, k) && k in Visible(t) {
      assert k in KeysOf(all);
    }
  }

  // ---- Ranks that do not survive the trip ---------------------------------------------

  /** No rank of a visible row comes back higher. */
  ghost predicate NeverUp(tables: seq<Snapshot>, trip: Trip) {
    forall i, k :: 0 <= i < |tables| && k in Visible(tables[i]) ==> trip(k.rank) <= k.rank
  }

  /** ... or lower. */
  ghost predicate NeverDown(tables: seq<Snapshot>, trip: Trip) {
    forall i, k :: 0 <= i < |tables| && k in Visible(tables[i]) ==> trip(k.rank) >= k.rank
  }

  /** A cursor selects no row at or before the last one, in any table, exactly when its rank did not rise. */
  lemma NothingComesBackIff(last: Key, trip: Trip)
    ensures (forall t, k :: k in Remaining(t, Some(Carried(last, trip))) ==> Before(last, k)) <==> trip(last.rank) <= last.rank
  {
    var x := trip(last.rank);
    if x > last.rank {
      var t: Snapshot := map[last.md5 := last.rank];
      assert last == Key(t[last.md5], last.md5);
      assert last in Visible(t) && last in Remaining(t, Some(Carried(last, trip)));
      BeforeTotal(last, last);
    }
  }

  /** A cursor selects every row behind the last one, in any table, exactly when its rank did not fall. */
  lemma NothingIsSkippedIff(last: Key, trip: Trip)
    ensures (forall t, k :: k in Visible(t) && Before(last, k) ==> k in Remaining(t, Some(Carried(last, trip)))) <==> trip(last.rank) >= last.rank
  {
    var x := trip(last.rank);
    if x < last.rank {
      var k := Key((x + last.rank) / 2.0, last.md5);
      var t: Snapshot := map[k.md5 := k.rank];
      assert k == Key(t[k.md5], k.md5);
      assert k in Visible(t) && Before(last, k) && k !in Remaining(t, Some(Carried(last, trip)));
    }
  }

  /** Rows of equal rank: after a fall all of those behind the last one are skipped. */
  lemma EqualRanksAreSkipped(t: Snapshot, last: Key, k: Key, trip: Trip)
    requires k in Visible(t) && k.rank == last.rank && Before(last, k) && trip(last.rank) < last.rank
    ensures k !in Remaining(t, Some(Carried(last, trip)))
  {
  }

  /** What a page looks like: descending ranks, ascending md5 within a rank, and the number of rows that the query gave. */
  lemma PageOrder(t: Snapshot, cursor: Option<Key>, limit: nat, trip: Trip, i: nat, j: nat)
    requires limit >= 1 && i < j < |FetchPage(t, cursor, limit, trip).rows|
    ensures var a, b := FetchPage(t, cursor, limit, trip).rows[i], FetchPage(t, cursor, limit, trip).rows[j];
            a.rank > b.rank || (a.rank == b.rank && exists n: nat :: SmallerAt(a.md5, b.md5, n))
  {
    PageSplits(t, cursor, limit, trip);
    BeforeIff(FetchPage(t, cursor, limit, trip).rows[i], FetchPage(t, cursor, limit, trip).rows[j]);
  }

  /** The total that is reported is the number of rows that remain, or one more than the page if there are more. */
  lemma TotalLowerBound(t: Snapshot, cursor: Option<Key>, limit: nat, trip: Trip)
    ensures var page, left := FetchPage(t, cursor, limit, trip), |Remaining(t, cursor)|;
            page.totalLowerBound == if left <= limit then left else limit + 1
  {
    SortedIsSorted(Remaining(t, cursor));
  }

  /** With a null cursor everything visible remains, otherwise what is sorted behind the cursor. */
  lemma RemainingIff(t: Snapshot, cursor: Option<Key>, k: Key)
    ensures k in Remaining(t, cursor) <==>
      && k.md5 in t && t[k.md5] == k.rank
      && (cursor.Some? ==>
            || k.rank < cursor.value.rank
            || (k.rank == cursor.value.rank && exists i: nat :: SmallerAt(cursor.value.md5, k.md5, i)))
  {
    assert k in Visible(t) <==> k.md5 in t && t[k.md5] == k.rank by {
      if k.md5 in t && t[k.md5] == k.rank { assert k == Key(t[k.md5], k.md5); }
    }
    if cursor.Some? { BeforeIff(cursor.value, k); }
  }

  /** In an ascending list, what comes after an entry is what stands behind it. */
  lemma AfterIsBehind(s: seq<Key>, n: nat, k: Key)
    requires Ascending(s) && n < |s| && k in s
    ensures Before(s[n], k) <==> k in s[n + 1..]
  {
    hide Before;
    var i :| 0 <= i < |s| && s[i] == k;
    BeforeTotal(s[n], s[n]);
    if i > n {
      assert s[n + 1..][i - (n + 1)] == k;
    } else if i < n && Before(s[n], k) {
      BeforeTransitive(s[n], k, s[n]);
    }
    if k in s[n + 1..] {
      var j :| 0 <= j < |s| - (n + 1) && s[n + 1..][j] == k;
      assert s[j + (n + 1)] == k;
    }
  }

  /** After the last row of a page, exactly the rows behind it remain. */
  lemma RemainingAfter(t: Snapshot, cursor: Option<Key>, n: nat)
    requires n < |Sorted(Remaining(t, cursor))|
    ensures var all := Sorted(Remaining(t, cursor));
            Sorted(Remaining(t, Some(all[n]))) == all[n + 1..]
  {
    hide Before, Sorted;
    var keys := Remaining(t, cursor);
    var all := Sorted(keys);
    SortedIsSorted(keys);
    var last := all[n];
    assert forall k :: k in keys <==> k in KeysOf(all);
    assert last in KeysOf(all);
    forall k ensures k in Remaining(t, Some(last)) <==> k in all[n + 1..] {
      if k in Visible(t) && Before(last, k) && cursor.Some? { BeforeTransitive(cursor.value, last, k); }
      if k in keys { AfterIsBehind(all, n, k); }
      if k in all[n + 1..] { assert k in all; }
    }
    assert Remaining(t, Some(last)) == KeysOf(all[n + 1..]);
    SortedUnique(all[n + 1..]);
  }

  /** On an unchanging table a risen rank makes the second page begin with a row of the first. */
  lemma RisenRankRepeats(t: Snapshot, limit: nat, trip: Trip)
    requires limit >= 1
    requires var page := FetchPage(t, None, limit, trip);
             page.next.Some? && page.rows != [] && trip(page.rows[|page.rows| - 1].rank) > page.rows[|page.rows| - 1].rank
    ensures var page := FetchPage(t, None, limit, trip);
            var again := FetchPage(t, page.next, limit, trip);
            again.rows != [] && again.rows[0] in page.rows
  {
    hide Sorted;
    var page := FetchPage(t, None, limit, trip);
    var all, left := Sorted(Remaining(t, None)), Sorted(Remaining(t, page.next));
    PageSplits(t, None, limit, trip);
    PageSplits(t, page.next, limit, trip);
    SortedIsSorted(Remaining(t, None));
    SortedIsSorted(Remaining(t, page.next));
    var last := all[limit - 1];
    assert page.rows[|page.rows| - 1] == last && last in KeysOf(all);
    assert last in Remaining(t, page.next);
    assert last in KeysOf(left);
    var j :| 0 <= j < |left| && left[j] == last;
    var first := left[0];
    assert first in KeysOf(left) && first in Visible(t) && first in KeysOf(all);
    var i :| 0 <= i < |all| && all[i] == first;
    hide Before;
    BeforeTotal(last, last);
    if i >= limit {
      assert Before(last, first);
      if j > 0 { BeforeTransitive(last, first, last); }
    }
    assert page.rows[i] == first;
  }

  // ---- A traversal over a table that changes between pages ---------------------------

  /** Follows the cursors; `tables[i]` is what the i-th request sees. */
  ghost function Browse(tables: seq<Snapshot>, cursor: Option<Key>, limit: nat, trip: Trip): seq<Page> {
    if tables == [] then []
    else
      var page := FetchPage(tables[0], cursor, limit, trip);
      [page] + (if page.next.None? then [] else Browse(tables[1..], page.next, limit, trip))
  }

  function Rows(pages: seq<Page>): seq<Key> {
    if pages == [] then [] else pages[0].rows + Rows(pages[1..])
  }

  /** The traversal ran to a null cursor. */
  predicate Complete(pages: seq<Page>) {
    pages != [] && pages[|pages| - 1].next.None?
  }

  lemma TablesTail(tables: seq<Snapshot>, trip: Trip)
    requires tables != []
    ensures NeverUp(tables, trip) ==> NeverUp(tables[1..], trip)
    ensures NeverDown(tables, trip) ==> NeverDown(tables[1..], trip)
  {
    assert forall i :: 0 <= i < |tables[1..]| ==> tables[1..][i] == tables[i + 1];
  }

  /** Past a carried key whose rank did not rise is past the key itself. */
  lemma PastCarried(last: Key, trip: Trip, k: Key)
    requires trip(last.rank) <= last.rank && Before(Carried(last, trip), k)
    ensures Before(last, k)
  {
  }

  /** Behind a key is past its carried form, if the rank did not fall. */
  lemma BehindCarried(last: Key, trip: Trip, k: Key)
    requires trip(last.rank) >= last.rank && Before(last, k)
    ensures Before(Carried(last, trip), k)
  {
  }

  /** Whatever happens to the table, keys come in strictly ascending order, all past the cursor. */
  lemma {:induction false} NeverRepeats(tables: seq<Snapshot>, cursor: Option<Key>, limit: nat, trip: Trip)
    requires limit >= 1 && NeverUp(tables, trip)
    ensures var rows := Rows(Browse(tables, cursor, limit, trip));
            Ascending(rows) && forall k :: k in rows ==> PastCursor(cursor, k)
  {
    hide Before, FetchPage, Carried, Visible, NeverUp, Sorted;
    if tables != [] {
      var page := FetchPage(tables[0], cursor, limit, trip);
      PageSplits(tables[0], cursor, limit, trip);
      if page.next.Some? {
        TablesTail(tables, trip);
        NeverRepeats(tables[1..], page.next, limit, trip);
        var rest := Browse(tables[1..], page.next, limit, trip);
        FirstNeverUp(tables, trip);
        JoinPage(tables[0], cursor, limit, trip, Rows(rest));
        RowsCons(page, rest);
      } else {
        assert [page][1..] == [] && page.rows + [] == page.rows;
      }
    }
  }

  lemma FirstNeverUp(tables: seq<Snapshot>, trip: Trip)
    requires tables != [] && NeverUp(tables, trip)
    ensures forall k :: k in Visible(tables[0]) ==> trip(k.rank) <= k.rank
  {
  }

  /** A page and rows that come after it. */
  lemma JoinPage(t: Snapshot, cursor: Option<Key>, limit: nat, trip: Trip, rest: seq<Key>)
    requires limit >= 1 && forall k :: k in Visible(t) ==> trip(k.rank) <= k.rank
    requires var page := FetchPage(t, cursor, limit, trip);
             page.next.Some? && Ascending(rest) && forall k :: k in rest ==> PastCursor(page.next, k)
    ensures var rows := FetchPage(t, cursor, limit, trip).rows + rest;
            Ascending(rows) && forall k :: k in rows ==> PastCursor(cursor, k)
  {
    hide Before, FetchPage, Carried, Visible, Sorted;
    var page := FetchPage(t, cursor, limit, trip);
    PageSplits(t, cursor, limit, trip);
    SortedIsSorted(Remaining(t, cursor));
    var last := Sorted(Remaining(t, cursor))[limit - 1];
    assert page.rows[|page.rows| - 1] == last && last in page.rows;
    forall k | k in rest ensures Before(last, k) && PastCursor(cursor, k) {
      PastCarried(last, trip, k);
      if cursor.Some? { BeforeTransitive(cursor.value, last, k); }
    }
    hide Remaining, Ascending;
    AscendingJoin(page.rows, last, rest);
  }

  lemma AscendingJoin(s: seq<Key>, last: Key, rest: seq<Key>)
    requires Ascending(s) && s != [] && s[|s| - 1] == last && Ascending(rest) && forall k :: k in rest ==> Before(last, k)
    ensures Ascending(s + rest)
  {
    hide Before;
    forall i, j | 0 <= i < |s| && 0 <= j < |rest| ensures Before(s[i], rest[j]) {
      assert rest[j] in rest;
      if i < |s| - 1 { BeforeTransitive(s[i], last, rest[j]); }
    }
  }

  /** An md5 can come back only if its rank dropped in between. */
  lemma RepeatedMd5HasLowerRank(tables: seq<Snapshot>, limit: nat, trip: Trip, i: nat, j: nat)
    requires limit >= 1 && NeverUp(tables, trip)
    requires var rows := Rows(Browse(tables, None, limit, trip)); i < j < |rows| && rows[i].md5 == rows[j].md5
    ensures var rows := Rows(Browse(tables, None, limit, trip)); rows[j].rank < rows[i].rank
  {
    NeverRepeats(tables, None, limit, trip);
    var rows := Rows(Browse(tables, None, limit, trip));
    assert Before(rows[i], rows[j]);
    LexIrreflexive(rows[i].md5);
  }

  /** The row is visible under the same key at every request of the traversal. */
  ghost predicate Steady(tables: seq<Snapshot>, pages: nat, k: Key) {
    forall i :: 0 <= i < pages && i < |tables| ==> k in Visible(tables[i])
  }

  /** A row that keeps its key and stays visible is returned, whatever the others do. */
  lemma {:induction false} SteadyRowsAreReturned(tables: seq<Snapshot>, cursor: Option<Key>, limit: nat, trip: Trip, k: Key)
    requires limit >= 1 && PastCursor(cursor, k) && NeverDown(tables, trip)
    requires Complete(Browse(tables, cursor, limit, trip)) && Steady(tables, |Browse(tables, cursor, limit, trip)|, k)
    ensures k in Rows(Browse(tables, cursor, limit, trip))
  {
    hide Before, FetchPage, PastCursor, Visible, NeverDown, Steady;
    var page := FetchPage(tables[0], cursor, limit, trip);
    SteadyTail(tables, |Browse(tables, cursor, limit, trip)|, k);
    FirstNeverDown(tables, trip);
    OnPageOrAfter(tables[0], cursor, limit, trip, k);
    RowsCons(page, []);
    assert [page] + [] == [page] && page.rows + [] == page.rows;
    if page.next.Some? {
      var rest := Browse(tables[1..], page.next, limit, trip);
      RowsCons(page, rest);
      if k !in page.rows {
        TablesTail(tables, trip);
        assert rest != [];
        SteadyRowsAreReturned(tables[1..], page.next, limit, trip, k);
      }
    }
  }

  lemma SteadyTail(tables: seq<Snapshot>, pages: nat, k: Key)
    requires tables != [] && pages > 0 && Steady(tables, pages, k)
    ensures k in Visible(tables[0]) && Steady(tables[1..], pages - 1, k)
  {
    hide Visible;
    assert forall i :: 0 <= i < |tables[1..]| ==> tables[1..][i] == tables[i + 1];
  }

  lemma FirstNeverDown(tables: seq<Snapshot>, trip: Trip)
    requires tables != [] && NeverDown(tables, trip)
    ensures forall k :: k in Visible(tables[0]) ==> trip(k.rank) >= k.rank
  {
  }

  /** A visible row past the cursor is on the page, or past the next cursor. */
  lemma OnPageOrAfter(t: Snapshot, cursor: Option<Key>, limit: nat, trip: Trip, k: Key)
    requires limit >= 1 && (forall x :: x in Visible(t) ==> trip(x.rank) >= x.rank)
    requires k in Visible(t) && PastCursor(cursor, k)
    ensures var page := FetchPage(t, cursor, limit, trip);
            k in page.rows || (page.next.Some? && PastCursor(page.next, k))
  {
    hide Before, FetchPage, Carried, Visible, Sorted;
    var page, all := FetchPage(t, cursor, limit, trip), Sorted(Remaining(t, cursor));
    PageSplits(t, cursor, limit, trip);
    SortedIsSorted(Remaining(t, cursor));
    assert k in KeysOf(all);
    var i :| 0 <= i < |all| && all[i] == k;
    if page.next.Some? && i >= limit {
      var last := all[limit - 1];
      assert last in KeysOf(all) && Before(last, k);
      BehindCarried(last, trip, k);
    } else {
      assert page.rows[i] == k;
    }
  }

  /** ... and only once. */
  lemma ReturnedOnce(tables: seq<Snapshot>, limit: nat, trip: Trip, i: nat, j: nat)
    requires limit >= 1 && NeverUp(tables, trip)
    requires var rows := Rows(Browse(tables, None, limit, trip)); i < |rows| && j < |rows| && rows[i] == rows[j]
    ensures i == j
  {
    hide Before;
    NeverRepeats(tables, None, limit, trip);
    BeforeTotal(Rows(Browse(tables, None, limit, trip))[i], Rows(Browse(tables, None, limit, trip))[i]);
  }

  // ---- A table that does not change ------------------------------------------------------

  /** `n` requests that all see `t`. */
  function Same(t: Snapshot, n: nat): seq<Snapshot> {
    seq(n, i => t)
  }

  /** Every visible rank comes back as it was. */
  ghost predicate Exact(t: Snapshot, trip: Trip) {
    forall k :: k in Visible(t) ==> trip(k.rank) == k.rank
  }

  /** How many rows `n` pages hold. */
  function Capacity(n: nat, limit: nat): nat {
    if n == 0 then 0 else Capacity(n - 1, limit) + limit
  }

  lemma {:induction false} CapacityIsProduct(n: nat, limit: nat)
    ensures Capacity(n, limit) == n * limit
  {
    if n > 0 { CapacityIsProduct(n - 1, limit); }
  }

  lemma BrowseSame(t: Snapshot, cursor: Option<Key>, limit: nat, n: nat, page: Page, trip: Trip)
    requires n >= 1 && page == FetchPage(t, cursor, limit, trip)
    ensures page.next.None? ==> Browse(Same(t, n), cursor, limit, trip) == [page]
    ensures page.next.Some? ==> Browse(Same(t, n), cursor, limit, trip) == [page] + Browse(Same(t, n - 1), page.next, limit, trip)
  {
    hide FetchPage;
    assert Same(t, n)[0] == t && Same(t, n)[1..] == Same(t, n - 1);
  }

  lemma RowsCons(page: Page, rest: seq<Page>)
    ensures Rows([page] + rest) == page.rows + Rows(rest)
    ensures rest != [] ==> (Complete([page] + rest) <==> Complete(rest))
  {
    assert ([page] + rest)[1..] == rest;
  }

  lemma {:induction false} PagesOfUnchangingTable(t: Snapshot, cursor: Option<Key>, limit: nat, n: nat, trip: Trip)
    requires limit >= 1 && n >= 1 && Exact(t, trip)
    ensures var all, pages := Sorted(Remaining(t, cursor)), Browse(Same(t, n), cursor, limit, trip);
            && pages != []
            && (Complete(pages) <==> |all| <= Capacity(n, limit))
            && (Complete(pages) ==> Rows(pages) == all)
            && (|pages| > 1 ==> Capacity(|pages| - 1, limit) < |all|)
    decreases n
  {
    hide Before, FetchPage, Same, Sorted, Remaining, Browse, Exact, Visible;
    var all := Sorted(Remaining(t, cursor));
    var page := FetchPage(t, cursor, limit, trip);
    PageSplits(t, cursor, limit, trip);
    BrowseSame(t, cursor, limit, n, page, trip);
    RowsCons(page, []);
    assert [page] + [] == [page] && page.rows + [] == page.rows;
    if page.next.Some? {
      ExactLast(t, cursor, limit, trip);
      RemainingAfter(t, cursor, limit - 1);
      var rest := Browse(Same(t, n - 1), page.next, limit, trip);
      RowsCons(page, rest);
      assert all == all[..limit] + all[limit..];
      if n == 1 {
        NoRequests(t, page.next, limit, trip);
      } else {
        PagesOfUnchangingTable(t, page.next, limit, n - 1, trip);
      }
    }
  }

  lemma ExactLast(t: Snapshot, cursor: Option<Key>, limit: nat, trip: Trip)
    requires Exact(t, trip) && 1 <= limit < |Sorted(Remaining(t, cursor))|
    ensures var last := Sorted(Remaining(t, cursor))[limit - 1]; Carried(last, trip) == last
  {
    hide Sorted, Before;
    var all := Sorted(Remaining(t, cursor));
    SortedIsSorted(Remaining(t, cursor));
    assert all[limit - 1] in KeysOf(all);
  }

  lemma NoRequests(t: Snapshot, cursor: Option<Key>, limit: nat, trip: Trip)
    ensures Browse(Same(t, 0), cursor, limit, trip) == []
  {
  }

  /** The pages concatenate to the full sorted result, in as few pages as the limit allows. */
  lemma UnchangingTable(t: Snapshot, limit: nat, n: nat, trip: Trip)
    requires limit >= 1 && n >= 1 && Exact(t, trip)
    ensures var all, pages := Sorted(Visible(t)), Browse(Same(t, n), None, limit, trip);
            && (Complete(pages) <==> |all| <= n * limit)
            && (Complete(pages) ==> Rows(pages) == all)
            && (|pages| > 1 ==> (|pages| - 1) * limit < |all|)
  {
    assert Remaining(t, None) == Visible(t);
    var pages := Browse(Same(t, n), None, limit, trip);
    PagesOfUnchangingTable(t, None, limit, n, trip);
    CapacityIsProduct(n, limit);
    CapacityIsProduct(|pages| - 1, limit);
  }

  // ---- Ranks that the database does yield ------------------------------------------------

  /** `m / unit` is the multiple of `1 / unit` nearest to `num / den`. */
  predicate Nearest(m: int, unit: int, num: int, den: int) {
    -den <= 2 * (m * den - unit * num) <= den
  }

  /** 0.1 and 0.7 as a `real` column holds them, with 24 significant bits, ... */
  const SINGLE_TENTH := 13421773.0 / 134217728.0
  const SINGLE_SEVEN_TENTHS := 11744051.0 / 16777216.0

  /** ... and as their decimal text is read back, with 53. */
  const DOUBLE_TENTH := 7205759403792794.0 / 72057594037927936.0
  const DOUBLE_SEVEN_TENTHS := 6305039478318694.0 / 9007199254740992.0

  lemma RoundedTenths()
    ensures Nearest(13421773, 134217728, 1, 10) && Nearest(7205759403792794, 72057594037927936, 1, 10)
    ensures Nearest(11744051, 16777216, 7, 10) && Nearest(6305039478318694, 9007199254740992, 7, 10)
    ensures DOUBLE_TENTH < SINGLE_TENTH && DOUBLE_SEVEN_TENTHS > SINGLE_SEVEN_TENTHS
  {
  }

  const MD5_A: Md5 := [0, 0, 0, 0, 0, 0, 0, 0, 0, 0, 0, 0, 0, 0, 0, 0]
  const MD5_B: Md5 := [1, 0, 0, 0, 0, 0, 0, 0, 0, 0, 0, 0, 0, 0, 0, 0]

  /** Rank 0.1 falls on its way, so of two rows with that rank the second is never reached behind the first. */
  lemma TenthIsSkipped(trip: Trip)
    requires trip(SINGLE_TENTH) == DOUBLE_TENTH
    ensures var t: Snapshot := map[MD5_A := SINGLE_TENTH, MD5_B := SINGLE_TENTH];
            var a, b := Key(SINGLE_TENTH, MD5_A), Key(SINGLE_TENTH, MD5_B);
            b in Visible(t) && Before(a, b) && b !in Remaining(t, Some(Carried(a, trip)))
  {
    RoundedTenths();
    var t: Snapshot := map[MD5_A := SINGLE_TENTH, MD5_B := SINGLE_TENTH];
    var a, b := Key(SINGLE_TENTH, MD5_A), Key(SINGLE_TENTH, MD5_B);
    assert b == Key(t[b.md5], b.md5);
    assert LexLess(MD5_A, MD5_B);
    EqualRanksAreSkipped(t, a, b, trip);
  }

  /** All rows of `t` have rank `r`. */
  ghost predicate OneRank(t: Snapshot, r: real) {
    forall m :: m in t ==> t[m] == r
  }

  /** Where all rows have one rank and it rises on its way, every request returns the first page again. */
  lemma {:induction false} RisenRankNeverEnds(t: Snapshot, cursor: Option<Key>, limit: nat, trip: Trip, r: real, n: nat)
    requires OneRank(t, r) && trip(r) > r && 1 <= limit < |t|
    requires cursor.None? || cursor.value.rank > r
    ensures var pages := Browse(Same(t, n), cursor, limit, trip);
            |pages| == n && !Complete(pages) && forall i :: 0 <= i < n ==> pages[i] == FetchPage(t, None, limit, trip)
    decreases n
  {
    hide FetchPage, Sorted, Same, Browse;
    assert Remaining(t, cursor) == Visible(t) == Remaining(t, None);
    var page := FetchPage(t, cursor, limit, trip);
    OneRankPage(t, cursor, limit, trip, r);
    if n == 0 {
      NoRequests(t, cursor, limit, trip);
    } else {
      BrowseSame(t, cursor, limit, n, page, trip);
      RisenRankNeverEnds(t, page.next, limit, trip, r, n - 1);
      if n == 1 { NoRequests(t, page.next, limit, trip); }
    }
  }

  lemma OneRankPage(t: Snapshot, cursor: Option<Key>, limit: nat, trip: Trip, r: real)
    requires OneRank(t, r) && trip(r) > r && 1 <= limit < |t| && Remaining(t, cursor) == Visible(t)
    ensures var page := FetchPage(t, cursor, limit, trip);
            page.next.Some? && page.next.value.rank > r && page == FetchPage(t, None, limit, trip)
  {
    hide Sorted;
    var all := Sorted(Visible(t));
    assert Remaining(t, None) == Visible(t);
    PageSplits(t, cursor, limit, trip);
    SortedIsSorted(Visible(t));
    VisibleSize(t);
    assert all[limit - 1] in KeysOf(all);
  }

  lemma {:induction false} VisibleSize(t: Snapshot)
    ensures |Visible(t)| == |t|
  {
    if t == map[] {
      assert Visible(t) == {};
    } else {
      var m :| m in t;
      var rest := t - {m};
      VisibleSize(rest);
      assert Visible(t) == Visible(rest) + {Key(t[m], m)};
      assert t.Keys == rest.Keys + {m};
      assert |t| == |t.Keys| && |rest| == |rest.Keys|;
    }
  }

  /** Rank 0.7 rises, so two rows with that rank, one per page, are never left. */
  lemma SevenTenthsNeverEnd(trip: Trip, n: nat)
    requires trip(SINGLE_SEVEN_TENTHS) == DOUBLE_SEVEN_TENTHS
    ensures var t: Snapshot := map[MD5_A := SINGLE_SEVEN_TENTHS, MD5_B := SINGLE_SEVEN_TENTHS];
            |Browse(Same(t, n), None, 1, trip)| == n && !Complete(Browse(Same(t, n), None, 1, trip))
  {
    RoundedTenths();
    var t: Snapshot := map[MD5_A := SINGLE_SEVEN_TENTHS, MD5_B := SINGLE_SEVEN_TENTHS];
    assert MD5_A[0] != MD5_B[0];
    assert t.Keys == {MD5_A, MD5_B} && |t| == |t.Keys|;
    RisenRankNeverEnds(t, None, 1, trip, SINGLE_SEVEN_TENTHS, n);
  }
}
