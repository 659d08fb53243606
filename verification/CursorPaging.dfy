/**
 Cursor pagination over the subscribers table: a page holds the greatest matching ids below the cursor, one extra row
 having been fetched to see whether there are more. The table may change between two pages of one walk.
 */
module CursorPaging {
  import opened Basics

  datatype Subscriber = Subscriber(
    status: string, organizationId: string, firstName: string, lastName: string, email: string, msisdn: string)

  /** Rows by primary key. */
  type Table = map<nat, Subscriber>

  /** The filter of a request; `ilike` is the database's case-insensitive pattern match. */
  datatype Query = Query(status: string, organizationId: string, search: string, ilike: (string, string) -> bool) {
    predicate Matches(s: Subscriber) {
      var pattern := "%" + search + "%";
      && (status == "" || s.status == status)
      && (organizationId == "" || s.organizationId == organizationId)
      && (search == "" || ilike(s.firstName, pattern) || ilike(s.lastName, pattern)
          || ilike(s.email, pattern) || ilike(s.msisdn, pattern))
    }
  }

  datatype Page = Page(ids: seq<nat>, nextCursor: Option<nat>, hasMore: bool)

  function Matching(t: Table, q: Query, cursor: Option<nat>): set<nat> {
    set id | id in t && q.Matches(t[id]) && (cursor.None? || id < cursor.value)
  }

  /** ORDER BY id DESC */
  function Descending(s: set<nat>): (r: seq<nat>)
    ensures forall x :: x in r <==> x in s
    ensures StrictlyDescending(r)
  {
    if s == {} then []
    else
      var m := Greatest(s);
      [m] + Descending(s - {m})
  }

  predicate StrictlyDescending(r: seq<nat>) {
    forall i, j :: 0 <= i < j < |r| ==> r[i] > r[j]
  }

  /** What is made of the rows fetched, of which there may be one more than the page holds. */
  function CutPage(fetched: seq<nat>, limit: nat): Page {
    var hasMore := |fetched| > limit;
    var ids := if hasMore then fetched[..limit] else fetched;
    Page(ids, if ids == [] then None else Some(ids[|ids|-1]), hasMore)
  }

  function ListSubscribersCursor(t: Table, q: Query, cursor: Option<nat>, limit: nat): Page {
    CutPage(Take(Descending(Matching(t, q, cursor)), limit + 1), limit)
  }

  function PageLimit(requested: int): (limit: nat)
    ensures 1 <= limit <= 100
    ensures 1 <= requested <= 100 ==> limit == requested
    ensures requested <= 0 ==> limit == 20
    ensures requested > 100 ==> limit == 100
  {
    if requested <= 0 then 20 else if requested > 100 then 100 else requested
  }

  function ListSubscribers(t: Table, q: Query, cursor: Option<nat>, requested: int): Page {
    ListSubscribersCursor(t, q, cursor, PageLimit(requested))
  }

  // ---- One page -------------------------------------------------------------------------------------

  ghost predicate Below(x: nat, cursor: Option<nat>) {
    cursor.None? || x < cursor.value
  }

  lemma {:induction false} SameDescending(a: seq<nat>, b: seq<nat>)
    requires StrictlyDescending(a) && StrictlyDescending(b)
    requires forall x :: x in a <==> x in b
    ensures a == b
  {
    assert b != [] ==> b[0] in b;
    if a != [] {
      assert a[0] in b;
      assert a[0] == b[0];
      forall x ensures x in a[1..] <==> x in b[1..] {
        assert x in a <==> x == a[0] || x in a[1..];
        assert x in b <==> x == b[0] || x in b[1..];
      }
      SameDescending(a[1..], b[1..]);
    }
  }

  ghost predicate IsTop(p: Page, sorted: seq<nat>, limit: nat) {
    && p.ids <= sorted
    && (p.hasMore <==> p.ids != sorted)
    && (p.hasMore ==> |p.ids| == limit && (p.nextCursor.None? <==> limit == 0))
    && (p.hasMore && limit >= 1 ==> forall x :: x in sorted ==> (x in p.ids <==> x >= p.nextCursor.value))
  }

  lemma CutIsTop(sorted: seq<nat>, limit: nat)
    requires StrictlyDescending(sorted)
    ensures IsTop(CutPage(Take(sorted, limit + 1), limit), sorted, limit)
  {
    if |sorted| > limit >= 1 {
      var ids := sorted[..limit];
      assert Take(sorted, limit + 1)[..limit] == ids;
      forall x | x in sorted ensures x in ids <==> x >= ids[limit - 1] {
        var i :| 0 <= i < |sorted| && sorted[i] == x;
        assert i < limit ==> ids[i] == x;
      }
    }
  }

  /** A page is the top of what matches below the cursor: all of it, or its greatest `limit` ids with more to come. */
  lemma {:induction false} PageIsTop(t: Table, q: Query, cursor: Option<nat>, limit: nat)
    ensures var p, all := ListSubscribersCursor(t, q, cursor, limit), Matching(t, q, cursor);
            && p.ids <= Descending(all)
            && (p.hasMore <==> p.ids != Descending(all))
            && (p.nextCursor == if p.ids == [] then None else Some(p.ids[|p.ids|-1]))
            && (p.hasMore ==> |p.ids| == limit)
            && (p.hasMore ==> (p.nextCursor.None? <==> limit == 0))
            && (p.hasMore && limit >= 1 ==>
                forall x :: x in all ==> (x in p.ids <==> x >= p.nextCursor.value))
  {
    CutIsTop(Descending(Matching(t, q, cursor)), limit);
  }

  // ---- A walk ---------------------------------------------------------------------------------------

  /** Following next_cursor while has_more, the i-th page being read from the i-th state of the table. It ends for
      every sequence of tables: the cursor only goes down. */
  function Walk(tables: nat -> Table, q: Query, requested: int, cursor: Option<nat>, i: nat): (pages: seq<Page>)
    ensures |pages| >= 1
    decreases if cursor.None? then 1 else 0, if cursor.None? then 0 else cursor.value
  {
    var page := ListSubscribers(tables(i), q, cursor, requested);
    PageIsTop(tables(i), q, cursor, PageLimit(requested));
    assert page.hasMore ==> page.nextCursor.value in Descending(Matching(tables(i), q, cursor));
    if page.hasMore then [page] + Walk(tables, q, requested, page.nextCursor, i + 1) else [page]
  }

  function Listed(pages: seq<Page>): seq<nat> {
    if pages == [] then [] else pages[0].ids + Listed(pages[1..])
  }

  ghost predicate MatchesThroughout(tables: nat -> Table, q: Query, x: nat, i: nat, n: nat) {
    forall k :: i <= k < i + n ==> x in tables(k) && q.Matches(tables(k)[x])
  }

  ghost predicate MatchedAtSome(tables: nat -> Table, q: Query, x: nat, i: nat, n: nat) {
    exists k :: i <= k < i + n && x in tables(k) && q.Matches(tables(k)[x])
  }

  lemma TopSplits(p: Page, sorted: seq<nat>, limit: nat)
    requires IsTop(p, sorted, limit) && StrictlyDescending(sorted) && limit >= 1
    requires p.nextCursor == if p.ids == [] then None else Some(p.ids[|p.ids|-1])
    ensures StrictlyDescending(p.ids) && forall x :: x in p.ids ==> x in sorted
    ensures p.hasMore ==> p.nextCursor.Some? && p.nextCursor.value in sorted && forall x :: x in p.ids ==> x >= p.nextCursor.value
    ensures forall x :: x in sorted ==> x in p.ids || (p.hasMore && x < p.nextCursor.value)
  {}

  /** What a page leaves is below its cursor. */
  lemma PageSplits(t: Table, q: Query, cursor: Option<nat>, requested: int)
    ensures var page := ListSubscribers(t, q, cursor, requested);
            && (forall x :: x in page.ids ==> Below(x, cursor) && x in t && q.Matches(t[x]))
            && StrictlyDescending(page.ids)
            && (page.hasMore ==>
                && page.nextCursor.Some? && Below(page.nextCursor.value, cursor)
                && (forall x :: x in page.ids ==> x >= page.nextCursor.value))
            && (forall x :: x in Matching(t, q, cursor) ==>
                  x in page.ids || (page.hasMore && Below(x, page.nextCursor)))
  {
    var sorted, limit := Descending(Matching(t, q, cursor)), PageLimit(requested);
    CutIsTop(sorted, limit);
    TopSplits(CutPage(Take(sorted, limit + 1), limit), sorted, limit);
  }

  /** The first page of a walk, and how the others follow it. */
  lemma WalkStep(tables: nat -> Table, q: Query, requested: int, cursor: Option<nat>, i: nat)
    ensures var page := ListSubscribers(tables(i), q, cursor, requested);
            var pages := Walk(tables, q, requested, cursor, i);
            && pages[0] == page
            && (forall x :: x in page.ids ==> Below(x, cursor) && x in tables(i) && q.Matches(tables(i)[x]))
            && StrictlyDescending(page.ids)
            && (page.hasMore ==>
                && page.nextCursor.Some? && Below(page.nextCursor.value, cursor)
                && pages[1..] == Walk(tables, q, requested, page.nextCursor, i + 1)
                && (forall x :: x in page.ids ==> x >= page.nextCursor.value)
                && Listed(pages) == page.ids + Listed(pages[1..]))
            && (!page.hasMore ==> |pages| == 1 && Listed(pages) == page.ids)
            && (forall x :: x in Matching(tables(i), q, cursor) ==>
                  x in page.ids || (page.hasMore && Below(x, page.nextCursor)))
  {
    PageSplits(tables(i), q, cursor, requested);
    var page, pages := ListSubscribers(tables(i), q, cursor, requested), Walk(tables, q, requested, cursor, i);
    if !page.hasMore {
      assert pages[1..] == [];
      assert Listed(pages) == page.ids + [] == page.ids;
    }
  }

  lemma DescendingAppend(a: seq<nat>, b: seq<nat>, bound: nat)
    requires StrictlyDescending(a) && StrictlyDescending(b)
    requires (forall x :: x in a ==> x >= bound) && forall x :: x in b ==> x < bound
    ensures StrictlyDescending(a + b)
  {
    assert forall i :: 0 <= i < |a| ==> a[i] in a;
    assert forall i :: 0 <= i < |b| ==> b[i] in b;
  }

  lemma {:induction false} WalkDescends(tables: nat -> Table, q: Query, requested: int, cursor: Option<nat>, i: nat)
    ensures var listed := Listed(Walk(tables, q, requested, cursor, i));
            StrictlyDescending(listed) && forall x :: x in listed ==> Below(x, cursor)
    decreases if cursor.None? then 1 else 0, if cursor.None? then 0 else cursor.value
  {
    WalkStep(tables, q, requested, cursor, i);
    var page := ListSubscribers(tables(i), q, cursor, requested);
    if page.hasMore {
      WalkDescends(tables, q, requested, page.nextCursor, i + 1);
      var rest := Listed(Walk(tables, q, requested, page.nextCursor, i + 1));
      DescendingAppend(page.ids, rest, page.nextCursor.value);
    }
  }

  lemma {:induction false} WalkIsSound(tables: nat -> Table, q: Query, requested: int, cursor: Option<nat>, i: nat, x: nat)
    requires x in Listed(Walk(tables, q, requested, cursor, i))
    ensures MatchedAtSome(tables, q, x, i, |Walk(tables, q, requested, cursor, i)|)
    decreases if cursor.None? then 1 else 0, if cursor.None? then 0 else cursor.value
  {
    WalkStep(tables, q, requested, cursor, i);
    var page := ListSubscribers(tables(i), q, cursor, requested);
    if x !in page.ids {
      WalkIsSound(tables, q, requested, page.nextCursor, i + 1, x);
      var n := |Walk(tables, q, requested, page.nextCursor, i + 1)|;
      var k :| i + 1 <= k < i + 1 + n && x in tables(k) && q.Matches(tables(k)[x]);
    }
  }

  lemma {:induction false} WalkIsComplete(tables: nat -> Table, q: Query, requested: int, cursor: Option<nat>, i: nat, x: nat)
    requires Below(x, cursor) && MatchesThroughout(tables, q, x, i, |Walk(tables, q, requested, cursor, i)|)
    ensures x in Listed(Walk(tables, q, requested, cursor, i))
    decreases if cursor.None? then 1 else 0, if cursor.None? then 0 else cursor.value
  {
    WalkStep(tables, q, requested, cursor, i);
    var page := ListSubscribers(tables(i), q, cursor, requested);
    assert x in Matching(tables(i), q, cursor);
    if x !in page.ids {
      WalkIsComplete(tables, q, requested, page.nextCursor, i + 1, x);
    }
  }

  /** However rows are inserted, deleted or changed between pages, a whole walk lists ids in strictly descending order,
      so none twice; each listed row matched when its page was read, and every row that matched throughout is there. */
  lemma {:induction false} WalkListsEachOnce(tables: nat -> Table, q: Query, requested: int)
    ensures var pages := Walk(tables, q, requested, None, 0);
            && StrictlyDescending(Listed(pages))
            && (forall x :: x in Listed(pages) ==> MatchedAtSome(tables, q, x, 0, |pages|))
            && (forall x :: MatchesThroughout(tables, q, x, 0, |pages|) ==> x in Listed(pages))
  {
    WalkDescends(tables, q, requested, None, 0);
    var pages := Walk(tables, q, requested, None, 0);
    forall x | x in Listed(pages) ensures MatchedAtSome(tables, q, x, 0, |pages|) {
      WalkIsSound(tables, q, requested, None, 0, x);
    }
    forall x | MatchesThroughout(tables, q, x, 0, |pages|) ensures x in Listed(pages) {
      WalkIsComplete(tables, q, requested, None, 0, x);
    }
  }

  /** On a table that does not change the pages concatenate to the whole filtered list. */
  lemma WalkOfFixedTable(t: Table, q: Query, requested: int)
    ensures Listed(Walk(_ => t, q, requested, None, 0)) == Descending(Matching(t, q, None))
  {
    var tables: nat -> Table := _ => t;
    var pages := Walk(tables, q, requested, None, 0);
    WalkListsEachOnce(tables, q, requested);
    forall x ensures x in Listed(pages) <==> x in Descending(Matching(t, q, None)) {
      if x in Listed(pages) {
        assert MatchedAtSome(tables, q, x, 0, |pages|);
      }
    }
    SameDescending(Listed(pages), Descending(Matching(t, q, None)));
  }

  /** The rows of a fixed table that a walk lists, said of their columns: an empty filter excludes nothing, a status or an
      organization must be equal, and a search text must be found within one of four columns by the database's matching. */
  lemma {:induction false} WalkListsExactly(t: Table, q: Query, requested: int, x: nat)
    ensures x in Listed(Walk(_ => t, q, requested, None, 0)) <==>
            && x in t
            && (q.status != "" ==> t[x].status == q.status)
            && (q.organizationId != "" ==> t[x].organizationId == q.organizationId)
            && (q.search != "" ==>
                exists column :: column in {t[x].firstName, t[x].lastName, t[x].email, t[x].msisdn}
                                 && q.ilike(column, "%" + q.search + "%"))
  {
    WalkOfFixedTable(t, q, requested);
    assert x in t && q.search != "" ==>
      ((exists column :: column in {t[x].firstName, t[x].lastName, t[x].email, t[x].msisdn}
                         && q.ilike(column, "%" + q.search + "%"))
       <==> q.ilike(t[x].firstName, "%" + q.search + "%") || q.ilike(t[x].lastName, "%" + q.search + "%")
            || q.ilike(t[x].email, "%" + q.search + "%") || q.ilike(t[x].msisdn, "%" + q.search + "%"));
  }

  /** How long a page is: 20 rows if no positive limit is asked for, else what is asked for but at most 100, and shorter
      only for the last page. */
  lemma {:induction false} PageLength(t: Table, q: Query, cursor: Option<nat>, requested: int)
    ensures var p, n := ListSubscribers(t, q, cursor, requested), |Descending(Matching(t, q, cursor))|;
            var size := if requested <= 0 then 20 else if requested <= 100 then requested else 100;
            |p.ids| == (if n <= size then n else size) && (p.hasMore <==> n > size)
  {}

  /** What the clamp is for: with limit 0 a page with more to come is empty and has no cursor to go on with, so the next
      request starts over; with any positive limit such a page has a cursor strictly below the one before. */
  lemma {:induction false} ProgressNeedsPositiveLimit(t: Table, q: Query, cursor: Option<nat>, limit: nat)
    requires ListSubscribersCursor(t, q, cursor, limit).hasMore
    ensures var next := ListSubscribersCursor(t, q, cursor, limit).nextCursor;
            (next.Some? && Below(next.value, cursor)) <==> limit >= 1
  {
    PageIsTop(t, q, cursor, limit);
    var p := ListSubscribersCursor(t, q, cursor, limit);
    if limit >= 1 {
      assert p.nextCursor.value in Descending(Matching(t, q, cursor));
    }
  }
}
