/**
  The paginated session listing: pages are cut from all undeleted rows, expired ones
  included, while the reported total counts live rows only.
 */
module Pagination {
  import opened Outcomes
  import opened Lists
  import opened Memories
  import opened MemoryRuns
  import opened Search

  /** The fields of the response that pagination decides. */
  datatype Listing = Listing(items: seq<Memory>, total: nat, pages: nat)

  /** The query of one listing; the route requires page >= 1 and 1 <= size <= 100. */
  datatype Query = Query(tenant: string, session: string, size: nat, memoryType: Option<string>, now: real)

  /** `(total + size - 1) // size if size > 0 else 1`. */
  function PageCount(total: nat, size: nat): nat {
    if size > 0 then (total + size - 1) / size else 1
  }

  function List(s: Store, q: Query, page: nat): Listing
    requires page >= 1
  {
    var total := CountSession(s, q.tenant, q.session, q.now);
    Listing(ListSession(s, q.tenant, q.session, q.size, (page - 1) * q.size, q.memoryType, q.now),
            total, PageCount(total, q.size))
  }

  /** The items of pages 1 to n, one after the other. */
  function ItemsThrough(s: Store, q: Query, n: nat): seq<Memory> {
    if n == 0 then [] else ItemsThrough(s, q, n - 1) + List(s, q, n).items
  }

  /** What a listing is about: the session's live rows of the type, newest first. */
  function Everything(s: Store, q: Query): seq<Memory> {
    Filter(Wanted(q.memoryType, q.now), SessionRows(s, q.tenant, q.session))
  }

  // ---------- concatenating pages ----------

  lemma PageExtends<T>(xs: seq<T>, limit: nat, offset: nat)
    ensures Take(xs, offset) + Page(xs, limit, offset) == Take(xs, offset + limit)
  {
  }

  /** Pages 1 to n hold exactly the wanted ones among the first n * size rows. */
  lemma {:induction false} PagesArePrefix(s: Store, q: Query, n: nat)
    ensures ItemsThrough(s, q, n) ==
            Filter(Wanted(q.memoryType, q.now), Take(SessionRows(s, q.tenant, q.session), n * q.size))
  {
    hide SessionRows, Filter, Take, ListSession;
    if n == 0 {
      NothingTaken(Wanted(q.memoryType, q.now), SessionRows(s, q.tenant, q.session));
    } else {
      PagesArePrefix(s, q, n - 1);
      PageStep(s, q, (n - 1) * q.size);
      assert n * q.size == (n - 1) * q.size + q.size;
    }
  }

  lemma NothingTaken<T>(p: T -> bool, xs: seq<T>)
    ensures Filter(p, Take(xs, 0)) == []
  {
    assert Take(xs, 0) == [];
  }

  lemma PageStep(s: Store, q: Query, offset: nat)
    ensures var rows, wanted := SessionRows(s, q.tenant, q.session), Wanted(q.memoryType, q.now);
      Filter(wanted, Take(rows, offset)) + ListSession(s, q.tenant, q.session, q.size, offset, q.memoryType, q.now) ==
      Filter(wanted, Take(rows, offset + q.size))
  {
    var rows, wanted := SessionRows(s, q.tenant, q.session), Wanted(q.memoryType, q.now);
    PageExtends(rows, q.size, offset);
    hide SessionRows, Filter, Take, Page;
    FilterConcat(wanted, Take(rows, offset), Page(rows, q.size, offset));
    WantedIsBoth(q.memoryType, q.now, Page(rows, q.size, offset));
  }

  lemma PageCountCovers(total: nat, size: nat)
    requires size >= 1
    ensures total <= PageCount(total, size) * size < total + size
  {
  }

  /** As many pages as the undeleted rows fill lose nothing: together they are the filtered session list. */
  lemma {:induction false} AllPagesComplete(s: Store, q: Query)
    requires q.size >= 1
    ensures ItemsThrough(s, q, PageCount(|SessionRows(s, q.tenant, q.session)|, q.size)) == Everything(s, q)
  {
    var rows := SessionRows(s, q.tenant, q.session);
    hide SessionRows, ItemsThrough, PageCount;
    PagesArePrefix(s, q, PageCount(|rows|, q.size));
    PageCountCovers(|rows|, q.size);
  }

  /** Over all pages the rows come newest first. */
  lemma {:induction false} NewestFirst(s: Store, q: Query)
    requires q.size >= 1
    ensures var items := ItemsThrough(s, q, PageCount(|SessionRows(s, q.tenant, q.session)|, q.size));
      forall i, j :: 0 <= i < j < |items| ==> items[i].createdAt >= items[j].createdAt
  {
    var items := ItemsThrough(s, q, PageCount(|SessionRows(s, q.tenant, q.session)|, q.size));
    AllPagesComplete(s, q);
    SortSorts(ByCreation(), Filter(OfSession(q.tenant, q.session), s.memories));
    hide ItemsThrough, PageCount, Filter, SortDesc;
    FilterKeepsOrder(ByCreation(), Wanted(q.memoryType, q.now), SessionRows(s, q.tenant, q.session));
    forall i, j | 0 <= i < j < |items|
      ensures items[i].createdAt >= items[j].createdAt
    {
      assert ByCreation()(items[i]) >= ByCreation()(items[j]);
    }
  }

  /** What the pages are cut from: the undeleted rows of the tenant's session, newest first, each as often as it is stored. */
  lemma {:induction false} SessionRowsExactly(s: Store, tenant: string, session: string, m: Memory)
    ensures multiset(SessionRows(s, tenant, session))[m] ==
            if m.tenant == tenant && m.session == session && !m.deleted then multiset(s.memories)[m] else 0
    ensures var rows := SessionRows(s, tenant, session);
      forall i, j :: 0 <= i < j < |rows| ==> rows[i].createdAt >= rows[j].createdAt
  {
    var p := OfSession(tenant, session);
    SortSorts(ByCreation(), Filter(p, s.memories));
    FilterMultiplicity(p, s.memories, m);
    var rows := SessionRows(s, tenant, session);
    forall i, j | 0 <= i < j < |rows|
      ensures rows[i].createdAt >= rows[j].createdAt
    {
      assert ByCreation()(rows[i]) >= ByCreation()(rows[j]);
    }
  }

  /** The live ones among the first 10000 rows, counted by their places. */
  ghost function LiveAmongFirst(rows: seq<Memory>, now: real): nat {
    |set i | 0 <= i < |rows| && i < 10000 && (rows[i].expiresAt.Some? ==> now <= rows[i].expiresAt.value)|
  }

  /** Every page reports the same total and just as many pages as it needs, and holds at most `size` items. */
  lemma {:induction false} ReportedTotals(s: Store, q: Query, page: nat)
    requires page >= 1 && q.size >= 1
    ensures var l := List(s, q, page);
      && l.total == LiveAmongFirst(SessionRows(s, q.tenant, q.session), q.now)
      && l.total <= l.pages * q.size < l.total + q.size
      && |l.items| <= q.size
  {
    var rows := SessionRows(s, q.tenant, q.session);
    FirstPage(rows, COUNT_LIMIT);
    var first := Take(rows, COUNT_LIMIT);
    FilterCardinality(Live(q.now), first);
    var p := Satisfies(Live(q.now), first);
    assert (set i | 0 <= i < |first| && p(i)) ==
           (set i | 0 <= i < |rows| && i < 10000 && (rows[i].expiresAt.Some? ==> q.now <= rows[i].expiresAt.value));
    PageCountCovers(List(s, q, page).total, q.size);
    hide SessionRows, PageCount;
  }

  // ---------- each row once ----------

  /** Over all pages, each live row of the session and type appears exactly once, and nothing else appears. */
  lemma {:induction false} EachRowOnce(cfg: Config, s: Store, q: Query, m: Memory)
    requires Inv(cfg, s) && q.size >= 1
    ensures multiset(ItemsThrough(s, q, PageCount(|SessionRows(s, q.tenant, q.session)|, q.size)))[m] ==
            if && m in s.memories && m.tenant == q.tenant && m.session == q.session && !m.deleted
               && (q.memoryType.Some? && q.memoryType.value != "" ==> m.memoryType == q.memoryType.value)
               && (m.expiresAt.Some? ==> q.now <= m.expiresAt.value)
            then 1 else 0
  {
    var p := OfSession(q.tenant, q.session);
    AllPagesComplete(s, q);
    FilterMultiplicity(Wanted(q.memoryType, q.now), SessionRows(s, q.tenant, q.session), m);
    SortSorts(ByCreation(), Filter(p, s.memories));
    FilterMultiplicity(p, s.memories, m);
    hide GoodRow, Attached, UniqueIds, ItemsThrough;
    UniqueRows(s.memories, m);
  }

  // ---------- the reported number of pages ----------

  /** What the listing counts: the live ones among the first 10000 undeleted rows. */
  function CountedLive(rows: seq<Memory>, now: real): nat {
    |Filter(Live(now), Take(rows, COUNT_LIMIT))|
  }

  /** The places on the reported pages. */
  function Places(rows: seq<Memory>, now: real, size: nat): nat {
    PageCount(CountedLive(rows, now), size) * size
  }

  lemma ReportedPages(s: Store, q: Query)
    ensures List(s, q, 1).pages * q.size == Places(SessionRows(s, q.tenant, q.session), q.now, q.size)
  {
    FirstPage(SessionRows(s, q.tenant, q.session), COUNT_LIMIT);
  }

  /**
    For every page size, type and number of rows: walking the reported pages reaches
    every live row of the type if and only if each stands, among the undeleted rows, within
    as many full pages as the live ones among the first 10000 rows need.
   */
  lemma {:induction false} ReportedPagesReach(s: Store, q: Query)
    requires q.size >= 1
    ensures var rows := SessionRows(s, q.tenant, q.session);
      ItemsThrough(s, q, List(s, q, 1).pages) == Everything(s, q) <==>
      forall j :: 0 <= j < |rows| && Wanted(q.memoryType, q.now)(rows[j]) ==> j < Places(rows, q.now, q.size)
  {
    ReportedPages(s, q);
    hide SessionRows, ItemsThrough, List, Places;
    var rows, pages := SessionRows(s, q.tenant, q.session), List(s, q, 1).pages;
    PagesArePrefix(s, q, pages);
    CutKeepsAll(Wanted(q.memoryType, q.now), rows, pages * q.size);
  }

  /** The expired rows that precede position j. */
  function ExpiredBefore(rows: seq<Memory>, now: real, j: nat): nat
    requires j <= |rows|
  {
    |Filter(Not(Live(now)), rows[..j])|
  }

  /** The live rows from position j on. */
  function LiveFrom(rows: seq<Memory>, now: real, j: nat): nat
    requires j <= |rows|
  {
    |Filter(Live(now), rows[j..])|
  }

  lemma {:induction false} CountsPartition<T>(p: T -> bool, xs: seq<T>)
    ensures |Filter(p, xs)| + |Filter(Not(p), xs)| == |xs|
  {
    if xs != [] {
      CountsPartition(p, xs[1..]);
    }
  }

  /** A position counts the expired rows before it and the live ones that do not follow. */
  lemma PositionSplit(rows: seq<Memory>, now: real, j: nat)
    requires j <= |rows|
    ensures j == ExpiredBefore(rows, now, j) + |Filter(Live(now), rows)| - LiveFrom(rows, now, j)
  {
    CountsPartition(Live(now), rows[..j]);
    assert rows == rows[..j] + rows[j..];
    FilterConcat(Live(now), rows[..j], rows[j..]);
  }

  /** The free places of the last reported page; at most size - 1. */
  function FreePlaces(rows: seq<Memory>, now: real, size: nat): int {
    var live := |Filter(Live(now), rows)|;
    PageCount(live, size) * size - live
  }

  /**
    With at most 10000 rows, in terms of rows only: the reported pages reach everything
    if and only if, for each live row of the type, fewer expired rows precede it than
    the last page has free places and live rows follow from there on.
   */
  lemma {:induction false} ExpiredRowsFit(s: Store, q: Query)
    requires q.size >= 1 && |SessionRows(s, q.tenant, q.session)| <= COUNT_LIMIT
    ensures var rows := SessionRows(s, q.tenant, q.session);
      ItemsThrough(s, q, List(s, q, 1).pages) == Everything(s, q) <==>
      forall j :: 0 <= j < |rows| && Wanted(q.memoryType, q.now)(rows[j]) ==>
        ExpiredBefore(rows, q.now, j) < FreePlaces(rows, q.now, q.size) + LiveFrom(rows, q.now, j)
  {
    var rows := SessionRows(s, q.tenant, q.session);
    ReportedPagesReach(s, q);
    assert Places(rows, q.now, q.size) == FreePlaces(rows, q.now, q.size) + |Filter(Live(q.now), rows)|;
    hide SessionRows, ItemsThrough, List, Places, FreePlaces, ExpiredBefore, LiveFrom, Filter;
    forall j | 0 <= j < |rows|
      ensures j < Places(rows, q.now, q.size) <==>
        ExpiredBefore(rows, q.now, j) < FreePlaces(rows, q.now, q.size) + LiveFrom(rows, q.now, j)
    {
      PositionSplit(rows, q.now, j);
    }
  }

  /** The last selected entry at or after a selected one, with what precedes both. */
  lemma {:induction false} LastSelected<T>(p: T -> bool, xs: seq<T>, j: nat) returns (l: nat)
    requires j < |xs| && p(xs[j])
    ensures j <= l < |xs| && p(xs[l]) && |Filter(p, xs[l..])| == 1
    ensures |Filter(Not(p), xs[..j])| <= |Filter(Not(p), xs[..l])|
    decreases |xs| - j
  {
    if AllRejected(p, xs[j + 1..]) {
      l := j;
      FilterNothing(p, xs[j + 1..]);
      assert xs[j..] == [xs[j]] + xs[j + 1..];
      FilterCons(p, xs[j], xs[j + 1..]);
    } else {
      var i :| 0 <= i < |xs[j + 1..]| && p(xs[j + 1..][i]);
      l := LastSelected(p, xs, j + 1 + i);
      FilterPrefix(Not(p), xs[..j], xs[..j + 1 + i]);
    }
  }

  ghost predicate AllRejected<T>(p: T -> bool, xs: seq<T>) {
    forall x :: x in xs ==> !p(x)
  }

  /**
    Without a type filter the last live row decides: the reported pages reach everything
    if and only if the expired rows before each live row fit into the free places of the
    last reported page.
   */
  lemma {:induction false} ExpiredRowsFitUntyped(s: Store, q: Query)
    requires q.size >= 1 && q.memoryType == None && |SessionRows(s, q.tenant, q.session)| <= COUNT_LIMIT
    ensures var rows := SessionRows(s, q.tenant, q.session);
      ItemsThrough(s, q, List(s, q, 1).pages) == Everything(s, q) <==>
      forall j :: 0 <= j < |rows| && !IsExpired(rows[j], q.now) ==>
        ExpiredBefore(rows, q.now, j) <= FreePlaces(rows, q.now, q.size)
  {
    var rows := SessionRows(s, q.tenant, q.session);
    ExpiredRowsFit(s, q);
    hide SessionRows, ItemsThrough, List, FreePlaces;
    assert forall m: Memory :: Wanted(q.memoryType, q.now)(m) == !IsExpired(m, q.now);
    LastLiveDecides(rows, q.now, FreePlaces(rows, q.now, q.size));
  }

  lemma LastLiveDecides(rows: seq<Memory>, now: real, free: int)
    ensures
      (forall j :: 0 <= j < |rows| && !IsExpired(rows[j], now) ==>
         ExpiredBefore(rows, now, j) < free + LiveFrom(rows, now, j)) <==>
      (forall j :: 0 <= j < |rows| && !IsExpired(rows[j], now) ==> ExpiredBefore(rows, now, j) <= free)
  {
    hide Filter;
    forall j | 0 <= j < |rows| && !IsExpired(rows[j], now)
      ensures 1 <= LiveFrom(rows, now, j)
    {
      FilterMember(Live(now), rows[j..], rows[j]);
      assert rows[j..][0] == rows[j];
    }
    forall j | 0 <= j < |rows| && !IsExpired(rows[j], now)
      ensures exists l :: 0 <= l < |rows| && !IsExpired(rows[l], now) && LiveFrom(rows, now, l) == 1
                          && ExpiredBefore(rows, now, j) <= ExpiredBefore(rows, now, l)
    {
      var l := LastSelected(Live(now), rows, j);
      assert LiveFrom(rows, now, l) == 1;
    }
    hide ExpiredBefore, LiveFrom;
  }

  lemma CutKeepsAll<T>(p: T -> bool, xs: seq<T>, cut: nat)
    ensures Filter(p, Take(xs, cut)) == Filter(p, xs) <==> NoneFrom(p, xs, cut)
  {
    var head := Take(xs, cut);
    var tail := xs[|head|..];
    assert xs == head + tail;
    SplitAtCut(p, xs, cut, head, tail);
    hide NoneFrom, Filter, Take;
    FilterConcat(p, head, tail);
    NoneKept(p, tail);
    assert Filter(p, head) == Filter(p, head) + Filter(p, tail) <==> Filter(p, tail) == [];
  }

  /** They do reach every row when no undeleted row has expired and there are at most 10000. */
  lemma {:induction false} ReportedPagesSuffice(s: Store, q: Query)
    requires q.size >= 1 && |SessionRows(s, q.tenant, q.session)| <= COUNT_LIMIT
    requires forall m :: m in SessionRows(s, q.tenant, q.session) ==> !IsExpired(m, q.now)
    ensures ItemsThrough(s, q, List(s, q, 1).pages) == Everything(s, q)
  {
    var rows := SessionRows(s, q.tenant, q.session);
    FirstPage(rows, COUNT_LIMIT);
    FilterAll(Live(q.now), rows);
    PageCountCovers(|rows|, q.size);
    hide SessionRows, ItemsThrough, PageCount;
    ReportedPagesReach(s, q);
  }

  /** With at most 10000 rows, the listing falls short only if an expired row precedes a live one. */
  lemma {:induction false} ShortfallNeedsExpired(s: Store, q: Query)
    requires q.size >= 1 && |SessionRows(s, q.tenant, q.session)| <= COUNT_LIMIT
    requires ItemsThrough(s, q, List(s, q, 1).pages) != Everything(s, q)
    ensures var rows := SessionRows(s, q.tenant, q.session);
      exists i, j :: 0 <= i < j < |rows| && IsExpired(rows[i], q.now) && !IsExpired(rows[j], q.now)
  {
    var rows := SessionRows(s, q.tenant, q.session);
    var cut := List(s, q, 1).pages * q.size;
    ReportedPagesReach(s, q);
    FirstPage(rows, COUNT_LIMIT);
    PageCountCovers(|Filter(Live(q.now), rows)|, q.size);
    hide SessionRows, ItemsThrough, PageCount, Filter;
    var j :| cut <= j < |rows| && Wanted(q.memoryType, q.now)(rows[j]);
    if AllBefore(Live(q.now), rows, j + 1) {
      LivePrefixCounted(rows, q.now, j + 1);
      assert false;
    }
    var i :| 0 <= i < |rows| && i < j + 1 && !Live(q.now)(rows[i]);
    assert i != j;
  }

  /** Without a type filter the listing falls short as soon as a page's worth of expired rows precedes a live one. */
  lemma {:induction false} ShortfallFromExpired(s: Store, q: Query, j: nat)
    requires q.size >= 1 && q.memoryType == None && |SessionRows(s, q.tenant, q.session)| <= COUNT_LIMIT
    requires j < |SessionRows(s, q.tenant, q.session)| && !IsExpired(SessionRows(s, q.tenant, q.session)[j], q.now)
    requires ExpiredBefore(SessionRows(s, q.tenant, q.session), q.now, j) >= q.size
    ensures ItemsThrough(s, q, List(s, q, 1).pages) != Everything(s, q)
  {
    ExpiredRowsFitUntyped(s, q);
    PageCountCovers(|Filter(Live(q.now), SessionRows(s, q.tenant, q.session))|, q.size);
    hide SessionRows, ItemsThrough, List, PageCount, ExpiredBefore;
  }

  lemma LivePrefixCounted(rows: seq<Memory>, now: real, n: nat)
    requires n <= |rows| && AllBefore(Live(now), rows, n)
    ensures |Filter(Live(now), rows)| >= n
  {
    assert forall m :: m in rows[..n] ==> Live(now)(m);
    FilterAll(Live(now), rows[..n]);
    FilterPrefix(Live(now), rows[..n], rows);
  }

  // ---------- a listing that falls short ----------

  function Sample(id: Id, createdAt: real, expiresAt: real): Memory {
    Memory(id, "t", "s", "u", "text", "hash", map[], 1.0, "general", 0, None, createdAt, createdAt, Some(expiresAt), false)
  }

  /** An expired newer row in front of a live one: one page is reported, it is empty, and the live row is on page 2. */
  lemma {:induction false} ShortfallExample()
    ensures var s := Store([Sample(1, 0.0, 100.0), Sample(2, 1.0, 5.0)], map[]);
      var q := Query("t", "s", 1, None, 10.0);
      && List(s, q, 1) == Listing([], 1, 1)
      && List(s, q, 2).items == [Sample(1, 0.0, 100.0)]
      && Everything(s, q) == [Sample(1, 0.0, 100.0)]
  {
    var older, newer := Sample(1, 0.0, 100.0), Sample(2, 1.0, 5.0);
    var s := Store([older, newer], map[]);
    var q := Query("t", "s", 1, None, 10.0);
    FilterAll(OfSession("t", "s"), [older, newer]);
    assert Filter(OfSession("t", "s"), s.memories) == [older, newer];
    assert [older, newer][1..] == [newer] && [newer][1..] == [];
    assert SortDesc(ByCreation(), [newer]) == [newer];
    assert Insert(ByCreation(), older, [newer]) == [newer] + Insert(ByCreation(), older, []);
    assert SessionRows(s, "t", "s") == [newer, older];
    hide SessionRows, SortDesc;
    assert Page([newer, older], 1, 0) == [newer] && Page([newer, older], 1, 1) == [older];
    FirstPage([newer, older], COUNT_LIMIT);
    TwoRows(Live(10.0), newer, older);
    TwoRows(Wanted(None, 10.0), newer, older);
    WantedIsBoth(None, 10.0, [newer]);
    WantedIsBoth(None, 10.0, [older]);
    FilterNothing(Wanted(None, 10.0), [newer]);
    FilterAll(Wanted(None, 10.0), [older]);
  }

  lemma TwoRows(p: Memory -> bool, x: Memory, y: Memory)
    requires !p(x) && p(y)
    ensures Filter(p, [x, y]) == [y]
  {
    FilterCons(p, x, [y]);
    FilterCons(p, y, []);
    assert [x, y] == [x] + [y] && [y] == [y] + [];
  }
}
