/**
  The sliding-window rate limiter. Pruning, checking and appending happen without an
  `await` in between, so one dispatch is one atomic step; the remaining quota is read
  after the request has been served, when other dispatches may have run.
 */
module RateLimiter {
  import opened Lists

  const WINDOW := 60.0

  type Counts = map<string, seq<real>>

  /** The comprehension's test `t > window_start`. */
  function After(start: real): real -> bool {
    t => t > start
  }

  function TimesOf(counts: Counts, tenant: string): seq<real> {
    if tenant in counts then counts[tenant] else []
  }

  /** The whole effect of one dispatch: the new table and whether the request is admitted. */
  function Dispatch(limit: int, counts: Counts, tenant: string, now: real): (Counts, bool) {
    var recent := Filter(After(now - WINDOW), TimesOf(counts, tenant));
    if |recent| >= limit then (counts[tenant := recent], false)
    else (counts[tenant := recent + [now]], true)
  }

  /** The number of entries later than start. */
  ghost function Since(ts: seq<real>, start: real): nat {
    |set i | 0 <= i < |ts| && ts[i] > start|
  }

  lemma RecentCount(stored: seq<real>, now: real)
    ensures |Filter(After(now - WINDOW), stored)| == Since(stored, now - 60.0)
  {
    FilterCardinality(After(now - WINDOW), stored);
    var p := Satisfies(After(now - WINDOW), stored);
    assert (set i | 0 <= i < |stored| && p(i)) == (set i | 0 <= i < |stored| && stored[i] > now - 60.0);
  }

  class RateLimitMiddleware {
    const requestsPerMinute: int
    var requestCounts: Counts

    constructor (requestsPerMinute: int)
      ensures this.requestsPerMinute == requestsPerMinute && requestCounts == map[]
    {
      this.requestsPerMinute := requestsPerMinute;
      requestCounts := map[];
    }

    /** The part of `dispatch` before the request is passed on; false is the 429 response. */
    method Admit(tenant: string, now: real) returns (admitted: bool)
      modifies this
      ensures (requestCounts, admitted) == Dispatch(requestsPerMinute, old(requestCounts), tenant, now)
      ensures admitted <==> Since(TimesOf(old(requestCounts), tenant), now - 60.0) < requestsPerMinute
      ensures tenant in requestCounts && forall other :: other != tenant ==>
        (other in requestCounts <==> other in old(requestCounts)) &&
        (other in requestCounts ==> requestCounts[other] == old(requestCounts)[other])
      ensures var recent := Filter(t => t > now - 60.0, TimesOf(old(requestCounts), tenant));
        requestCounts[tenant] == if admitted then recent + [now] else recent
    {
      ghost var stored := TimesOf(requestCounts, tenant);
      RecentCount(stored, now);
      FilterAgree(After(now - WINDOW), t => t > now - 60.0, stored);
      if tenant !in requestCounts {
        requestCounts := requestCounts[tenant := []];
      }
      requestCounts := requestCounts[tenant := Filter(After(now - WINDOW), requestCounts[tenant])];
      ghost var recent := Filter(After(now - WINDOW), TimesOf(old(requestCounts), tenant));
      assert requestCounts == old(requestCounts)[tenant := recent];
      if |requestCounts[tenant]| >= requestsPerMinute {
        return false;
      }
      requestCounts := requestCounts[tenant := requestCounts[tenant] + [now]];
      assert requestCounts == old(requestCounts)[tenant := recent + [now]];
      return true;
    }

    /** The X-RateLimit-Remaining header, read after the request was served. */
    method Remaining(tenant: string) returns (remaining: int)
      requires tenant in requestCounts
      ensures |requestCounts[tenant]| <= requestsPerMinute ==> remaining == requestsPerMinute - |requestCounts[tenant]|
      ensures |requestCounts[tenant]| > requestsPerMinute ==> remaining == 0
    {
      remaining := requestsPerMinute - |requestCounts[tenant]|;
      if remaining < 0 {
        remaining := 0;
      }
    }
  }

  // ---------- runs ----------

  datatype Request = Request(tenant: string, now: real)

  /** A nondecreasing clock. */
  predicate Clocked(rs: seq<Request>) {
    forall i, j :: 0 <= i < j < |rs| ==> rs[i].now <= rs[j].now
  }

  function Exec(limit: int, rs: seq<Request>): Counts {
    if rs == [] then map[]
    else
      var r := rs[|rs| - 1];
      Dispatch(limit, Exec(limit, rs[..|rs| - 1]), r.tenant, r.now).0
  }

  /** Whether the last request of the run is admitted. */
  predicate Accepts(limit: int, rs: seq<Request>)
    requires rs != []
  {
    var r := rs[|rs| - 1];
    Dispatch(limit, Exec(limit, rs[..|rs| - 1]), r.tenant, r.now).1
  }

  /** The tenant's admitted requests, never pruned. */
  function History(limit: int, rs: seq<Request>, tenant: string): seq<real> {
    if rs == [] then []
    else
      var h := History(limit, rs[..|rs| - 1], tenant);
      if rs[|rs| - 1].tenant == tenant && Accepts(limit, rs) then h + [rs[|rs| - 1].now] else h
  }

  /** The tenant's own requests. */
  function OwnRequests(rs: seq<Request>, tenant: string): seq<Request> {
    if rs == [] then []
    else
      var own := OwnRequests(rs[..|rs| - 1], tenant);
      if rs[|rs| - 1].tenant == tenant then own + [rs[|rs| - 1]] else own
  }

  lemma RunSnoc(limit: int, rs: seq<Request>, r: Request, tenant: string)
    ensures var d := Dispatch(limit, Exec(limit, rs), r.tenant, r.now);
      && Exec(limit, rs + [r]) == d.0
      && Accepts(limit, rs + [r]) == d.1
      && History(limit, rs + [r], tenant) ==
           if r.tenant == tenant && d.1 then History(limit, rs, tenant) + [r.now] else History(limit, rs, tenant)
  {
    assert (rs + [r])[..|rs|] == rs;
  }

  /** Half-open windows `lo < t <= hi`. */
  function Inside(lo: real, hi: real): real -> bool {
    t => lo < t <= hi
  }

  ghost predicate Ascending(ts: seq<real>) {
    forall i, j :: 0 <= i < j < |ts| ==> ts[i] <= ts[j]
  }

  lemma {:induction false} HistoryAscends(limit: int, rs: seq<Request>, tenant: string)
    requires Clocked(rs)
    ensures Ascending(History(limit, rs, tenant))
    ensures forall t :: t in History(limit, rs, tenant) ==> rs != [] && t <= rs[|rs| - 1].now
  {
    if rs != [] {
      var before := rs[..|rs| - 1];
      HistoryAscends(limit, before, tenant);
      forall t | t in History(limit, before, tenant)
        ensures t <= rs[|rs| - 1].now
      {
        assert before[|before| - 1] == rs[|rs| - 2];
      }
      var h := History(limit, before, tenant);
      assert forall i :: 0 <= i < |h| ==> h[i] in h;
    }
  }

  /** In an ascending list, everything from an entry inside the window on is inside it. */
  lemma RecentSuffix(ts: seq<real>, start: real, m: nat)
    requires Ascending(ts) && m < |ts| && ts[m] > start
    ensures |Filter(After(start), ts)| >= |ts| - m
  {
    assert ts == ts[..m] + ts[m..];
    FilterConcat(After(start), ts[..m], ts[m..]);
    FilterAll(After(start), ts[m..]);
  }

  /** For windows that start no earlier than its own, a dispatch only adds the admitted request. */
  lemma DispatchAnswers(limit: int, counts: Counts, tenant: string, now: real, start: real)
    requires now - WINDOW <= start
    ensures var (counts', admitted) := Dispatch(limit, counts, tenant, now);
      var before := Filter(After(start), TimesOf(counts, tenant));
      Filter(After(start), TimesOf(counts', tenant)) == if admitted && now > start then before + [now] else before
  {
    var stored := TimesOf(counts, tenant);
    var recent := Filter(After(now - WINDOW), stored);
    FilterAbsorb(After(start), After(now - WINDOW), stored);
    FilterSnoc(After(start), recent, now);
  }

  /**
    The pruned list is the history cut to the window of the tenant's latest dispatch;
    for every later window it answers as the whole history would.
   */
  lemma {:induction false} PrunedIsHistory(limit: int, rs: seq<Request>, tenant: string, start: real)
    requires Clocked(rs)
    requires rs != [] ==> rs[|rs| - 1].now - WINDOW <= start
    ensures Filter(After(start), TimesOf(Exec(limit, rs), tenant)) == Filter(After(start), History(limit, rs, tenant))
  {
    if rs != [] {
      var before, r := rs[..|rs| - 1], rs[|rs| - 1];
      assert before != [] ==> before[|before| - 1] == rs[|rs| - 2];
      PrunedIsHistory(limit, before, tenant, start);
      if r.tenant == tenant {
        DispatchAnswers(limit, Exec(limit, before), tenant, r.now, start);
        FilterSnoc(After(start), History(limit, before, tenant), r.now);
      }
    }
  }

  lemma StoredAfterDispatch(limit: int, rs: seq<Request>, r: Request)
    requires Clocked(rs) && (rs != [] ==> rs[|rs| - 1].now <= r.now)
    ensures TimesOf(Exec(limit, rs + [r]), r.tenant) ==
            Filter(After(r.now - WINDOW), History(limit, rs + [r], r.tenant))
  {
    hide Exec, History, Filter, Accepts, Clocked;
    RunSnoc(limit, rs, r, r.tenant);
    PrunedIsHistory(limit, rs, r.tenant, r.now - WINDOW);
    FilterSnoc(After(r.now - WINDOW), History(limit, rs, r.tenant), r.now);
  }

  /** After every dispatch the tenant's stored list is exactly its history filtered to the window. */
  lemma StoredIsWindow(limit: int, rs: seq<Request>)
    requires Clocked(rs) && rs != []
    ensures var r := rs[|rs| - 1];
      TimesOf(Exec(limit, rs), r.tenant) == Filter(t => t > r.now - 60.0, History(limit, rs, r.tenant))
  {
    hide Exec, History, Filter, TimesOf;
    var before, r := rs[..|rs| - 1], rs[|rs| - 1];
    assert before != [] ==> before[|before| - 1] == rs[|rs| - 2];
    assert rs == before + [r];
    StoredAfterDispatch(limit, before, r);
    FilterAgree(After(r.now - WINDOW), t => t > r.now - 60.0, History(limit, rs, r.tenant));
  }

  /** The decision is that of a limiter that never prunes: admit while the window holds fewer than the limit. */
  lemma DecidesLikeUnpruned(limit: int, rs: seq<Request>)
    requires Clocked(rs) && rs != []
    ensures var r := rs[|rs| - 1];
      Accepts(limit, rs) <==> |Filter(Inside(r.now - 60.0, r.now), History(limit, rs[..|rs| - 1], r.tenant))| < limit
  {
    var before, r := rs[..|rs| - 1], rs[|rs| - 1];
    PrunedIsHistory(limit, before, r.tenant, r.now - WINDOW);
    HistoryAscends(limit, before, r.tenant);
    forall t | t in History(limit, before, r.tenant)
      ensures t <= r.now
    {
      assert rs[|before| - 1].now <= r.now;
    }
    FilterAgree(After(r.now - WINDOW), Inside(r.now - WINDOW, r.now), History(limit, before, r.tenant));
  }

  ghost predicate WindowApart(limit: nat, ts: seq<real>) {
    forall i, j :: 0 <= i <= j < |ts| && j - i >= limit ==> ts[i] + WINDOW <= ts[j]
  }

  lemma AdmissionApart(limit: nat, h: seq<real>, now: real)
    requires Ascending(h) && WindowApart(limit, h)
    requires |Filter(After(now - WINDOW), h)| < limit
    ensures WindowApart(limit, h + [now])
  {
    if limit <= |h| && h[|h| - limit] > now - WINDOW {
      RecentSuffix(h, now - WINDOW, |h| - limit);
      assert false;
    }
    var h' := h + [now];
    forall i, j | 0 <= i <= j < |h'| && j - i >= limit
      ensures h'[i] + WINDOW <= h'[j]
    {
      if j == |h| {
        assert h[i] <= h[|h| - limit];
      }
    }
  }

  /** Between an admission and the ones `limit` or more admissions later, a whole window has passed. */
  lemma {:induction false} HistorySpaced(limit: nat, rs: seq<Request>, tenant: string)
    requires Clocked(rs)
    ensures WindowApart(limit, History(limit, rs, tenant))
  {
    if rs != [] {
      var before, r := rs[..|rs| - 1], rs[|rs| - 1];
      HistorySpaced(limit, before, tenant);
      if r.tenant == tenant && Accepts(limit, rs) {
        HistoryAscends(limit, before, tenant);
        PrunedIsHistory(limit, before, tenant, r.now - WINDOW);
        assert History(limit, rs, tenant) == History(limit, before, tenant) + [r.now];
        hide History, Filter, WindowApart;
        AdmissionApart(limit, History(limit, before, tenant), r.now);
      }
    }
  }

  /** Request i of the run is the tenant's, is admitted and lies in the window. */
  function AdmittedAt(limit: int, rs: seq<Request>, tenant: string, lo: real, hi: real): int -> bool {
    i => 0 <= i < |rs| && rs[i].tenant == tenant && Accepts(limit, rs[..i + 1]) && lo < rs[i].now <= hi
  }

  /** The tenant's admitted requests in a half-open window. */
  ghost function AdmittedIn(limit: int, rs: seq<Request>, tenant: string, lo: real, hi: real): nat {
    |set i | 0 <= i < |rs| && rs[i].tenant == tenant && Accepts(limit, rs[..i + 1]) && lo < rs[i].now <= hi|
  }

  lemma {:induction false} HistoryBelow(limit: int, rs: seq<Request>, tenant: string, lo: real, hi: real, n: nat)
    requires n <= |rs|
    ensures |Filter(Inside(lo, hi), History(limit, rs[..n], tenant))| == CountTo(n, AdmittedAt(limit, rs, tenant, lo, hi))
  {
    hide CountTo;
    if n == 0 {
      CountSnoc(0, AdmittedAt(limit, rs, tenant, lo, hi));
    } else {
      HistoryBelow(limit, rs, tenant, lo, hi, n - 1);
      CountSnoc(n - 1, AdmittedAt(limit, rs, tenant, lo, hi));
      assert rs[..n][..n - 1] == rs[..n - 1] && rs[..n][n - 1] == rs[n - 1];
      FilterSnoc(Inside(lo, hi), History(limit, rs[..n - 1], tenant), rs[n - 1].now);
      hide Accepts, Filter;
    }
  }

  /** The history has one entry for each admitted request of the tenant, at the time of the request. */
  lemma HistoryCounted(limit: int, rs: seq<Request>, tenant: string, lo: real, hi: real)
    ensures |Filter(Inside(lo, hi), History(limit, rs, tenant))| == AdmittedIn(limit, rs, tenant, lo, hi)
  {
    HistoryBelow(limit, rs, tenant, lo, hi, |rs|);
    assert rs[..|rs|] == rs;
    hide Accepts, Filter, History;
    var p := AdmittedAt(limit, rs, tenant, lo, hi);
    assert (set i | 0 <= i < |rs| && rs[i].tenant == tenant && Accepts(limit, rs[..i + 1]) && lo < rs[i].now <= hi) ==
           (set i | 0 <= i < |rs| && p(i));
  }

  function Cap(limit: int): nat {
    if limit < 0 then 0 else limit
  }

  lemma {:induction false} NoLimitNoHistory(limit: int, rs: seq<Request>, tenant: string)
    requires limit <= 0
    ensures History(limit, rs, tenant) == []
  {
    if rs != [] {
      NoLimitNoHistory(limit, rs[..|rs| - 1], tenant);
    }
  }

  lemma WindowBound(limit: nat, h: seq<real>, t: real)
    requires Ascending(h) && WindowApart(limit, h)
    ensures |Filter(Inside(t - WINDOW, t), h)| <= limit
  {
    var p := Inside(t - WINDOW, t);
    forall i, j | 0 <= i <= j < |h| && j - i >= limit
      ensures !(p(h[i]) && p(h[j]))
    {
      assert h[i] + WINDOW <= h[j];
    }
    hide Filter;
    SparseWindow(p, h, limit);
  }

  /**
    Every window of sixty seconds, wherever it ends, holds at most requests_per_minute
    admitted requests of a tenant.
   */
  lemma AnyWindowBound(limit: int, rs: seq<Request>, tenant: string, t: real)
    requires Clocked(rs)
    ensures |Filter(Inside(t - 60.0, t), History(limit, rs, tenant))| <= Cap(limit)
    ensures AdmittedIn(limit, rs, tenant, t - 60.0, t) <= if limit < 0 then 0 else limit
  {
    HistoryCounted(limit, rs, tenant, t - 60.0, t);
    if limit <= 0 {
      NoLimitNoHistory(limit, rs, tenant);
    } else {
      hide History, Filter, Clocked, Ascending, WindowApart;
      HistoryAscends(limit, rs, tenant);
      HistorySpaced(limit, rs, tenant);
      WindowBound(limit, History(limit, rs, tenant), t);
    }
  }

  /**
    At any moment, however many requests ran since, a stored list is no longer than the
    limit, so the remaining quota is never negative and `max(0, remaining)` changes nothing.
   */
  lemma {:induction false} RemainingNeverClamped(limit: int, rs: seq<Request>, tenant: string)
    ensures |TimesOf(Exec(limit, rs), tenant)| <= Cap(limit)
    ensures (exists t :: t in History(limit, rs, tenant)) ==> limit - |TimesOf(Exec(limit, rs), tenant)| >= 0
  {
    if rs != [] {
      var before, r := rs[..|rs| - 1], rs[|rs| - 1];
      RemainingNeverClamped(limit, before, tenant);
    }
    if limit <= 0 {
      NoLimitNoHistory(limit, rs, tenant);
    }
  }

  /** Two runs that leave a tenant with one list and one history. */
  ghost predicate SameFor(limit: int, rs: seq<Request>, own: seq<Request>, tenant: string) {
    && TimesOf(Exec(limit, rs), tenant) == TimesOf(Exec(limit, own), tenant)
    && History(limit, rs, tenant) == History(limit, own, tenant)
  }

  /** A tenant's list, history and decisions depend on its own requests only. */
  lemma {:induction false} TenantsIndependent(limit: int, rs: seq<Request>, tenant: string)
    ensures var own := OwnRequests(rs, tenant);
      && SameFor(limit, rs, own, tenant)
      && (rs != [] && rs[|rs| - 1].tenant == tenant ==> own != [] && (Accepts(limit, rs) <==> Accepts(limit, own)))
  {
    if rs != [] {
      var before, r := rs[..|rs| - 1], rs[|rs| - 1];
      assert rs == before + [r];
      TenantsIndependent(limit, before, tenant);
      IndependentStep(limit, before, r, tenant);
    }
  }

  lemma IndependentStep(limit: int, rs: seq<Request>, r: Request, tenant: string)
    requires SameFor(limit, rs, OwnRequests(rs, tenant), tenant)
    ensures SameFor(limit, rs + [r], OwnRequests(rs + [r], tenant), tenant)
    ensures r.tenant == tenant ==>
      OwnRequests(rs + [r], tenant) != [] && Accepts(limit, rs + [r]) == Accepts(limit, OwnRequests(rs + [r], tenant))
  {
    var own := OwnRequests(rs, tenant);
    assert (rs + [r])[..|rs|] == rs;
    assert OwnRequests(rs + [r], tenant) == if r.tenant == tenant then own + [r] else own;
    hide Exec, History, Accepts, OwnRequests, Filter;
    RunSnoc(limit, rs, r, tenant);
    RunSnoc(limit, own, r, tenant);
  }
}
