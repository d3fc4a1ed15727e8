/**
  Session hydration: the live ones among the newest memories of a session are packed, in
  order, into a context string within a token budget.
 */
module Hydration {
  import opened Outcomes
  import opened Lists
  import opened Memories
  import opened MemoryRuns
  import Sessions

  const FETCH_LIMIT := 100

  /** The estimate `len(content) // 4 + 1`. */
  function Estimate(text: string): nat {
    |text| / 4 + 1
  }

  function Tokens(texts: seq<string>): nat {
    if texts == [] then 0 else Tokens(texts[..|texts| - 1]) + Estimate(texts[|texts| - 1])
  }

  function Contents(rows: seq<Memory>): (texts: seq<string>)
    ensures |texts| == |rows| && forall i :: 0 <= i < |rows| ==> texts[i] == rows[i].content
  {
    seq(|rows|, i requires 0 <= i < |rows| => rows[i].content)
  }

  /** `"\n".join(parts)`. */
  function Join(parts: seq<string>): string {
    if parts == [] then ""
    else if |parts| == 1 then parts[0]
    else Join(parts[..|parts| - 1]) + "\n" + parts[|parts| - 1]
  }

  /** n texts fit, and either there are no more or the next one does not fit. */
  ghost predicate IsPack(texts: seq<string>, budget: int, n: nat) {
    && n <= |texts|
    && (n > 0 ==> Tokens(texts[..n]) <= budget)
    && (n < |texts| ==> Tokens(texts[..n + 1]) > budget)
  }

  datatype Hydrated = Hydrated(sessionId: string, context: string, tokenCount: nat, memoryCount: nat)

  /** The packing loop and the join. */
  method Pack(sessionId: string, memories: seq<Memory>, maxTokens: int) returns (h: Hydrated)
    ensures h.sessionId == sessionId
    ensures IsPack(Contents(memories), maxTokens, h.memoryCount)
    ensures h.tokenCount == Tokens(Contents(memories)[..h.memoryCount])
    ensures h.context == Join(Contents(memories)[..h.memoryCount])
  {
    var parts: seq<string> := [];
    var tokenCount := 0;
    var memoryCount := 0;
    ghost var texts := Contents(memories);
    while memoryCount < |memories|
      invariant 0 <= memoryCount <= |memories|
      invariant parts == texts[..memoryCount] && tokenCount == Tokens(parts)
      invariant memoryCount > 0 ==> tokenCount <= maxTokens
    {
      var m := memories[memoryCount];
      var estimated := |m.content| / 4 + 1;
      assert texts[..memoryCount + 1] == parts + [m.content];
      TokensSnoc(parts, m.content);
      if tokenCount + estimated > maxTokens {
        break;
      }
      parts := parts + [m.content];
      tokenCount := tokenCount + estimated;
      memoryCount := memoryCount + 1;
    }
    h := Hydrated(sessionId, Join(parts), tokenCount, memoryCount);
  }

  class SessionHydrator {
    const memoryService: MemoryService
    const sessionService: Sessions.SessionService

    constructor (memoryService: MemoryService, sessionService: Sessions.SessionService)
      ensures this.memoryService == memoryService && this.sessionService == sessionService
    {
      this.memoryService := memoryService;
      this.sessionService := sessionService;
    }

    method Hydrate(tenant: string, sessionId: string, user: string, maxTokens: int, now: real) returns (h: Hydrated)
      modifies sessionService.repo
      ensures sessionService.repo.sessions ==
        Sessions.Apply(old(sessionService.repo.sessions), Sessions.Ensure(tenant, sessionId, user, None, now))
      ensures var texts := Contents(ListSession(memoryService.repo.Value(), tenant, sessionId, 100, 0, None, now));
        && IsPack(texts, maxTokens, h.memoryCount)
        && h == Hydrated(sessionId, Join(texts[..h.memoryCount]), Tokens(texts[..h.memoryCount]), h.memoryCount)
    {
      var _ := sessionService.EnsureSession(tenant, sessionId, user, None, now);
      var memories := ListSession(memoryService.repo.Value(), tenant, sessionId, FETCH_LIMIT, 0, None, now);
      h := Pack(sessionId, memories, maxTokens);
    }
  }

  // ---------- packing ----------

  /** Every text adds a quarter of its length, rounded down, and one. */
  lemma TokensSnoc(texts: seq<string>, t: string)
    ensures Tokens([]) == 0 && Tokens(texts + [t]) == Tokens(texts) + |t| / 4 + 1
  {
    assert (texts + [t])[..|texts|] == texts;
  }

  /** Every text costs at least one token, so longer prefixes cost more. */
  lemma {:induction false} TokensGrow(texts: seq<string>, m: nat, n: nat)
    requires m <= n <= |texts|
    ensures Tokens(texts[..n]) >= Tokens(texts[..m]) + (n - m)
    decreases n
  {
    if m < n {
      TokensGrow(texts, m, n - 1);
      assert texts[..n] == texts[..n - 1] + [texts[n - 1]];
      TokensSnoc(texts[..n - 1], texts[n - 1]);
    }
  }

  /** The packed prefix is the longest that fits, and the only one the loop's exit condition allows. */
  lemma PackIsLongest(texts: seq<string>, budget: int, n: nat, m: nat)
    requires IsPack(texts, budget, n) && m <= |texts|
    ensures Tokens(texts[..m]) <= budget ==> m <= n
    ensures 0 < m <= n ==> Tokens(texts[..m]) <= budget
    ensures IsPack(texts, budget, m) ==> m == n
  {
    if n < m {
      TokensGrow(texts, n + 1, m);
    } else {
      TokensGrow(texts, m, n);
      if m < n {
        TokensGrow(texts, m + 1, n);
      }
    }
  }

  /** Each packed memory costs at least one token. */
  lemma CountWithinTokens(texts: seq<string>, budget: int, n: nat)
    requires IsPack(texts, budget, n)
    ensures n <= Tokens(texts[..n])
    ensures n > 0 ==> n <= budget
  {
    TokensGrow(texts, 0, n);
  }

  /** A larger budget, or a longer list with the same beginning, only extends the packed prefix. */
  lemma PackMonotone(texts: seq<string>, more: seq<string>, budget: int, larger: int, n: nat, m: nat)
    requires texts <= more && budget <= larger
    requires IsPack(texts, budget, n) && IsPack(more, larger, m)
    ensures n <= m && texts[..n] == more[..n] <= more[..m]
  {
    assert texts[..n] == more[..n];
    if n > 0 {
      PackIsLongest(more, larger, m, n);
    }
  }

  // ---------- the whole context ----------

  /** The context is the texts in their order, with one newline between each two and nothing around them. */
  lemma {:induction false} JoinConcat(texts: seq<string>, more: seq<string>)
    ensures Join([]) == "" && (forall t: string :: Join([t]) == t)
    ensures texts != [] && more != [] ==> Join(texts + more) == Join(texts) + "\n" + Join(more)
  {
    if texts != [] && more != [] {
      var all, last := texts + more, more[|more| - 1];
      assert all[..|all| - 1] == texts + more[..|more| - 1] && all[|all| - 1] == last;
      if |more| == 1 {
        assert texts + more[..0] == texts;
      } else {
        JoinConcat(texts, more[..|more| - 1]);
        assert (Join(texts) + "\n" + Join(more[..|more| - 1])) + "\n" + last ==
               Join(texts) + "\n" + (Join(more[..|more| - 1]) + "\n" + last);
      }
    }
  }

  lemma {:induction false} JoinLength(parts: seq<string>)
    requires parts != []
    ensures |Join(parts)| <= 4 * Tokens(parts) - 1
  {
    var last := parts[|parts| - 1];
    assert |last| <= 4 * Estimate(last) - 1;
    if |parts| > 1 {
      JoinLength(parts[..|parts| - 1]);
    } else {
      assert parts[..0] == [];
    }
  }

  /**
    The budget holds for the joined context as a whole, separators included: the same
    estimate applied to it is at most the token count, which is at most the budget.
   */
  lemma ContextWithinBudget(texts: seq<string>, budget: int, n: nat)
    requires IsPack(texts, budget, n) && n > 0
    ensures |Join(texts[..n])| / 4 + 1 <= Tokens(texts[..n]) <= budget
  {
    JoinLength(texts[..n]);
  }

  lemma ContentsPrefix(rows: seq<Memory>, more: seq<Memory>)
    requires rows <= more
    ensures Contents(rows) <= Contents(more)
  {
  }

  /** Cleaning up expired memories first never costs a later hydration any memory it would have packed. */
  lemma {:induction false} CleanupNeverShrinksContext(s: Store, cleaned: string, c: real, tenant: string, sessionId: string,
                                                      budget: int, now: real, n: nat, m: nat)
    requires c < now
    requires IsPack(Contents(ListSession(s, tenant, sessionId, FETCH_LIMIT, 0, None, now)), budget, n)
    requires IsPack(Contents(ListSession(Cleanup(s, cleaned, c).0, tenant, sessionId, FETCH_LIMIT, 0, None, now)), budget, m)
    ensures n <= m
    ensures Contents(ListSession(s, tenant, sessionId, FETCH_LIMIT, 0, None, now))[..n] <=
            Contents(ListSession(Cleanup(s, cleaned, c).0, tenant, sessionId, FETCH_LIMIT, 0, None, now))[..m]
  {
    var t := Cleanup(s, cleaned, c).0;
    hide ListSession, IsPack, Contents;
    CleanupAndFirstPage(s, cleaned, c, tenant, sessionId, FETCH_LIMIT, None, now);
    var rows := ListSession(s, tenant, sessionId, FETCH_LIMIT, 0, None, now);
    var more := ListSession(t, tenant, sessionId, FETCH_LIMIT, 0, None, now);
    ContentsPrefix(rows, more);
    PackMonotone(Contents(rows), Contents(more), budget, budget, n, m);
  }
}
