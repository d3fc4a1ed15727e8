/**
  Runs of the circuit breaker under arbitrary interleavings of calls.

  Each admitted call stays in flight until it succeeds, fails or is cancelled; it
  carries the number of the probe episode that admitted it (0 when it was admitted
  while the breaker was closed). An episode starts whenever the breaker goes from
  open to half-open. The log of completions and the episode numbers are history,
  not part of the breaker.
 */
module BreakerRuns {
  import opened CircuitBreaker
  import opened Lists

  datatype Event =
    | Arrive(id: nat, now: real)
    | Return(id: nat, now: real)
    | Raise(id: nat, now: real)
      // asyncio.CancelledError is no Exception, so neither completion block runs
    | Cancel(id: nat, now: real)

  datatype Completion = Completion(ok: bool, at: real)

  datatype System = System(
    b: Breaker,
    inFlight: map<nat, nat>,
    episode: nat,
    log: seq<Completion>,
    clock: real)

  const START := System(INITIAL, map[], 0, [], 0.0)

  /** Time does not run backwards; call ids are fresh on arrival and in flight on completion. */
  predicate Enabled(s: System, e: Event) {
    s.clock <= e.now && (e.Arrive? <==> e.id !in s.inFlight)
  }

  function Step(cfg: Config, s: System, e: Event): System {
    match e
    case Arrive(id, now) =>
      var (b, entry) := Enter(cfg, s.b, now);
      var episode := if s.b.state == Open && b.state == HalfOpen then s.episode + 1 else s.episode;
      var tag := if b.state == HalfOpen then episode else 0;
      s.(b := b, episode := episode, clock := now,
         inFlight := if entry == Admitted then s.inFlight[id := tag] else s.inFlight)
    case Return(id, now) =>
      s.(b := Succeed(s.b), inFlight := s.inFlight - {id}, log := s.log + [Completion(true, now)], clock := now)
    case Raise(id, now) =>
      s.(b := Fail(cfg, s.b, now), inFlight := s.inFlight - {id}, log := s.log + [Completion(false, now)], clock := now)
    case Cancel(id, now) =>
      s.(inFlight := s.inFlight - {id}, clock := now)
  }

  function Exec(cfg: Config, s: System, es: seq<Event>): System {
    if es == [] then s else Step(cfg, Exec(cfg, s, es[..|es| - 1]), es[|es| - 1])
  }

  /** es is a possible sequence of events from s on. */
  predicate Run(cfg: Config, s: System, es: seq<Event>) {
    es == [] ||
    (Run(cfg, s, es[..|es| - 1]) && Enabled(Exec(cfg, s, es[..|es| - 1]), es[|es| - 1]))
  }

  lemma RunSnoc(cfg: Config, s: System, es: seq<Event>, e: Event)
    ensures Exec(cfg, s, es + [e]) == Step(cfg, Exec(cfg, s, es), e)
    ensures Run(cfg, s, es + [e]) <==> Run(cfg, s, es) && Enabled(Exec(cfg, s, es), e)
  {
    assert (es + [e])[..|es|] == es;
  }

  /** Whether the event is a call that the breaker lets through to its function. */
  predicate Invokes(cfg: Config, s: System, e: Event) {
    e.Arrive? && Enter(cfg, s.b, e.now).1 == Admitted
  }

  // ---------- the failure count and the closed state ----------

  /** A threshold below one acts like one, because a failure is counted before it is compared. */
  function Threshold(cfg: Config): int {
    if cfg.failureThreshold < 1 then 1 else cfg.failureThreshold
  }

  /** Length of the run of failures that ends the log. */
  function TrailingFailures(log: seq<Completion>): (n: nat)
    ensures n <= |log|
  {
    if log == [] || log[|log| - 1].ok then 0 else 1 + TrailingFailures(log[..|log| - 1])
  }

  function LastFailureTime(log: seq<Completion>): real {
    if log == [] then 0.0
    else if !log[|log| - 1].ok then log[|log| - 1].at
    else LastFailureTime(log[..|log| - 1])
  }

  /** The in-flight calls that were admitted by the given episode. */
  function ProbesOf(inFlight: map<nat, nat>, episode: nat): set<nat> {
    set id | id in inFlight && inFlight[id] == episode
  }

  /** What every step keeps under every configuration, cancellation included. */
  ghost predicate Accounted(cfg: Config, s: System) {
    && s.b.failures == TrailingFailures(s.log)
    && s.b.lastFailure == LastFailureTime(s.log) <= s.clock
    && (s.b.state == Closed ==> s.b.failures < Threshold(cfg) && s.b.probes == 0)
  }

  /** What every step keeps when there is a probe slot. */
  ghost predicate Inv(cfg: Config, s: System) {
    && Accounted(cfg, s)
    && (s.b.state == HalfOpen ==> 1 <= s.b.probes <= cfg.halfOpenMax && 1 <= s.episode)
    && (forall id :: id in s.inFlight ==> s.inFlight[id] <= s.episode)
  }

  lemma LogSnoc(log: seq<Completion>, c: Completion)
    ensures TrailingFailures(log + [c]) == if c.ok then 0 else TrailingFailures(log) + 1
    ensures LastFailureTime(log + [c]) == if c.ok then LastFailureTime(log) else c.at
  {
    assert (log + [c])[..|log|] == log;
  }

  lemma StepKeepsAccounts(cfg: Config, s: System, e: Event)
    requires Accounted(cfg, s) && Enabled(s, e)
    ensures Accounted(cfg, Step(cfg, s, e))
  {
    hide TrailingFailures, LastFailureTime;
    match e
    case Return(_, now) => LogSnoc(s.log, Completion(true, now));
    case Raise(_, now) => LogSnoc(s.log, Completion(false, now));
    case _ =>
  }

  lemma {:induction false} RunKeepsAccounts(cfg: Config, s: System, es: seq<Event>)
    requires Accounted(cfg, s) && Run(cfg, s, es)
    ensures Accounted(cfg, Exec(cfg, s, es))
  {
    if es != [] {
      RunKeepsAccounts(cfg, s, es[..|es| - 1]);
      StepKeepsAccounts(cfg, Exec(cfg, s, es[..|es| - 1]), es[|es| - 1]);
    }
  }

  lemma StepKeepsInv(cfg: Config, s: System, e: Event)
    requires cfg.halfOpenMax >= 1
    requires Inv(cfg, s) && Enabled(s, e)
    ensures Inv(cfg, Step(cfg, s, e))
  {
    StepKeepsAccounts(cfg, s, e);
    hide TrailingFailures, LastFailureTime;
  }

  lemma StartInv(cfg: Config)
    ensures Inv(cfg, START)
  {
  }

  lemma {:induction false} RunKeepsInv(cfg: Config, s: System, es: seq<Event>)
    requires cfg.halfOpenMax >= 1
    requires Inv(cfg, s) && Run(cfg, s, es)
    ensures Inv(cfg, Exec(cfg, s, es)) && s.clock <= Exec(cfg, s, es).clock
  {
    if es != [] {
      RunKeepsInv(cfg, s, es[..|es| - 1]);
      StepKeepsInv(cfg, Exec(cfg, s, es[..|es| - 1]), es[|es| - 1]);
    }
  }

  /**
    After any interleaving, stale and cancelled calls included, the failure count is
    the length of the run of failures that ends the completion log, the remembered
    time is that of the last failure, and a closed breaker is below the threshold.
   */
  lemma {:induction false} FailureAccounting(cfg: Config, es: seq<Event>)
    requires Run(cfg, START, es)
    ensures var s := Exec(cfg, START, es);
      && s.b.failures == TrailingFailures(s.log)
      && s.b.lastFailure == LastFailureTime(s.log)
      && (s.b.state == Closed ==> TrailingFailures(s.log) < Threshold(cfg))
  {
    RunKeepsAccounts(cfg, START, es);
  }

  /** The breaker leaves the closed state exactly on the completion of the threshold-th failure in a row. */
  lemma {:induction false} OpensAtThreshold(cfg: Config, es: seq<Event>, e: Event)
    requires Run(cfg, START, es + [e])
    requires Exec(cfg, START, es).b.state == Closed
    ensures var t := Exec(cfg, START, es + [e]);
      && (t.b.state != Closed <==> e.Raise? && TrailingFailures(t.log) == Threshold(cfg))
      && (t.b.state != Closed ==> t.b.state == Open && t.b.lastFailure == e.now)
  {
    RunSnoc(cfg, START, es, e);
    RunKeepsAccounts(cfg, START, es);
    StepKeepsAccounts(cfg, Exec(cfg, START, es), e);
  }

  /**
    In every reachable state a call is let through if and only if the breaker is closed,
    or it is open, has a probe slot and the recovery timeout has passed since the last
    failure of the log, or it is half-open with a free slot.
   */
  lemma {:induction false} InvokedIff(cfg: Config, es: seq<Event>, id: nat, now: real)
    requires Run(cfg, START, es)
    ensures var s := Exec(cfg, START, es);
      Invokes(cfg, s, Arrive(id, now)) <==>
        || s.b.state == Closed
        || (s.b.state == Open && LastFailureTime(s.log) + cfg.recoveryTimeout <= now && cfg.halfOpenMax >= 1)
        || (s.b.state == HalfOpen && s.b.probes < cfg.halfOpenMax)
  {
    FailureAccounting(cfg, es);
    hide Exec, LastFailureTime;
  }

  // ---------- nothing is invoked during the recovery timeout ----------

  /** While the breaker stays open, calls are rejected and stale completions only move the failure time forward. */
  lemma {:induction false} OpenUntilTimeout(cfg: Config, s: System, es: seq<Event>)
    requires s.b.state == Open && s.b.lastFailure <= s.clock
    requires Run(cfg, s, es)
    requires es != [] ==> es[|es| - 1].now < s.b.lastFailure + cfg.recoveryTimeout
    ensures var t := Exec(cfg, s, es);
      t.b.state == Open && s.b.lastFailure <= t.b.lastFailure <= t.clock && s.clock <= t.clock
  {
    if es != [] {
      var before := es[..|es| - 1];
      if before != [] {
        assert Run(cfg, s, before);
        assert Exec(cfg, s, before).clock == before[|before| - 1].now;
      }
      OpenUntilTimeout(cfg, s, before);
    }
  }

  /** After opening at time t no function is invoked before t plus the recovery timeout. */
  lemma {:induction false} NoCallBeforeRecovery(cfg: Config, s: System, es: seq<Event>, e: Event)
    requires s.b.state == Open && s.b.lastFailure <= s.clock
    requires Run(cfg, s, es + [e])
    requires Invokes(cfg, Exec(cfg, s, es), e)
    ensures s.b.lastFailure + cfg.recoveryTimeout <= e.now
  {
    RunSnoc(cfg, s, es, e);
    if e.now < s.b.lastFailure + cfg.recoveryTimeout {
      if es != [] {
        assert Exec(cfg, s, es).clock == es[|es| - 1].now;
      }
      OpenUntilTimeout(cfg, s, es);
    }
  }

  // ---------- probe accounting ----------

  predicate NoCancel(es: seq<Event>) {
    forall i :: 0 <= i < |es| ==> !es[i].Cancel?
  }

  /** In the half-open state the probe counter is the number of this episode's calls still in flight. */
  ghost predicate ProbesCounted(s: System) {
    s.b.state == HalfOpen ==> |ProbesOf(s.inFlight, s.episode)| == s.b.probes
  }

  lemma AdmittedProbe(inFlight: map<nat, nat>, id: nat, episode: nat)
    requires id !in inFlight
    ensures |ProbesOf(inFlight[id := episode], episode)| == |ProbesOf(inFlight, episode)| + 1
  {
    assert ProbesOf(inFlight[id := episode], episode) == ProbesOf(inFlight, episode) + {id};
  }

  lemma StepCountsProbes(cfg: Config, s: System, e: Event)
    requires cfg.halfOpenMax >= 1
    requires Inv(cfg, s) && ProbesCounted(s) && Enabled(s, e) && !e.Cancel?
    ensures ProbesCounted(Step(cfg, s, e))
  {
    var t := Step(cfg, s, e);
    if e.Arrive? && t.b.state == HalfOpen && Invokes(cfg, s, e) {
      var known := ProbesOf(s.inFlight, t.episode);
      assert s.b.state == Open ==> known == {};
      AdmittedProbe(s.inFlight, e.id, t.episode);
    }
  }

  lemma {:induction false} RunCountsProbes(cfg: Config, s: System, es: seq<Event>)
    requires cfg.halfOpenMax >= 1
    requires Inv(cfg, s) && ProbesCounted(s) && Run(cfg, s, es) && NoCancel(es)
    ensures ProbesCounted(Exec(cfg, s, es))
  {
    if es != [] {
      RunCountsProbes(cfg, s, es[..|es| - 1]);
      RunKeepsInv(cfg, s, es[..|es| - 1]);
      StepCountsProbes(cfg, Exec(cfg, s, es[..|es| - 1]), es[|es| - 1]);
    }
  }

  /**
    Without cancellation no half-open state is a trap: the counter equals the number
    of this episode's calls in flight, lies in 1..max, and every completion that can
    come next, of a probe or of a stale call, leaves the half-open state.
   */
  lemma {:induction false} NoWedge(cfg: Config, es: seq<Event>)
    requires cfg.halfOpenMax >= 1
    requires Run(cfg, START, es) && NoCancel(es)
    requires Exec(cfg, START, es).b.state == HalfOpen
    ensures var s := Exec(cfg, START, es);
      && 1 <= s.b.probes <= cfg.halfOpenMax
      && |ProbesOf(s.inFlight, s.episode)| == s.b.probes
      && (exists id :: id in s.inFlight && s.inFlight[id] == s.episode)
      && (forall e :: Enabled(s, e) && (e.Return? || e.Raise?) ==>
            Step(cfg, s, e).b.state == if e.Return? then Closed else Open)
  {
    RunKeepsInv(cfg, START, es);
    RunCountsProbes(cfg, START, es);
    var s := Exec(cfg, START, es);
    assert ProbesOf(s.inFlight, s.episode) != {};
    var id :| id in ProbesOf(s.inFlight, s.episode);
    assert id in s.inFlight;
  }

  // ---------- the wedge that cancellation opens ----------

  lemma {:induction false} WedgeAbsorbs(cfg: Config, s: System, es: seq<Event>)
    requires s.b.state == HalfOpen && s.inFlight == map[] && s.b.probes >= cfg.halfOpenMax
    requires Run(cfg, s, es)
    ensures Exec(cfg, s, es).b == s.b && Exec(cfg, s, es).inFlight == map[]
  {
    if es != [] {
      WedgeAbsorbs(cfg, s, es[..|es| - 1]);
    }
  }

  ghost predicate CanLeaveHalfOpen(cfg: Config, s: System) {
    exists es :: Run(cfg, s, es) && Exec(cfg, s, es).b.state != HalfOpen
  }

  /** A half-open state can be left, by some run, if and only if a call is in flight or a probe slot is free. */
  lemma {:induction false} HalfOpenExit(cfg: Config, s: System)
    requires s.b.state == HalfOpen
    ensures CanLeaveHalfOpen(cfg, s) <==> s.inFlight != map[] || s.b.probes < cfg.halfOpenMax
  {
    if s.inFlight != map[] {
      var id :| id in s.inFlight;
      RunSnoc(cfg, s, [], Return(id, s.clock));
      assert CanLeaveHalfOpen(cfg, s);
    } else if s.b.probes < cfg.halfOpenMax {
      RunSnoc(cfg, s, [], Arrive(0, s.clock));
      RunSnoc(cfg, s, [] + [Arrive(0, s.clock)], Return(0, s.clock));
      assert CanLeaveHalfOpen(cfg, s);
    } else if CanLeaveHalfOpen(cfg, s) {
      var es :| Run(cfg, s, es) && Exec(cfg, s, es).b.state != HalfOpen;
      WedgeAbsorbs(cfg, s, es);
      assert false;
    }
  }

  /** n failing calls, one after the other. */
  lemma {:induction false} FailTimes(cfg: Config, n: nat) returns (es: seq<Event>)
    requires n <= Threshold(cfg)
    ensures Run(cfg, START, es)
    ensures var s := Exec(cfg, START, es);
      && s.b == Breaker(if n < Threshold(cfg) then Closed else Open, n, 0.0, 0)
      && s.inFlight == map[] && s.clock == 0.0
  {
    if n == 0 {
      es := [];
    } else {
      es := FailTimes(cfg, n - 1);
      RunSnoc(cfg, START, es, Arrive(0, 0.0));
      es := es + [Arrive(0, 0.0)];
      RunSnoc(cfg, START, es, Raise(0, 0.0));
      es := es + [Raise(0, 0.0)];
    }
  }

  function Wait(cfg: Config): real {
    if cfg.recoveryTimeout < 0.0 then 0.0 else cfg.recoveryTimeout
  }

  /** n probes that are admitted and then cancelled. */
  lemma {:induction false} CancelProbes(cfg: Config, n: nat) returns (es: seq<Event>)
    requires 1 <= n <= cfg.halfOpenMax
    ensures Run(cfg, START, es)
    ensures var s := Exec(cfg, START, es);
      s.b.state == HalfOpen && s.b.probes == n && s.inFlight == map[] && s.clock == Wait(cfg)
  {
    if n == 1 {
      es := FailTimes(cfg, Threshold(cfg));
    } else {
      es := CancelProbes(cfg, n - 1);
    }
    RunSnoc(cfg, START, es, Arrive(0, Wait(cfg)));
    es := es + [Arrive(0, Wait(cfg))];
    RunSnoc(cfg, START, es, Cancel(0, Wait(cfg)));
    es := es + [Cancel(0, Wait(cfg))];
  }

  /** With cancellation, every configuration has a reachable half-open state that no run can leave. */
  lemma {:induction false} CancellationWedges(cfg: Config) returns (es: seq<Event>)
    requires 1 <= cfg.halfOpenMax
    ensures Run(cfg, START, es)
    ensures Exec(cfg, START, es).b.state == HalfOpen
    ensures !CanLeaveHalfOpen(cfg, Exec(cfg, START, es))
  {
    es := CancelProbes(cfg, cfg.halfOpenMax);
    HalfOpenExit(cfg, Exec(cfg, START, es));
  }

  // ---------- load on a failing backend ----------

  /** One invocation: when, in which episode, and as which of its probes. */
  datatype Invocation = Invocation(at: real, episode: nat, slot: int)

  /** The invocations of a run, in order. */
  function Invocations(cfg: Config, s: System, es: seq<Event>): seq<Invocation> {
    if es == [] then []
    else
      var before := Exec(cfg, s, es[..|es| - 1]);
      var after := Step(cfg, before, es[|es| - 1]);
      var rs := Invocations(cfg, s, es[..|es| - 1]);
      if Invokes(cfg, before, es[|es| - 1]) then rs + [Invocation(after.clock, after.episode, after.b.probes)] else rs
  }

  /** Nothing succeeds but stale calls that return while the breaker is open, which do not close it. */
  predicate FailingRun(cfg: Config, s: System, es: seq<Event>) {
    es == [] ||
    (FailingRun(cfg, s, es[..|es| - 1]) && (es[|es| - 1].Return? ==> Exec(cfg, s, es[..|es| - 1]).b.state == Open))
  }

  function Within(lo: real, hi: real): Invocation -> bool {
    (r: Invocation) => lo <= r.at <= hi
  }

  /** A breaker without probe slots that is open with nothing in flight never invokes a function again. */
  lemma {:induction false} NoSlotsNoRecovery(cfg: Config, s: System, es: seq<Event>)
    requires cfg.halfOpenMax <= 0
    requires s.b.state == Open && s.inFlight == map[]
    requires Run(cfg, s, es)
    ensures Invocations(cfg, s, es) == []
    ensures var t := Exec(cfg, s, es);
      t.b.state != Closed && t.inFlight == map[] && (t.b.state == HalfOpen ==> t.b.probes == 0)
  {
    if es != [] {
      NoSlotsNoRecovery(cfg, s, es[..|es| - 1]);
    }
  }

  /**
    Neighbouring invocations are consecutive probes of one episode, or the last probe
    of an episode and, at least a recovery timeout later, the first of the next.
   */
  ghost predicate Spaced(cfg: Config, rs: seq<Invocation>) {
    && (forall i :: 0 <= i < |rs| ==> 1 <= rs[i].slot <= cfg.halfOpenMax)
    && (forall i, j :: 0 <= i < j < |rs| && j - i == 1 ==> Follows(cfg, rs[i], rs[j]))
  }

  predicate Follows(cfg: Config, r: Invocation, next: Invocation) {
    && r.at <= next.at
    && ((next.episode == r.episode && next.slot == r.slot + 1) ||
        (next.episode == r.episode + 1 && next.slot == 1 && r.at + cfg.recoveryTimeout <= next.at))
  }

  /** How the latest invocation relates to the state the run has reached. */
  ghost predicate Latest(s: System, rs: seq<Invocation>) {
    rs != [] ==>
      var last := rs[|rs| - 1];
      && last.episode == s.episode && last.at <= s.clock
      && (s.b.state == Open ==> last.at <= s.b.lastFailure)
      && (s.b.state == HalfOpen ==> last.slot == s.b.probes)
  }

  lemma StepSpaced(cfg: Config, s: System, e: Event, rs: seq<Invocation>)
    requires cfg.halfOpenMax >= 1 && Inv(cfg, s) && s.b.state != Closed
    requires Enabled(s, e) && (e.Return? ==> s.b.state == Open)
    requires Spaced(cfg, rs) && Latest(s, rs)
    ensures var t := Step(cfg, s, e);
      var rs' := if Invokes(cfg, s, e) then rs + [Invocation(t.clock, t.episode, t.b.probes)] else rs;
      t.b.state != Closed && Spaced(cfg, rs') && Latest(t, rs')
  {
    if e.Arrive? && Invokes(cfg, s, e) {
      var t := Step(cfg, s, e);
      var r := Invocation(t.clock, t.episode, t.b.probes);
      assert t.b.state == HalfOpen;
      if rs != [] {
        assert Follows(cfg, rs[|rs| - 1], r);
      }
    }
  }

  lemma {:induction false} FailingRunSpaced(cfg: Config, s: System, es: seq<Event>)
    requires cfg.halfOpenMax >= 1
    requires Inv(cfg, s) && s.b.state != Closed
    requires Run(cfg, s, es) && FailingRun(cfg, s, es)
    ensures Exec(cfg, s, es).b.state != Closed
    ensures Spaced(cfg, Invocations(cfg, s, es))
    ensures Latest(Exec(cfg, s, es), Invocations(cfg, s, es))
  {
    if es != [] {
      var before := es[..|es| - 1];
      FailingRunSpaced(cfg, s, before);
      RunKeepsInv(cfg, s, before);
      StepSpaced(cfg, Exec(cfg, s, before), es[|es| - 1], Invocations(cfg, s, before));
    }
  }

  /** Over several invocations, the slots used and the time that passes grow with the episodes crossed. */
  lemma {:induction false} SpacedSpan(cfg: Config, rs: seq<Invocation>, i: nat, j: nat)
    requires Spaced(cfg, rs) && i <= j < |rs|
    ensures rs[i].at <= rs[j].at && rs[i].episode <= rs[j].episode
    ensures var g := rs[j].episode - rs[i].episode;
      && j - i <= g * cfg.halfOpenMax + rs[j].slot - rs[i].slot
      && rs[j].at - rs[i].at >= g as real * cfg.recoveryTimeout
    decreases j
  {
    if i < j {
      SpacedSpan(cfg, rs, i, j - 1);
      assert Follows(cfg, rs[j - 1], rs[j]);
      var g := rs[j - 1].episode - rs[i].episode;
      assert (g + 1) * cfg.halfOpenMax == g * cfg.halfOpenMax + cfg.halfOpenMax;
      assert (g + 1) as real * cfg.recoveryTimeout == g as real * cfg.recoveryTimeout + cfg.recoveryTimeout;
    }
  }

  lemma FewerEpisodes(g: nat, k: nat, d: real)
    requires g as real * d < k as real * d && 0.0 < k as real * d
    ensures g < k
  {
    assert d > 0.0;
  }

  lemma MoreSlots(g: nat, k: nat, width: nat)
    requires g < k
    ensures g * width + width <= k * width
  {
    assert (k - 1 - g) * width >= 0;
    assert k * width == (g + 1 + (k - 1 - g)) * width == g * width + width + (k - 1 - g) * width;
  }

  /** Invocations that lie less than k timeouts apart are less than k * width positions apart. */
  lemma SpacedBound(cfg: Config, rs: seq<Invocation>, k: nat, i: nat, j: nat)
    requires cfg.halfOpenMax >= 1 && Spaced(cfg, rs)
    requires i <= j < |rs| && rs[j].at - rs[i].at < k as real * cfg.recoveryTimeout
    ensures j - i < k * cfg.halfOpenMax
  {
    SpacedSpan(cfg, rs, i, j);
    var g := rs[j].episode - rs[i].episode;
    FewerEpisodes(g, k, cfg.recoveryTimeout);
    MoreSlots(g, k, cfg.halfOpenMax);
  }

  /** What k episodes can admit. */
  function Allowance(cfg: Config, k: int): int {
    k * cfg.halfOpenMax
  }

  lemma {:induction false} SpacedWindow(cfg: Config, rs: seq<Invocation>, lo: real, hi: real, k: nat)
    requires cfg.halfOpenMax >= 1 && Spaced(cfg, rs)
    requires hi - lo < k as real * cfg.recoveryTimeout
    ensures |Filter(Within(lo, hi), rs)| <= Allowance(cfg, k)
  {
    var p, m := Within(lo, hi), k * cfg.halfOpenMax;
    forall i, j | 0 <= i <= j < |rs| && j - i >= m
      ensures !(p(rs[i]) && p(rs[j]))
    {
      if p(rs[i]) && p(rs[j]) {
        SpacedBound(cfg, rs, k, i, j);
      }
    }
    forall a, b, c | 0 <= a <= b <= c < |rs| && p(rs[a]) && p(rs[c])
      ensures p(rs[b])
    {
      SpacedSpan(cfg, rs, a, b);
      SpacedSpan(cfg, rs, b, c);
    }
    SparseWindow(p, rs, m);
  }

  /** Event i of the run is a call that the breaker lets through. */
  predicate LetThrough(cfg: Config, s: System, es: seq<Event>, i: nat)
    requires i < |es|
  {
    Invokes(cfg, Exec(cfg, s, es[..i]), es[i])
  }

  /** Event i of the run is a call that is let through, at a time from lo to hi. */
  function InvokedAt(cfg: Config, s: System, es: seq<Event>, lo: real, hi: real): int -> bool {
    i => 0 <= i < |es| && LetThrough(cfg, s, es, i) && lo <= es[i].now <= hi
  }

  /** The calls of the run that are let through at a time from lo to hi. */
  ghost function CallsIn(cfg: Config, s: System, es: seq<Event>, lo: real, hi: real): nat {
    |set i | 0 <= i < |es| && LetThrough(cfg, s, es, i) && lo <= es[i].now <= hi|
  }

  lemma {:induction false} InvocationsBelow(cfg: Config, s: System, es: seq<Event>, lo: real, hi: real, n: nat)
    requires n <= |es|
    ensures |Filter(Within(lo, hi), Invocations(cfg, s, es[..n]))| == CountTo(n, InvokedAt(cfg, s, es, lo, hi))
  {
    hide CountTo;
    if n == 0 {
      CountSnoc(0, InvokedAt(cfg, s, es, lo, hi));
    } else {
      InvocationsBelow(cfg, s, es, lo, hi, n - 1);
      CountSnoc(n - 1, InvokedAt(cfg, s, es, lo, hi));
      assert es[..n][..n - 1] == es[..n - 1] && es[..n][n - 1] == es[n - 1];
      var t := Step(cfg, Exec(cfg, s, es[..n - 1]), es[n - 1]);
      assert t.clock == es[n - 1].now;
      FilterSnoc(Within(lo, hi), Invocations(cfg, s, es[..n - 1]), Invocation(t.clock, t.episode, t.b.probes));
      hide Exec, Invokes, Step, Filter;
    }
  }

  /** The list of invocations has one entry for each event that is let through, at the event's time. */
  lemma InvocationsCounted(cfg: Config, s: System, es: seq<Event>, lo: real, hi: real)
    ensures |Filter(Within(lo, hi), Invocations(cfg, s, es))| == CallsIn(cfg, s, es, lo, hi)
  {
    hide LetThrough, Filter, Invocations, Within;
    InvocationsBelow(cfg, s, es, lo, hi, |es|);
    assert es[..|es|] == es;
    var p := InvokedAt(cfg, s, es, lo, hi);
    assert (set i | 0 <= i < |es| && LetThrough(cfg, s, es, i) && lo <= es[i].now <= hi) == (set i | 0 <= i < |es| && p(i));
  }

  /**
    Once the breaker is open or half-open, and as long as nothing succeeds but stale
    calls during an open state, a span of time shorter than k recovery timeouts sees at
    most k * half_open_max_requests invocations.
   */
  lemma {:induction false} LoadBound(cfg: Config, s: System, es: seq<Event>, lo: real, hi: real, k: nat)
    requires cfg.halfOpenMax >= 1
    requires Inv(cfg, s) && s.b.state != Closed
    requires Run(cfg, s, es) && FailingRun(cfg, s, es)
    requires hi - lo < k as real * cfg.recoveryTimeout
    ensures CallsIn(cfg, s, es, lo, hi) <= Allowance(cfg, k)
  {
    InvocationsCounted(cfg, s, es, lo, hi);
    FailingRunSpaced(cfg, s, es);
    SpacedWindow(cfg, Invocations(cfg, s, es), lo, hi, k);
  }

  /** The number of timeouts that a span of the given length can touch: span // timeout + 1. */
  function TimeoutsIn(span: real, timeout: real): int
    requires timeout > 0.0
  {
    (span / timeout).Floor + 1
  }

  lemma TimeoutsCover(span: real, timeout: real)
    requires 0.0 <= span && 0.0 < timeout
    ensures 1 <= TimeoutsIn(span, timeout)
    ensures span < TimeoutsIn(span, timeout) as real * timeout
  {
    var q := span / timeout;
    assert q * timeout == span;
    assert 0.0 <= q;
    var slack := TimeoutsIn(span, timeout) as real - q;
    assert slack > 0.0;
    assert slack * timeout > 0.0;
    assert TimeoutsIn(span, timeout) as real * timeout == q * timeout + slack * timeout;
  }

  /**
    The bound for a span of length T, as a count of the calls that are let through:
    half_open_max_requests * (T // recovery_timeout + 1).
   */
  lemma {:induction false} LoadBoundPerSpan(cfg: Config, es: seq<Event>, tail: seq<Event>, lo: real, hi: real)
    requires cfg.halfOpenMax >= 1 && cfg.recoveryTimeout > 0.0 && lo <= hi
    requires Run(cfg, START, es) && Exec(cfg, START, es).b.state != Closed
    requires Run(cfg, Exec(cfg, START, es), tail) && FailingRun(cfg, Exec(cfg, START, es), tail)
    ensures CallsIn(cfg, Exec(cfg, START, es), tail, lo, hi) <= Allowance(cfg, TimeoutsIn(hi - lo, cfg.recoveryTimeout))
  {
    hide *;
    StartInv(cfg);
    RunKeepsInv(cfg, START, es);
    TimeoutsCover(hi - lo, cfg.recoveryTimeout);
    LoadBound(cfg, Exec(cfg, START, es), tail, lo, hi, TimeoutsIn(hi - lo, cfg.recoveryTimeout));
  }
}
