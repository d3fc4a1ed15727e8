/**
  The Redis circuit breaker. One protected call is two atomic steps, because the
  lock is held on entry and again on completion, but not while the protected
  function runs. Any number of other calls may take steps in between.
 */
module CircuitBreaker {
  datatype State = Closed | Open | HalfOpen

  /** The constructor arguments: failure threshold 5, recovery timeout 30.0 and 3 probes in the Redis client. */
  datatype Config = Config(failureThreshold: int, recoveryTimeout: real, halfOpenMax: int)

  /** The value of the breaker's four mutable fields. */
  datatype Breaker = Breaker(state: State, failures: int, lastFailure: real, probes: int)

  /** What a caller meets at the entry of `call`. */
  datatype Entry = Admitted | RejectedOpen | RejectedLimit

  const INITIAL := Breaker(Closed, 0, 0.0, 0)

  /** Entry of `call`: an open breaker is probed after the recovery timeout. */
  function Enter(cfg: Config, b: Breaker, now: real): (Breaker, Entry) {
    if b.state == Open && now - b.lastFailure < cfg.recoveryTimeout then (b, RejectedOpen)
    else
      var half := if b.state == Open then b.(state := HalfOpen, probes := 0) else b;
      if half.state != HalfOpen then (half, Admitted)
      else if half.probes >= cfg.halfOpenMax then (half, RejectedLimit)
      else (half.(probes := half.probes + 1), Admitted)
  }

  /** Completion without an exception. */
  function Succeed(b: Breaker): Breaker {
    if b.state == HalfOpen then b.(state := Closed, failures := 0, probes := 0)
    else b.(failures := 0)
  }

  /** Completion by an exception. */
  function Fail(cfg: Config, b: Breaker, now: real): Breaker {
    var counted := b.(failures := b.failures + 1, lastFailure := now);
    if counted.failures >= cfg.failureThreshold || b.state == HalfOpen then counted.(state := Open)
    else counted
  }

  class RedisCircuitBreaker {
    const failureThreshold: int
    const recoveryTimeout: real
    const halfOpenMaxRequests: int
    var state: State
    var failureCount: int
    var lastFailureTime: real
    var halfOpenRequests: int

    function Settings(): Config {
      Config(failureThreshold, recoveryTimeout, halfOpenMaxRequests)
    }

    function Value(): Breaker
      reads this
    {
      Breaker(state, failureCount, lastFailureTime, halfOpenRequests)
    }

    constructor (failureThreshold: int, recoveryTimeout: real, halfOpenMaxRequests: int)
      ensures Settings() == Config(failureThreshold, recoveryTimeout, halfOpenMaxRequests)
      ensures state == Closed && failureCount == 0 && lastFailureTime == 0.0 && halfOpenRequests == 0
      ensures Value() == INITIAL
    {
      this.failureThreshold := failureThreshold;
      this.recoveryTimeout := recoveryTimeout;
      this.halfOpenMaxRequests := halfOpenMaxRequests;
      state := Closed;
      failureCount := 0;
      lastFailureTime := 0.0;
      halfOpenRequests := 0;
    }

    /** The locked block before the protected function is invoked. */
    method OnEntry(now: real) returns (entry: Entry)
      modifies this
      ensures (Value(), entry) == Enter(Settings(), old(Value()), now)
      ensures entry == Admitted <==>
        || old(state) == Closed
        || (old(state) == Open && now - old(lastFailureTime) >= recoveryTimeout && halfOpenMaxRequests >= 1)
        || (old(state) == HalfOpen && old(halfOpenRequests) < halfOpenMaxRequests)
      ensures entry == RejectedOpen <==> old(state) == Open && now - old(lastFailureTime) < recoveryTimeout
      ensures entry == RejectedOpen || old(state) == Closed ==> unchanged(this)
      ensures entry != RejectedOpen && old(state) != Closed ==>
        && state == HalfOpen
        && halfOpenRequests == (if old(state) == Open then 0 else old(halfOpenRequests)) + (if entry == Admitted then 1 else 0)
      ensures failureCount == old(failureCount) && lastFailureTime == old(lastFailureTime)
    {
      if state == Open {
        if now - lastFailureTime >= recoveryTimeout {
          state := HalfOpen;
          halfOpenRequests := 0;
        } else {
          return RejectedOpen;
        }
      }
      if state == HalfOpen {
        if halfOpenRequests >= halfOpenMaxRequests {
          return RejectedLimit;
        }
        halfOpenRequests := halfOpenRequests + 1;
      }
      return Admitted;
    }

    /** The locked block after the protected function returned. */
    method OnSuccess()
      modifies this
      ensures Value() == Succeed(old(Value()))
      ensures state == if old(state) == HalfOpen then Closed else old(state)
      ensures halfOpenRequests == if old(state) == HalfOpen then 0 else old(halfOpenRequests)
      ensures failureCount == 0 && lastFailureTime == old(lastFailureTime)
    {
      if state == HalfOpen {
        state := Closed;
        failureCount := 0;
        halfOpenRequests := 0;
      } else {
        failureCount := 0;
      }
    }

    /** The locked block after the protected function raised an `Exception`. */
    method OnFailure(now: real)
      modifies this
      ensures Value() == Fail(Settings(), old(Value()), now)
      ensures state == if old(state) == HalfOpen || failureCount >= failureThreshold then Open else old(state)
      ensures failureCount == old(failureCount) + 1 && lastFailureTime == now
      ensures halfOpenRequests == old(halfOpenRequests)
    {
      failureCount := failureCount + 1;
      lastFailureTime := now;
      if failureCount >= failureThreshold {
        state := Open;
      } else if state == HalfOpen {
        state := Open;
      }
    }
  }
}
