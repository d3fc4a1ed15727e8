/**
  The in-memory store that the Redis client degrades to: entries with an expiry time,
  removed lazily by reads and in bulk once more than 10000 entries are held.
 */
module FallbackStore {
  import opened Outcomes
  import opened Text

  datatype Entry = Entry(value: string, expiresAt: real)

  type Store = map<string, Entry>

  const CAPACITY := 10000
  const DEFAULT_TTL := 3600
  const COUNTER_TTL := 86400.0

  /** Expiry of a written value; a missing or zero TTL means the default. */
  function Deadline(ttl: Option<int>, now: real): real {
    now + (if ttl.None? || ttl.value == 0 then DEFAULT_TTL else ttl.value) as real
  }

  /** Drops everything that has expired. */
  function Purge(store: Store, now: real): Store {
    map k | k in store && store[k].expiresAt > now :: store[k]
  }

  function Lookup(store: Store, key: string, now: real): Option<string> {
    if key in store && store[key].expiresAt > now then Some(store[key].value) else None
  }

  function Put(store: Store, key: string, entry: Entry, purgeTime: real): Store {
    var written := store[key := entry];
    if |written| > CAPACITY then Purge(written, purgeTime) else written
  }

  /** What an increment reads: the raw entry, expired or not, or "0". */
  function RawCounter(store: Store, key: string): string {
    if key in store then store[key].value else "0"
  }

  class RedisClient {
    var fallbackStore: Store

    constructor ()
      ensures fallbackStore == map[]
    {
      fallbackStore := map[];
    }

    method GetFromFallback(key: string, now: real) returns (value: Option<string>)
      modifies this
      ensures value == Lookup(old(fallbackStore), key, now)
      ensures value.Some? <==> key in old(fallbackStore) && old(fallbackStore)[key].expiresAt > now
      ensures value.Some? ==> value.value == old(fallbackStore)[key].value
      ensures fallbackStore == Apply(old(fallbackStore), Get(key, now))
      ensures fallbackStore == if value.Some? then old(fallbackStore) else old(fallbackStore) - {key}
    {
      if key in fallbackStore {
        var entry := fallbackStore[key];
        if entry.expiresAt > now {
          return Some(entry.value);
        }
        fallbackStore := fallbackStore - {key};
      }
      assert fallbackStore == old(fallbackStore) - {key};
      return None;
    }

    /** The clock is read once for the expiry and once more, later, for the clean-up. */
    method SetInFallback(key: string, value: string, ttl: Option<int>, now: real, purgeTime: real)
      modifies this
      ensures fallbackStore == Apply(old(fallbackStore), Set(key, value, ttl, now, purgeTime))
      ensures var seconds := if ttl.None? || ttl.value == 0 then 3600 else ttl.value;
        var written := old(fallbackStore)[key := Entry(value, now + seconds as real)];
        (|written| <= 10000 ==> fallbackStore == written) &&
        (|written| > 10000 ==>
           forall k :: if k in written && written[k].expiresAt > purgeTime
                       then k in fallbackStore && fallbackStore[k] == written[k] else k !in fallbackStore)
    {
      fallbackStore := fallbackStore[key := Entry(value, Deadline(ttl, now))];
      if |fallbackStore| > CAPACITY {
        CleanupFallback(purgeTime);
      }
    }

    method CleanupFallback(now: real)
      modifies this
      ensures fallbackStore == Purge(old(fallbackStore), now)
      ensures forall k :: if k in old(fallbackStore) && old(fallbackStore)[k].expiresAt > now
                          then k in fallbackStore && fallbackStore[k] == old(fallbackStore)[k] else k !in fallbackStore
    {
      var expired := set k | k in fallbackStore && fallbackStore[k].expiresAt <= now;
      while expired != {}
        invariant forall k :: k in fallbackStore ==> k in old(fallbackStore) && fallbackStore[k] == old(fallbackStore)[k]
        invariant forall k :: k in expired <==> k in fallbackStore && fallbackStore[k].expiresAt <= now
        invariant forall k :: k in old(fallbackStore) && old(fallbackStore)[k].expiresAt > now ==> k in fallbackStore
        decreases expired
      {
        var key :| key in expired;
        fallbackStore := fallbackStore - {key};
        expired := expired - {key};
      }
    }

    method DeleteFromFallback(key: string) returns (deleted: bool)
      modifies this
      ensures deleted && fallbackStore == old(fallbackStore) - {key}
      ensures forall now: real :: fallbackStore == Apply(old(fallbackStore), Delete(key, now))
    {
      fallbackStore := fallbackStore - {key};
      return true;
    }

    /** None stands for the ValueError of `int`, which leaves the store as it was. */
    method IncrementInFallback(key: string, amount: int, now: real) returns (current: Option<int>)
      modifies this
      ensures current.Some? <==> ParseInt(RawCounter(old(fallbackStore), key)).Some?
      ensures current.None? ==> fallbackStore == old(fallbackStore)
      ensures current.Some? ==>
        && current.value == ParseInt(RawCounter(old(fallbackStore), key)).value + amount
        && fallbackStore == old(fallbackStore)[key := Entry(Show(current.value), now + 86400.0)]
      ensures fallbackStore == Apply(old(fallbackStore), Increment(key, amount, now))
    {
      var raw := if key in fallbackStore then fallbackStore[key].value else "0";
      var parsed := ParseInt(raw);
      if parsed.None? {
        return None;
      }
      current := Some(parsed.value + amount);
      fallbackStore := fallbackStore[key := Entry(Show(current.value), now + COUNTER_TTL)];
    }
  }

  // ---------- runs ----------

  datatype Op =
    | Set(key: string, value: string, ttl: Option<int>, now: real, purgeTime: real)
    | Get(key: string, now: real)
    | Delete(key: string, now: real)
    | Increment(key: string, amount: int, now: real)

  function Finished(op: Op): real {
    if op.Set? then op.purgeTime else op.now
  }

  function Apply(store: Store, op: Op): Store {
    match op
    case Set(key, value, ttl, now, purgeTime) => Put(store, key, Entry(value, Deadline(ttl, now)), purgeTime)
    case Get(key, now) => if Lookup(store, key, now).Some? then store else store - {key}
    case Delete(key, _) => store - {key}
    case Increment(key, amount, now) =>
      match ParseInt(RawCounter(store, key))
      case None => store
      case Some(n) => store[key := Entry(Show(n + amount), now + COUNTER_TTL)]
  }

  function Exec(ops: seq<Op>): Store {
    if ops == [] then map[] else Apply(Exec(ops[..|ops| - 1]), ops[|ops| - 1])
  }

  function Clock(ops: seq<Op>): real {
    if ops == [] then 0.0 else Finished(ops[|ops| - 1])
  }

  /** The clock never runs backwards, within an operation or between operations. */
  predicate Clocked(ops: seq<Op>) {
    ops == [] ||
    (var op := ops[|ops| - 1];
     Clocked(ops[..|ops| - 1]) && Clock(ops[..|ops| - 1]) <= op.now <= Finished(op))
  }

  lemma RunSnoc(ops: seq<Op>, op: Op)
    ensures Exec([]) == map[] && Clocked([]) && Clock([]) == 0.0
    ensures Exec(ops + [op]) == Apply(Exec(ops), op) && Clock(ops + [op]) == Finished(op)
    ensures Clocked(ops + [op]) <==> Clocked(ops) && Clock(ops) <= op.now <= Finished(op)
  {
    assert (ops + [op])[..|ops|] == ops;
    hide Apply;
  }

  // ---------- the abstract TTL map ----------

  predicate Fresh(last: Option<Entry>, now: real) {
    last.Some? && last.value.expiresAt > now
  }

  function Visible(last: Option<Entry>, now: real): Option<string> {
    if Fresh(last, now) then Some(last.value.value) else None
  }

  /** The key's latest write after one more operation; `seen` is the text that an increment starts from. */
  function NextWrite(last: Option<Entry>, seen: string, op: Op, key: string): Option<Entry> {
    if op.key != key then last
    else
      match op
      case Set(_, value, ttl, now, _) => Some(Entry(value, Deadline(ttl, now)))
      case Get(_, _) => last
      case Delete(_, _) => None
      case Increment(_, amount, now) =>
        match ParseInt(seen)
        case None => last
        case Some(n) => Some(Entry(Show(n + amount), now + COUNTER_TTL))
  }

  /** The key's latest write in the history, neither removed lazily nor in bulk. */
  function LastWrite(ops: seq<Op>, key: string): Option<Entry> {
    if ops == [] then None
    else
      var before := ops[..|ops| - 1];
      NextWrite(LastWrite(before, key), RawCounter(Exec(before), key), ops[|ops| - 1], key)
  }

  /** A key is stored with its latest write, or has no write left that could be read from now on. */
  ghost predicate Agrees(store: Store, last: Option<Entry>, key: string, clock: real) {
    if key in store then last == Some(store[key])
    else last.Some? ==> last.value.expiresAt <= clock
  }

  lemma StepAgrees(store: Store, last: Option<Entry>, op: Op, key: string, clock: real)
    requires Agrees(store, last, key, clock) && clock <= op.now <= Finished(op)
    ensures Agrees(Apply(store, op), NextWrite(last, RawCounter(store, key), op, key), key, Finished(op))
  {
    hide ParseInt, Show;
  }

  lemma {:induction false} StoreFollowsHistory(ops: seq<Op>, key: string)
    requires Clocked(ops)
    ensures Agrees(Exec(ops), LastWrite(ops, key), key, Clock(ops))
  {
    if ops != [] {
      var before, op := ops[..|ops| - 1], ops[|ops| - 1];
      StoreFollowsHistory(before, key);
      StepAgrees(Exec(before), LastWrite(before, key), op, key, Clock(before));
    }
  }

  /**
    At any time after any run, a read returns the value last written to the key if that
    write is still unexpired, and nothing otherwise: lazy deletion and the bulk
    clean-up are never visible to reads.
   */
  lemma {:induction false} ReadsLastWrite(ops: seq<Op>, key: string, now: real)
    requires Clocked(ops) && Clock(ops) <= now
    ensures Lookup(Exec(ops), key, now) == Visible(LastWrite(ops, key), now)
  {
    StoreFollowsHistory(ops, key);
  }

  // ---------- counters that restart on expiry ----------

  /** What an increment of a map with expiry starts from: an expired counter counts as absent. */
  function Restarted(last: Option<Entry>, now: real): string {
    if Fresh(last, now) then last.value.value else "0"
  }

  /** The key's latest write in a map with expiry, a function of the history alone. */
  function TtlWrite(ops: seq<Op>, key: string): Option<Entry> {
    if ops == [] then None
    else
      var last, op := TtlWrite(ops[..|ops| - 1], key), ops[|ops| - 1];
      NextWrite(last, Restarted(last, op.now), op, key)
  }

  /** Reads at this point of a run, now or later, answer as from the map with expiry. */
  ghost predicate ReadsAsTtlMap(ops: seq<Op>, key: string) {
    forall now: real :: Clock(ops) <= now ==> Lookup(Exec(ops), key, now) == Visible(TtlWrite(ops, key), now)
  }

  /** They do so at every point of the run. */
  ghost predicate ActsAsTtlMap(ops: seq<Op>, key: string) {
    ReadsAsTtlMap(ops, key) && (ops == [] || ActsAsTtlMap(ops[..|ops| - 1], key))
  }

  /** The operation does not increment the key while an expired entry other than zero is stored under it. */
  predicate HarmlessStep(store: Store, op: Op, key: string) {
    op.Increment? && op.key == key && key in store && store[key].expiresAt <= op.now ==>
      ParseInt(store[key].value) == Some(0)
  }

  predicate Harmless(ops: seq<Op>, key: string) {
    ops == [] ||
    (Harmless(ops[..|ops| - 1], key) && HarmlessStep(Exec(ops[..|ops| - 1]), ops[|ops| - 1], key))
  }

  /** From a point where both histories agree, a step keeps them together if and only if it is harmless. */
  lemma StepKeepsTtl(store: Store, last: Option<Entry>, op: Op, key: string, clock: real)
    requires Agrees(store, last, key, clock) && clock <= op.now <= Finished(op)
    ensures var raw, ttl := NextWrite(last, RawCounter(store, key), op, key), NextWrite(last, Restarted(last, op.now), op, key);
      if HarmlessStep(store, op, key) then raw == ttl else Visible(raw, Finished(op)) != Visible(ttl, Finished(op))
  {
    ShowZero();
    hide Show, ParseInt;
    if !HarmlessStep(store, op, key) {
      HarmfulIncrement(store[key], op.amount, op.now);
    }
  }

  /** The two entries that an increment of an expired nonzero counter leaves: a read tells them apart. */
  lemma HarmfulIncrement(entry: Entry, amount: int, now: real)
    requires entry.expiresAt <= now && ParseInt(entry.value) != Some(0)
    ensures var n := ParseInt(entry.value);
      var raw := if n.None? then Some(entry) else Some(Entry(Show(n.value + amount), now + COUNTER_TTL));
      Visible(raw, now) != Visible(Some(Entry(Show(0 + amount), now + COUNTER_TTL)), now)
  {
    var n := ParseInt(entry.value);
    if n.Some? {
      ParseShow(n.value + amount);
      ParseShow(amount);
    }
    hide Show, ParseInt;
  }

  lemma {:induction false} HarmlessRun(ops: seq<Op>, key: string)
    requires Clocked(ops) && Harmless(ops, key)
    ensures LastWrite(ops, key) == TtlWrite(ops, key) && ActsAsTtlMap(ops, key)
  {
    if ops != [] {
      var before, op := ops[..|ops| - 1], ops[|ops| - 1];
      HarmlessRun(before, key);
      StoreFollowsHistory(before, key);
      StepKeepsTtl(Exec(before), LastWrite(before, key), op, key, Clock(before));
    }
    StoreFollowsHistory(ops, key);
  }

  /**
    Reads answer as from a map with expiry, in which an expired counter restarts at zero,
    throughout a run if and only if no increment of the key meets a stored entry that has
    expired and does not hold zero.
   */
  lemma {:induction false} TtlMapIff(ops: seq<Op>, key: string)
    requires Clocked(ops)
    ensures ActsAsTtlMap(ops, key) <==> Harmless(ops, key)
  {
    if Harmless(ops, key) {
      HarmlessRun(ops, key);
    } else {
      var before, op := ops[..|ops| - 1], ops[|ops| - 1];
      TtlMapIff(before, key);
      if Harmless(before, key) {
        HarmlessRun(before, key);
        StoreFollowsHistory(before, key);
        StepKeepsTtl(Exec(before), LastWrite(before, key), op, key, Clock(before));
        ReadsLastWrite(ops, key, Clock(ops));
        assert !ReadsAsTtlMap(ops, key);
      }
    }
  }

  /**
    A value is read until its time to live has passed, 3600 seconds if none or zero was
    given, and not from then on; no other key is affected.
   */
  lemma SetThenRead(store: Store, key: string, value: string, ttl: Option<int>, now: real, purgeTime: real, other: string,
                    later: real)
    requires now <= purgeTime <= later
    ensures var t := Apply(store, Set(key, value, ttl, now, purgeTime));
      var seconds := if ttl.None? || ttl.value == 0 then 3600 else ttl.value;
      && Lookup(t, key, later) == (if later < now + seconds as real then Some(value) else None)
      && (other != key ==> Lookup(t, other, later) == Lookup(store, other, later))
  {
  }

  /** A counter starts from the stored text, or from zero, and is read for 86400 seconds. */
  lemma IncrementThenRead(store: Store, key: string, amount: int, now: real, other: string, later: real)
    requires ParseInt(if key in store then store[key].value else "0").Some?
    ensures var t := Apply(store, Increment(key, amount, now));
      && Lookup(t, key, later) == (if later < now + 86400.0
                                   then Some(Show(ParseInt(if key in store then store[key].value else "0").value + amount))
                                   else None)
      && (other != key ==> Lookup(t, other, later) == Lookup(store, other, later))
  {
  }

  /** The bulk clean-up never changes what a read returns, then or later. */
  lemma PurgeInvisible(store: Store, key: string, purgeTime: real, now: real)
    requires purgeTime <= now
    ensures Lookup(Purge(store, purgeTime), key, now) == Lookup(store, key, now)
  {
  }

  /**
    An increment reads the raw entry. It agrees with an increment that ignores expired
    entries exactly when the entry is absent, unexpired, or holds zero anyway.
   */
  lemma IncrementIgnoresExpiry(store: Store, key: string, now: real)
    ensures var seen := Lookup(store, key, now);
      ParseInt(RawCounter(store, key)) == ParseInt(if seen.Some? then seen.value else "0")
      <==> key !in store || store[key].expiresAt > now || ParseInt(store[key].value) == Some(0)
  {
    ShowZero();
  }

  lemma FirstIncrement(key: string, amount: int, first: real)
    requires 0.0 <= first
    ensures var ops := [Increment(key, amount, first)];
      Clocked(ops) && Clock(ops) == first && Exec(ops) == map[key := Entry(Show(amount), first + COUNTER_TTL)]
  {
    ShowZero();
    RunSnoc([], Increment(key, amount, first));
    assert [Increment(key, amount, first)] == [] + [Increment(key, amount, first)];
    hide Show, ParseInt, Exec, Clocked;
  }

  /**
    A counter that has expired, so that a read finds nothing, comes back with its old sum
    when it is incremented: every such run of two increments ends with both amounts.
   */
  lemma ExpiredCounterReturns(key: string, amount: int, more: int, first: real, now: real)
    requires 0.0 <= first && first + 86400.0 <= now
    ensures var before := [Increment(key, amount, first)];
      var after := before + [Increment(key, more, now)];
      && Clocked(after)
      && Lookup(Exec(before), key, now) == None
      && Lookup(Exec(after), key, now) == Some(Show(amount + more))
  {
    FirstIncrement(key, amount, first);
    RunSnoc([Increment(key, amount, first)], Increment(key, more, now));
    ParseShow(amount);
    hide Show, ParseInt, Exec, Clocked;
  }

  // ---------- counters ----------

  /** The sum of the amounts added to a key. */
  function Added(ops: seq<Op>, key: string): int {
    if ops == [] then 0
    else
      var op := ops[|ops| - 1];
      Added(ops[..|ops| - 1], key) + if op.Increment? && op.key == key then op.amount else 0
  }

  /** The key is only ever incremented or read. */
  predicate CounterOnly(ops: seq<Op>, key: string) {
    forall i :: 0 <= i < |ops| && ops[i].key == key ==> ops[i].Increment? || ops[i].Get?
  }

  /** No increment of the key comes after the key's latest write has expired. */
  predicate Timely(ops: seq<Op>, key: string) {
    ops == [] ||
    (var op, last := ops[|ops| - 1], LastWrite(ops[..|ops| - 1], key);
     Timely(ops[..|ops| - 1], key) && (op.Increment? && op.key == key && last.Some? ==> Fresh(last, op.now)))
  }

  /** The key's latest write holds this sum; without one the sum is zero. */
  predicate Holds(last: Option<Entry>, sum: int) {
    if last.Some? then last.value.value == Show(sum) else sum == 0
  }

  lemma CounterStep(store: Store, last: Option<Entry>, op: Op, key: string, clock: real, sum: int)
    requires Agrees(store, last, key, clock) && clock <= op.now && Holds(last, sum)
    requires op.key == key ==> op.Increment? || op.Get?
    requires op.Increment? && op.key == key && last.Some? ==> Fresh(last, op.now)
    ensures Holds(NextWrite(last, RawCounter(store, key), op, key),
                  sum + if op.Increment? && op.key == key then op.amount else 0)
  {
    ParseShow(sum);
    ShowZero();
    hide Show, ParseInt;
  }

  lemma {:induction false} CounterHistory(ops: seq<Op>, key: string)
    requires Clocked(ops) && Timely(ops, key) && CounterOnly(ops, key)
    ensures Holds(LastWrite(ops, key), Added(ops, key))
  {
    if ops != [] {
      var before, op := ops[..|ops| - 1], ops[|ops| - 1];
      hide Holds, Exec, Apply, NextWrite;
      CounterHistory(before, key);
      StoreFollowsHistory(before, key);
      CounterStep(Exec(before), LastWrite(before, key), op, key, Clock(before), Added(before, key));
    }
  }

  /**
    A counter that is never left to expire returns running sums, through its decimal
    text and whatever happens to other keys, late increments and the bulk clean-up
    included.
   */
  lemma {:induction false} CounterSums(ops: seq<Op>, key: string, amount: int, now: real)
    requires Clocked(ops) && CounterOnly(ops, key) && Timely(ops, key) && Clock(ops) <= now
    requires LastWrite(ops, key).Some? ==> Fresh(LastWrite(ops, key), now)
    ensures ParseInt(RawCounter(Exec(ops), key)) == Some(Added(ops, key))
    ensures Lookup(Apply(Exec(ops), Increment(key, amount, now)), key, now) == Some(Show(Added(ops, key) + amount))
  {
    hide Exec, Added, LastWrite, Show, ParseInt, Clocked, Timely, CounterOnly, Clock;
    StoreFollowsHistory(ops, key);
    CounterHistory(ops, key);
    ParseShow(Added(ops, key));
    ShowZero();
  }
}
