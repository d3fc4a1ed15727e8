/**
  Runs of the memory service: what every sequence of operations keeps, what a tenant
  can change, and how clean-up relates to lazy expiry.
 */
module MemoryRuns {
  import opened Outcomes
  import opened Lists
  import opened Cosine
  import opened Memories

  function Exec(cfg: Config, s: Store, ops: seq<Op>): Store {
    if ops == [] then s else Apply(cfg, Exec(cfg, s, ops[..|ops| - 1]), ops[|ops| - 1])
  }

  // ---------- the store invariant ----------

  ghost predicate GoodRow(cfg: Config, m: Memory) {
    && m.contentHash == cfg.sha256(m.content)
    && 0.0 <= m.importance <= 10.0
    && m.expiresAt.Some?
  }

  ghost predicate UniqueIds(rows: seq<Memory>) {
    forall i, j :: 0 <= i < j < |rows| ==> rows[i].id != rows[j].id
  }

  ghost predicate HasRow(rows: seq<Memory>, id: Id) {
    exists i :: 0 <= i < |rows| && rows[i].id == id
  }

  /** Every stored vector belongs to a row and is as long as it says. */
  ghost predicate Attached(s: Store) {
    forall id :: id in s.embeddings ==>
      HasRow(s.memories, id) && s.embeddings[id].dimensions == |s.embeddings[id].vector|
  }

  ghost predicate Inv(cfg: Config, s: Store) {
    && UniqueIds(s.memories)
    && (forall i :: 0 <= i < |s.memories| ==> GoodRow(cfg, s.memories[i]))
    && Attached(s)
  }

  /**
    A row after an operation of the given tenant: only its own rows change, never their
    identity, and of deleted rows only the access columns.
   */
  ghost predicate RowStep(m: Memory, m': Memory, tenant: string) {
    && m'.id == m.id && m'.tenant == m.tenant && m'.session == m.session && m'.user == m.user
    && m'.memoryType == m.memoryType && m'.createdAt == m.createdAt && m'.expiresAt == m.expiresAt
    && (m' != m ==> m.tenant == tenant)
    && (m.deleted ==> SameButAccess(m, m'))
  }

  function VectorOf(s: Store, id: Id): Option<Embedding> {
    if id in s.embeddings then Some(s.embeddings[id]) else None
  }

  /** Rows keep their places and new ones are appended; foreign and deleted rows keep their vectors too. */
  ghost predicate StoreStep(s: Store, t: Store, tenant: string) {
    && |s.memories| <= |t.memories|
    && (forall i :: 0 <= i < |s.memories| ==> RowStep(s.memories[i], t.memories[i], tenant))
    && (forall i :: |s.memories| <= i < |t.memories| ==> t.memories[i].tenant == tenant && !t.memories[i].deleted)
    && (forall i :: 0 <= i < |s.memories| && (s.memories[i].tenant != tenant || s.memories[i].deleted) ==>
          VectorOf(t, s.memories[i].id) == VectorOf(s, s.memories[i].id))
  }

  lemma FoundPosition(s: Store, id: Id, tenant: string) returns (k: nat)
    requires GetById(s, id, tenant).Some?
    ensures k < |s.memories| && s.memories[k] == GetById(s, id, tenant).value
    ensures s.memories[k].id == id && s.memories[k].tenant == tenant && !s.memories[k].deleted
  {
    k :| 0 <= k < |s.memories| && s.memories[k] == GetById(s, id, tenant).value;
  }

  lemma {:induction false} UniqueRows(rows: seq<Memory>, m: Memory)
    requires UniqueIds(rows)
    ensures multiset(rows)[m] == if m in rows then 1 else 0
  {
    if rows != [] {
      UniqueRows(rows[1..], m);
      assert rows == [rows[0]] + rows[1..];
      assert multiset(rows) == multiset{rows[0]} + multiset(rows[1..]);
      if m in rows[1..] {
        var i :| 0 <= i < |rows[1..]| && rows[1..][i] == m;
        assert rows[i + 1] == m;
      }
    }
  }

  /** With unique ids, the row that a lookup finds is the only one with its id. */
  lemma FoundAt(s: Store, id: Id, tenant: string, k: nat)
    requires UniqueIds(s.memories) && k < |s.memories| && s.memories[k].id == id
    ensures GetById(s, id, tenant) ==
            if s.memories[k].tenant == tenant && !s.memories[k].deleted then Some(s.memories[k]) else None
  {
    if GetById(s, id, tenant).Some? {
      var j := FoundPosition(s, id, tenant);
      assert !(j < k) && !(k < j);
    } else {
      var m := s.memories[k];
      assert m in s.memories;
      assert !OwnRow(id, tenant)(m);
    }
  }

  lemma NoRow(s: Store, id: Id, tenant: string)
    requires !HasRow(s.memories, id)
    ensures GetById(s, id, tenant).None?
  {
    if GetById(s, id, tenant).Some? {
      var j := FoundPosition(s, id, tenant);
    }
  }

  lemma KeepsRows(rows: seq<Memory>, rows': seq<Memory>, id: Id)
    requires |rows| <= |rows'| && forall i :: 0 <= i < |rows| ==> rows'[i].id == rows[i].id
    requires HasRow(rows, id)
    ensures HasRow(rows', id)
  {
    var i :| 0 <= i < |rows| && rows[i].id == id;
    assert rows'[i].id == id;
  }

  lemma KeepsAttached(s: Store, t: Store)
    requires Attached(s) && t.embeddings == s.embeddings && |s.memories| <= |t.memories|
    requires forall i :: 0 <= i < |s.memories| ==> t.memories[i].id == s.memories[i].id
    ensures Attached(t)
  {
    hide HasRow;
    forall id | id in t.embeddings
      ensures HasRow(t.memories, id)
    {
      KeepsRows(s.memories, t.memories, id);
    }
  }

  /** What an UPDATE keeps when it rewrites every selected row as the tenant may, and well. */
  lemma RewriteStep(cfg: Config, s: Store, sel: Memory -> bool, f: Memory -> Memory, tenant: string)
    requires Inv(cfg, s)
    requires forall i :: 0 <= i < |s.memories| && sel(s.memories[i]) ==>
      RowStep(s.memories[i], f(s.memories[i]), tenant) && GoodRow(cfg, f(s.memories[i]))
    ensures var t := s.(memories := MapIf(sel, f, s.memories));
      Inv(cfg, t) && StoreStep(s, t, tenant)
  {
    hide Attached, GoodRow;
    KeepsAttached(s, s.(memories := MapIf(sel, f, s.memories)));
  }

  /** Storing a vector for a row that is neither foreign nor deleted. */
  lemma PutStep(cfg: Config, s: Store, t: Store, id: Id, vector: Vector, tenant: string)
    requires Inv(cfg, t) && StoreStep(s, t, tenant) && HasRow(t.memories, id)
    requires forall i :: 0 <= i < |s.memories| && s.memories[i].id == id ==>
      s.memories[i].tenant == tenant && !s.memories[i].deleted
    ensures Inv(cfg, PutEmbedding(t, id, vector)) && StoreStep(s, PutEmbedding(t, id, vector), tenant)
  {
    hide GoodRow, HasRow, UniqueIds, RowStep;
  }

  lemma AppendStep(cfg: Config, s: Store, m: Memory)
    requires Inv(cfg, s) && GoodRow(cfg, m) && !m.deleted
    requires forall i :: 0 <= i < |s.memories| ==> s.memories[i].id != m.id
    ensures var t := s.(memories := s.memories + [m]);
      Inv(cfg, t) && StoreStep(s, t, m.tenant) && HasRow(t.memories, m.id)
  {
    hide GoodRow, Attached;
    var t := s.(memories := s.memories + [m]);
    KeepsAttached(s, t);
    assert t.memories[|s.memories|].id == m.id;
  }

  lemma AddStep(cfg: Config, s: Store, id: Id, d: Draft, vector: Option<Vector>, now: real)
    requires Inv(cfg, s)
    ensures Inv(cfg, Add(cfg, s, id, d, vector, now)) && StoreStep(s, Add(cfg, s, id, d, vector, now), d.tenant)
  {
    if Find(ById(id), s.memories).None? {
      forall i | 0 <= i < |s.memories|
        ensures s.memories[i].id != id
      {
        var m := s.memories[i];
        assert m in s.memories;
        assert !ById(id)(m);
      }
      var m := NewMemory(cfg, id, d, now);
      assert GoodRow(cfg, m);
      hide Inv, StoreStep, GoodRow, HasRow;
      AppendStep(cfg, s, m);
      if vector.Some? {
        PutStep(cfg, s, s.(memories := s.memories + [m]), id, vector.value, d.tenant);
      }
    }
  }

  lemma AccessStep(cfg: Config, s: Store, id: Id, tenant: string, now: real)
    requires Inv(cfg, s)
    ensures Inv(cfg, Access(s, id, tenant, now)) && StoreStep(s, Access(s, id, tenant, now), tenant)
  {
    hide Attached;
    RewriteStep(cfg, s, AccessedRow(id, tenant), Touch(now), tenant);
  }

  lemma UpdateStep(cfg: Config, s: Store, id: Id, tenant: string, patch: Patch, vector: Option<Vector>, now: real)
    requires Inv(cfg, s)
    ensures var t := Update(cfg, s, id, tenant, patch, vector, now); Inv(cfg, t) && StoreStep(s, t, tenant)
  {
    hide Attached;
    if ValidPatch(patch) {
      RewriteStep(cfg, s, OwnRow(id, tenant), Edit(cfg, patch, now), tenant);
      if Reembeds(patch) && GetById(s, id, tenant).Some? && vector.Some? {
        var k := FoundPosition(s, id, tenant);
        var t := s.(memories := MapIf(OwnRow(id, tenant), Edit(cfg, patch, now), s.memories));
        assert t.memories[k].id == id;
        assert HasRow(t.memories, id);
        assert forall i :: 0 <= i < |s.memories| && s.memories[i].id == id ==> i == k;
        hide Inv, StoreStep, GoodRow, HasRow, UniqueIds;
        PutStep(cfg, s, t, id, vector.value, tenant);
      }
    }
  }

  lemma ApplyKeeps(cfg: Config, s: Store, op: Op)
    requires Inv(cfg, s)
    ensures Inv(cfg, Apply(cfg, s, op)) && StoreStep(s, Apply(cfg, s, op), op.Tenant())
  {
    match op
    case AddOp(id, draft, vector, now) =>
      hide Inv, StoreStep, Add;
      AddStep(cfg, s, id, draft, vector, now);
    case AccessOp(id, tenant, now) =>
      hide Inv, StoreStep, Access;
      AccessStep(cfg, s, id, tenant, now);
    case UpdateOp(id, tenant, patch, vector, now) =>
      hide Inv, StoreStep, Update;
      UpdateStep(cfg, s, id, tenant, patch, vector, now);
    case DeleteOp(id, tenant, now) =>
      hide Attached;
      RewriteStep(cfg, s, OwnRow(id, tenant), Erase(now), tenant);
    case CleanupOp(tenant, now) =>
      hide Attached;
      RewriteStep(cfg, s, Due(tenant, now), Erase(now), tenant);
  }

  lemma {:induction false} RunKeepsInv(cfg: Config, s: Store, ops: seq<Op>)
    requires Inv(cfg, s)
    ensures Inv(cfg, Exec(cfg, s, ops))
  {
    if ops != [] {
      RunKeepsInv(cfg, s, ops[..|ops| - 1]);
      ApplyKeeps(cfg, Exec(cfg, s, ops[..|ops| - 1]), ops[|ops| - 1]);
    }
  }

  /**
    In every reachable store ids are unique, each hash is that of its content, each
    importance lies in [0, 10], each row expires, and vectors belong to rows.
   */
  lemma {:induction false} StoreInvariant(cfg: Config, ops: seq<Op>)
    ensures Inv(cfg, Exec(cfg, EMPTY, ops))
  {
    RunKeepsInv(cfg, EMPTY, ops);
  }

  // ---------- deletion is final, tenants are isolated ----------

  /**
    A deleted row keeps its place, its flag, its vector and every column but those of the
    access statement, which a late `get_memory` may still write.
   */
  lemma {:induction false} DeletedIsFrozen(cfg: Config, s: Store, ops: seq<Op>, i: nat)
    requires Inv(cfg, s) && i < |s.memories| && s.memories[i].deleted
    ensures var t := Exec(cfg, s, ops);
      && i < |t.memories| && SameButAccess(s.memories[i], t.memories[i])
      && VectorOf(t, s.memories[i].id) == VectorOf(s, s.memories[i].id)
  {
    if ops != [] {
      var before := ops[..|ops| - 1];
      DeletedIsFrozen(cfg, s, before, i);
      RunKeepsInv(cfg, s, before);
      ApplyKeeps(cfg, Exec(cfg, s, before), ops[|ops| - 1]);
      assert RowStep(Exec(cfg, s, before).memories[i], Exec(cfg, s, ops).memories[i], ops[|ops| - 1].Tenant());
    }
  }

  predicate Accesses(op: Op, m: Memory) {
    op.AccessOp? && op.id == m.id && op.owner == m.tenant
  }

  /** The access statements that a run executes on a row. */
  function AccessesOf(ops: seq<Op>, m: Memory): nat {
    if ops == [] then 0
    else AccessesOf(ops[..|ops| - 1], m) + if Accesses(ops[|ops| - 1], m) then 1 else 0
  }

  lemma StepCountsAccess(cfg: Config, s: Store, op: Op, i: nat)
    requires Inv(cfg, s) && i < |s.memories|
    ensures var t := Apply(cfg, s, op);
      && i < |t.memories| && t.memories[i].id == s.memories[i].id && t.memories[i].tenant == s.memories[i].tenant
      && t.memories[i].accessCount == s.memories[i].accessCount + if Accesses(op, s.memories[i]) then 1 else 0
  {
    ApplyKeeps(cfg, s, op);
    hide Inv, GetById;
  }

  /**
    No access is lost or counted twice: in every run, of whatever operations, a row's
    count grows by the number of access statements of its tenant for its id, also
    after it was deleted.
   */
  lemma {:induction false} AccessesCounted(cfg: Config, s: Store, ops: seq<Op>, i: nat)
    requires Inv(cfg, s) && i < |s.memories|
    ensures var t := Exec(cfg, s, ops);
      && i < |t.memories| && t.memories[i].id == s.memories[i].id && t.memories[i].tenant == s.memories[i].tenant
      && t.memories[i].accessCount == s.memories[i].accessCount + AccessesOf(ops, s.memories[i])
  {
    if ops != [] {
      var before := ops[..|ops| - 1];
      AccessesCounted(cfg, s, before, i);
      RunKeepsInv(cfg, s, before);
      hide Inv, Apply;
      StepCountsAccess(cfg, Exec(cfg, s, before), ops[|ops| - 1], i);
    }
  }

  lemma OnlyAccessChangesDeleted(cfg: Config, s: Store, op: Op, i: nat)
    requires Inv(cfg, s) && i < |s.memories| && s.memories[i].deleted && !Accesses(op, s.memories[i])
    ensures i < |Apply(cfg, s, op).memories| && Apply(cfg, s, op).memories[i] == s.memories[i]
  {
    hide Inv, GetById;
  }

  lemma {:induction false} UnaccessedStays(cfg: Config, s: Store, ops: seq<Op>, i: nat)
    requires Inv(cfg, s) && i < |s.memories| && s.memories[i].deleted && AccessesOf(ops, s.memories[i]) == 0
    ensures i < |Exec(cfg, s, ops).memories| && Exec(cfg, s, ops).memories[i] == s.memories[i]
  {
    if ops != [] {
      var before := ops[..|ops| - 1];
      UnaccessedStays(cfg, s, before, i);
      RunKeepsInv(cfg, s, before);
      hide Inv, Apply;
      OnlyAccessChangesDeleted(cfg, Exec(cfg, s, before), ops[|ops| - 1], i);
    }
  }

  /** A deleted row stays exactly as it is if and only if the run has no access statement of its tenant for its id. */
  lemma {:induction false} DeletedUnchangedIff(cfg: Config, s: Store, ops: seq<Op>, i: nat)
    requires Inv(cfg, s) && i < |s.memories| && s.memories[i].deleted
    ensures var t := Exec(cfg, s, ops);
      i < |t.memories| && (t.memories[i] == s.memories[i] <==> AccessesOf(ops, s.memories[i]) == 0)
  {
    AccessesCounted(cfg, s, ops, i);
    hide Inv, Exec, AccessesOf;
    if AccessesOf(ops, s.memories[i]) == 0 {
      UnaccessedStays(cfg, s, ops, i);
    }
  }

  /** A delete that commits between the two statements of `get_memory`: the deleted row is rewritten. */
  lemma AccessAfterDelete(cfg: Config, s: Store, id: Id, tenant: string, now: real, deletedAt: real, accessedAt: real)
    returns (k: nat)
    requires Inv(cfg, s) && Read(s, id, tenant, now).Some?
    ensures var t := Delete(s, id, tenant, deletedAt);
      var u := Access(t, id, tenant, accessedAt);
      && k < |s.memories| == |t.memories| == |u.memories|
      && t.memories[k].deleted && u.memories[k] != t.memories[k]
      && u.memories[k].accessCount == t.memories[k].accessCount + 1
  {
    hide Inv;
    k := FoundPosition(s, id, tenant);
  }

  /** Once deleted, an id is never found again by anyone. */
  lemma {:induction false} DeletedNeverVisible(cfg: Config, s: Store, ops: seq<Op>, i: nat, tenant: string)
    requires Inv(cfg, s) && i < |s.memories| && s.memories[i].deleted
    ensures GetById(Exec(cfg, s, ops), s.memories[i].id, tenant).None?
  {
    DeletedIsFrozen(cfg, s, ops, i);
    RunKeepsInv(cfg, s, ops);
    FoundAt(Exec(cfg, s, ops), s.memories[i].id, tenant, i);
  }

  function OwnedBy(tenant: string): Memory -> bool {
    (m: Memory) => m.tenant == tenant
  }

  lemma {:induction false} OwnedUnchanged(rows: seq<Memory>, rows': seq<Memory>, actor: string, tenant: string)
    requires actor != tenant && |rows| <= |rows'|
    requires forall i :: 0 <= i < |rows| ==> RowStep(rows[i], rows'[i], actor)
    requires forall i :: |rows| <= i < |rows'| ==> rows'[i].tenant == actor
    ensures Filter(OwnedBy(tenant), rows') == Filter(OwnedBy(tenant), rows)
  {
    if rows == [] {
      FilterNothing(OwnedBy(tenant), rows');
    } else {
      assert RowStep(rows[0], rows'[0], actor);
      OwnedUnchanged(rows[1..], rows'[1..], actor, tenant);
    }
  }

  /** A run without operations of a tenant leaves that tenant's rows and vectors as they were. */
  lemma {:induction false} TenantIsolation(cfg: Config, s: Store, ops: seq<Op>, tenant: string)
    requires Inv(cfg, s) && forall i :: 0 <= i < |ops| ==> ops[i].Tenant() != tenant
    ensures var t := Exec(cfg, s, ops);
      && |s.memories| <= |t.memories|
      && Filter(OwnedBy(tenant), t.memories) == Filter(OwnedBy(tenant), s.memories)
      && (forall i :: 0 <= i < |s.memories| && s.memories[i].tenant == tenant ==>
            t.memories[i] == s.memories[i] && VectorOf(t, s.memories[i].id) == VectorOf(s, s.memories[i].id))
  {
    if ops != [] {
      var before, op := ops[..|ops| - 1], ops[|ops| - 1];
      TenantIsolation(cfg, s, before, tenant);
      RunKeepsInv(cfg, s, before);
      var m := Exec(cfg, s, before);
      ApplyKeeps(cfg, m, op);
      OwnedUnchanged(m.memories, Apply(cfg, m, op).memories, op.Tenant(), tenant);
    }
  }

  // ---------- single operations, as seen by the next reader ----------

  /**
    A memory that was added at one time is found later, with every column as given, exactly
    by its own tenant and up to its expiry: the given days, or the default, after it was
    added.
   */
  lemma AddThenFetch(cfg: Config, s: Store, id: Id, d: Draft, vector: Option<Vector>, now: real, reader: string, later: real)
    requires Inv(cfg, s) && !HasRow(s.memories, id)
    ensures var days := if d.ttlDays.Some? then d.ttlDays.value else cfg.defaultTtlDays;
      var found := Read(Add(cfg, s, id, d, vector, now), id, reader, later);
      && (found.Some? <==> reader == d.tenant && later <= now + (days * 86400) as real)
      && (found.Some? ==>
            found.value == Memory(id, d.tenant, d.session, d.user, d.content, cfg.sha256(d.content),
                                  if d.metadata.Some? then d.metadata.value else map[], Clamp(d.importance), d.memoryType,
                                  0, None, now, now, Some(now + (days * 86400) as real), false))
  {
    AddStep(cfg, s, id, d, vector, now);
    var t := Add(cfg, s, id, d, vector, now);
    NoRowInTable(s.memories, id);
    assert UniqueIds(t.memories);
    hide Inv, UniqueIds, StoreStep, HasRow, GetById;
    FoundAt(t, id, reader, |s.memories|);
  }

  /** With unique ids, a read answers with the row of the id exactly when it is the reader's, undeleted and unexpired. */
  lemma ReadAnswers(s: Store, reader: string, now: real, k: nat)
    requires UniqueIds(s.memories) && k < |s.memories|
    ensures var m := s.memories[k];
      Read(s, m.id, reader, now) ==
      if m.tenant == reader && !m.deleted && !(m.expiresAt.Some? && m.expiresAt.value < now) then Some(m) else None
  {
    FoundAt(s, s.memories[k].id, reader, k);
    hide GetById, UniqueIds;
  }

  lemma NoRowInTable(rows: seq<Memory>, id: Id)
    requires !HasRow(rows, id)
    ensures Find(ById(id), rows).None?
  {
  }

  lemma DeleteMarks(s: Store, id: Id, owner: string, now: real, k: nat)
    requires k < |s.memories| && OwnRow(id, owner)(s.memories[k])
    ensures var t := Delete(s, id, owner, now);
      |t.memories| == |s.memories| && t.memories[k].id == id && t.memories[k].deleted
  {
  }

  /** Once its owner has deleted a memory, no later run makes it visible to anyone. */
  lemma {:induction false} DeleteThenNever(cfg: Config, s: Store, id: Id, owner: string, now: real, ops: seq<Op>, reader: string)
    requires Inv(cfg, s) && GetById(s, id, owner).Some?
    ensures GetById(Exec(cfg, Delete(s, id, owner, now), ops), id, reader).None?
  {
    var k := FoundPosition(s, id, owner);
    ApplyKeeps(cfg, s, DeleteOp(id, owner, now));
    DeleteMarks(s, id, owner, now, k);
    hide Inv, StoreStep, GetById, Exec, Delete;
    DeletedNeverVisible(cfg, Delete(s, id, owner, now), ops, k, reader);
  }

  /**
    Whatever ran between the read and the access of `get_memory`, the access counts on
    the very row that the read returned and leaves every other row alone.
   */
  lemma {:induction false} FetchCounts(cfg: Config, s: Store, id: Id, tenant: string, now: real, between: seq<Op>,
                                       later: real, i: nat)
    requires Inv(cfg, s) && Read(s, id, tenant, now).Some? && i < |Exec(cfg, s, between).memories|
    ensures var t := Exec(cfg, s, between);
      var u := Access(t, id, tenant, later);
      && |u.memories| == |t.memories| && u.embeddings == t.embeddings
      && if i < |s.memories| && s.memories[i] == Read(s, id, tenant, now).value
         then && u.memories[i].accessCount == s.memories[i].accessCount + AccessesOf(between, s.memories[i]) + 1
              && u.memories[i].lastAccessed == Some(later) && u.memories[i].updatedAt == later
              && SameButAccess(t.memories[i], u.memories[i])
         else u.memories[i] == t.memories[i]
  {
    RunKeepsInv(cfg, s, between);
    var k := FoundPosition(s, id, tenant);
    AccessesCounted(cfg, s, between, k);
    var t := Exec(cfg, s, between);
    assert UniqueIds(t.memories) && UniqueIds(s.memories);
    hide Inv, Exec, AccessesOf, GetById;
    assert t.memories[i].id == id ==> !(i < k) && !(k < i);
    assert i < |s.memories| && s.memories[i] == s.memories[k] ==> !(i < k) && !(k < i);
  }

  // ---------- embeddings follow the content ----------

  /** The operation asks the embedder about the memory with this id. */
  predicate Concerns(op: Op, id: Id) {
    (op.AddOp? && op.id == id) || (op.UpdateOp? && op.id == id && Reembeds(op.patch))
  }

  /** The operation was answered as `embed` prescribes: None for a text that the embedder rejects. */
  predicate Faithful(embed: string -> Option<Vector>, op: Op) {
    match op
    case AddOp(_, draft, vector, _) => vector == embed(draft.content)
    case UpdateOp(_, _, patch, vector, _) => Reembeds(patch) ==> vector == embed(patch.content.value)
    case _ => true
  }

  /** The row carries the embedding of its content, unless the content is empty or rejected. */
  ghost predicate EmbeddedRow(embed: string -> Option<Vector>, m: Memory, e: Option<Embedding>) {
    m.content != "" && embed(m.content).Some? ==> e.Some? && e.value.vector == embed(m.content).value
  }

  lemma NewRowEmbedded(cfg: Config, embed: string -> Option<Vector>, s: Store, op: Op, i: nat)
    requires |s.memories| <= i < |Apply(cfg, s, op).memories|
    requires Concerns(op, Apply(cfg, s, op).memories[i].id) ==> Faithful(embed, op)
    ensures var t := Apply(cfg, s, op); EmbeddedRow(embed, t.memories[i], VectorOf(t, t.memories[i].id))
  {
    hide GetById;
  }

  lemma UpdatedRowStaysEmbedded(cfg: Config, embed: string -> Option<Vector>, s: Store, op: Op, i: nat)
    requires op.UpdateOp? && UniqueIds(s.memories) && i < |s.memories|
    requires Concerns(op, s.memories[i].id) ==> Faithful(embed, op)
    requires EmbeddedRow(embed, s.memories[i], VectorOf(s, s.memories[i].id))
    ensures var t := Apply(cfg, s, op);
      |t.memories| == |s.memories| && EmbeddedRow(embed, t.memories[i], VectorOf(t, t.memories[i].id))
  {
    hide UniqueIds, GetById;
    if s.memories[i].id == op.id {
      FoundAt(s, op.id, op.owner, i);
    }
  }

  lemma RowStaysEmbedded(cfg: Config, embed: string -> Option<Vector>, s: Store, op: Op, i: nat)
    requires UniqueIds(s.memories) && i < |s.memories|
    requires Concerns(op, s.memories[i].id) ==> Faithful(embed, op)
    requires EmbeddedRow(embed, s.memories[i], VectorOf(s, s.memories[i].id))
    ensures var t := Apply(cfg, s, op);
      |t.memories| >= |s.memories| && EmbeddedRow(embed, t.memories[i], VectorOf(t, t.memories[i].id))
  {
    hide UniqueIds, GetById;
    var m := s.memories[i];
    match op
    case AddOp(id, _, _, _) =>
      assert m in s.memories;
      assert Find(ById(id), s.memories).None? ==> !ById(id)(m);
    case UpdateOp(_, _, _, _, _) =>
      hide Apply, EmbeddedRow, Faithful;
      UpdatedRowStaysEmbedded(cfg, embed, s, op, i);
    case AccessOp(_, _, _) =>
    case DeleteOp(_, _, _) =>
    case CleanupOp(_, _) =>
  }

  /**
    As long as no embedder call for a memory has failed on a text that it accepts, the
    row, deleted or not, carries the embedding of its current content. What the embedder
    did with other memories does not matter.
   */
  lemma {:induction false} EmbeddingsCurrent(cfg: Config, embed: string -> Option<Vector>, ops: seq<Op>, i: nat)
    requires i < |Exec(cfg, EMPTY, ops).memories|
    requires forall j :: 0 <= j < |ops| && Concerns(ops[j], Exec(cfg, EMPTY, ops).memories[i].id) ==> Faithful(embed, ops[j])
    ensures var t := Exec(cfg, EMPTY, ops); EmbeddedRow(embed, t.memories[i], VectorOf(t, t.memories[i].id))
  {
    if ops != [] {
      var before, op := ops[..|ops| - 1], ops[|ops| - 1];
      var s := Exec(cfg, EMPTY, before);
      RunKeepsInv(cfg, EMPTY, before);
      ApplyKeeps(cfg, s, op);
      assert UniqueIds(s.memories);
      hide Inv, UniqueIds, EmbeddedRow, Faithful, Apply, VectorOf, Concerns;
      if i < |s.memories| {
        assert RowStep(s.memories[i], Apply(cfg, s, op).memories[i], op.Tenant());
        EmbeddingsCurrent(cfg, embed, before, i);
        RowStaysEmbedded(cfg, embed, s, op, i);
      } else {
        NewRowEmbedded(cfg, embed, s, op, i);
      }
    }
  }

  /** A valid update is read back at once: given fields are replaced, all others and the row's identity kept. */
  lemma UpdateThenRead(cfg: Config, s: Store, id: Id, tenant: string, patch: Patch, vector: Option<Vector>, now: real)
    requires Inv(cfg, s) && ValidPatch(patch) && GetById(s, id, tenant).Some?
    ensures var r, r' := GetById(s, id, tenant), GetById(Update(cfg, s, id, tenant, patch, vector, now), id, tenant);
      && r'.Some?
      && r'.value.content == (if patch.content.Some? then patch.content.value else r.value.content)
      && r'.value.metadata == (if patch.metadata.Some? then patch.metadata.value else r.value.metadata)
      && r'.value.importance == (if patch.importance.Some? then patch.importance.value else r.value.importance)
      && r'.value.contentHash == cfg.sha256(r'.value.content)
      && r'.value.updatedAt == now
      && r'.value == r.value.(content := r'.value.content, contentHash := r'.value.contentHash, updatedAt := now,
                              metadata := r'.value.metadata, importance := r'.value.importance)
  {
    UpdateStep(cfg, s, id, tenant, patch, vector, now);
    var k := FoundPosition(s, id, tenant);
    hide StoreStep, Attached, UniqueIds, GetById;
    FoundAt(Update(cfg, s, id, tenant, patch, vector, now), id, tenant, k);
  }

  /**
    An update of the content replaces the vector exactly when the new content is
    nonempty and the embedder answered; otherwise the old vector stays beside the new text.
   */
  lemma StaleAfterUpdate(cfg: Config, s: Store, id: Id, tenant: string, patch: Patch, vector: Option<Vector>, now: real)
    requires Inv(cfg, s) && ValidPatch(patch) && patch.content.Some? && GetById(s, id, tenant).Some?
    ensures var t := Update(cfg, s, id, tenant, patch, vector, now);
      && GetById(t, id, tenant).Some? && GetById(t, id, tenant).value.content == patch.content.value
      && VectorOf(t, id) == if patch.content.value != "" && vector.Some?
                            then Some(Embedding(vector.value, |vector.value|)) else VectorOf(s, id)
  {
    UpdateStep(cfg, s, id, tenant, patch, vector, now);
    var k := FoundPosition(s, id, tenant);
    hide StoreStep, GoodRow, Attached;
    FoundAt(Update(cfg, s, id, tenant, patch, vector, now), id, tenant, k);
  }

  // ---------- clean-up and lazy expiry ----------

  /** The two expiry tests differ only at the very moment of expiry. */
  lemma TestsDifferAtExpiry(m: Memory, now: real)
    requires !m.deleted
    ensures Due(m.tenant, now)(m) != IsExpired(m, now) <==> m.expiresAt == Some(now)
  {
  }

  /** For any query over undeleted rows, a clean-up acts as if the due rows had been removed from the table. */
  lemma CleanedSelection(s: Store, tenant: string, c: real, p: Memory -> bool)
    requires forall m: Memory :: p(m) ==> !m.deleted
    ensures Filter(p, Cleanup(s, tenant, c).0.memories) == Filter(p, Filter(Not(Due(tenant, c)), s.memories))
  {
    FilterMapIf(p, Due(tenant, c), Erase(c), s.memories);
  }

  /** The tenant's undeleted rows, counted by their places. */
  ghost function Undeleted(s: Store, tenant: string): nat {
    |set i | 0 <= i < |s.memories| && s.memories[i].tenant == tenant && !s.memories[i].deleted|
  }

  lemma CountIsUndeleted(s: Store, tenant: string)
    ensures CountByTenant(s, tenant) == Undeleted(s, tenant)
  {
    FilterCardinality(OfTenant(tenant), s.memories);
    var p := Satisfies(OfTenant(tenant), s.memories);
    assert (set i | 0 <= i < |s.memories| && p(i)) ==
           (set i | 0 <= i < |s.memories| && s.memories[i].tenant == tenant && !s.memories[i].deleted);
  }

  /** Clean-up returns the number of rows by which the tenant's count drops. */
  lemma CleanupCounts(s: Store, tenant: string, c: real)
    ensures var (t, n) := Cleanup(s, tenant, c);
      && CountByTenant(s, tenant) == CountByTenant(t, tenant) + n
      && Undeleted(s, tenant) == Undeleted(t, tenant) + n
  {
    CountIsUndeleted(s, tenant);
    CountIsUndeleted(Cleanup(s, tenant, c).0, tenant);
    hide Undeleted;
    CleanedSelection(s, tenant, c, OfTenant(tenant));
    FilterCount(OfTenant(tenant), Due(tenant, c), s.memories);
  }

  /** Cleaning twice at one time does nothing the second time. */
  lemma CleanupIdempotent(s: Store, tenant: string, c: real)
    ensures var t := Cleanup(s, tenant, c).0; Cleanup(t, tenant, c) == (t, 0)
  {
    var t := Cleanup(s, tenant, c).0;
    assert forall m :: m in t.memories ==> !Due(tenant, c)(m);
    MapIfNothing(Due(tenant, c), Erase(c), t.memories);
    FilterNothing(Due(tenant, c), t.memories);
  }

  lemma CleanupKeepsIds(cfg: Config, s: Store, tenant: string, c: real)
    requires Inv(cfg, s)
    ensures var t := Cleanup(s, tenant, c).0;
      && UniqueIds(s.memories) && UniqueIds(t.memories) && |t.memories| == |s.memories|
      && (forall i :: 0 <= i < |s.memories| ==> t.memories[i].id == s.memories[i].id)
  {
    hide GoodRow, Attached;
  }

  lemma CleanedFetchAt(s: Store, tenant: string, c: real, id: Id, reader: string, now: real, k: nat)
    requires UniqueIds(s.memories) && UniqueIds(Cleanup(s, tenant, c).0.memories) && c < now
    requires k < |s.memories| && s.memories[k].id == id
    ensures Read(Cleanup(s, tenant, c).0, id, reader, now) == Read(s, id, reader, now)
  {
    hide UniqueIds, GetById;
    FoundAt(s, id, reader, k);
    FoundAt(Cleanup(s, tenant, c).0, id, reader, k);
  }

  /** A clean-up at c changes no answer of `get_memory` at any later time. */
  lemma CleanupInvisibleToFetch(cfg: Config, s: Store, tenant: string, c: real, id: Id, reader: string, now: real)
    requires Inv(cfg, s) && c < now
    ensures Read(Cleanup(s, tenant, c).0, id, reader, now) == Read(s, id, reader, now)
  {
    hide Inv, UniqueIds, Cleanup, GetById;
    CleanupKeepsIds(cfg, s, tenant, c);
    var t := Cleanup(s, tenant, c).0;
    if HasRow(s.memories, id) {
      var k :| 0 <= k < |s.memories| && s.memories[k].id == id;
      CleanedFetchAt(s, tenant, c, id, reader, now, k);
    } else {
      if HasRow(t.memories, id) {
        KeepsRows(t.memories, s.memories, id);
      }
      hide HasRow;
      NoRow(s, id, reader);
      NoRow(t, id, reader);
    }
  }

  lemma CleanedSession(s: Store, tenant: string, c: real, reader: string, session: string)
    ensures SessionRows(Cleanup(s, tenant, c).0, reader, session) ==
            Filter(Not(Due(tenant, c)), SessionRows(s, reader, session))
  {
    var p, kept := OfSession(reader, session), Not(Due(tenant, c));
    CleanedSelection(s, tenant, c, p);
    FilterCommute(p, kept, s.memories);
    FilterSort(ByCreation(), kept, Filter(p, s.memories));
  }

  /**
    A clean-up at c and the first page of a session, read later: the page without the
    clean-up is a prefix of the page with it, because due rows no longer take up places.
    An unpaged list is unchanged.
   */
  lemma CleanupAndFirstPage(s: Store, tenant: string, c: real, reader: string, session: string, limit: nat,
                            memoryType: Option<string>, now: real)
    requires c < now
    ensures var t := Cleanup(s, tenant, c).0;
      && ListSession(s, reader, session, limit, 0, memoryType, now) <=
           ListSession(t, reader, session, limit, 0, memoryType, now)
      && (|SessionRows(s, reader, session)| <= limit ==>
            ListSession(t, reader, session, limit, 0, memoryType, now) ==
            ListSession(s, reader, session, limit, 0, memoryType, now))
  {
    CleanedSession(s, tenant, c, reader, session);
    var rows, kept := SessionRows(s, reader, session), Not(Due(tenant, c));
    var wanted := Wanted(memoryType, now);
    WantedIsBoth(memoryType, now, Take(rows, limit));
    WantedIsBoth(memoryType, now, Take(Filter(kept, rows), limit));
    FirstPage(rows, limit);
    FirstPage(Filter(kept, rows), limit);
    CutAfterRemoval(wanted, kept, rows, limit);
    if |rows| <= limit {
      FilterAbsorb(wanted, kept, rows);
    }
  }

  /** The type and the expiry filter in one test. */
  function Wanted(memoryType: Option<string>, now: real): Memory -> bool {
    (m: Memory) => OfType(memoryType)(m) && Live(now)(m)
  }

  lemma {:induction false} WantedIsBoth(memoryType: Option<string>, now: real, rows: seq<Memory>)
    ensures Filter(Live(now), Filter(OfType(memoryType), rows)) == Filter(Wanted(memoryType, now), rows)
  {
    if rows != [] {
      WantedIsBoth(memoryType, now, rows[1..]);
      FilterCons(Live(now), rows[0], Filter(OfType(memoryType), rows[1..]));
    }
  }

  lemma FirstPage<T>(xs: seq<T>, limit: nat)
    ensures Page(xs, limit, 0) == Take(xs, limit)
  {
    assert xs[0..] == xs;
    if xs == [] {
      assert Take(xs, limit) == [];
    }
  }
}
