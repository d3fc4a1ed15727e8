/**
  The memory tables, the statements the repository runs on them, and the memory
  service on top. A table is a list of rows in one fixed order; a query selects rows
  in that order, and an UPDATE rewrites rows in place.
 */
module Memories {
  import opened Outcomes
  import opened Lists
  import opened Cosine

  type Id = nat
  type Metadata = map<string, string>

  const SECONDS_PER_DAY := 86400
  const COUNT_LIMIT := 10000

  datatype Memory = Memory(
    id: Id,
    tenant: string,
    session: string,
    user: string,
    content: string,
    contentHash: string,
    metadata: Metadata,
    importance: real,
    memoryType: string,
    accessCount: nat,
    lastAccessed: Option<real>,
    createdAt: real,
    updatedAt: real,
    expiresAt: Option<real>,
    deleted: bool)

  /** The embedding table has a unique index on memory_id, so it is a map. */
  datatype Embedding = Embedding(vector: Vector, dimensions: nat)

  datatype Store = Store(memories: seq<Memory>, embeddings: map<Id, Embedding>)

  const EMPTY := Store([], map[])

  /** The hash is any function; the default TTL is that of the retention policy. */
  datatype Config = Config(sha256: string -> string, defaultTtlDays: int)

  datatype ServiceError = InternalError | ValidationError | NotFound

  /** The arguments of `add_memory`. */
  datatype Draft = Draft(
    tenant: string,
    session: string,
    user: string,
    content: string,
    metadata: Option<Metadata>,
    importance: real,
    memoryType: string,
    ttlDays: Option<int>)

  /** The optional arguments of `update_memory`. */
  datatype Patch = Patch(content: Option<string>, metadata: Option<Metadata>, importance: Option<real>)

  // ---------- retention ----------

  predicate IsExpired(m: Memory, now: real) {
    m.expiresAt.Some? && now > m.expiresAt.value
  }

  function Live(now: real): Memory -> bool {
    (m: Memory) => !IsExpired(m, now)
  }

  function DaysAfter(now: real, days: int): real {
    now + (days * SECONDS_PER_DAY) as real
  }

  function ApplyPolicy(cfg: Config, m: Memory, now: real): Memory {
    if m.expiresAt.None? then m.(expiresAt := Some(DaysAfter(now, cfg.defaultTtlDays))) else m
  }

  /** Two versions of a row that differ in the columns of the access statement at most. */
  predicate SameButAccess(m: Memory, m': Memory) {
    m' == m.(accessCount := m'.accessCount, lastAccessed := m'.lastAccessed, updatedAt := m'.updatedAt)
  }

  // ---------- conditions in columns ----------

  /** The tenant's undeleted row of this id. */
  predicate Owns(tenant: string, id: Id, m: Memory) {
    m.id == id && m.tenant == tenant && !m.deleted
  }

  /** An undeleted row of the tenant that has reached its expiry. */
  predicate Overdue(tenant: string, m: Memory, now: real) {
    m.tenant == tenant && !m.deleted && m.expiresAt.Some? && m.expiresAt.value <= now
  }

  // ---------- selections ----------

  function ById(id: Id): Memory -> bool {
    (m: Memory) => m.id == id
  }

  /** The undeleted row with this id, if it is the tenant's. */
  function OwnRow(id: Id, tenant: string): Memory -> bool {
    (m: Memory) => m.id == id && m.tenant == tenant && !m.deleted
  }

  /** The access statement's rows: it does not look at the deletion flag. */
  function AccessedRow(id: Id, tenant: string): Memory -> bool {
    (m: Memory) => m.id == id && m.tenant == tenant
  }

  function OfTenant(tenant: string): Memory -> bool {
    (m: Memory) => m.tenant == tenant && !m.deleted
  }

  function OfSession(tenant: string, session: string): Memory -> bool {
    (m: Memory) => m.tenant == tenant && m.session == session && !m.deleted
  }

  /** An absent or empty type filters nothing. */
  function OfType(memoryType: Option<string>): Memory -> bool {
    (m: Memory) => memoryType.None? || memoryType.value == "" || m.memoryType == memoryType.value
  }

  /** What the cleanup statement selects. */
  function Due(tenant: string, now: real): Memory -> bool {
    (m: Memory) => m.tenant == tenant && m.expiresAt.Some? && m.expiresAt.value <= now && !m.deleted
  }

  function ByCreation(): Memory -> real {
    (m: Memory) => m.createdAt
  }

  // ---------- statements ----------

  function GetById(s: Store, id: Id, tenant: string): Option<Memory> {
    Find(OwnRow(id, tenant), s.memories)
  }

  /** A session's undeleted rows, newest first. */
  function SessionRows(s: Store, tenant: string, session: string): seq<Memory> {
    SortDesc(ByCreation(), Filter(OfSession(tenant, session), s.memories))
  }

  function CountByTenant(s: Store, tenant: string): nat {
    |Filter(OfTenant(tenant), s.memories)|
  }

  function Edit(cfg: Config, patch: Patch, now: real): Memory -> Memory {
    (m: Memory) =>
      m.(updatedAt := now,
         content := if patch.content.Some? then patch.content.value else m.content,
         contentHash := if patch.content.Some? then cfg.sha256(patch.content.value) else m.contentHash,
         metadata := if patch.metadata.Some? then patch.metadata.value else m.metadata,
         importance := if patch.importance.Some? then patch.importance.value else m.importance)
  }

  function Erase(now: real): Memory -> Memory {
    (m: Memory) => m.(deleted := true, updatedAt := now)
  }

  /** The access statement writes two columns; `updated_at` refreshes itself on every UPDATE. */
  function Touch(now: real): Memory -> Memory {
    (m: Memory) => m.(accessCount := m.accessCount + 1, lastAccessed := Some(now), updatedAt := now)
  }

  function PutEmbedding(s: Store, id: Id, vector: Vector): Store {
    s.(embeddings := s.embeddings[id := Embedding(vector, |vector|)])
  }

  // ---------- service operations, as functions of the store ----------

  /** `min(max(importance, 0.0), 10.0)`. */
  function Clamp(importance: real): (r: real)
    ensures 0.0 <= r <= 10.0
    ensures 0.0 <= importance <= 10.0 ==> r == importance
    ensures importance < 0.0 ==> r == 0.0
    ensures importance > 10.0 ==> r == 10.0
  {
    var low := if importance < 0.0 then 0.0 else importance;
    if low > 10.0 then 10.0 else low
  }

  function NewMemory(cfg: Config, id: Id, d: Draft, now: real): Memory {
    var bare := Memory(id, d.tenant, d.session, d.user, d.content, cfg.sha256(d.content),
                       if d.metadata.Some? then d.metadata.value else map[],
                       Clamp(d.importance), d.memoryType, 0, None, now, now, None, false);
    if d.ttlDays.Some? then bare.(expiresAt := Some(DaysAfter(now, d.ttlDays.value)))
    else ApplyPolicy(cfg, bare, now)
  }

  /** `vector` is what the embedder answers, None when it raises. */
  function Add(cfg: Config, s: Store, id: Id, d: Draft, vector: Option<Vector>, now: real): Store {
    if Find(ById(id), s.memories).Some? then s
    else
      var created := s.(memories := s.memories + [NewMemory(cfg, id, d, now)]);
      if vector.Some? then PutEmbedding(created, id, vector.value) else created
  }

  predicate ValidPatch(patch: Patch) {
    patch.importance.Some? ==> 0.0 <= patch.importance.value <= 10.0
  }

  /** Whether the patch asks for a new embedding: the content is given and nonempty. */
  predicate Reembeds(patch: Patch) {
    patch.content.Some? && patch.content.value != ""
  }

  function Update(cfg: Config, s: Store, id: Id, tenant: string, patch: Patch, vector: Option<Vector>, now: real): Store {
    if !ValidPatch(patch) then s
    else
      var edited := s.(memories := MapIf(OwnRow(id, tenant), Edit(cfg, patch, now), s.memories));
      if Reembeds(patch) && GetById(s, id, tenant).Some? && vector.Some?
      then PutEmbedding(edited, id, vector.value)
      else edited
  }

  function Delete(s: Store, id: Id, tenant: string, now: real): Store {
    s.(memories := MapIf(OwnRow(id, tenant), Erase(now), s.memories))
  }

  /** The first step of `get_memory`, which decides the answer. */
  function Read(s: Store, id: Id, tenant: string, now: real): Option<Memory> {
    var found := GetById(s, id, tenant);
    if found.Some? && !IsExpired(found.value, now) then found else None
  }

  /** The second step of `get_memory`, taken after an answer; other transactions may commit in between. */
  function Access(s: Store, id: Id, tenant: string, now: real): Store {
    s.(memories := MapIf(AccessedRow(id, tenant), Touch(now), s.memories))
  }

  function Cleanup(s: Store, tenant: string, now: real): (Store, nat) {
    (s.(memories := MapIf(Due(tenant, now), Erase(now), s.memories)), |Filter(Due(tenant, now), s.memories)|)
  }

  /** `get_session_memories`: LIMIT and OFFSET come before the type and expiry filters. */
  function ListSession(s: Store, tenant: string, session: string, limit: nat, offset: nat,
                       memoryType: Option<string>, now: real): seq<Memory> {
    Filter(Live(now), Filter(OfType(memoryType), Page(SessionRows(s, tenant, session), limit, offset)))
  }

  function CountSession(s: Store, tenant: string, session: string, now: real): nat {
    |Filter(Live(now), Page(SessionRows(s, tenant, session), COUNT_LIMIT, 0))|
  }

  // ---------- operations of a run ----------

  /**
    One transaction each, except `get_memory`: its read changes nothing, and its access
    statement is a step of its own that may come at any later point of the run.
   */
  datatype Op =
    | AddOp(id: Id, draft: Draft, vector: Option<Vector>, now: real)
    | AccessOp(id: Id, owner: string, now: real)
    | UpdateOp(id: Id, owner: string, patch: Patch, vector: Option<Vector>, now: real)
    | DeleteOp(id: Id, owner: string, now: real)
    | CleanupOp(owner: string, now: real)
  {
    /** The tenant on whose behalf the operation runs. */
    function Tenant(): string {
      if AddOp? then draft.tenant else owner
    }
  }

  function Apply(cfg: Config, s: Store, op: Op): Store {
    match op
    case AddOp(id, draft, vector, now) => Add(cfg, s, id, draft, vector, now)
    case AccessOp(id, tenant, now) => Access(s, id, tenant, now)
    case UpdateOp(id, tenant, patch, vector, now) => Update(cfg, s, id, tenant, patch, vector, now)
    case DeleteOp(id, tenant, now) => Delete(s, id, tenant, now)
    case CleanupOp(tenant, now) => Cleanup(s, tenant, now).0
  }

  /** An edit that leaves a row selected does not change which row a lookup finds. */
  lemma {:induction false} FindEdited(id: Id, tenant: string, f: Memory -> Memory, rows: seq<Memory>)
    requires forall m: Memory :: OwnRow(id, tenant)(m) ==> OwnRow(id, tenant)(f(m))
    ensures var p := OwnRow(id, tenant);
      Find(p, MapIf(p, f, rows)) == if Find(p, rows).Some? then Some(f(Find(p, rows).value)) else None
  {
    if rows != [] {
      FindEdited(id, tenant, f, rows[1..]);
      MapIfCons(OwnRow(id, tenant), f, rows);
    }
  }

  // ---------- the classes ----------

  class MemoryRepository {
    var memories: seq<Memory>
    var embeddings: map<Id, Embedding>

    function Value(): Store
      reads this
    {
      Store(memories, embeddings)
    }

    constructor ()
      ensures Value() == EMPTY
    {
      memories := [];
      embeddings := map[];
    }

    /** Fails, as a primary key does, when the id is taken. */
    method Create(memory: Memory) returns (created: bool)
      modifies this`memories
      ensures created <==> forall m :: m in old(memories) ==> m.id != memory.id
      ensures memories == if created then old(memories) + [memory] else old(memories)
    {
      var holder := Find(ById(memory.id), memories);
      if holder.Some? {
        return false;
      }
      memories := memories + [memory];
      return true;
    }

    method UpdateRow(cfg: Config, id: Id, tenant: string, patch: Patch, now: real) returns (row: Option<Memory>)
      modifies this`memories
      ensures row.Some? <==> GetById(old(Value()), id, tenant).Some?
      ensures row == GetById(Value(), id, tenant)
      ensures memories == MapIf(OwnRow(id, tenant), Edit(cfg, patch, now), old(memories))
      ensures |memories| == |old(memories)|
      ensures forall i :: 0 <= i < |memories| && !Owns(tenant, id, old(memories)[i]) ==> memories[i] == old(memories)[i]
    {
      var found := Find(OwnRow(id, tenant), memories);
      FindEdited(id, tenant, Edit(cfg, patch, now), memories);
      memories := MapIf(OwnRow(id, tenant), Edit(cfg, patch, now), memories);
      return if found.Some? then Some(Edit(cfg, patch, now)(found.value)) else None;
    }

    method SoftDelete(id: Id, tenant: string, now: real) returns (deleted: bool)
      modifies this`memories
      ensures deleted <==> exists m :: m in old(memories) && Owns(tenant, id, m)
      ensures |memories| == |old(memories)|
      ensures forall i :: 0 <= i < |memories| ==>
        memories[i] == if Owns(tenant, id, old(memories)[i]) then old(memories)[i].(deleted := true, updatedAt := now)
                       else old(memories)[i]
      ensures Value() == Delete(old(Value()), id, tenant, now)
    {
      var found := Find(OwnRow(id, tenant), memories);
      memories := MapIf(OwnRow(id, tenant), Erase(now), memories);
      return found.Some?;
    }

    /** Counts the access on the tenant's row of this id, deleted or not, and touches no other row or column. */
    method RecordAccess(id: Id, tenant: string, now: real)
      modifies this`memories
      ensures |memories| == |old(memories)|
      ensures forall i :: 0 <= i < |memories| && old(memories)[i].id == id && old(memories)[i].tenant == tenant ==>
        && memories[i].accessCount == old(memories)[i].accessCount + 1
        && memories[i].lastAccessed == Some(now) && memories[i].updatedAt == now
        && SameButAccess(old(memories)[i], memories[i])
      ensures forall i :: 0 <= i < |memories| && !(old(memories)[i].id == id && old(memories)[i].tenant == tenant) ==>
        memories[i] == old(memories)[i]
    {
      memories := MapIf(AccessedRow(id, tenant), Touch(now), memories);
    }

    /** Insert, or on conflict update: afterwards the id has this vector, and every other id what it had. */
    method CreateEmbedding(id: Id, vector: Vector)
      modifies this`embeddings
      ensures id in embeddings && embeddings[id].vector == vector && embeddings[id].dimensions == |vector|
      ensures forall other :: other != id ==>
        (other in embeddings <==> other in old(embeddings)) &&
        (other in embeddings ==> embeddings[other] == old(embeddings)[other])
    {
      embeddings := embeddings[id := Embedding(vector, |vector|)];
    }

    /** Nothing stays due, only due rows are marked, and the count is what the tenant lost. */
    method CleanupExpired(tenant: string, now: real) returns (count: nat)
      modifies this`memories
      ensures |memories| == |old(memories)|
      ensures forall i :: 0 <= i < |memories| ==>
        && !Overdue(tenant, memories[i], now)
        && memories[i] == if Overdue(tenant, old(memories)[i], now)
                          then old(memories)[i].(deleted := true, updatedAt := now) else old(memories)[i]
      ensures count == CountByTenant(old(Value()), tenant) - CountByTenant(Value(), tenant)
    {
      FilterMapIf(OfTenant(tenant), Due(tenant, now), Erase(now), memories);
      FilterCount(OfTenant(tenant), Due(tenant, now), memories);
      count := |Filter(Due(tenant, now), memories)|;
      memories := MapIf(Due(tenant, now), Erase(now), memories);
    }

    /** The loop that scores the joined rows, then the sort and the cut. */
    method SearchSimilar(sqrt: real -> real, tenant: string, query: Vector, topK: int, memoryType: Option<string>)
      returns (results: seq<(Memory, real)>)
      ensures results == TopScored(sqrt, Value(), tenant, query, topK, memoryType)
    {
      var rows := Filter(Joined(embeddings, tenant, memoryType), memories);
      var scored := [];
      var i := 0;
      while i < |rows|
        invariant 0 <= i <= |rows|
        invariant scored + ScoreRows(sqrt, query, embeddings, rows[i..]) == ScoreRows(sqrt, query, embeddings, rows)
      {
        var row := rows[i];
        if row.id in embeddings && embeddings[row.id].vector != [] {
          scored := scored + [(row, Similarity(sqrt, query, embeddings[row.id].vector))];
        }
        i := i + 1;
      }
      assert scored == scored + ScoreRows(sqrt, query, embeddings, rows[|rows|..]);
      results := Take(SortDesc(ByScore(), scored), topK);
    }
  }

  class MemoryService {
    const repo: MemoryRepository
    const cfg: Config

    constructor (repo: MemoryRepository, cfg: Config)
      ensures this.repo == repo && this.cfg == cfg
    {
      this.repo := repo;
      this.cfg := cfg;
    }

    method AddMemory(id: Id, d: Draft, embedded: Option<Vector>, now: real) returns (r: Result<Memory, ServiceError>)
      modifies repo
      ensures repo.Value() == Apply(cfg, old(repo.Value()), AddOp(id, d, embedded, now))
      ensures r.Ok? <==> forall m :: m in old(repo.memories) ==> m.id != id
      ensures r.Ok? ==> r.value == NewMemory(cfg, id, d, now)
    {
      var memory := NewMemory(cfg, id, d, now);
      var created := repo.Create(memory);
      if !created {
        return Err(InternalError);
      }
      if embedded.Some? {
        repo.CreateEmbedding(id, embedded.value);
      }
      return Ok(memory);
    }

    /**
      The answer is decided by the first statement; `meanwhile` is what other
      transactions commit before the second.
     */
    method GetMemory(id: Id, tenant: string, now: real, meanwhile: Store -> Store, later: real)
      returns (memory: Option<Memory>)
      modifies repo
      ensures memory == Read(old(repo.Value()), id, tenant, now)
      ensures repo.Value() == if memory.Some? then Apply(cfg, meanwhile(old(repo.Value())), AccessOp(id, tenant, later))
                              else old(repo.Value())
    {
      memory := GetById(repo.Value(), id, tenant);
      if memory.Some? && !IsExpired(memory.value, now) {
        var between := meanwhile(repo.Value());
        repo.memories, repo.embeddings := between.memories, between.embeddings;
        repo.RecordAccess(id, tenant, later);
        assert repo.memories == MapIf(AccessedRow(id, tenant), Touch(later), between.memories);
      } else {
        memory := None;
      }
    }

    method UpdateMemory(id: Id, tenant: string, patch: Patch, embedded: Option<Vector>, now: real)
      returns (r: Result<Option<Memory>, ServiceError>)
      modifies repo
      ensures r.Err? <==> patch.importance.Some? && !(0.0 <= patch.importance.value <= 10.0)
      ensures r.Err? ==> r == Err(ValidationError) && repo.Value() == old(repo.Value())
      ensures r.Ok? ==> r.value == GetById(repo.Value(), id, tenant)
      ensures repo.Value() == Apply(cfg, old(repo.Value()), UpdateOp(id, tenant, patch, embedded, now))
    {
      if !ValidPatch(patch) {
        return Err(ValidationError);
      }
      var memory := repo.UpdateRow(cfg, id, tenant, patch, now);
      if Reembeds(patch) && memory.Some? && embedded.Some? {
        repo.CreateEmbedding(memory.value.id, embedded.value);
      }
      return Ok(memory);
    }

    method DeleteMemory(id: Id, tenant: string, now: real) returns (r: Result<bool, ServiceError>)
      modifies repo
      ensures repo.Value() == Apply(cfg, old(repo.Value()), DeleteOp(id, tenant, now))
      ensures r == if exists m :: m in old(repo.memories) && Owns(tenant, id, m) then Ok(true) else Err(NotFound)
    {
      var deleted := repo.SoftDelete(id, tenant, now);
      return if deleted then Ok(true) else Err(NotFound);
    }

    method CleanupExpiredMemories(tenant: string, now: real) returns (cleaned: nat)
      modifies repo
      ensures (repo.Value(), cleaned) == Cleanup(old(repo.Value()), tenant, now)
      ensures repo.Value() == Apply(cfg, old(repo.Value()), CleanupOp(tenant, now))
    {
      FilterMapIf(OfTenant(tenant), Due(tenant, now), Erase(now), repo.memories);
      FilterCount(OfTenant(tenant), Due(tenant, now), repo.memories);
      ghost var before := repo.memories;
      cleaned := repo.CleanupExpired(tenant, now);
      assert repo.memories == MapIf(Due(tenant, now), Erase(now), before);
    }

    /** None as the embedded query stands for the embedder raising. */
    method SearchSimilar(sqrt: real -> real, tenant: string, query: Option<Vector>, topK: int,
                         memoryType: Option<string>, now: real)
      returns (r: Result<seq<(Memory, real)>, ServiceError>)
      ensures r == if query.None? then Err(InternalError)
                   else Ok(SearchLive(sqrt, repo.Value(), tenant, query.value, topK, memoryType, now))
    {
      if query.None? {
        return Err(InternalError);
      }
      var results := repo.SearchSimilar(sqrt, tenant, query.value, topK, memoryType);
      return Ok(Filter(LiveResult(now), results));
    }
  }

  // ---------- search, as functions of the store ----------

  /** The rows that the join with the embedding table returns. */
  function Joined(embeddings: map<Id, Embedding>, tenant: string, memoryType: Option<string>): Memory -> bool {
    (m: Memory) => m.tenant == tenant && !m.deleted && OfType(memoryType)(m) && m.id in embeddings
  }

  /** Each row with its similarity; rows with an empty vector are passed over. */
  function ScoreRows(sqrt: real -> real, query: Vector, embeddings: map<Id, Embedding>, rows: seq<Memory>)
    : seq<(Memory, real)>
  {
    if rows == [] then []
    else
      var rest := ScoreRows(sqrt, query, embeddings, rows[1..]);
      if rows[0].id in embeddings && embeddings[rows[0].id].vector != []
      then [(rows[0], Similarity(sqrt, query, embeddings[rows[0].id].vector))] + rest
      else rest
  }

  function ByScore(): ((Memory, real)) -> real {
    (r: (Memory, real)) => r.1
  }

  function Scored(sqrt: real -> real, s: Store, tenant: string, query: Vector, memoryType: Option<string>)
    : seq<(Memory, real)>
  {
    ScoreRows(sqrt, query, s.embeddings, Filter(Joined(s.embeddings, tenant, memoryType), s.memories))
  }

  /** All candidates, best first; equal scores keep the table order. */
  function Ranking(sqrt: real -> real, s: Store, tenant: string, query: Vector, memoryType: Option<string>)
    : seq<(Memory, real)>
  {
    SortDesc(ByScore(), Scored(sqrt, s, tenant, query, memoryType))
  }

  function TopScored(sqrt: real -> real, s: Store, tenant: string, query: Vector, topK: int, memoryType: Option<string>)
    : seq<(Memory, real)>
  {
    Take(Ranking(sqrt, s, tenant, query, memoryType), topK)
  }

  function LiveResult(now: real): ((Memory, real)) -> bool {
    (r: (Memory, real)) => !IsExpired(r.0, now)
  }

  /** The service's answer: the expiry filter comes after the cut. */
  function SearchLive(sqrt: real -> real, s: Store, tenant: string, query: Vector, topK: int,
                      memoryType: Option<string>, now: real): seq<(Memory, real)> {
    Filter(LiveResult(now), TopScored(sqrt, s, tenant, query, topK, memoryType))
  }
}
