/**
  The session table and the session service. Archiving is a flag that no operation
  clears; the status column is written by several operations regardless of it.
 */
module Sessions {
  import opened Outcomes
  import opened Lists

  type Metadata = map<string, string>

  datatype Session = Session(
    tenant: string,
    sessionId: string,
    user: string,
    status: string,
    metadata: Metadata,
    lastActiveAt: real,
    updatedAt: real,
    expiresAt: Option<real>,
    archived: bool)

  type Table = seq<Session>

  // ---------- selections ----------

  /** The row of a key, archived or not. */
  function ByKey(tenant: string, sessionId: string): Session -> bool {
    (r: Session) => r.tenant == tenant && r.sessionId == sessionId
  }

  function Visible(tenant: string, sessionId: string): Session -> bool {
    (r: Session) => r.tenant == tenant && r.sessionId == sessionId && !r.archived
  }

  function Active(tenant: string): Session -> bool {
    (r: Session) => r.tenant == tenant && r.status == "active" && !r.archived
  }

  function Due(tenant: string, now: real): Session -> bool {
    (r: Session) => r.tenant == tenant && r.expiresAt.Some? && r.expiresAt.value <= now && !r.archived
  }

  function ByActivity(): Session -> real {
    (r: Session) => r.lastActiveAt
  }

  // ---------- statements ----------

  function Get(t: Table, tenant: string, sessionId: string): (r: Option<Session>)
    ensures r.Some? ==> r.value in t && Visible(tenant, sessionId)(r.value)
  {
    Find(Visible(tenant, sessionId), t)
  }

  /** All active sessions of a tenant, latest activity first. */
  function ActiveSessions(t: Table, tenant: string): seq<Session> {
    SortDesc(ByActivity(), Filter(Active(tenant), t))
  }

  function CountActive(t: Table, tenant: string): nat {
    |Filter(Active(tenant), t)|
  }

  /** The conflict branch of the upsert: neither the expiry nor the archive flag is touched. */
  function Refresh(user: string, status: string, metadata: Metadata, now: real): Session -> Session {
    (r: Session) => r.(user := user, status := status, metadata := metadata, lastActiveAt := now, updatedAt := now)
  }

  function Upsert(t: Table, tenant: string, sessionId: string, user: string, status: string, metadata: Metadata,
                  now: real): Table {
    if Find(ByKey(tenant, sessionId), t).Some?
    then MapIf(ByKey(tenant, sessionId), Refresh(user, status, metadata, now), t)
    else t + [Session(tenant, sessionId, user, status, metadata, now, now, None, false)]
  }

  function WithStatus(status: string, now: real): Session -> Session {
    (r: Session) => r.(status := status, updatedAt := now)
  }

  function Archived(status: string, now: real): Session -> Session {
    (r: Session) => r.(archived := true, status := status, updatedAt := now)
  }

  /** The activity statement writes one column; `updated_at` refreshes itself on every UPDATE. */
  function Touched(now: real): Session -> Session {
    (r: Session) => r.(lastActiveAt := now, updatedAt := now)
  }

  function UpdateStatus(t: Table, tenant: string, sessionId: string, status: string, now: real): Table {
    MapIf(ByKey(tenant, sessionId), WithStatus(status, now), t)
  }

  function Archive(t: Table, tenant: string, sessionId: string, now: real): Table {
    MapIf(ByKey(tenant, sessionId), Archived("archived", now), t)
  }

  function UpdateActivity(t: Table, tenant: string, sessionId: string, now: real): Table {
    MapIf(ByKey(tenant, sessionId), Touched(now), t)
  }

  function CleanupExpired(t: Table, tenant: string, now: real): Table {
    MapIf(Due(tenant, now), Archived("expired", now), t)
  }

  // ---------- service operations, as functions of the table ----------

  predicate HasExpired(r: Session, now: real) {
    r.expiresAt.Some? && r.expiresAt.value < now
  }

  /** The answer of `get_session`, decided by its first statement. */
  function ReadSession(t: Table, tenant: string, sessionId: string, now: real): Option<Session> {
    var found := Get(t, tenant, sessionId);
    if found.Some? && HasExpired(found.value, now) then None else found
  }

  /** The second statement of `get_session`: an expired session is marked, any other is touched. */
  function AfterRead(t: Table, found: Option<Session>, tenant: string, sessionId: string, now: real, later: real): Table {
    if found.None? then t
    else if HasExpired(found.value, now) then UpdateStatus(t, tenant, sessionId, "expired", later)
    else UpdateActivity(t, tenant, sessionId, later)
  }

  function Merged(current: Metadata, metadata: Metadata, merge: bool): Metadata {
    if merge then current + metadata else metadata
  }

  /** The second statement of `update_session_metadata`, which writes back the row that the first one read. */
  function WriteBack(t: Table, r: Session, metadata: Metadata, merge: bool, now: real): Table {
    Upsert(t, r.tenant, r.sessionId, r.user, r.status, Merged(r.metadata, metadata, merge), now)
  }

  // ---------- what the statements say about rows ----------

  predicate IsKey(tenant: string, sessionId: string, r: Session) {
    r.tenant == tenant && r.sessionId == sessionId
  }

  /** An unarchived session of the tenant that has reached its expiry. */
  predicate Overdue(tenant: string, r: Session, now: real) {
    r.tenant == tenant && !r.archived && r.expiresAt.Some? && r.expiresAt.value <= now
  }

  ghost predicate HasKey(t: Table, tenant: string, sessionId: string) {
    exists r :: r in t && IsKey(tenant, sessionId, r)
  }

  predicate SameKey(r: Session, r': Session) {
    r'.tenant == r.tenant && r'.sessionId == r.sessionId
  }

  /** The columns that an upsert writes. */
  predicate Written(r: Session, user: string, status: string, metadata: Metadata, now: real) {
    r.user == user && r.status == status && r.metadata == metadata && r.lastActiveAt == r.updatedAt == now
  }

  /** Two versions of a row that differ in the activity and update times at most. */
  predicate SameButActivity(r: Session, r': Session) {
    r' == r.(lastActiveAt := r'.lastActiveAt, updatedAt := r'.updatedAt)
  }

  function Unarchived(tenant: string): Session -> bool {
    (r: Session) => r.tenant == tenant && !r.archived
  }

  lemma KeyKept(t: Table, tenant: string, sessionId: string, f: Session -> Session)
    requires forall r: Session :: SameKey(r, f(r))
    ensures HasKey(MapIf(ByKey(tenant, sessionId), f, t), tenant, sessionId) <==> HasKey(t, tenant, sessionId)
  {
    var u := MapIf(ByKey(tenant, sessionId), f, t);
    forall i | 0 <= i < |t|
      ensures u[i] in u && t[i] in t && SameKey(t[i], u[i])
    {
    }
  }

  /** The clean-up takes as many sessions from the tenant's unarchived ones as are due. */
  lemma CleanupCount(t: Table, tenant: string, now: real)
    ensures |Filter(Unarchived(tenant), t)| ==
            |Filter(Unarchived(tenant), CleanupExpired(t, tenant, now))| + |Filter(Due(tenant, now), t)|
  {
    FilterMapIf(Unarchived(tenant), Due(tenant, now), Archived("expired", now), t);
    FilterCount(Unarchived(tenant), Due(tenant, now), t);
  }

  // ---------- the classes ----------

  class SessionRepository {
    var sessions: Table

    constructor ()
      ensures sessions == []
    {
      sessions := [];
    }

    /**
      Every row of the key gets the given columns and keeps the others, its expiry and
      archive flag among them; without such a row a fresh one is appended. No other row
      changes, and the row that is returned is the key's.
     */
    method UpsertRow(tenant: string, sessionId: string, user: string, status: string, metadata: Metadata, now: real)
      returns (row: Session)
      modifies this
      ensures |sessions| == |old(sessions)| + if HasKey(old(sessions), tenant, sessionId) then 0 else 1
      ensures forall i :: 0 <= i < |old(sessions)| && IsKey(tenant, sessionId, old(sessions)[i]) ==>
        && Written(sessions[i], user, status, metadata, now)
        && SameKey(old(sessions)[i], sessions[i])
        && sessions[i].expiresAt == old(sessions)[i].expiresAt && sessions[i].archived == old(sessions)[i].archived
      ensures forall i :: 0 <= i < |old(sessions)| && !IsKey(tenant, sessionId, old(sessions)[i]) ==>
        sessions[i] == old(sessions)[i]
      ensures row in sessions && IsKey(tenant, sessionId, row) && Written(row, user, status, metadata, now)
      ensures !HasKey(old(sessions), tenant, sessionId) ==>
        row == sessions[|old(sessions)|] && row.expiresAt == None && !row.archived
      ensures sessions == Upsert(old(sessions), tenant, sessionId, user, status, metadata, now)
    {
      var holder := Find(ByKey(tenant, sessionId), sessions);
      if holder.Some? {
        ghost var k :| 0 <= k < |sessions| && sessions[k] == holder.value;
        sessions := MapIf(ByKey(tenant, sessionId), Refresh(user, status, metadata, now), sessions);
        row := Refresh(user, status, metadata, now)(holder.value);
        assert sessions[k] == row;
      } else {
        row := Session(tenant, sessionId, user, status, metadata, now, now, None, false);
        sessions := sessions + [row];
      }
    }

    /** The row as it was written, if there is one. */
    method SetStatus(tenant: string, sessionId: string, status: string, now: real) returns (row: Option<Session>)
      modifies this
      ensures sessions == UpdateStatus(old(sessions), tenant, sessionId, status, now)
      ensures |sessions| == |old(sessions)| && forall i :: 0 <= i < |sessions| ==>
        sessions[i] == if IsKey(tenant, sessionId, old(sessions)[i])
                       then old(sessions)[i].(status := status, updatedAt := now) else old(sessions)[i]
      ensures row.Some? <==> HasKey(old(sessions), tenant, sessionId)
      ensures row.Some? ==> row.value in sessions && IsKey(tenant, sessionId, row.value) && row.value.status == status
    {
      var holder := Find(ByKey(tenant, sessionId), sessions);
      if holder.None? {
        assert MapIf(ByKey(tenant, sessionId), WithStatus(status, now), sessions) == sessions;
        return None;
      }
      ghost var k :| 0 <= k < |sessions| && sessions[k] == holder.value;
      sessions := MapIf(ByKey(tenant, sessionId), WithStatus(status, now), sessions);
      assert sessions[k] == WithStatus(status, now)(holder.value);
      return Some(WithStatus(status, now)(holder.value));
    }

    method ArchiveRow(tenant: string, sessionId: string, now: real) returns (archived: bool)
      modifies this
      ensures sessions == Archive(old(sessions), tenant, sessionId, now)
      ensures |sessions| == |old(sessions)| && forall i :: 0 <= i < |sessions| ==>
        sessions[i] == if IsKey(tenant, sessionId, old(sessions)[i])
                       then old(sessions)[i].(archived := true, status := "archived", updatedAt := now) else old(sessions)[i]
      ensures archived <==> HasKey(old(sessions), tenant, sessionId)
    {
      archived := Find(ByKey(tenant, sessionId), sessions).Some?;
      sessions := MapIf(ByKey(tenant, sessionId), Archived("archived", now), sessions);
    }

    /** The key's rows are as active as now, archived or not; no other column but the update time moves, and no other row. */
    method TouchRow(tenant: string, sessionId: string, now: real)
      modifies this
      ensures |sessions| == |old(sessions)|
      ensures forall i :: 0 <= i < |sessions| && IsKey(tenant, sessionId, old(sessions)[i]) ==>
        sessions[i].lastActiveAt == sessions[i].updatedAt == now && SameButActivity(old(sessions)[i], sessions[i])
      ensures forall i :: 0 <= i < |sessions| && !IsKey(tenant, sessionId, old(sessions)[i]) ==>
        sessions[i] == old(sessions)[i]
    {
      sessions := MapIf(ByKey(tenant, sessionId), Touched(now), sessions);
    }

    /** Nothing stays due, only due rows are archived, and the count is what the tenant's open sessions lost. */
    method CleanupRows(tenant: string, now: real) returns (count: nat)
      modifies this
      ensures |sessions| == |old(sessions)|
      ensures forall i :: 0 <= i < |sessions| ==>
        && !Overdue(tenant, sessions[i], now)
        && sessions[i] == if Overdue(tenant, old(sessions)[i], now)
                          then old(sessions)[i].(archived := true, status := "expired", updatedAt := now) else old(sessions)[i]
      ensures count == |Filter(Unarchived(tenant), old(sessions))| - |Filter(Unarchived(tenant), sessions)|
    {
      CleanupCount(sessions, tenant, now);
      count := |Filter(Due(tenant, now), sessions)|;
      sessions := MapIf(Due(tenant, now), Archived("expired", now), sessions);
    }
  }

  class SessionService {
    const repo: SessionRepository

    constructor (repo: SessionRepository)
      ensures this.repo == repo
    {
      this.repo := repo;
    }

    /** The `expires_in_days` argument is accepted and ignored, so it does not appear here. */
    method EnsureSession(tenant: string, sessionId: string, user: string, metadata: Option<Metadata>, now: real)
      returns (session: Session)
      modifies repo
      ensures repo.sessions == Apply(old(repo.sessions), Ensure(tenant, sessionId, user, metadata, now))
      ensures session in repo.sessions && IsKey(tenant, sessionId, session)
      ensures session.user == user && session.status == "active"
    {
      var fields := if metadata.Some? then metadata.value else map[];
      session := repo.UpsertRow(tenant, sessionId, user, "active", fields, now);
    }

    /**
      The answer is decided by the first statement; `meanwhile` is what other
      transactions commit before the second.
     */
    method GetSession(tenant: string, sessionId: string, now: real, meanwhile: Table -> Table, later: real)
      returns (session: Option<Session>)
      modifies repo
      ensures session == ReadSession(old(repo.sessions), tenant, sessionId, now)
      ensures repo.sessions ==
        var found := Get(old(repo.sessions), tenant, sessionId);
        if found.None? then old(repo.sessions)
        else Apply(meanwhile(old(repo.sessions)),
                   if found.value.expiresAt.Some? && found.value.expiresAt.value < now
                   then LateMark(tenant, sessionId, later) else LateTouch(tenant, sessionId, later))
    {
      session := Get(repo.sessions, tenant, sessionId);
      if session.None? {
        return;
      }
      repo.sessions := meanwhile(repo.sessions);
      if HasExpired(session.value, now) {
        var _ := repo.SetStatus(tenant, sessionId, "expired", later);
        return None;
      }
      ghost var between := repo.sessions;
      repo.TouchRow(tenant, sessionId, later);
      assert repo.sessions == UpdateActivity(between, tenant, sessionId, later);
    }

    /**
      The first statement locks the key's row until the end, but without one it locks
      nothing: `meanwhile` is then what other transactions commit before the second.
     */
    method CompleteSession(tenant: string, sessionId: string, now: real, meanwhile: Table -> Table, later: real)
      returns (archived: bool)
      modifies repo
      ensures repo.sessions ==
        if HasKey(old(repo.sessions), tenant, sessionId)
        then Apply(UpdateStatus(old(repo.sessions), tenant, sessionId, "completed", now), Remove(tenant, sessionId, later))
        else Apply(meanwhile(old(repo.sessions)), Remove(tenant, sessionId, later))
      ensures archived <==>
        HasKey(old(repo.sessions), tenant, sessionId) || HasKey(meanwhile(old(repo.sessions)), tenant, sessionId)
    {
      ghost var before := repo.sessions;
      var row := repo.SetStatus(tenant, sessionId, "completed", now);
      if row.None? {
        assert forall r :: r in before ==> !ByKey(tenant, sessionId)(r);
        MapIfNothing(ByKey(tenant, sessionId), WithStatus("completed", now), before);
        repo.sessions := meanwhile(repo.sessions);
      } else {
        KeyKept(before, tenant, sessionId, WithStatus("completed", now));
      }
      archived := repo.ArchiveRow(tenant, sessionId, later);
    }

    /** The key's row as it is now stored, archived or not, or nothing if there is none. */
    method PauseSession(tenant: string, sessionId: string, now: real) returns (session: Option<Session>)
      modifies repo
      ensures repo.sessions == Apply(old(repo.sessions), Pause(tenant, sessionId, now))
      ensures session.Some? <==> HasKey(old(repo.sessions), tenant, sessionId)
      ensures session.Some? ==>
        session.value in repo.sessions && IsKey(tenant, sessionId, session.value) && session.value.status == "paused"
    {
      session := repo.SetStatus(tenant, sessionId, "paused", now);
    }

    /** The key's row, archived or not; the stored one has also been touched since. */
    method ResumeSession(tenant: string, sessionId: string, now: real) returns (session: Option<Session>)
      modifies repo
      ensures repo.sessions == Apply(old(repo.sessions), Resume(tenant, sessionId, now))
      ensures session.Some? <==> HasKey(old(repo.sessions), tenant, sessionId)
      ensures session.Some? ==>
        && IsKey(tenant, sessionId, session.value) && session.value.status == "active"
        && exists r :: r in repo.sessions && SameButActivity(session.value, r)
    {
      ghost var before := repo.sessions;
      session := repo.SetStatus(tenant, sessionId, "active", now);
      ghost var resumed := repo.sessions;
      if session.Some? {
        ghost var k :| 0 <= k < |resumed| && resumed[k] == session.value;
        repo.TouchRow(tenant, sessionId, now);
        assert repo.sessions == UpdateActivity(resumed, tenant, sessionId, now);
        assert repo.sessions[k] in repo.sessions && SameButActivity(session.value, repo.sessions[k]);
      } else {
        assert forall r :: r in before ==> !ByKey(tenant, sessionId)(r);
        MapIfNothing(ByKey(tenant, sessionId), WithStatus("active", now), before);
        MapIfNothing(ByKey(tenant, sessionId), Touched(now), before);
      }
    }

    method DeleteSession(tenant: string, sessionId: string, now: real) returns (archived: bool)
      modifies repo
      ensures repo.sessions == Apply(old(repo.sessions), Remove(tenant, sessionId, now))
      ensures archived <==> HasKey(old(repo.sessions), tenant, sessionId)
    {
      archived := repo.ArchiveRow(tenant, sessionId, now);
    }

    method CleanupExpiredSessions(tenant: string, now: real) returns (cleaned: nat)
      modifies repo
      ensures repo.sessions == Apply(old(repo.sessions), Expire(tenant, now))
      ensures cleaned == |Filter(Due(tenant, now), old(repo.sessions))|
    {
      ghost var before := repo.sessions;
      CleanupCount(before, tenant, now);
      cleaned := repo.CleanupRows(tenant, now);
      assert repo.sessions == CleanupExpired(before, tenant, now);
    }

    /**
      Reads the row, updates its metadata dictionary in place or replaces it, and upserts
      the row as read; `meanwhile` is what other transactions commit before the upsert.
     */
    method UpdateSessionMetadata(tenant: string, sessionId: string, metadata: Metadata, merge: bool,
                                 meanwhile: Table -> Table, now: real)
      returns (session: Option<Session>)
      modifies repo
      ensures session.Some? <==> Get(old(repo.sessions), tenant, sessionId).Some?
      ensures repo.sessions ==
        var found := Get(old(repo.sessions), tenant, sessionId);
        if found.None? then old(repo.sessions)
        else Apply(meanwhile(old(repo.sessions)),
                   LateWrite(tenant, sessionId, found.value.user, found.value.status,
                             if merge then found.value.metadata + metadata else metadata, now))
      ensures session.Some? ==> session.value in repo.sessions && IsKey(tenant, sessionId, session.value)
    {
      hide Get, Upsert, AfterRead, WriteBack, UpdateStatus, Archive, UpdateActivity, CleanupExpired;
      session := Get(repo.sessions, tenant, sessionId);
      if session.None? {
        return;
      }
      var r := session.value;
      repo.sessions := meanwhile(repo.sessions);
      var current := if merge then r.metadata + metadata else metadata;
      var row := repo.UpsertRow(tenant, sessionId, r.user, r.status, current, now);
      return Some(row);
    }
  }

  // ---------- runs ----------

  datatype Op =
    | Ensure(tenant: string, sessionId: string, user: string, metadata: Option<Metadata>, now: real)
    | Fetch(tenant: string, sessionId: string, now: real)
    | Complete(tenant: string, sessionId: string, now: real)
    | Pause(tenant: string, sessionId: string, now: real)
    | Resume(tenant: string, sessionId: string, now: real)
    | Remove(tenant: string, sessionId: string, now: real)
    | Expire(tenant: string, now: real)
    | SetMetadata(tenant: string, sessionId: string, fields: Metadata, merge: bool, now: real)
      // second statements of `get_session` and `update_session_metadata`, any time after the first
    | LateTouch(tenant: string, sessionId: string, now: real)
    | LateMark(tenant: string, sessionId: string, now: real)
    | LateWrite(tenant: string, sessionId: string, user: string, status: string, fields: Metadata, now: real)
      // the service never writes the expiry column; something else may
    | Schedule(tenant: string, sessionId: string, expiresAt: Option<real>)

  function Scheduled(expiresAt: Option<real>): Session -> Session {
    (r: Session) => r.(expiresAt := expiresAt)
  }

  function Apply(t: Table, op: Op): Table {
    match op
    case Ensure(tenant, id, user, metadata, now) =>
      Upsert(t, tenant, id, user, "active", if metadata.Some? then metadata.value else map[], now)
    case Fetch(tenant, id, now) => AfterRead(t, Get(t, tenant, id), tenant, id, now, now)
    case Complete(tenant, id, now) => Archive(UpdateStatus(t, tenant, id, "completed", now), tenant, id, now)
    case Pause(tenant, id, now) => UpdateStatus(t, tenant, id, "paused", now)
    case Resume(tenant, id, now) => UpdateActivity(UpdateStatus(t, tenant, id, "active", now), tenant, id, now)
    case Remove(tenant, id, now) => Archive(t, tenant, id, now)
    case Expire(tenant, now) => CleanupExpired(t, tenant, now)
    case SetMetadata(tenant, id, fields, merge, now) =>
      var found := Get(t, tenant, id);
      if found.None? then t else WriteBack(t, found.value, fields, merge, now)
    case LateTouch(tenant, id, now) => UpdateActivity(t, tenant, id, now)
    case LateMark(tenant, id, now) => UpdateStatus(t, tenant, id, "expired", now)
    case LateWrite(tenant, id, user, status, fields, now) => Upsert(t, tenant, id, user, status, fields, now)
    case Schedule(tenant, id, expiresAt) => MapIf(ByKey(tenant, id), Scheduled(expiresAt), t)
  }

  function Exec(t: Table, ops: seq<Op>): Table {
    if ops == [] then t else Apply(Exec(t, ops[..|ops| - 1]), ops[|ops| - 1])
  }

  /** One row per tenant and session id, as the unique index demands. */
  ghost predicate UniqueKeys(t: Table) {
    forall i, j :: 0 <= i < j < |t| ==> !(t[i].tenant == t[j].tenant && t[i].sessionId == t[j].sessionId)
  }

  /** Rows keep place and key; archived rows stay archived; rows of other tenants stay as they are. */
  ghost predicate TableStep(t: Table, u: Table, tenant: string) {
    && |t| <= |u|
    && (forall i :: 0 <= i < |t| ==> RowStep(t[i], u[i], tenant))
    && (forall i :: |t| <= i < |u| ==> u[i].tenant == tenant)
  }

  ghost predicate RowStep(r: Session, r': Session, tenant: string) {
    && r'.tenant == r.tenant && r'.sessionId == r.sessionId
    && (r.archived ==> r'.archived)
    && (r.tenant != tenant ==> r' == r)
  }

  lemma RewriteStep(t: Table, sel: Session -> bool, f: Session -> Session, tenant: string)
    requires UniqueKeys(t)
    requires forall r: Session :: sel(r) ==> RowStep(r, f(r), tenant)
    ensures UniqueKeys(MapIf(sel, f, t)) && TableStep(t, MapIf(sel, f, t), tenant)
  {
  }

  lemma StepTrans(t: Table, u: Table, v: Table, tenant: string)
    requires TableStep(t, u, tenant) && TableStep(u, v, tenant)
    ensures TableStep(t, v, tenant)
  {
    forall i | 0 <= i < |t|
      ensures RowStep(t[i], v[i], tenant)
    {
      assert RowStep(t[i], u[i], tenant) && RowStep(u[i], v[i], tenant);
    }
    forall i | |t| <= i < |v|
      ensures v[i].tenant == tenant
    {
      assert i < |u| ==> RowStep(u[i], v[i], tenant);
    }
  }

  lemma UpsertStep(t: Table, tenant: string, id: string, user: string, status: string, metadata: Metadata, now: real)
    requires UniqueKeys(t)
    ensures UniqueKeys(Upsert(t, tenant, id, user, status, metadata, now))
    ensures TableStep(t, Upsert(t, tenant, id, user, status, metadata, now), tenant)
  {
    if Find(ByKey(tenant, id), t).Some? {
      hide UniqueKeys, TableStep;
      RewriteStep(t, ByKey(tenant, id), Refresh(user, status, metadata, now), tenant);
    } else {
      forall i | 0 <= i < |t|
        ensures !(t[i].tenant == tenant && t[i].sessionId == id)
      {
        var r := t[i];
        assert r in t;
        assert !ByKey(tenant, id)(r);
      }
    }
  }

  lemma ApplyKeeps(t: Table, op: Op)
    requires UniqueKeys(t)
    ensures UniqueKeys(Apply(t, op)) && TableStep(t, Apply(t, op), op.tenant)
  {
    var tenant := op.tenant;
    StepReflexive(t, tenant);
    hide UniqueKeys, TableStep, Upsert, Get;
    match op
    case Ensure(_, id, user, metadata, now) =>
      UpsertStep(t, tenant, id, user, "active", if metadata.Some? then metadata.value else map[], now);
    case Fetch(_, id, now) =>
      RewriteStep(t, ByKey(tenant, id), WithStatus("expired", now), tenant);
      RewriteStep(t, ByKey(tenant, id), Touched(now), tenant);
    case Complete(_, id, now) =>
      var u := UpdateStatus(t, tenant, id, "completed", now);
      RewriteStep(t, ByKey(tenant, id), WithStatus("completed", now), tenant);
      RewriteStep(u, ByKey(tenant, id), Archived("archived", now), tenant);
      StepTrans(t, u, Apply(t, op), tenant);
    case Pause(_, id, now) =>
      RewriteStep(t, ByKey(tenant, id), WithStatus("paused", now), tenant);
    case Resume(_, id, now) =>
      var u := UpdateStatus(t, tenant, id, "active", now);
      RewriteStep(t, ByKey(tenant, id), WithStatus("active", now), tenant);
      RewriteStep(u, ByKey(tenant, id), Touched(now), tenant);
      StepTrans(t, u, Apply(t, op), tenant);
    case Remove(_, id, now) =>
      RewriteStep(t, ByKey(tenant, id), Archived("archived", now), tenant);
    case Expire(_, now) =>
      RewriteStep(t, Due(tenant, now), Archived("expired", now), tenant);
    case SetMetadata(_, id, fields, merge, now) =>
      var found := Get(t, tenant, id);
      if found.Some? {
        var r := found.value;
        UpsertStep(t, tenant, id, r.user, r.status, Merged(r.metadata, fields, merge), now);
      }
    case LateTouch(_, id, now) =>
      RewriteStep(t, ByKey(tenant, id), Touched(now), tenant);
    case LateMark(_, id, now) =>
      RewriteStep(t, ByKey(tenant, id), WithStatus("expired", now), tenant);
    case LateWrite(_, id, user, status, fields, now) =>
      UpsertStep(t, tenant, id, user, status, fields, now);
    case Schedule(_, id, expiresAt) =>
      RewriteStep(t, ByKey(tenant, id), Scheduled(expiresAt), tenant);
  }

  lemma StepReflexive(t: Table, tenant: string)
    ensures TableStep(t, t, tenant)
  {
  }

  /** In every reachable table a tenant's session id names one row. */
  lemma {:induction false} KeysStayUnique(ops: seq<Op>)
    ensures UniqueKeys(Exec([], ops))
  {
    if ops != [] {
      KeysStayUnique(ops[..|ops| - 1]);
      ApplyKeeps(Exec([], ops[..|ops| - 1]), ops[|ops| - 1]);
    }
  }

  lemma {:induction false} ArchivedStays(t: Table, ops: seq<Op>, i: nat)
    requires UniqueKeys(t) && i < |t| && t[i].archived
    ensures var u := Exec(t, ops);
      UniqueKeys(u) && i < |u| && u[i].archived && u[i].tenant == t[i].tenant && u[i].sessionId == t[i].sessionId
  {
    if ops != [] {
      var before := ops[..|ops| - 1];
      ArchivedStays(t, before, i);
      ApplyKeeps(Exec(t, before), ops[|ops| - 1]);
      assert RowStep(Exec(t, before)[i], Exec(t, ops)[i], ops[|ops| - 1].tenant);
    }
  }

  /** With unique keys, a lookup finds the row of the key exactly when it is not archived. */
  lemma GetAt(t: Table, i: nat)
    requires UniqueKeys(t) && i < |t|
    ensures Get(t, t[i].tenant, t[i].sessionId) == if t[i].archived then None else Some(t[i])
  {
    var r := t[i];
    var found := Get(t, r.tenant, r.sessionId);
    if found.Some? {
      var j :| 0 <= j < |t| && t[j] == found.value;
      assert !(i < j) && !(j < i);
    } else {
      assert r in t;
      assert !Visible(r.tenant, r.sessionId)(r);
    }
  }

  /**
    Archiving is permanent: after any further operations, resuming and ensuring included,
    the session is not returned by a lookup, not listed as active and not counted.
   */
  lemma {:induction false} ArchivingIsPermanent(t: Table, ops: seq<Op>, i: nat, now: real)
    requires UniqueKeys(t) && i < |t| && t[i].archived
    ensures var u := Exec(t, ops);
      && Get(u, t[i].tenant, t[i].sessionId) == None
      && ReadSession(u, t[i].tenant, t[i].sessionId, now) == None
      && (forall r :: r in ActiveSessions(u, t[i].tenant) ==> r.sessionId != t[i].sessionId)
      && (forall r :: r in Filter(Active(t[i].tenant), u) ==> r.sessionId != t[i].sessionId)
  {
    ArchivedStays(t, ops, i);
    var u := Exec(t, ops);
    GetAt(u, i);
    var p := Active(t[i].tenant);
    hide Exec, Get, Filter, SortDesc;
    forall r | r in Filter(p, u)
      ensures r.sessionId != t[i].sessionId
    {
      FilterMember(p, u, r);
      var j :| 0 <= j < |u| && u[j] == r;
      assert i < j || j < i || i == j;
    }
    forall r | r in ActiveSessions(u, t[i].tenant)
      ensures r in Filter(p, u)
    {
      SortMember(ByActivity(), Filter(p, u), r);
    }
  }

  /** Ensuring a session makes it available again exactly when its key was never archived. */
  lemma {:induction false} EnsureThenGet(t: Table, tenant: string, id: string, user: string, metadata: Option<Metadata>,
                                         now: real)
    requires UniqueKeys(t)
    ensures var u := Apply(t, Ensure(tenant, id, user, metadata, now));
      && (Get(u, tenant, id).Some? <==> !(exists r :: r in t && IsKey(tenant, id, r) && r.archived))
      && (Get(u, tenant, id).Some? ==>
            var r := Get(u, tenant, id).value;
            && r.user == user && r.status == "active" && r.lastActiveAt == r.updatedAt == now
            && r.metadata == (if metadata.Some? then metadata.value else map[]))
      && (!HasKey(t, tenant, id) ==>
            u == t + [Session(tenant, id, user, "active", if metadata.Some? then metadata.value else map[], now, now,
                              None, false)])
  {
    var u := Apply(t, Ensure(tenant, id, user, metadata, now));
    ApplyKeeps(t, Ensure(tenant, id, user, metadata, now));
    var holder := Find(ByKey(tenant, id), t);
    if holder.Some? {
      var k :| 0 <= k < |t| && t[k] == holder.value;
      hide TableStep, Get;
      GetAt(u, k);
      forall r | r in t && ByKey(tenant, id)(r)
        ensures r == t[k]
      {
        var j :| 0 <= j < |t| && t[j] == r;
        assert !(j < k) && !(k < j);
      }
    } else {
      hide TableStep, Get;
      GetAt(u, |t|);
    }
  }

  /** `get_session` answers with the row of the key exactly when it is neither archived nor expired. */
  lemma GetSessionAnswers(t: Table, i: nat, now: real)
    requires UniqueKeys(t) && i < |t|
    ensures ReadSession(t, t[i].tenant, t[i].sessionId, now) ==
            if t[i].archived || (t[i].expiresAt.Some? && t[i].expiresAt.value < now) then None else Some(t[i])
  {
    hide Get;
    GetAt(t, i);
  }

  /** The active count is the length of the whole active list, whose pages of any size it bounds. */
  lemma {:induction false} CountMatchesList(t: Table, tenant: string, limit: nat)
    ensures CountActive(t, tenant) == |ActiveSessions(t, tenant)| == ActiveRows(t, tenant)
    ensures CountActive(t, tenant) <= limit ==> Page(ActiveSessions(t, tenant), limit, 0) == ActiveSessions(t, tenant)
  {
    SortSorts(ByActivity(), Filter(Active(tenant), t));
    FilterCardinality(Active(tenant), t);
    var p := Satisfies(Active(tenant), t);
    assert (set i | 0 <= i < |t| && p(i)) ==
           (set i | 0 <= i < |t| && t[i].tenant == tenant && t[i].status == "active" && !t[i].archived);
    hide SortDesc, Filter;
    assert ActiveSessions(t, tenant)[0..] == ActiveSessions(t, tenant);
  }

  /** A session that has just been looked up heads the list of active sessions. */
  lemma {:induction false} TouchedFirst(t: Table, i: nat, now: real)
    requires UniqueKeys(t) && i < |t| && t[i].status == "active" && !t[i].archived
    requires t[i].expiresAt.Some? ==> now <= t[i].expiresAt.value
    requires forall j :: 0 <= j < |t| && j != i && t[j].tenant == t[i].tenant ==> t[j].lastActiveAt < now
    ensures var u := Apply(t, Fetch(t[i].tenant, t[i].sessionId, now));
      && |u| == |t| && u[i].lastActiveAt == now
      && ActiveSessions(u, t[i].tenant) != [] && ActiveSessions(u, t[i].tenant)[0] == u[i]
  {
    var tenant := t[i].tenant;
    var u := Apply(t, Fetch(tenant, t[i].sessionId, now));
    GetAt(t, i);
    assert u == UpdateActivity(t, tenant, t[i].sessionId, now);
    assert forall j :: 0 <= j < |u| && j != i ==> u[j] == t[j];
    hide Apply, Get, Filter, SortDesc, UniqueKeys;
    var list := ActiveSessions(u, tenant);
    SortSorts(ByActivity(), Filter(Active(tenant), u));
    InActiveList(u, tenant, u[i]);
    var p :| 0 <= p < |list| && list[p] == u[i];
    InActiveList(u, tenant, list[0]);
    var j :| 0 <= j < |u| && u[j] == list[0];
    assert p > 0 ==> ByActivity()(list[0]) >= ByActivity()(list[p]);
  }

  /** The active list holds the tenant's unarchived sessions with status active, latest activity first. */
  lemma InActiveList(t: Table, tenant: string, r: Session)
    ensures r in ActiveSessions(t, tenant) <==> r in t && r.tenant == tenant && r.status == "active" && !r.archived
    ensures var list := ActiveSessions(t, tenant);
      forall i, j :: 0 <= i < j < |list| ==> list[i].lastActiveAt >= list[j].lastActiveAt
  {
    SortMember(ByActivity(), Filter(Active(tenant), t), r);
    FilterMember(Active(tenant), t, r);
    SortSorts(ByActivity(), Filter(Active(tenant), t));
    var list := ActiveSessions(t, tenant);
    forall i, j | 0 <= i < j < |list|
      ensures list[i].lastActiveAt >= list[j].lastActiveAt
    {
      assert ByActivity()(list[i]) >= ByActivity()(list[j]);
    }
  }

  /** The tenant's active sessions, counted by their places. */
  ghost function ActiveRows(t: Table, tenant: string): nat {
    |set i | 0 <= i < |t| && t[i].tenant == tenant && t[i].status == "active" && !t[i].archived|
  }

  /** Which operations leave a session listed as active, whatever its state was. */
  lemma ActiveAfter(t: Table, op: Op, i: nat)
    requires UniqueKeys(t) && i < |t| && t[i].tenant == op.tenant
    requires op.Expire? || t[i].sessionId == op.sessionId
    ensures |t| <= |Apply(t, op)|
    ensures Apply(t, op)[i].status == "active" && !Apply(t, op)[i].archived <==>
      !t[i].archived &&
      match op
      case Ensure(_, _, _, _, _) => true
      case Resume(_, _, _) => true
      case Pause(_, _, _) => false
      case Complete(_, _, _) => false
      case Remove(_, _, _) => false
      case Fetch(_, _, now) => t[i].status == "active" && !(t[i].expiresAt.Some? && t[i].expiresAt.value < now)
      case Expire(_, now) => t[i].status == "active" && !(t[i].expiresAt.Some? && t[i].expiresAt.value <= now)
      case SetMetadata(_, _, _, _, _) => t[i].status == "active"
      case LateTouch(_, _, _) => t[i].status == "active"
      case LateMark(_, _, _) => false
      case LateWrite(_, _, _, status, _, _) => status == "active"
      case Schedule(_, _, _) => t[i].status == "active"
  {
    ApplyKeeps(t, op);
    GetAt(t, i);
    var r := t[i];
    assert r in t;
    assert Find(ByKey(r.tenant, r.sessionId), t).None? ==> !ByKey(r.tenant, r.sessionId)(r);
    hide UniqueKeys, TableStep, Get;
  }

  /** The whole row of a session after each operation on it. */
  lemma RowAfter(t: Table, op: Op, i: nat)
    requires UniqueKeys(t) && i < |t| && t[i].tenant == op.tenant
    requires op.Expire? || t[i].sessionId == op.sessionId
    ensures |t| <= |Apply(t, op)|
    ensures var r := t[i];
      Apply(t, op)[i] ==
      match op
      case Ensure(_, _, user, metadata, now) =>
        r.(user := user, status := "active", metadata := if metadata.Some? then metadata.value else map[],
           lastActiveAt := now, updatedAt := now)
      case Resume(_, _, now) => r.(status := "active", lastActiveAt := now, updatedAt := now)
      case Pause(_, _, now) => r.(status := "paused", updatedAt := now)
      case Complete(_, _, now) => r.(status := "archived", archived := true, updatedAt := now)
      case Remove(_, _, now) => r.(status := "archived", archived := true, updatedAt := now)
      case Fetch(_, _, now) =>
        if r.archived then r
        else if r.expiresAt.Some? && r.expiresAt.value < now then r.(status := "expired", updatedAt := now)
        else r.(lastActiveAt := now, updatedAt := now)
      case Expire(_, now) =>
        if !r.archived && r.expiresAt.Some? && r.expiresAt.value <= now
        then r.(status := "expired", archived := true, updatedAt := now) else r
      case SetMetadata(_, _, fields, merge, now) =>
        if r.archived then r
        else r.(metadata := if merge then r.metadata + fields else fields, lastActiveAt := now, updatedAt := now)
      case LateTouch(_, _, now) => r.(lastActiveAt := now, updatedAt := now)
      case LateMark(_, _, now) => r.(status := "expired", updatedAt := now)
      case LateWrite(_, _, user, status, fields, now) =>
        r.(user := user, status := status, metadata := fields, lastActiveAt := now, updatedAt := now)
      case Schedule(_, _, expiresAt) => r.(expiresAt := expiresAt)
  {
    GetAt(t, i);
    var r := t[i];
    assert r in t;
    assert Find(ByKey(r.tenant, r.sessionId), t).None? ==> !ByKey(r.tenant, r.sessionId)(r);
    hide UniqueKeys, Get;
  }

  /** An operation on one session, clean-up apart, leaves every other row as it was. */
  lemma OtherSessionsUntouched(t: Table, op: Op, i: nat)
    requires !op.Expire? && i < |t| && !IsKey(op.tenant, op.sessionId, t[i])
    ensures i < |Apply(t, op)| && Apply(t, op)[i] == t[i]
    ensures |Apply(t, op)| == |t| || ((op.Ensure? || op.LateWrite?) && !HasKey(t, op.tenant, op.sessionId))
  {
    hide Get;
  }

  /** A run without operations of a tenant leaves that tenant's rows as they were. */
  lemma {:induction false} TenantIsolation(t: Table, ops: seq<Op>, tenant: string, i: nat)
    requires UniqueKeys(t) && i < |t| && t[i].tenant == tenant
    requires forall j :: 0 <= j < |ops| ==> ops[j].tenant != tenant
    ensures var u := Exec(t, ops); UniqueKeys(u) && i < |u| && u[i] == t[i]
  {
    if ops != [] {
      var before := ops[..|ops| - 1];
      TenantIsolation(t, before, tenant, i);
      ApplyKeeps(Exec(t, before), ops[|ops| - 1]);
      assert RowStep(Exec(t, before)[i], Exec(t, ops)[i], ops[|ops| - 1].tenant);
    }
  }

  /**
    A metadata update followed by a lookup: with merging, new fields win and old ones
    survive; without, only the new fields remain. Status, user and expiry are kept.
   */
  lemma {:induction false} MetadataRoundTrip(t: Table, tenant: string, id: string, fields: Metadata, merge: bool, now: real)
    requires UniqueKeys(t) && Get(t, tenant, id).Some?
    ensures var r, r' := Get(t, tenant, id), Get(Apply(t, SetMetadata(tenant, id, fields, merge, now)), tenant, id);
      && r'.Some?
      && r'.value.status == r.value.status && r'.value.user == r.value.user && r'.value.expiresAt == r.value.expiresAt
      && (forall f :: f in fields ==> f in r'.value.metadata && r'.value.metadata[f] == fields[f])
      && (forall f :: f !in fields ==>
            (f in r'.value.metadata <==> merge && f in r.value.metadata) &&
            (f in r'.value.metadata ==> r'.value.metadata[f] == r.value.metadata[f]))
  {
    var op := SetMetadata(tenant, id, fields, merge, now);
    var r := Get(t, tenant, id).value;
    var k :| 0 <= k < |t| && t[k] == r;
    ApplyKeeps(t, op);
    hide TableStep, Get;
    assert ByKey(tenant, id)(r);
    GetAt(Apply(t, op), k);
  }

  /** Rows stay in their places under their keys, whatever runs. */
  lemma {:induction false} PlacesKept(t: Table, ops: seq<Op>, i: nat)
    requires UniqueKeys(t) && i < |t|
    ensures var u := Exec(t, ops); UniqueKeys(u) && i < |u| && SameKey(t[i], u[i])
  {
    if ops != [] {
      var before := ops[..|ops| - 1];
      PlacesKept(t, before, i);
      ApplyKeeps(Exec(t, before), ops[|ops| - 1]);
      assert RowStep(Exec(t, before)[i], Exec(t, ops)[i], ops[|ops| - 1].tenant);
    }
  }

  /**
    A metadata update is not isolated: whatever other transactions did to the session
    between its read and its write, the write restores the user and the status that were
    read, and the metadata is that of the read with the new fields. Only the expiry and
    the archive flag of the meantime survive, and no other session changes.
   */
  lemma {:induction false} LateWriteOverwrites(t: Table, i: nat, between: seq<Op>, fields: Metadata, merge: bool, now: real)
    requires UniqueKeys(t) && i < |t|
    ensures var u := Exec(t, between);
      var v := WriteBack(u, t[i], fields, merge, now);
      && i < |u| == |v|
      && v[i] == u[i].(user := t[i].user, status := t[i].status, metadata := Merged(t[i].metadata, fields, merge),
                       lastActiveAt := now, updatedAt := now)
      && (forall j :: 0 <= j < |u| && j != i ==> v[j] == u[j])
  {
    PlacesKept(t, between, i);
    var u := Exec(t, between);
    var r := u[i];
    assert r in u && ByKey(t[i].tenant, t[i].sessionId)(r);
    hide Exec;
  }

  /**
    A late metadata write has the effect of an update that runs at write time if and only
    if nobody has changed the user, the status or the resulting metadata since the read.
    When the session has been archived since, an update would do nothing at all.
   */
  lemma {:induction false} LateWriteIsCurrentIff(t: Table, i: nat, between: seq<Op>, fields: Metadata, merge: bool, now: real)
    requires UniqueKeys(t) && i < |t|
    ensures var u := Exec(t, between);
      var updated := Apply(u, SetMetadata(t[i].tenant, t[i].sessionId, fields, merge, now));
      && i < |u|
      && (u[i].archived ==> updated == u)
      && (!u[i].archived ==>
            (WriteBack(u, t[i], fields, merge, now) == updated <==>
               && u[i].user == t[i].user && u[i].status == t[i].status
               && Merged(u[i].metadata, fields, merge) == Merged(t[i].metadata, fields, merge)))
  {
    PlacesKept(t, between, i);
    LateWriteOverwrites(t, i, between, fields, merge, now);
    var u := Exec(t, between);
    GetAt(u, i);
    LateWriteOverwrites(u, i, [], fields, merge, now);
    assert Exec(u, []) == u;
    hide Get, UniqueKeys, Exec, WriteBack, Merged;
  }

  lemma ExecOne(t: Table, op: Op)
    ensures Exec(t, [op]) == Apply(t, op)
  {
    assert [op][..0] == [] && Exec(t, []) == t;
    hide Apply;
  }

  /**
    A session is created and its metadata read for an update, then it is paused, then the
    update is written: the session is active again, where an update that runs after the
    pause would leave it paused.
   */
  lemma {:induction false} PauseUndone()
    ensures var t := Exec([], [Ensure("t", "s", "u", None, 0.0)]);
      var u := Exec(t, [Pause("t", "s", 1.0)]);
      var late := WriteBack(u, t[0], map["k" := "v"], true, 2.0);
      var updated := Apply(u, SetMetadata("t", "s", map["k" := "v"], true, 2.0));
      && |t| == |u| == |late| == |updated| == 1
      && t[0].status == "active" && u[0].status == "paused"
      && late[0].status == "active" && updated[0].status == "paused"
  {
    var ensured, pause := Ensure("t", "s", "u", None, 0.0), Pause("t", "s", 1.0);
    ExecOne([], ensured);
    var t := Exec([], [ensured]);
    ExecOne(t, pause);
    var u := Exec(t, [pause]);
    GetAt(u, 0);
    LateWriteOverwrites(t, 0, [pause], map["k" := "v"], true, 2.0);
    LateWriteOverwrites(u, 0, [], map["k" := "v"], true, 2.0);
    assert Exec(u, []) == u;
    hide Get, Exec, WriteBack;
  }
}
