/** Whole-system properties of the CAPA routes over any sequence of
    requests: the audit trail only grows, it grows by one entry per
    mutation that took effect and by nothing otherwise, and replaying it
    accounts for the current contents of the `capas` table. */
module CapaTrace {
  import opened Base
  import opened Audit
  import opened UserModel
  import opened CapaModel
  import opened CapaSchemas
  import opened CapaService
  import opened CapaRoutes

  /** One request to the CAPA router. */
  datatype Request =
    | CreateRequest(user: User, body: CapaCreate)
    | UpdateRequest(user: User, capaId: int, changes: CapaUpdate)
    | DeleteRequest(user: User, capaId: int)
    | GetRequest(user: User, capaId: int)
    | ListRequest(user: User, skip: nat, limit: nat)

  /** A request together with the clock readings taken while it runs. */
  datatype Call = Call(request: Request, clock: Clock)

  predicate IsMutation(req: Request)
  {
    req.CreateRequest? || req.UpdateRequest? || req.DeleteRequest?
  }

  function ActionOf(req: Request): string
    requires IsMutation(req)
  {
    match req
    case CreateRequest(_, _) => CreateAction
    case UpdateRequest(_, _, _) => UpdateAction
    case DeleteRequest(_, _) => DeleteAction
  }

  /** The record a mutation that took effect is about: the new key for a
      create, the path's id otherwise. */
  function TargetOf(req: Request, result: Result<Reply, HttpError>): Option<int>
    requires IsMutation(req)
  {
    match req
    case CreateRequest(_, _) =>
      if result.Ok? && result.value.CapaBody? then Some(result.value.capa.id) else None
    case UpdateRequest(_, id, _) => Some(id)
    case DeleteRequest(_, id) => Some(id)
  }

  /** Who did what to which record, as an audit entry records it. */
  datatype Mark = Mark(userId: int, action: string, entityId: Option<int>)

  function MarkOf(e: AuditEntry<CapaData>): Mark
  {
    Mark(e.userId, e.action, e.entityId)
  }

  function Marks(entries: seq<AuditEntry<CapaData>>): (r: seq<Mark>)
    ensures |r| == |entries|
    ensures forall i :: 0 <= i < |entries| ==> r[i] == MarkOf(entries[i])
  {
    seq(|entries|, i requires 0 <= i < |entries| => MarkOf(entries[i]))
  }

  /** The entries a call ought to leave behind: one mark for a mutation that
      took effect (whether or not its answer rendered), none for a refused
      call or a read. */
  function Expected(call: Call, result: Result<Reply, HttpError>): seq<Mark>
  {
    if IsMutation(call.request) && Committed(result) then
      [Mark(call.request.user.id, ActionOf(call.request), TargetOf(call.request, result))]
    else []
  }

  /** Dispatches one call to its handler. */
  function Handle(sys: System, call: Call): (r: Response)
    ensures !IsMutation(call.request) || !Committed(r.result) ==> r.state == sys
    ensures IsMutation(call.request) && Committed(r.result) ==>
      && AppendedOne(sys.audit, r.state.audit)
      && Expected(call, r.result) == [MarkOf(Last(r.state.audit))]
      && Last(r.state.audit).entityType == CapaEntity
      && Last(r.state.audit).timestamp == call.clock.audit
    ensures ValidSystem(sys) ==> ValidSystem(r.state)
  {
    match call.request
    case CreateRequest(user, body) => CreateCapa(sys, user, body, call.clock)
    case UpdateRequest(user, id, changes) => UpdateCapa(sys, user, id, changes, call.clock)
    case DeleteRequest(user, id) => DeleteCapa(sys, user, id, call.clock)
    case GetRequest(user, id) => GetCapa(sys, user, id)
    case ListRequest(user, skip, limit) => ListCapas(sys, user, skip, limit)
  }

  /** Runs the calls in order, collecting each call's result. */
  function Replay(sys: System, calls: seq<Call>): (r: (System, seq<Result<Reply, HttpError>>))
    ensures |r.1| == |calls|
    decreases |calls|
  {
    if calls == [] then (sys, [])
    else
      var first := Handle(sys, calls[0]);
      var (final, results) := Replay(first.state, calls[1..]);
      (final, [first.result] + results)
  }

  function ExpectedAll(calls: seq<Call>, results: seq<Result<Reply, HttpError>>): seq<Mark>
    requires |results| == |calls|
    decreases |calls|
  {
    if calls == [] then [] else Expected(calls[0], results[0]) + ExpectedAll(calls[1..], results[1..])
  }

  lemma MarksDistribute(a: seq<AuditEntry<CapaData>>, b: seq<AuditEntry<CapaData>>)
    ensures Marks(a + b) == Marks(a) + Marks(b)
  {
  }

  /** `a` is a prefix of `b`. */
  predicate Extends(a: seq<AuditEntry<CapaData>>, b: seq<AuditEntry<CapaData>>)
  {
    |a| <= |b| && b[..|a|] == a
  }

  /** What a chain of extensions adds is what each step adds, in order. */
  lemma SuffixSplits(before: seq<AuditEntry<CapaData>>, middle: seq<AuditEntry<CapaData>>,
                     after: seq<AuditEntry<CapaData>>)
    requires Extends(before, middle) && Extends(middle, after)
    ensures Extends(before, after)
    ensures Marks(after[|before|..]) == Marks(middle[|before|..]) + Marks(after[|middle|..])
  {
    assert after[..|before|] == middle[..|before|];
    assert after[|before|..] == middle[|before|..] + after[|middle|..];
    MarksDistribute(middle[|before|..], after[|middle|..]);
  }

  /** One call extends the trail by exactly the marks it ought to leave. */
  lemma HandleExtends(sys: System, call: Call)
    ensures var r := Handle(sys, call);
            && Extends(sys.audit.entries, r.state.audit.entries)
            && Marks(r.state.audit.entries[|sys.audit.entries|..]) == Expected(call, r.result)
  {
    var r := Handle(sys, call);
    var before, after := sys.audit.entries, r.state.audit.entries;
    if IsMutation(call.request) && Committed(r.result) {
      assert after[|before|..] == [Last(r.state.audit)];
    } else {
      assert after[|before|..] == [];
    }
  }

  /** Over any sequence of calls the audit trail keeps every entry it had,
      and what it gains is, in order, exactly one entry per mutation that took
      effect, naming the acting user, the action and the record; refused
      calls and reads add nothing. */
  lemma {:induction false} EveryMutationIsAudited(sys: System, calls: seq<Call>)
    ensures var (final, results) := Replay(sys, calls);
      && Extends(sys.audit.entries, final.audit.entries)
      && Marks(final.audit.entries[|sys.audit.entries|..]) == ExpectedAll(calls, results)
    decreases |calls|
  {
    var (final, results) := Replay(sys, calls);
    if calls == [] {
      assert final.audit.entries[|sys.audit.entries|..] == [];
    } else {
      var first := Handle(sys, calls[0]);
      var (rest, restResults) := Replay(first.state, calls[1..]);
      HandleExtends(sys, calls[0]);
      EveryMutationIsAudited(first.state, calls[1..]);
      assert results[1..] == restResults;
      SuffixSplits(sys.audit.entries, first.state.audit.entries, final.audit.entries);
    }
  }

  /** What the trail says about one record. A create entry carries the
      request body only, so it fixes every column except `created_at` and
      `updated_at`, which the column defaults stamped; an update entry carries the whole new record; a
      delete entry carries none. */
  datatype TrailView = Absent | CreatedFrom(body: CapaCreate) | Snapshot(record: Capa)

  function ViewAfter(e: AuditEntry<CapaData>): TrailView
  {
    match e.newData
    case Some(PayloadData(body)) => CreatedFrom(body)
    case Some(RecordData(record)) => Snapshot(record)
    case None => Absent
  }

  /** Record `k` as the audit trail tells it: what the latest CAPA entry about
      `k` left behind, or nothing if there is none. */
  function TrailState(entries: seq<AuditEntry<CapaData>>, k: int): TrailView
    decreases |entries|
  {
    if entries == [] then Absent
    else
      var e := entries[|entries| - 1];
      if e.entityType == CapaEntity && e.entityId == Some(k)
         && (e.action == CreateAction || e.action == UpdateAction || e.action == DeleteAction)
      then ViewAfter(e)
      else TrailState(entries[..|entries| - 1], k)
  }

  /** The stored row under `k` is the one the trail describes: absent, the
      record a create of `body` makes with some pair of tracking timestamps,
      or exactly the snapshot. */
  predicate Accounts(view: TrailView, k: int, stored: Option<Capa>)
  {
    match view
    case Absent => stored.None?
    case CreatedFrom(body) => stored.Some? && stored.value == NewCapa(k, body, stored.value.createdAt, stored.value.updatedAt)
    case Snapshot(record) => stored == Some(record)
  }

  /** The audit trail accounts for the whole table, key by key. */
  ghost predicate Reconstructs(sys: System)
  {
    forall k :: Accounts(TrailState(sys.audit.entries, k), k, CapaService.Get(sys.capas, k))
  }

  /** Every call keeps the table and the trail in agreement, whichever clock
      readings it takes. */
  lemma HandlePreservesReconstruction(sys: System, call: Call)
    requires Reconstructs(sys)
    ensures Reconstructs(Handle(sys, call).state)
  {
    var r := Handle(sys, call);
    if IsMutation(call.request) && Committed(r.result) {
      var before, after := sys.audit.entries, r.state.audit.entries;
      assert after[..|after| - 1] == before;
      var e := Last(r.state.audit);
      forall k
        ensures Accounts(TrailState(after, k), k, CapaService.Get(r.state.capas, k))
      {
        if e.entityId != Some(k) {
          assert TrailState(after, k) == TrailState(before, k);
        }
      }
    }
  }

  /** Why `Accounts` leaves a never-updated record's tracking columns open:
      two creates that differ only in the row's clock readings leave the same
      trail, while their records differ in `created_at`/`updated_at`. */
  lemma CreateTrailOmitsInsertTime(sys: System, user: User, body: CapaCreate, audit: Timestamp,
                                   created1: Timestamp, updated1: Timestamp,
                                   created2: Timestamp, updated2: Timestamp)
    requires CreateCapa(sys, user, body, Clock(created1, updated1, audit)).result.Ok?
    ensures var r1, r2 := CreateCapa(sys, user, body, Clock(created1, updated1, audit)),
                          CreateCapa(sys, user, body, Clock(created2, updated2, audit));
            && r2.result.Ok?
            && r1.state.audit == r2.state.audit
            && r2.result.value.capa == r1.result.value.capa.(createdAt := created2, updatedAt := updated2)
            && ((created1, updated1) != (created2, updated2) ==> r1.state.capas != r2.state.capas)
  {
    var r1, r2 := CreateCapa(sys, user, body, Clock(created1, updated1, audit)),
                  CreateCapa(sys, user, body, Clock(created2, updated2, audit));
    var id := r1.result.value.capa.id;
    assert r1.state.capas.rows[id].createdAt == created1 && r2.state.capas.rows[id].createdAt == created2;
    assert r1.state.capas.rows[id].updatedAt == updated1 && r2.state.capas.rows[id].updatedAt == updated2;
  }

  /** Any sequence of calls keeps the table and the trail in agreement. */
  lemma {:induction false} ReplayPreservesReconstruction(sys: System, calls: seq<Call>)
    requires Reconstructs(sys)
    ensures Reconstructs(Replay(sys, calls).0)
    decreases |calls|
  {
    if calls != [] {
      HandlePreservesReconstruction(sys, calls[0]);
      ReplayPreservesReconstruction(Handle(sys, calls[0]).state, calls[1..]);
    }
  }

  /** From an empty system, whatever requests arrive and whatever the clocks
      read, the audit trail alone accounts for the current contents of the
      `capas` table (up to each never-updated record's tracking timestamps),
      and the state stays valid. */
  lemma TrailReconstructsTable(calls: seq<Call>)
    ensures Reconstructs(Replay(InitialSystem, calls).0)
    ensures ValidSystem(Replay(InitialSystem, calls).0)
  {
    ReplayPreservesReconstruction(InitialSystem, calls);
    ReplayPreservesValidity(InitialSystem, calls);
  }

  lemma {:induction false} ReplayPreservesValidity(sys: System, calls: seq<Call>)
    requires ValidSystem(sys)
    ensures ValidSystem(Replay(sys, calls).0)
    decreases |calls|
  {
    if calls != [] {
      ReplayPreservesValidity(Handle(sys, calls[0]).state, calls[1..]);
    }
  }

  /** A created record can be read back, by any user, as it was returned. */
  lemma CreatedCapaIsReadable(sys: System, user: User, body: CapaCreate, clock: Clock, reader: User)
    requires CreateCapa(sys, user, body, clock).result.Ok?
    ensures var r := CreateCapa(sys, user, body, clock);
            GetCapa(r.state, reader, r.result.value.capa.id).result == r.result
  {
  }

  /** Any user listing from offset 0 with a limit covering the key range,
      in a reachable state whose records all render, gets every stored
      record, and only stored records, in ascending key order. */
  lemma ListedPageIsTheTable(sys: System, reader: User, limit: nat)
    requires ValidSystem(sys) && AllRenderable(sys)
    requires sys.capas.nextId <= limit
    ensures var r := ListCapas(sys, reader, 0, limit);
            && r.result.Ok? && r.result.value.CapaListBody?
            && (forall k :: k in sys.capas.rows ==> sys.capas.rows[k] in r.result.value.capas)
            && (forall c :: c in r.result.value.capas ==> c.id in sys.capas.rows && sys.capas.rows[c.id] == c)
            && (forall i, j :: 0 <= i < j < |r.result.value.capas| ==>
                  r.result.value.capas[i].id < r.result.value.capas[j].id)
  {
    forall k | k in sys.capas.rows
      ensures sys.capas.rows[k] in ListCapas(sys, reader, 0, limit).result.value.capas
    {
      ListIsComplete(sys.capas, limit, k);
    }
  }

  /** After a successful delete the record answers 404. */
  lemma DeletedCapaIsGone(sys: System, user: User, id: int, clock: Clock, reader: User)
    requires DeleteCapa(sys, user, id, clock).result.Ok?
    ensures GetCapa(DeleteCapa(sys, user, id, clock).state, reader, id).result == Err(NotFound)
  {
  }

  /** The audit query finds the entry a successful create wrote, with the
      body as its new snapshot, when asked for that record's history. */
  lemma CreateIsInRecordHistory(sys: System, user: User, body: CapaCreate, clock: Clock, limit: nat)
    requires CreateCapa(sys, user, body, clock).result.Ok?
    requires |sys.audit.entries| < limit
    ensures var r := CreateCapa(sys, user, body, clock);
            var q := AuditQuery(Some(CapaEntity), Some(r.result.value.capa.id), None, None, None);
            Last(r.state.audit) in GetAuditTrail(r.state.audit, q, 0, limit)
            && Last(r.state.audit).newData == Some(PayloadData(body))
  {
    var r := CreateCapa(sys, user, body, clock);
    var q := AuditQuery(Some(CapaEntity), Some(r.result.value.capa.id), None, None, None);
    FirstPageIsComplete(r.state.audit, q, limit);
    assert Last(r.state.audit) in r.state.audit.entries;
  }

  /** Every stored record can be sent back through the response schema. */
  ghost predicate AllRenderable(sys: System)
  {
    forall k :: k in sys.capas.rows ==> Renderable(sys.capas.rows[k])
  }

  /** As written, an editor's update whose only change is a short
      description passes validation and is committed and audited, but the
      answer is a 500, and the stored record keeps answering 500 to reads. */
  lemma UpdateCanStoreUnrenderableRecord(sys: System, user: User, id: int, clock: Clock, reader: User)
    requires user.role == Admin && id in sys.capas.rows && Renderable(sys.capas.rows[id])
    ensures var r := UpdateCapa(sys, user, id, EmptyUpdate.(description := Some("short")), clock);
            && r.result == Err(ResponseInvalid)
            && AppendedOne(sys.audit, r.state.audit)
            && id in r.state.capas.rows && !Renderable(r.state.capas.rows[id])
            && GetCapa(r.state, reader, id).result == Err(ResponseInvalid)
  {
    ShortDescriptionPassesUpdate(sys.capas.rows[id], clock.updated);
  }

  /** With update bodies held to the intended validation, every call keeps
      every stored record renderable, and no call is answered with 500. */
  lemma IntendedValidationKeepsRecordsRenderable(sys: System, call: Call)
    requires ValidSystem(sys) && AllRenderable(sys)
    requires call.request.UpdateRequest? ==> ValidateUpdateIntended(call.request.changes) == []
    ensures AllRenderable(Handle(sys, call).state)
    ensures Handle(sys, call).result != Err(ResponseInvalid)
  {
    var r := Handle(sys, call);
    match call.request
    case CreateRequest(user, body) =>
      if r.result.Ok? {
        CreatedRecordIsRenderable(sys.capas.nextId, body, call.clock.created, call.clock.updated);
      }
    case UpdateRequest(user, id, changes) =>
      if Committed(r.result) {
        IntendedUpdateKeepsRenderable(sys.capas.rows[id], changes, call.clock.updated);
      }
    case DeleteRequest(user, id) =>
    case GetRequest(user, id) =>
    case ListRequest(user, skip, limit) =>
  }
}
