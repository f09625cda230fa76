/** The CAPA route handlers as transitions of the whole system state (the
    `capas` table together with the audit trail). Each mutating handler
    validates its body, checks the caller's role, may answer 404, and
    otherwise changes the table and appends exactly one audit entry of a
    fixed shape; every refusal leaves the state untouched. A record the
    response schema rejects is answered with 500 after the change is made.
    The read handlers never change anything. */
module CapaRoutes {
  import opened Base
  import opened Audit
  import opened UserModel
  import opened CapaModel
  import opened CapaSchemas
  import opened CapaService

  /** What a CAPA audit entry's snapshot holds: the create body as sent, or a
      record as stored. */
  datatype CapaData = PayloadData(payload: CapaCreate) | RecordData(record: Capa)

  datatype System = System(capas: CapaTable, audit: AuditStore<CapaData>)

  predicate ValidSystem(sys: System)
  {
    ValidTable(sys.capas) && Audit.Valid(sys.audit)
  }

  const InitialSystem: System := System(EmptyTable, EmptyStore())

  /** The HTTP errors: 422 from body validation, 403 from the role check,
      404 for a missing record, and 500 when the record to be returned fails
      the response schema (which happens after the handler's work is done). */
  datatype HttpError = Unprocessable(errors: seq<ValidationError>) | Forbidden | NotFound | ResponseInvalid

  /** The handler's work took effect: it succeeded, or it failed only while
      rendering its answer. */
  predicate Committed(result: Result<Reply, HttpError>)
  {
    result.Ok? || result == Err(ResponseInvalid)
  }

  /** The clock readings a mutating request may take: the `created_at` and
      `updated_at` column defaults each read the clock on their own when a
      row is inserted (an update refreshes only `updated_at`), and the audit
      entry's default reads it again in a later write. Nothing relates them. */
  datatype Clock = Clock(created: Timestamp, updated: Timestamp, audit: Timestamp)

  /** The success bodies: one record (201 or 200), a list of records (200),
      or nothing (204). */
  datatype Reply = CapaBody(capa: Capa) | CapaListBody(capas: seq<Capa>) | NoContent

  datatype Response = Response(state: System, result: Result<Reply, HttpError>)

  const CapaEntity := "CAPA"
  const CreateAction := "CREATE_CAPA"
  const UpdateAction := "UPDATE_CAPA"
  const DeleteAction := "DELETE_CAPA"

  /** The roles allowed to create or update, and to delete. */
  const EditorRoles: seq<Role> := [Admin, QA]
  const DeleterRoles: seq<Role> := [Admin]

  /** The audit trail grew by exactly one entry and kept every earlier one. */
  predicate AppendedOne(before: AuditStore<CapaData>, after: AuditStore<CapaData>)
  {
    && |after.entries| == |before.entries| + 1
    && after.entries[..|before.entries|] == before.entries
  }

  function Last(st: AuditStore<CapaData>): AuditEntry<CapaData>
    requires |st.entries| > 0
  {
    st.entries[|st.entries| - 1]
  }

  /** The fields every entry written by these handlers shares: the acting
      user, the CAPA entity type, the audit clock reading, no request provenance. */
  predicate WrittenBy(e: AuditEntry<CapaData>, user: User, action: string, id: int, at: Timestamp)
  {
    && e.userId == user.id && e.action == action && e.entityType == CapaEntity
    && e.entityId == Some(id) && e.timestamp == at
    && e.ipAddress == None && e.userAgent == None
  }

  /** `create_capa`. */
  function CreateCapa(sys: System, user: User, body: CapaCreate, clock: Clock): (r: Response)
    ensures r.result.Ok? <==> ValidateCreate(body) == [] && (user.role == Admin || user.role == QA)
    ensures r.result.Err? ==> r.state == sys && r.result.error != ResponseInvalid
    ensures ValidateCreate(body) != [] ==> r.result == Err(Unprocessable(ValidateCreate(body)))
    ensures ValidateCreate(body) == [] && user.role == Analyst ==> r.result == Err(Forbidden)
    ensures r.result.Ok? ==>
      && r.result.value.CapaBody?
      && var capa := r.result.value.capa;
      && capa == NewCapa(sys.capas.nextId, body, clock.created, clock.updated)
      && capa.status == Draft
      && Renderable(capa)
      && r.state.capas.rows == sys.capas.rows[capa.id := capa]
      && (ValidTable(sys.capas) ==> capa.id !in sys.capas.rows)
      && AppendedOne(sys.audit, r.state.audit)
      && WrittenBy(Last(r.state.audit), user, CreateAction, capa.id, clock.audit)
      && Last(r.state.audit).oldData == None
      && Last(r.state.audit).newData == Some(PayloadData(body))
    ensures ValidSystem(sys) ==> ValidSystem(r.state)
  {
    var errors := ValidateCreate(body);
    if errors != [] then Response(sys, Err(Unprocessable(errors)))
    else if user.role !in EditorRoles then Response(sys, Err(Forbidden))
    else
      var (capas, capa) := CapaService.Create(sys.capas, body, clock.created, clock.updated);
      var (audit, _) := CreateAuditLog(sys.audit, clock.audit, user.id, CreateAction, CapaEntity, Some(capa.id),
                                       None, Some(PayloadData(body)), None, None);
      assert audit.entries[..|sys.audit.entries|] == sys.audit.entries;
      Response(System(capas, audit), Ok(CapaBody(capa)))
  }

  /** `list_capas`: a page of records, or 500 when one of them fails the
      response schema; nothing is written. */
  function ListCapas(sys: System, user: User, skip: nat, limit: nat): (r: Response)
    ensures r.state == sys
    ensures r.result.Ok? <==> forall c :: c in CapaService.List(sys.capas, skip, limit) ==> Renderable(c)
    ensures r.result.Err? ==> r.result.error == ResponseInvalid
    ensures r.result.Ok? ==>
      && r.result.value == CapaListBody(CapaService.List(sys.capas, skip, limit))
      && |r.result.value.capas| <= limit
      && (ValidTable(sys.capas) ==>
            forall c :: c in r.result.value.capas ==> c.id in sys.capas.rows && sys.capas.rows[c.id] == c)
    ensures ValidTable(sys.capas) && (forall k :: k in sys.capas.rows ==> Renderable(sys.capas.rows[k])) ==>
      r.result.Ok?
  {
    var page := CapaService.List(sys.capas, skip, limit);
    if forall c :: c in page ==> Renderable(c) then Response(sys, Ok(CapaListBody(page)))
    else Response(sys, Err(ResponseInvalid))
  }

  /** `get_capa`: the record under `id`, 404 when there is none, or 500
      when the stored record fails the response schema; nothing is written. */
  function GetCapa(sys: System, user: User, id: int): (r: Response)
    ensures r.state == sys
    ensures r.result.Ok? <==> id in sys.capas.rows && Renderable(sys.capas.rows[id])
    ensures r.result.Ok? ==> r.result.value == CapaBody(sys.capas.rows[id])
    ensures id !in sys.capas.rows ==> r.result == Err(NotFound)
    ensures id in sys.capas.rows && !Renderable(sys.capas.rows[id]) ==> r.result == Err(ResponseInvalid)
  {
    match CapaService.Get(sys.capas, id)
    case None => Response(sys, Err(NotFound))
    case Some(capa) =>
      if Renderable(capa) then Response(sys, Ok(CapaBody(capa))) else Response(sys, Err(ResponseInvalid))
  }

  /** `update_capa`. The role check comes before the lookup, so a caller
      without the role gets 403 even for a missing record. The change and its
      audit entry are made before the answer is rendered, so an updated
      record the response schema rejects still stays stored and audited. */
  function UpdateCapa(sys: System, user: User, id: int, changes: CapaUpdate, clock: Clock): (r: Response)
    ensures Committed(r.result) <==>
      ValidateUpdate(changes) == [] && (user.role == Admin || user.role == QA) && id in sys.capas.rows
    ensures r.result.Ok? <==>
      && ValidateUpdate(changes) == [] && (user.role == Admin || user.role == QA) && id in sys.capas.rows
      && Renderable(ApplyUpdate(sys.capas.rows[id], changes, clock.updated))
    ensures !Committed(r.result) ==> r.state == sys
    ensures ValidateUpdate(changes) != [] ==> r.result == Err(Unprocessable(ValidateUpdate(changes)))
    ensures ValidateUpdate(changes) == [] && user.role == Analyst ==> r.result == Err(Forbidden)
    ensures ValidateUpdate(changes) == [] && (user.role == Admin || user.role == QA) && id !in sys.capas.rows ==>
      r.result == Err(NotFound)
    ensures Committed(r.result) ==>
      && var updated := ApplyUpdate(sys.capas.rows[id], changes, clock.updated);
      && (r.result.Ok? ==> r.result.value == CapaBody(updated))
      && r.state.capas.rows == sys.capas.rows[id := updated]
      && AppendedOne(sys.audit, r.state.audit)
      && WrittenBy(Last(r.state.audit), user, UpdateAction, id, clock.audit)
      && Last(r.state.audit).oldData == Some(RecordData(sys.capas.rows[id]))
      && Last(r.state.audit).newData == Some(RecordData(updated))
    ensures ValidSystem(sys) ==> ValidSystem(r.state)
  {
    var errors := ValidateUpdate(changes);
    if errors != [] then Response(sys, Err(Unprocessable(errors)))
    else if user.role !in EditorRoles then Response(sys, Err(Forbidden))
    else match CapaService.Get(sys.capas, id)
      case None => Response(sys, Err(NotFound))
      case Some(previous) =>
        var (capas, updated) := CapaService.Update(sys.capas, id, changes, clock.updated);
        var (audit, _) := CreateAuditLog(sys.audit, clock.audit, user.id, UpdateAction, CapaEntity, Some(id),
                                         Some(RecordData(previous)), Some(RecordData(updated)), None, None);
        assert audit.entries[..|sys.audit.entries|] == sys.audit.entries;
        if Renderable(updated) then Response(System(capas, audit), Ok(CapaBody(updated)))
        else Response(System(capas, audit), Err(ResponseInvalid))
  }

  /** `delete_capa`. The entry is written first, carrying the record as it
      was, and the record is removed after it; only the audit clock is read.
      A 204 has no body, so nothing is rendered. */
  function DeleteCapa(sys: System, user: User, id: int, clock: Clock): (r: Response)
    ensures r.result.Ok? <==> user.role == Admin && id in sys.capas.rows
    ensures r.result.Err? ==> r.state == sys && r.result.error != ResponseInvalid
    ensures user.role != Admin ==> r.result == Err(Forbidden)
    ensures user.role == Admin && id !in sys.capas.rows ==> r.result == Err(NotFound)
    ensures r.result.Ok? ==>
      && r.result.value == NoContent
      && r.state.capas.rows == sys.capas.rows - {id}
      && AppendedOne(sys.audit, r.state.audit)
      && WrittenBy(Last(r.state.audit), user, DeleteAction, id, clock.audit)
      && Last(r.state.audit).oldData == Some(RecordData(sys.capas.rows[id]))
      && Last(r.state.audit).newData == None
    ensures ValidSystem(sys) ==> ValidSystem(r.state)
  {
    if user.role !in DeleterRoles then Response(sys, Err(Forbidden))
    else match CapaService.Get(sys.capas, id)
      case None => Response(sys, Err(NotFound))
      case Some(capa) =>
        var (audit, _) := CreateAuditLog(sys.audit, clock.audit, user.id, DeleteAction, CapaEntity, Some(id),
                                         Some(RecordData(capa)), None, None, None);
        assert audit.entries[..|sys.audit.entries|] == sys.audit.entries;
        var capas := CapaService.Delete(sys.capas, id);
        assert capas.rows == sys.capas.rows - {id};
        Response(System(capas, audit), Ok(NoContent))
  }
}
