/** CAPA records (the `capas` table): the status and type enumerations and
    the columns of a record. */
module CapaModel {
  import opened Base

  /** The lifecycle states of a CAPA. */
  datatype CapaStatus = Draft | Open | InProgress | PendingReview | Closed

  /** Corrective or preventive. */
  datatype CapaType = Corrective | Preventive

  /** The status a record gets when none is given. */
  const DefaultStatus: CapaStatus := Draft

  function StatusValue(s: CapaStatus): string
  {
    match s
    case Draft => "draft"
    case Open => "open"
    case InProgress => "in_progress"
    case PendingReview => "pending_review"
    case Closed => "closed"
  }

  /** Reading a status from a request body: exactly the five status values
      are accepted, each as the status it is the value of. */
  function ParseStatus(s: string): (r: Option<CapaStatus>)
    ensures r.Some? ==> StatusValue(r.value) == s
    ensures forall st :: StatusValue(st) == s ==> r == Some(st)
    ensures r.Some? <==> s in {"draft", "open", "in_progress", "pending_review", "closed"}
  {
    if s == "draft" then Some(Draft)
    else if s == "open" then Some(Open)
    else if s == "in_progress" then Some(InProgress)
    else if s == "pending_review" then Some(PendingReview)
    else if s == "closed" then Some(Closed)
    else None
  }

  function TypeValue(t: CapaType): string
  {
    match t
    case Corrective => "corrective"
    case Preventive => "preventive"
  }

  /** Reading a type from a request body: exactly the two type values are
      accepted. */
  function ParseType(s: string): (r: Option<CapaType>)
    ensures r.Some? ==> TypeValue(r.value) == s
    ensures forall t :: TypeValue(t) == s ==> r == Some(t)
    ensures r.Some? <==> s in {"corrective", "preventive"}
  {
    if s == "corrective" then Some(Corrective)
    else if s == "preventive" then Some(Preventive)
    else None
  }

  /** One row of `capas`. `title`, `description`, `capa_type` and `status`
      are NOT NULL; the action texts and the due and closing dates may be
      absent. `created_at`/`updated_at` are always filled by their column
      defaults, so they are plain fields here. */
  datatype Capa = Capa(
    id: int,
    title: string,
    description: string,
    capaType: CapaType,
    status: CapaStatus,
    rootCause: Option<string>,
    immediateAction: Option<string>,
    correctiveAction: Option<string>,
    preventiveAction: Option<string>,
    createdAt: Timestamp,
    updatedAt: Timestamp,
    dueDate: Option<Timestamp>,
    closedDate: Option<Timestamp>,
    assigneeId: Option<int>)
}
