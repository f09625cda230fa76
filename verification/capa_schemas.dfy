/** The request bodies of the CAPA routes and the field constraints the
    request validation enforces on them before any handler runs. */
module CapaSchemas {
  import opened Base
  import opened CapaModel

  const TitleMinLength: nat := 3
  const TitleMaxLength: nat := 200
  const DescriptionMinLength: nat := 10

  /** The body of a create request. It has no status field: a new CAPA
      always starts in the default status. */
  datatype CapaCreate = CapaCreate(
    title: string,
    description: string,
    capaType: CapaType,
    rootCause: Option<string>,
    immediateAction: Option<string>,
    correctiveAction: Option<string>,
    preventiveAction: Option<string>,
    dueDate: Option<Timestamp>,
    assigneeId: int)

  /** The body of an update request: every field may be left out. */
  datatype CapaUpdate = CapaUpdate(
    title: Option<string>,
    description: Option<string>,
    status: Option<CapaStatus>,
    rootCause: Option<string>,
    immediateAction: Option<string>,
    correctiveAction: Option<string>,
    preventiveAction: Option<string>,
    dueDate: Option<Timestamp>,
    assigneeId: Option<int>)

  /** An update that sets nothing. */
  const EmptyUpdate := CapaUpdate(None, None, None, None, None, None, None, None, None)

  datatype SchemaField = Title | Description

  /** One violated length constraint, as reported in a 422 response. */
  datatype ValidationError =
    | TooShort(field: SchemaField, minLength: nat)
    | TooLong(field: SchemaField, maxLength: nat)

  function TitleErrors(title: string): seq<ValidationError>
  {
    if |title| < TitleMinLength then [TooShort(Title, TitleMinLength)]
    else if |title| > TitleMaxLength then [TooLong(Title, TitleMaxLength)]
    else []
  }

  /** Validation of a create body: every violated constraint is reported,
      and the body is accepted exactly when the title has 3 to 200
      characters and the description at least 10. */
  function ValidateCreate(c: CapaCreate): (errors: seq<ValidationError>)
    ensures errors == [] <==>
      TitleMinLength <= |c.title| <= TitleMaxLength && DescriptionMinLength <= |c.description|
    ensures TooShort(Title, TitleMinLength) in errors <==> |c.title| < TitleMinLength
    ensures TooLong(Title, TitleMaxLength) in errors <==> |c.title| > TitleMaxLength
    ensures TooShort(Description, DescriptionMinLength) in errors <==> |c.description| < DescriptionMinLength
  {
    TitleErrors(c.title)
      + (if |c.description| < DescriptionMinLength then [TooShort(Description, DescriptionMinLength)] else [])
  }

  /** Validation of an update body: only a given title is constrained (3 to
      200 characters); the description is never rejected. */
  function ValidateUpdate(u: CapaUpdate): (errors: seq<ValidationError>)
    ensures errors == [] <==> (u.title.Some? ==> TitleMinLength <= |u.title.value| <= TitleMaxLength)
    ensures forall e :: e in errors ==> e.field == Title
  {
    if u.title.Some? then TitleErrors(u.title.value) else []
  }

  /** The two bodies constrain the description differently: a description
      too short for a create body passes in an update body. */
  lemma DescriptionConstraintIsAsymmetric(c: CapaCreate, u: CapaUpdate)
    requires |c.description| < DescriptionMinLength
    requires u.description == Some(c.description) && u.title.None?
    ensures ValidateCreate(c) != [] && ValidateUpdate(u) == []
  {
  }

  /** Validation of an update body as the response schema evidently needs
      it: a given description must also have at least 10 characters, as in
      a create body. */
  function ValidateUpdateIntended(u: CapaUpdate): (errors: seq<ValidationError>)
    ensures errors == [] <==>
      && (u.title.Some? ==> TitleMinLength <= |u.title.value| <= TitleMaxLength)
      && (u.description.Some? ==> DescriptionMinLength <= |u.description.value|)
    ensures TooShort(Description, DescriptionMinLength) in errors <==>
      u.description.Some? && |u.description.value| < DescriptionMinLength
  {
    ValidateUpdate(u)
      + (if u.description.Some? && |u.description.value| < DescriptionMinLength
         then [TooShort(Description, DescriptionMinLength)] else [])
  }

  /** Whether a stored record can be sent back through the response schema,
      which reuses the create body's title and description constraints and
      requires an assignee. */
  predicate Renderable(c: Capa)
  {
    && TitleMinLength <= |c.title| <= TitleMaxLength
    && DescriptionMinLength <= |c.description|
    && c.assigneeId.Some?
  }
}
