# QMS audit trail and CAPA routes — a Dafny model

This project models the core of a quality-management backend. That core is
made of three parts:

- the 21 CFR Part 11 style **audit trail**: an append-only `audit_logs`
  table, one write path that adds an entry, and a filtered, newest-first,
  paginated read path;
- the **CAPA route handlers** (create, list, get, update, delete of
  corrective and preventive actions): request validation, role gates, 404
  handling, response-schema checks, and the audit entry each mutation
  writes;
- the **records and request bodies** they work on: the `capas` and `users`
  tables and the CAPA create/update schemas.

Everything is pure functions over immutable values. A request becomes a
transition from one `System` value (the `capas` table plus the audit trail)
to another, paired with an HTTP result. A request carries three
independent clock readings (`Clock`): the `created_at` and `updated_at`
column defaults each read the clock on their own when a CAPA row is
inserted (an update refreshes only `updated_at`), and the audit entry's
default reads it again in a separate write. Snapshots
in audit entries are typed values compared for equality, not JSON.

Modules, in dependency order:

- `Base`: `Option`, `Result`, timestamps.
- `Sequences`: filtering, offset/limit paging, and a descending sort, with
  their lemmas.
- `Audit`: `audit_logs`, `create_audit_log` and `get_audit_trail`.
- `UserModel`: roles and the `users` table.
- `CapaModel`: CAPA status, type and record.
- `CapaSchemas`: create/update bodies, field constraints, and `Renderable`,
  the constraint `CAPAResponse` puts on a record sent back (a 500 when it
  fails).
- `CapaService`: the table operations the handlers call.
- `CapaRoutes`: the five handlers.
- `CapaTrace`: dispatch of arbitrary request sequences, and the properties of
  whole runs.

The main whole-run properties are:

- the trail is append-only;
- there is exactly one entry per mutation that took effect (including an
  update answered with 500), and none for a refusal or a read;
- replaying the trail accounts for the current table: exactly for a record
  last written by an update, and up to its `created_at`/`updated_at` for a
  record only ever created, since a create entry carries the request body
  and not the row's timestamps.

## Model

| member | source | states |
|---|---|---|
| Audit.EmptyStore | backend/app/utils/audit.py:9-21 | a new audit table has no entries and satisfies the key invariant |
| Audit.IdsAreUnique | backend/app/utils/audit.py:12 | in a valid store no two entries share a primary key |
| Audit.CreateAuditLog | backend/app/utils/audit.py:26-70 | the new entry carries every caller field verbatim, gets the next key (fresh in a valid store) and the store's timestamp, is appended after all existing entries which stay unchanged, and the key invariant is preserved |
| Audit.ApplyFilters | backend/app/utils/audit.py:88-99 | an entry is kept, exactly as many times as stored, iff it satisfies every truthy filter (NULL entity_id never matches, inclusive time range); nothing else is kept |
| Audit.ByEntityType | backend/app/utils/audit.py:90-91 | with a non-empty entity type, keeps exactly the entries of that type, with multiplicity; otherwise keeps everything |
| Audit.ByEntityId | backend/app/utils/audit.py:92-93 | with a non-zero entity id, keeps exactly the entries whose entity_id equals it; otherwise keeps everything |
| Audit.ByUser | backend/app/utils/audit.py:94-95 | with a non-zero user id, keeps exactly that user's entries; otherwise keeps everything |
| Audit.FromStart | backend/app/utils/audit.py:96-97 | with a start date, keeps exactly the entries at or after it |
| Audit.UntilEnd | backend/app/utils/audit.py:98-99 | with an end date, keeps exactly the entries at or before it |
| Audit.GetAuditTrail | backend/app/utils/audit.py:72-101 | a result has at most `limit` entries, each one stored and matching the query, in non-increasing timestamp order |
| Audit.PagesTile | backend/app/utils/audit.py:101 | consecutive offset/limit pages concatenate to the larger page: no overlap, no gap |
| Audit.FirstPageIsComplete | backend/app/utils/audit.py:72-101 | a first page covering the ledger holds every matching entry with its stored multiplicity and nothing else |
| Audit.EveryMatchIsOnSomePage | backend/app/utils/audit.py:101 | every matching entry appears on some page, for any positive page size |
| Audit.TieOrderIrrelevant | backend/app/utils/audit.py:101 | any newest-first order of the matching entries gives every page the same timestamps, so the unspecified tie order only permutes equal-timestamp entries |
| Audit.FalsyFiltersAreIgnored | backend/app/utils/audit.py:90-95 | an empty entity type and zero entity/user ids give the same result as no filters |
| Audit.AppendedEntryIsRetrievable | backend/app/utils/audit.py:55-70 | right after an append, a matching query returns the new entry with the snapshots as supplied |
| Sequences.Filter | backend/app/utils/audit.py:88-99 | keeps exactly the elements satisfying the predicate, each with its original multiplicity |
| Sequences.Page | backend/app/utils/audit.py:101 | offset/limit: the result is the `limit`-bounded slice starting at `skip`, empty past the end |
| Sequences.PagesAdjoin | backend/app/utils/audit.py:101 | two adjacent slices join into one |
| Sequences.WholePage | backend/app/utils/audit.py:101 | a limit at least the length returns the whole sequence from offset 0 |
| Sequences.InsertDesc | backend/app/utils/audit.py:101 | inserting into a newest-first sequence keeps it newest-first and adds exactly that element |
| Sequences.SortDesc | backend/app/utils/audit.py:101 | the result is non-increasing by key and a permutation of the input |
| Sequences.KeysOfPermutation | backend/app/utils/audit.py:101 | permuted sequences have permuted key sequences |
| Sequences.DescendingUnique | backend/app/utils/audit.py:101 | two descending key sequences with the same multiset are equal |
| Sequences.SortedKeysAgree | backend/app/utils/audit.py:101 | two newest-first arrangements of the same entries have identical key sequences |
| Sequences.KeysOfPage | backend/app/utils/audit.py:101 | the keys of a page are the page of the keys |
| UserModel.ParseRole | backend/app/models/user.py:8-11 | exactly "admin", "qa" and "analyst" parse, each back to the role that serialises to it |
| UserModel.CreateUser | backend/app/models/user.py:13-24 | the insert succeeds iff e-mail and username are both unused; it stores the given columns, defaults role to ANALYST and is_active to true, and preserves key and uniqueness invariants |
| UserModel.LoginsIdentifyUsers | backend/app/models/user.py:17-18 | in a valid table an e-mail or a username identifies one user |
| CapaModel.ParseStatus | backend/app/models/capa.py:8-13 | exactly the five status strings parse, each back to the status that serialises to it |
| CapaModel.ParseType | backend/app/models/capa.py:15-17 | exactly "corrective" and "preventive" parse, each back to its type |
| CapaSchemas.ValidateCreate | backend/app/schemas/capa.py:6-17 | a create body is accepted iff the title has 3..200 characters and the description at least 10; each violated bound is reported |
| CapaSchemas.ValidateUpdate | backend/app/schemas/capa.py:19-28 | an update body is accepted iff any given title has 3..200 characters; only the title is ever reported |
| CapaSchemas.DescriptionConstraintIsAsymmetric | backend/app/schemas/capa.py:8-21 | a description too short for a create body is accepted in an update body |
| CapaSchemas.ValidateUpdateIntended | backend/app/schemas/capa.py:30-36 | the corrected update validation: accepted iff any given title has 3..200 characters and any given description at least 10 |
| CapaService.NewCapa | backend/app/models/capa.py:19-39 | a created record takes the body's fields, status DRAFT by default, no closed date, and its own clock reading in each of created_at and updated_at |
| CapaService.Create | backend/app/models/capa.py:22 | a new record is stored under the next key, which is fresh in a valid table; other rows are untouched |
| CapaService.Get | backend/app/api/routes/capa.py:56-62 | a lookup finds a record iff its key is stored, and returns that row |
| CapaService.ApplyUpdate | backend/app/models/capa.py:22-36 | an update keeps id, type, created_at and closed_date, sets updated_at to the update time, and replaces exactly the given fields |
| CapaService.EmptyUpdateOnlyRefreshes | backend/app/schemas/capa.py:19-28 | an update body giving no field only refreshes updated_at |
| CapaService.UpdateIsIdempotent | backend/app/schemas/capa.py:19-28 | applying the same update twice at the same time equals applying it once |
| CapaService.UpdatesCompose | backend/app/schemas/capa.py:19-28 | two successive updates equal one merged update in which the later body wins field by field |
| CapaService.CreatedRecordIsRenderable | backend/app/schemas/capa.py:6-36 | a record created from an accepted body satisfies the response schema |
| CapaService.IntendedUpdateKeepsRenderable | backend/app/schemas/capa.py:19-36 | an update accepted by the corrected validation keeps a record within the response schema |
| CapaService.ShortDescriptionPassesUpdate | backend/app/schemas/capa.py:19-36 | the update validation as written accepts a short description that takes a record outside the response schema |
| CapaService.Update | backend/app/api/routes/capa.py:83 | the row under the id is replaced by its updated version and no other row changes |
| CapaService.Delete | backend/app/api/routes/capa.py:125 | the id is removed, every other row is kept unchanged, and the invariant is preserved |
| CapaService.List | backend/app/api/routes/capa.py:40-48 | a listing has at most `limit` records, each a stored row, in ascending key order |
| CapaService.ListIsComplete | backend/app/api/routes/capa.py:40-48 | a page from offset 0 covering the key range lists every stored record |
| CapaRoutes.CreateCapa | backend/app/api/routes/capa.py:16-38 | succeeds iff the body is valid and the role is ADMIN or QA (422 before 403); a refusal changes nothing and a create never answers 500; success stores a DRAFT record whose created_at and updated_at are the two column-default readings under a fresh key, which the response schema accepts, and appends one CREATE_CAPA entry by the caller stamped by the audit clock, carrying the body as new data and no old data |
| CapaRoutes.ListCapas | backend/app/api/routes/capa.py:40-48 | nothing is written; any user gets exactly the service's page for `skip`/`limit` (at most `limit` stored records) iff every record on it passes the response schema, and 500 otherwise; a valid table of renderable records always answers 200 |
| CapaRoutes.GetCapa | backend/app/api/routes/capa.py:50-63 | nothing is written; any user gets the stored record iff it exists and passes the response schema, 404 when the id is absent and 500 when the record fails the schema |
| CapaRoutes.UpdateCapa | backend/app/api/routes/capa.py:65-96 | the update takes effect iff the body is valid, the role is ADMIN or QA and the id is stored (422, then 403, then 404, each changing nothing); it then replaces the row (updated_at from its column default's reading) and appends one UPDATE_CAPA entry with the old and new record, and answers 200 iff the new record passes the response schema, 500 otherwise |
| CapaRoutes.DeleteCapa | backend/app/api/routes/capa.py:98-125 | succeeds iff the role is ADMIN and the id is stored (403 before 404); success removes the row and appends one DELETE_CAPA entry carrying the record as old data and no new data |
| CapaTrace.Handle | backend/app/api/routes/capa.py:16-125 | reads and refusals leave the state unchanged; a mutation that takes effect (even one answered with 500) appends exactly one CAPA entry stamped by the audit clock and naming the caller, the action and the record; validity is preserved |
| CapaTrace.EveryMutationIsAudited | backend/app/api/routes/capa.py:29-36 | over any request sequence, earlier entries are kept, and the new entries correspond one-to-one, in order, to the mutations that took effect (user, action, record) |
| CapaTrace.CreateTrailOmitsInsertTime | backend/app/api/routes/capa.py:26-36 | two creates differing only in the row's two clock readings leave the same trail but records with those different `created_at`/`updated_at` |
| CapaTrace.HandlePreservesReconstruction | backend/app/api/routes/capa.py:86-125 | if the trail accounts for the table before a request, it does after it too, whatever any of its clock readings are |
| CapaTrace.ReplayPreservesReconstruction | backend/app/api/routes/capa.py:16-125 | the same holds across any request sequence |
| CapaTrace.TrailReconstructsTable | backend/app/api/routes/capa.py:16-125 | from an empty system, after any requests, the latest audit entry per record gives the stored record exactly when it is an update, the record a create of that body makes with some `created_at` and some (possibly different) `updated_at` when it is a create, and absence otherwise; the state stays valid |
| CapaTrace.ReplayPreservesValidity | backend/app/api/routes/capa.py:16-125 | key invariants of both tables hold after any request sequence |
| CapaTrace.ListedPageIsTheTable | backend/app/api/routes/capa.py:40-48 | in a reachable state whose records all render, a list from offset 0 with a covering limit answers 200 with every stored record, only stored records, in ascending key order |
| CapaTrace.CreatedCapaIsReadable | backend/app/api/routes/capa.py:50-63 | a created record reads back, by any user, as it was returned |
| CapaTrace.DeletedCapaIsGone | backend/app/api/routes/capa.py:108-125 | after a successful delete, reading that id answers 404 |
| CapaTrace.CreateIsInRecordHistory | backend/app/api/routes/capa.py:29-36 | the audit query for a record's history finds the entry its create wrote, carrying the body |
| CapaTrace.UpdateCanStoreUnrenderableRecord | backend/app/api/routes/capa.py:65-96 | as written, an editor's update with a short description takes effect and is audited, yet answers 500, and later reads of that record answer 500 too |
| CapaTrace.IntendedValidationKeepsRecordsRenderable | backend/app/schemas/capa.py:19-36 | under the corrected update validation, from a valid state whose records all pass the response schema, every request keeps them so and none answers 500 |

## Findings

| source | as written | input that shows it | evidently intended | confidence | as-written member | corrected member |
|---|---|---|---|---|---|---|
| backend/app/schemas/capa.py:21 | the update body's description has no length constraint, but the response schema (inheriting line 8) requires at least 10 characters | an ADMIN sends `PUT /api/capa/{id}` with `{"description": "short"}` for a stored record; validation passes, the row is updated and UPDATE_CAPA is audited, then the reply and every later read of that record fail response validation (500) | an update's description obeys the same minimum of 10 characters as a create's | medium, not executed | CapaTrace.UpdateCanStoreUnrenderableRecord | CapaTrace.IntendedValidationKeepsRecordsRenderable |

The route model `CapaRoutes.UpdateCapa` keeps the validation as written
(`CapaSchemas.ValidateUpdate`), so its 422 behaviour matches the code. The
corrected validation `CapaSchemas.ValidateUpdateIntended` is the one the
renderability invariant `CapaTrace.AllRenderable` relies on.

## Left out

- Database sessions, commits, refreshes and transactions. Each handler is one atomic step here. In the code the CAPA row is written by the service (which must at least flush it to obtain its id) before the audit write commits, and the delete runs after the audit commit, so a failure between the two could leave an unaudited change or an audited delete that did not happen. Persistence failures are not modelled.
- Concurrency and the atomicity of key allocation: requests are processed one after another.
- The wall clock: each request's readings (`Clock.created` and `Clock.updated` for the CAPA row's two tracking columns, `Clock.audit` for the audit entry) are parameters, unrelated to each other, and nothing assumes they are monotonic.
- Parsing of request bodies: bodies arrive as typed values, so the 422s for a missing `capa_type` or `assignee_id`, an unknown status or type string, or a field of the wrong JSON type are not modelled; `ParseStatus`, `ParseType` and `ParseRole` state which enum strings a body may carry.
- The database stores enum columns by member name (`ADMIN`, `IN_PROGRESS`), not by the lower-case values the JSON bodies use; only the JSON values are modelled.
- JSON serialisation of snapshots (`.dict()`), and how the ORM aliases the object read before an update with the one after it. A snapshot is the record value as it was at that point.
- The implementation of `CAPAService` and of `check_permission`: they are not part of this model. The service is modelled as plain map operations. The permission check is modelled as role membership answering 403. The creating user's id, which the create handler passes to the service, has no visible effect on the record and is not modelled.
- CapaService.List: the order of `get_capas` is not visible. Ascending key order is assumed.
- CapaService.ApplyUpdate: `updated_at` is refreshed on every successful update, even one that changes no column. The column's `onupdate` default fires only when an UPDATE statement is actually issued, and whether the unseen service issues one then is not visible.
- CapaService.ApplyUpdate: an update body field explicitly set to null is not told apart from an omitted field. Both leave the column unchanged.
- Authentication (`get_current_user`): the caller is given as a `User`, and inactive users are not refused here.
- Request provenance: the handlers pass no IP address or user agent, and the model records none for them.
- The `assignee`, `signatures` and `attachments` relations in the detail response, and foreign-key checks on `assignee_id` and `user_id`. `GetCapa` checks only the `CAPAResponse` part of the detail schema, so a record whose assignee cannot be rendered is not answered with 500 here.
- Audit.GetAuditTrail: negative `skip`/`limit` are not modelled (both are `nat`). The code does not check them.
- CapaRoutes.ListCapas: negative `skip`/`limit` are not modelled (both are `nat`, as in `CapaTrace.ListRequest`). The route declares them as plain integers and does not check them; what they do is up to the service and the database, neither of which is part of this model.
- Audit.GetAuditTrail: entries with equal timestamps are not ordered by id. The code leaves that order to the database. The model fixes one tie order, and `Audit.TieOrderIrrelevant` bounds what any other tie order can change.
- Audit.CreateAuditLog: `user_id`, `action` and `entity_type` are not checked for emptiness, because the code does not check them.
- Everything outside the audit store, the CAPA routes and their records: other routes, documents, signatures, the frontend, application start-up and database setup.
