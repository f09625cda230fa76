/** The CAPA persistence operations the route handlers call. Their
    implementation (app/services/capa) is not part of this model; they are
    stated here as the plain map operations on the `capas` table that the
    handlers rely on: insert under a fresh key, look up, overwrite the given
    fields, remove, and list a page. */
module CapaService {
  import opened Base
  import opened Sequences
  import opened CapaModel
  import opened CapaSchemas

  /** The table and the next value of its primary-key sequence. */
  datatype CapaTable = CapaTable(rows: map<int, Capa>, nextId: int)

  /** Every row is stored under its own key, and keys are drawn from a
      sequence that starts at 1 and stays ahead of every key in use. */
  predicate ValidTable(t: CapaTable)
  {
    && 1 <= t.nextId
    && forall k :: k in t.rows ==> t.rows[k].id == k && 1 <= k < t.nextId
  }

  const EmptyTable := CapaTable(map[], 1)

  /** The record built from a create body: the body's fields, the status
      default, no closing date, and the readings the two tracking columns'
      defaults take at the insert (each column reads the clock on its own). */
  function NewCapa(id: int, c: CapaCreate, created: Timestamp, updated: Timestamp): (r: Capa)
    ensures r.id == id && r.status == DefaultStatus && r.closedDate == None
    ensures r.createdAt == created && r.updatedAt == updated
    ensures r.title == c.title && r.description == c.description && r.capaType == c.capaType
    ensures r.rootCause == c.rootCause && r.immediateAction == c.immediateAction
    ensures r.correctiveAction == c.correctiveAction && r.preventiveAction == c.preventiveAction
    ensures r.dueDate == c.dueDate && r.assigneeId == Some(c.assigneeId)
  {
    Capa(id, c.title, c.description, c.capaType, DefaultStatus,
         c.rootCause, c.immediateAction, c.correctiveAction, c.preventiveAction,
         created, updated, c.dueDate, None, Some(c.assigneeId))
  }

  /** Stores a new record under the next key; no existing row is touched. */
  function Create(t: CapaTable, c: CapaCreate, created: Timestamp, updated: Timestamp): (r: (CapaTable, Capa))
    ensures r.1 == NewCapa(t.nextId, c, created, updated)
    ensures r.0.rows == t.rows[r.1.id := r.1]
    ensures ValidTable(t) ==> r.1.id !in t.rows && ValidTable(r.0)
  {
    var capa := NewCapa(t.nextId, c, created, updated);
    (CapaTable(t.rows[capa.id := capa], t.nextId + 1), capa)
  }

  /** Looks a record up by key. */
  function Get(t: CapaTable, id: int): (r: Option<Capa>)
    ensures r.Some? <==> id in t.rows
    ensures r.Some? ==> r.value == t.rows[id]
  {
    if id in t.rows then Some(t.rows[id]) else None
  }

  function Override<T>(given: Option<T>, current: T): T
  {
    if given.Some? then given.value else current
  }

  function OverrideOptional<T>(given: Option<T>, current: Option<T>): Option<T>
  {
    if given.Some? then given else current
  }

  /** The record after an update body: the fields the body gives replace the
      record's, the others are kept, and `updated_at` is refreshed. The key,
      the type, the creation time and the closing date are not updatable. */
  function ApplyUpdate(c: Capa, u: CapaUpdate, now: Timestamp): (r: Capa)
    ensures r.id == c.id && r.capaType == c.capaType
    ensures r.createdAt == c.createdAt && r.closedDate == c.closedDate
    ensures r.updatedAt == now
    ensures u.title.Some? ==> r.title == u.title.value
    ensures u.title.None? ==> r.title == c.title
    ensures u.status.Some? ==> r.status == u.status.value
    ensures u.status.None? ==> r.status == c.status
    ensures u.description.Some? ==> r.description == u.description.value
    ensures u.description.None? ==> r.description == c.description
    ensures u.rootCause.Some? ==> r.rootCause == u.rootCause
    ensures u.rootCause.None? ==> r.rootCause == c.rootCause
    ensures u.immediateAction.Some? ==> r.immediateAction == u.immediateAction
    ensures u.immediateAction.None? ==> r.immediateAction == c.immediateAction
    ensures u.correctiveAction.Some? ==> r.correctiveAction == u.correctiveAction
    ensures u.correctiveAction.None? ==> r.correctiveAction == c.correctiveAction
    ensures u.preventiveAction.Some? ==> r.preventiveAction == u.preventiveAction
    ensures u.preventiveAction.None? ==> r.preventiveAction == c.preventiveAction
    ensures u.dueDate.Some? ==> r.dueDate == u.dueDate
    ensures u.dueDate.None? ==> r.dueDate == c.dueDate
    ensures u.assigneeId.Some? ==> r.assigneeId == u.assigneeId
    ensures u.assigneeId.None? ==> r.assigneeId == c.assigneeId
  {
    c.(title := Override(u.title, c.title),
       description := Override(u.description, c.description),
       status := Override(u.status, c.status),
       rootCause := OverrideOptional(u.rootCause, c.rootCause),
       immediateAction := OverrideOptional(u.immediateAction, c.immediateAction),
       correctiveAction := OverrideOptional(u.correctiveAction, c.correctiveAction),
       preventiveAction := OverrideOptional(u.preventiveAction, c.preventiveAction),
       dueDate := OverrideOptional(u.dueDate, c.dueDate),
       assigneeId := OverrideOptional(u.assigneeId, c.assigneeId),
       updatedAt := now)
  }

  /** An update that sets nothing only refreshes `updated_at`. */
  lemma EmptyUpdateOnlyRefreshes(c: Capa, now: Timestamp)
    ensures ApplyUpdate(c, EmptyUpdate, now) == c.(updatedAt := now)
  {
  }

  /** Sending the same update twice at the same time changes nothing more. */
  lemma UpdateIsIdempotent(c: Capa, u: CapaUpdate, now: Timestamp)
    ensures ApplyUpdate(ApplyUpdate(c, u, now), u, now) == ApplyUpdate(c, u, now)
  {
  }

  /** The fields of `first` overridden by those `second` gives. */
  function Merge(first: CapaUpdate, second: CapaUpdate): CapaUpdate
  {
    CapaUpdate(
      OverrideOptional(second.title, first.title),
      OverrideOptional(second.description, first.description),
      OverrideOptional(second.status, first.status),
      OverrideOptional(second.rootCause, first.rootCause),
      OverrideOptional(second.immediateAction, first.immediateAction),
      OverrideOptional(second.correctiveAction, first.correctiveAction),
      OverrideOptional(second.preventiveAction, first.preventiveAction),
      OverrideOptional(second.dueDate, first.dueDate),
      OverrideOptional(second.assigneeId, first.assigneeId))
  }

  /** Two updates in a row act as one merged update at the later time: the
      later body wins on every field it gives. */
  lemma UpdatesCompose(c: Capa, first: CapaUpdate, second: CapaUpdate, t1: Timestamp, t2: Timestamp)
    ensures ApplyUpdate(ApplyUpdate(c, first, t1), second, t2) == ApplyUpdate(c, Merge(first, second), t2)
  {
  }

  /** A record built from an accepted create body can be rendered. */
  lemma CreatedRecordIsRenderable(id: int, c: CapaCreate, created: Timestamp, updated: Timestamp)
    requires ValidateCreate(c) == []
    ensures Renderable(NewCapa(id, c, created, updated))
  {
  }

  /** An update accepted by the intended validation keeps a renderable
      record renderable. */
  lemma IntendedUpdateKeepsRenderable(c: Capa, u: CapaUpdate, now: Timestamp)
    requires Renderable(c) && ValidateUpdateIntended(u) == []
    ensures Renderable(ApplyUpdate(c, u, now))
  {
  }

  /** An update accepted by the validation as written can make a renderable
      record unrenderable: a short description passes it. */
  lemma ShortDescriptionPassesUpdate(c: Capa, now: Timestamp)
    requires Renderable(c)
    ensures var u := EmptyUpdate.(description := Some("short"));
            ValidateUpdate(u) == [] && !Renderable(ApplyUpdate(c, u, now))
  {
  }

  /** Overwrites the record under `id` with its updated version. */
  function Update(t: CapaTable, id: int, u: CapaUpdate, now: Timestamp): (r: (CapaTable, Capa))
    requires id in t.rows
    ensures r.1 == ApplyUpdate(t.rows[id], u, now)
    ensures r.0.rows == t.rows[id := r.1] && r.0.nextId == t.nextId
    ensures ValidTable(t) ==> ValidTable(r.0)
  {
    var updated := ApplyUpdate(t.rows[id], u, now);
    (CapaTable(t.rows[id := updated], t.nextId), updated)
  }

  /** Removes the record under `id`; every other row stays as it was. */
  function Delete(t: CapaTable, id: int): (r: CapaTable)
    ensures id !in r.rows
    ensures forall k :: k in r.rows <==> k in t.rows && k != id
    ensures forall k :: k in r.rows ==> r.rows[k] == t.rows[k]
    ensures ValidTable(t) ==> ValidTable(r)
  {
    CapaTable(t.rows - {id}, t.nextId)
  }

  /** The keys in `rows` from `lo` up to (not including) `hi`, ascending. */
  function KeysBetween(rows: map<int, Capa>, lo: int, hi: int): (r: seq<int>)
    ensures forall k :: k in r <==> k in rows && lo <= k < hi
    ensures forall i, j :: 0 <= i < j < |r| ==> r[i] < r[j]
    decreases hi - lo
  {
    if lo >= hi then []
    else
      var rest := KeysBetween(rows, lo + 1, hi);
      assert forall j :: 0 <= j < |rest| ==> lo < rest[j] by {
        forall j | 0 <= j < |rest|
          ensures lo < rest[j]
        {
          assert rest[j] in rest;
        }
      }
      (if lo in rows then [lo] else []) + rest
  }

  /** The records under the given keys, in the same order. */
  function RowsAt(rows: map<int, Capa>, keys: seq<int>): (r: seq<Capa>)
    requires forall i :: 0 <= i < |keys| ==> keys[i] in rows
    ensures |r| == |keys|
    ensures forall i :: 0 <= i < |keys| ==> r[i] == rows[keys[i]]
  {
    if keys == [] then [] else [rows[keys[0]]] + RowsAt(rows, keys[1..])
  }

  /** All records of a table in ascending key order. */
  function AllRows(t: CapaTable): (r: seq<Capa>)
    ensures ValidTable(t) ==> forall i :: 0 <= i < |r| ==> r[i].id in t.rows && t.rows[r[i].id] == r[i]
    ensures ValidTable(t) ==> forall i, j :: 0 <= i < j < |r| ==> r[i].id < r[j].id
  {
    var keys := KeysBetween(t.rows, 1, t.nextId);
    assert forall i :: 0 <= i < |keys| ==> keys[i] in t.rows by {
      forall i | 0 <= i < |keys|
        ensures keys[i] in t.rows
      {
        assert keys[i] in keys;
      }
    }
    RowsAt(t.rows, keys)
  }

  /** A page of the records, in ascending key order: at most `limit` of
      them, each a stored row under its own key. */
  function List(t: CapaTable, skip: nat, limit: nat): (r: seq<Capa>)
    ensures |r| <= limit
    ensures ValidTable(t) ==> forall c :: c in r ==> c.id in t.rows && t.rows[c.id] == c
    ensures ValidTable(t) ==> forall i, j :: 0 <= i < j < |r| ==> r[i].id < r[j].id
  {
    var all := AllRows(t);
    var r := Page(all, skip, limit);
    assert forall c :: c in r ==> c in all;
    r
  }

  /** A page large enough for the whole table lists every record. */
  lemma ListIsComplete(t: CapaTable, limit: nat, k: int)
    requires ValidTable(t) && k in t.rows
    requires t.nextId <= limit
    ensures t.rows[k] in List(t, 0, limit)
  {
    var keys := KeysBetween(t.rows, 1, t.nextId);
    KeysBetweenIsShort(t.rows, 1, t.nextId);
    assert k in keys;
    var i :| 0 <= i < |keys| && keys[i] == k;
    WholePage(AllRows(t), limit);
    assert AllRows(t)[i] == t.rows[k];
  }

  lemma {:induction false} KeysBetweenIsShort(rows: map<int, Capa>, lo: int, hi: int)
    requires lo <= hi
    ensures |KeysBetween(rows, lo, hi)| <= hi - lo
    decreases hi - lo
  {
    if lo < hi {
      KeysBetweenIsShort(rows, lo + 1, hi);
    }
  }
}
