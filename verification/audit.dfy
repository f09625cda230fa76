/** The audit trail: an append-only ledger of audit entries (the
    `audit_logs` table), the single write path that adds an entry, and the
    filtered, newest-first, paginated read path.

    The store is generic in the snapshot type `S`: the old/new entity
    snapshots are kept as opaque values that are only ever compared for
    equality (the JSON columns). */
module Audit {
  import opened Base
  import opened Sequences

  /** One row of the audit trail. `id` and `timestamp` are assigned by the
      store; every other field is exactly what the caller supplied. The
      mandatory columns (`user_id`, `action`, `entity_type`) are plain fields,
      the nullable ones are `Option`s. */
  datatype AuditEntry<S> = AuditEntry(
    id: int,
    timestamp: Timestamp,
    userId: int,
    action: string,
    entityType: string,
    entityId: Option<int>,
    oldData: Option<S>,
    newData: Option<S>,
    ipAddress: Option<string>,
    userAgent: Option<string>)

  /** The ledger in append order, and the next value of the primary-key
      sequence. */
  datatype AuditStore<S> = AuditStore(entries: seq<AuditEntry<S>>, nextId: int)

  /** A fresh table: no rows, and a key sequence that starts at 1. */
  function EmptyStore<S>(): (st: AuditStore<S>)
    ensures |st.entries| == 0 && Valid(st)
  {
    AuditStore([], 1)
  }

  /** Keys are handed out in increasing order and the sequence is always
      ahead of every key in use, so no key is ever handed out twice. */
  predicate Valid<S>(st: AuditStore<S>)
  {
    && (forall i, j :: 0 <= i < j < |st.entries| ==> st.entries[i].id < st.entries[j].id)
    && (forall i :: 0 <= i < |st.entries| ==> st.entries[i].id < st.nextId)
  }

  /** In a valid store the primary key identifies one row. */
  lemma IdsAreUnique<S>(st: AuditStore<S>, i: nat, j: nat)
    requires Valid(st)
    requires i < |st.entries| && j < |st.entries| && i != j
    ensures st.entries[i].id != st.entries[j].id
  {
  }

  /** `create_audit_log`: stores one new entry built from the caller's fields,
      with the next key and the store clock's reading `now`. */
  function CreateAuditLog<S>(
    st: AuditStore<S>,
    now: Timestamp,
    userId: int,
    action: string,
    entityType: string,
    entityId: Option<int>,
    oldData: Option<S>,
    newData: Option<S>,
    ipAddress: Option<string>,
    userAgent: Option<string>
  ): (r: (AuditStore<S>, AuditEntry<S>))
    // the caller's fields are stored verbatim
    ensures r.1.userId == userId && r.1.action == action && r.1.entityType == entityType
    ensures r.1.entityId == entityId && r.1.oldData == oldData && r.1.newData == newData
    ensures r.1.ipAddress == ipAddress && r.1.userAgent == userAgent
    // only the key and the timestamp come from the store
    ensures r.1.id == st.nextId && r.1.timestamp == now
    ensures Valid(st) ==> forall e :: e in st.entries ==> e.id != r.1.id
    // exactly one entry is added, after every existing one, which stays as it was
    ensures r.0.entries == st.entries + [r.1]
    ensures forall i :: 0 <= i < |st.entries| ==> r.0.entries[i] == st.entries[i]
    ensures Valid(st) ==> Valid(r.0)
  {
    var entry := AuditEntry(st.nextId, now, userId, action, entityType, entityId,
                            oldData, newData, ipAddress, userAgent);
    (AuditStore(st.entries + [entry], st.nextId + 1), entry)
  }

  /** The optional filters of `get_audit_trail`. */
  datatype AuditQuery = AuditQuery(
    entityType: Option<string>,
    entityId: Option<int>,
    userId: Option<int>,
    startDate: Option<Timestamp>,
    endDate: Option<Timestamp>)

  /** A query with no filter at all. */
  const NoFilters := AuditQuery(None, None, None, None, None)

  /** Python truthiness of an optional string: absent and empty are falsy. */
  predicate TextGiven(o: Option<string>)
  {
    o.Some? && o.value != ""
  }

  /** Python truthiness of an optional integer: absent and zero are falsy. */
  predicate IdGiven(o: Option<int>)
  {
    o.Some? && o.value != 0
  }

  /** The meaning of a query: an entry satisfies every filter that is given.
      An entity-id filter never matches a row whose `entity_id` is NULL, and
      both ends of the time range are inclusive. */
  predicate Matches<S>(q: AuditQuery, e: AuditEntry<S>)
  {
    && (TextGiven(q.entityType) ==> e.entityType == q.entityType.value)
    && (IdGiven(q.entityId) ==> e.entityId == Some(q.entityId.value))
    && (IdGiven(q.userId) ==> e.userId == q.userId.value)
    && (q.startDate.Some? ==> q.startDate.value <= e.timestamp)
    && (q.endDate.Some? ==> e.timestamp <= q.endDate.value)
  }

  /** One conditional `query.filter(...)`: narrows `s` to `keep` only when the
      filter value was given. */
  function Narrow<S(!new)>(s: seq<AuditEntry<S>>, given: bool, keep: AuditEntry<S> -> bool): (r: seq<AuditEntry<S>>)
    ensures forall e :: multiset(r)[e] == if !given || keep(e) then multiset(s)[e] else 0
  {
    if given then Filter(s, keep) else s
  }

  function ByEntityType<S(!new)>(s: seq<AuditEntry<S>>, q: AuditQuery): (r: seq<AuditEntry<S>>)
    ensures forall e :: multiset(r)[e] ==
                          if TextGiven(q.entityType) ==> e.entityType == q.entityType.value then multiset(s)[e] else 0
  {
    var t := if q.entityType.Some? then q.entityType.value else "";
    Narrow(s, TextGiven(q.entityType), (e: AuditEntry<S>) => e.entityType == t)
  }

  function ByEntityId<S(!new)>(s: seq<AuditEntry<S>>, q: AuditQuery): (r: seq<AuditEntry<S>>)
    ensures forall e :: multiset(r)[e] ==
                          if IdGiven(q.entityId) ==> e.entityId == Some(q.entityId.value) then multiset(s)[e] else 0
  {
    var id := if q.entityId.Some? then q.entityId.value else 0;
    Narrow(s, IdGiven(q.entityId), (e: AuditEntry<S>) => e.entityId == Some(id))
  }

  function ByUser<S(!new)>(s: seq<AuditEntry<S>>, q: AuditQuery): (r: seq<AuditEntry<S>>)
    ensures forall e :: multiset(r)[e] ==
                          if IdGiven(q.userId) ==> e.userId == q.userId.value then multiset(s)[e] else 0
  {
    var u := if q.userId.Some? then q.userId.value else 0;
    Narrow(s, IdGiven(q.userId), (e: AuditEntry<S>) => e.userId == u)
  }

  function FromStart<S(!new)>(s: seq<AuditEntry<S>>, q: AuditQuery): (r: seq<AuditEntry<S>>)
    ensures forall e :: multiset(r)[e] ==
                          if q.startDate.Some? ==> q.startDate.value <= e.timestamp then multiset(s)[e] else 0
  {
    var lo := if q.startDate.Some? then q.startDate.value else 0;
    Narrow(s, q.startDate.Some?, (e: AuditEntry<S>) => lo <= e.timestamp)
  }

  function UntilEnd<S(!new)>(s: seq<AuditEntry<S>>, q: AuditQuery): (r: seq<AuditEntry<S>>)
    ensures forall e :: multiset(r)[e] ==
                          if q.endDate.Some? ==> e.timestamp <= q.endDate.value then multiset(s)[e] else 0
  {
    var hi := if q.endDate.Some? then q.endDate.value else 0;
    Narrow(s, q.endDate.Some?, (e: AuditEntry<S>) => e.timestamp <= hi)
  }

  /** The query is narrowed one filter at a time, each only when its value is
      truthy; the result holds exactly the matching entries, each as often as
      it is stored. */
  function ApplyFilters<S(!new)>(entries: seq<AuditEntry<S>>, q: AuditQuery): (r: seq<AuditEntry<S>>)
    ensures forall e :: multiset(r)[e] == if Matches(q, e) then multiset(entries)[e] else 0
    ensures forall e :: e in r <==> e in entries && Matches(q, e)
  {
    var r := UntilEnd(FromStart(ByUser(ByEntityId(ByEntityType(entries, q), q), q), q), q);
    assert forall e :: e in r <==> multiset(r)[e] > 0;
    r
  }

  /** The ordering key: the timestamp alone, most recent first. */
  function TimestampOf<S>(e: AuditEntry<S>): int
  {
    e.timestamp
  }

  /** The matching entries, newest first. Entries with equal timestamps come
      out in one fixed order here; the database leaves that order open, and
      `TieOrderIrrelevant` shows no page depends on it beyond its timestamps. */
  function Ordered<S(!new)>(entries: seq<AuditEntry<S>>, q: AuditQuery): seq<AuditEntry<S>>
  {
    SortDesc(ApplyFilters(entries, q), TimestampOf)
  }

  /** Only stored, matching entries are among the ordered matches. */
  lemma OrderedAreMatches<S(!new)>(entries: seq<AuditEntry<S>>, q: AuditQuery, e: AuditEntry<S>)
    requires e in Ordered(entries, q)
    ensures e in entries && Matches(q, e)
  {
    var filtered := ApplyFilters(entries, q);
    assert e in multiset(SortDesc(filtered, TimestampOf));
    assert e in multiset(filtered);
  }

  /** `get_audit_trail`: filter, order by descending timestamp, then skip
      `skip` entries and return at most `limit`. */
  function GetAuditTrail<S(!new)>(st: AuditStore<S>, q: AuditQuery, skip: nat, limit: nat): (r: seq<AuditEntry<S>>)
    ensures |r| <= limit
    ensures forall e :: e in r ==> e in st.entries && Matches(q, e)
    ensures NonIncreasing(r, TimestampOf)
  {
    var all := Ordered(st.entries, q);
    var r := Page(all, skip, limit);
    PageKeepsOrder(all, skip, limit, TimestampOf);
    forall e | e in r
      ensures e in st.entries && Matches(q, e)
    {
      OrderedAreMatches(st.entries, q, e);
    }
    r
  }

  /** Consecutive pages neither overlap nor leave a gap: the page at `skip`
      of size `a` followed by the page at `skip + a` of size `b` is the page
      at `skip` of size `a + b`. */
  lemma PagesTile<S(!new)>(st: AuditStore<S>, q: AuditQuery, skip: nat, a: nat, b: nat)
    ensures GetAuditTrail(st, q, skip, a) + GetAuditTrail(st, q, skip + a, b)
         == GetAuditTrail(st, q, skip, a + b)
  {
    PagesAdjoin(Ordered(st.entries, q), skip, a, b);
  }

  /** The ordered matches are the filtered entries rearranged, and no more
      numerous than the ledger. */
  lemma OrderedIsFiltered<S(!new)>(entries: seq<AuditEntry<S>>, q: AuditQuery)
    ensures multiset(Ordered(entries, q)) == multiset(ApplyFilters(entries, q))
    ensures |Ordered(entries, q)| <= |entries|
  {
    var filtered := ApplyFilters(entries, q);
    assert multiset(filtered) <= multiset(entries);
    assert |filtered| == |multiset(filtered)| <= |multiset(entries)| == |entries|;
    assert |Ordered(entries, q)| == |multiset(Ordered(entries, q))|;
  }

  /** With a page size covering the whole ledger, the first page holds every
      matching entry exactly as often as it is stored, and nothing else. */
  lemma FirstPageIsComplete<S(!new)>(st: AuditStore<S>, q: AuditQuery, limit: nat)
    requires |st.entries| <= limit
    ensures forall e :: multiset(GetAuditTrail(st, q, 0, limit))[e]
                     == if Matches(q, e) then multiset(st.entries)[e] else 0
    ensures forall e :: e in st.entries && Matches(q, e) ==> e in GetAuditTrail(st, q, 0, limit)
  {
    OrderedIsFiltered(st.entries, q);
    WholePage(Ordered(st.entries, q), limit);
    forall e | e in st.entries && Matches(q, e)
      ensures e in GetAuditTrail(st, q, 0, limit)
    {
      MatchIsOrdered(st.entries, q, e);
    }
  }

  /** Every stored entry that matches is among the ordered matches. */
  lemma MatchIsOrdered<S(!new)>(entries: seq<AuditEntry<S>>, q: AuditQuery, e: AuditEntry<S>)
    requires e in entries && Matches(q, e)
    ensures e in Ordered(entries, q)
  {
    var filtered := ApplyFilters(entries, q);
    assert e in multiset(filtered);
    assert multiset(SortDesc(filtered, TimestampOf)) == multiset(filtered);
  }

  /** Whatever the page size, every matching entry is on some page. */
  lemma EveryMatchIsOnSomePage<S(!new)>(st: AuditStore<S>, q: AuditQuery, e: AuditEntry<S>, limit: nat)
    requires e in st.entries && Matches(q, e)
    requires limit > 0
    ensures exists skip: nat :: e in GetAuditTrail(st, q, skip, limit)
  {
    MatchIsOrdered(st.entries, q, e);
    var all := Ordered(st.entries, q);
    var i :| 0 <= i < |all| && all[i] == e;
    assert Page(all, i, limit)[0] == e;
    assert e in GetAuditTrail(st, q, i, limit);
  }

  /** Any other tie order the database may choose gives, page by page, the
      same timestamps as this model: if `t` is a newest-first arrangement of
      exactly the matching entries, its pages agree with `GetAuditTrail`'s
      position by position on the timestamp. */
  lemma TieOrderIrrelevant<S(!new)>(st: AuditStore<S>, q: AuditQuery, t: seq<AuditEntry<S>>, skip: nat, limit: nat)
    requires forall e :: multiset(t)[e] == if Matches(q, e) then multiset(st.entries)[e] else 0
    requires NonIncreasing(t, TimestampOf)
    ensures Keys(Page(t, skip, limit), TimestampOf) == Keys(GetAuditTrail(st, q, skip, limit), TimestampOf)
  {
    var all := Ordered(st.entries, q);
    assert multiset(t) == multiset(all) by {
      forall e
        ensures multiset(t)[e] == multiset(all)[e]
      {
      }
    }
    SortedKeysAgree(t, all, TimestampOf);
    KeysOfPage(t, skip, limit, TimestampOf);
    KeysOfPage(all, skip, limit, TimestampOf);
  }

  /** Falsy filter values impose nothing: an empty entity type and a zero
      entity or user id select the same entries as no filter at all. */
  lemma FalsyFiltersAreIgnored<S(!new)>(st: AuditStore<S>, skip: nat, limit: nat)
    ensures GetAuditTrail(st, AuditQuery(Some(""), Some(0), Some(0), None, None), skip, limit)
         == GetAuditTrail(st, NoFilters, skip, limit)
    ensures forall e :: e in st.entries ==> Matches(AuditQuery(Some(""), Some(0), Some(0), None, None), e)
  {
  }

  /** A stored entry is visible to the next query: right after an append,
      a first page covering the ledger returns the new entry, with the
      snapshots exactly as supplied, whenever it matches the filters. */
  lemma AppendedEntryIsRetrievable<S(!new)>(
    st: AuditStore<S>, now: Timestamp, userId: int, action: string, entityType: string,
    entityId: Option<int>, oldData: Option<S>, newData: Option<S>,
    ipAddress: Option<string>, userAgent: Option<string>, q: AuditQuery, limit: nat)
    requires |st.entries| < limit
    requires Matches(q, CreateAuditLog(st, now, userId, action, entityType, entityId,
                                       oldData, newData, ipAddress, userAgent).1)
    ensures var (st', e) := CreateAuditLog(st, now, userId, action, entityType, entityId,
                                           oldData, newData, ipAddress, userAgent);
            exists f :: f in GetAuditTrail(st', q, 0, limit) && f.id == e.id
                     && f.oldData == oldData && f.newData == newData
  {
    var (st', e) := CreateAuditLog(st, now, userId, action, entityType, entityId,
                                   oldData, newData, ipAddress, userAgent);
    FirstPageIsComplete(st', q, limit);
    assert e in st'.entries;
    assert e in GetAuditTrail(st', q, 0, limit);
  }
}
