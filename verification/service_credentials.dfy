/**
 * The `service_credentials` table and the two pieces of code that write it: the
 * model's `saveServiceCredentials` (INSERT ... ON CONFLICT DO UPDATE) with its
 * `getServiceCredentials` lookup, and the `/credentials` route, whose POST reads
 * the row and then updates or inserts it, and whose GET lists user 1's rows.
 */
module ServiceCredentials {
  import opened Wrappers
  import opened Schema

  /** The key of a (user, service type) pair. */
  function Key(userId: int, serviceType: string): CredentialKey {
    (userId, serviceType)
  }

  /** The table's rows with the next value of its SERIAL id sequence. */
  datatype TableState = TableState(rows: map<CredentialKey, ServiceCredential>, nextId: int)

  /** Rows sit under their own key, and ids are distinct and below the sequence. */
  ghost predicate WellFormed(t: TableState) {
    && CredentialsWellFormed(t.rows)
    && (forall k :: k in t.rows ==> t.rows[k].id < t.nextId)
    && (forall k, k' :: k in t.rows && k' in t.rows && t.rows[k].id == t.rows[k'].id ==> k == k')
  }

  /** All rows whose user_id and service_type are the given ones. */
  function RowsFor(rows: map<CredentialKey, ServiceCredential>, userId: int, serviceType: string): set<ServiceCredential> {
    set k | k in rows && rows[k].userId == userId && rows[k].serviceType == serviceType :: rows[k]
  }

  /** UNIQUE(user_id, service_type): a well-formed table holds at most one row per pair, the one under its key. */
  lemma AtMostOneRowPerPair(t: TableState, userId: int, serviceType: string)
    requires WellFormed(t)
    ensures RowsFor(t.rows, userId, serviceType) ==
      if Key(userId, serviceType) in t.rows then {t.rows[Key(userId, serviceType)]} else {}
    ensures |RowsFor(t.rows, userId, serviceType)| <= 1
  {
    var key := Key(userId, serviceType);
    var found := RowsFor(t.rows, userId, serviceType);
    forall r | r in found ensures key in t.rows && r == t.rows[key] {
      var k :| k in t.rows && t.rows[k].userId == userId && t.rows[k].serviceType == serviceType && t.rows[k] == r;
      assert k == key;
    }
    if key in t.rows {
      assert t.rows[key] in found;
    }
  }

  /** The row a plain INSERT creates: the column defaults give is_active true and no last_sync. */
  function InsertedRow(id: int, userId: int, serviceType: string, credentials: Credentials, now: int)
    : (row: ServiceCredential)
    ensures row.isActive && row.lastSync.None? && row.createdAt == now && row.updatedAt == now
    ensures row.userId == userId && row.serviceType == serviceType && row.credentials == credentials && row.id == id
  {
    ServiceCredential(id, userId, serviceType, credentials, true, now, now, None)
  }

  /**
   * Writing a row under its own key keeps the table well formed, provided it
   * keeps the id of the row it replaces or, for a new key, takes the next
   * sequence value, and the sequence then moves past it.
   */
  lemma PutKeepsWellFormed(t: TableState, row: ServiceCredential, nextId: int)
    requires WellFormed(t)
    requires Key(row.userId, row.serviceType) in t.rows ==> row.id == t.rows[Key(row.userId, row.serviceType)].id
    requires Key(row.userId, row.serviceType) !in t.rows ==> row.id == t.nextId
    requires nextId > t.nextId || (Key(row.userId, row.serviceType) in t.rows && nextId == t.nextId)
    ensures WellFormed(TableState(t.rows[Key(row.userId, row.serviceType) := row], nextId))
  {
    var key := Key(row.userId, row.serviceType);
    var rows := t.rows[key := row];
    forall k, k' | k in rows && k' in rows && rows[k].id == rows[k'].id
      ensures k == k'
    {
      if k != key && k' != key {
        assert t.rows[k].id == t.rows[k'].id;
      }
    }
  }

  /** `getServiceCredentials`: the row for (user, service type), or nothing. */
  function Get(rows: map<CredentialKey, ServiceCredential>, userId: int, serviceType: string): (r: Option<ServiceCredential>)
    requires CredentialsWellFormed(rows)
    ensures r.Some? <==> RowsFor(rows, userId, serviceType) != {}
    ensures r.Some? ==> r.value in RowsFor(rows, userId, serviceType)
  {
    var key := Key(userId, serviceType);
    if key in rows then
      assert rows[key] in RowsFor(rows, userId, serviceType);
      Some(rows[key])
    else
      assert forall k :: k in rows ==> rows[k].userId != userId || rows[k].serviceType != serviceType;
      None
  }

  /**
   * `saveServiceCredentials`: the table afterwards and the row RETURNING * gives.
   * A new pair gets one inserted row; an existing pair gets its credentials
   * replaced and `updated_at` bumped, with `is_active`, `created_at`,
   * `last_sync` and `id` kept, so an inactive row stays inactive. The INSERT
   * draws the next SERIAL id before the conflict turns it into an UPDATE, so
   * the sequence advances either way.
   */
  function Upsert(t: TableState, userId: int, serviceType: string, credentials: Credentials, now: int)
    : (r: (TableState, ServiceCredential))
    requires WellFormed(t)
    ensures WellFormed(r.0)
    ensures r.0.rows.Keys == t.rows.Keys + {Key(userId, serviceType)}
    ensures forall k :: k in t.rows && k != Key(userId, serviceType) ==> r.0.rows[k] == t.rows[k]
    ensures Get(r.0.rows, userId, serviceType) == Some(r.1)
    ensures r.1.credentials == credentials && r.1.updatedAt == now
    ensures Key(userId, serviceType) in t.rows ==>
      var old_ := t.rows[Key(userId, serviceType)];
      && r.1.id == old_.id && r.1.isActive == old_.isActive
      && r.1.createdAt == old_.createdAt && r.1.lastSync == old_.lastSync
    ensures Key(userId, serviceType) !in t.rows ==> r.1 == InsertedRow(t.nextId, userId, serviceType, credentials, now)
    ensures r.0.nextId == t.nextId + 1
  {
    var key := Key(userId, serviceType);
    var row :=
      if key in t.rows then t.rows[key].(credentials := credentials, updatedAt := now)
      else InsertedRow(t.nextId, userId, serviceType, credentials, now);
    PutKeepsWellFormed(t, row, t.nextId + 1);
    (TableState(t.rows[key := row], t.nextId + 1), row)
  }

  /** The fixed user both route handlers act for, whoever calls. */
  const RouteUserId: int := 1

  /**
   * The write of POST `/credentials` once its fields are present: UPDATE the
   * existing row of user 1 (credentials, `is_active = true`, `updated_at`), or
   * INSERT a new one.
   */
  function UpdateOrInsert(t: TableState, serviceType: string, credentials: Credentials, now: int): (r: TableState)
    requires WellFormed(t)
    ensures WellFormed(r)
    ensures r.rows.Keys == t.rows.Keys + {Key(RouteUserId, serviceType)}
    ensures forall k :: k in t.rows && k != Key(RouteUserId, serviceType) ==> r.rows[k] == t.rows[k]
    ensures var row := r.rows[Key(RouteUserId, serviceType)];
      row.credentials == credentials && row.isActive && row.updatedAt == now
    ensures Key(RouteUserId, serviceType) in t.rows ==>
      var old_ := t.rows[Key(RouteUserId, serviceType)];
      var row := r.rows[Key(RouteUserId, serviceType)];
      && row.id == old_.id && row.createdAt == old_.createdAt && row.lastSync == old_.lastSync
      && r.nextId == t.nextId
    ensures Key(RouteUserId, serviceType) !in t.rows ==>
      && r.rows[Key(RouteUserId, serviceType)] == InsertedRow(t.nextId, RouteUserId, serviceType, credentials, now)
      && r.nextId == t.nextId + 1
  {
    var key := Key(RouteUserId, serviceType);
    var existing := Get(t.rows, RouteUserId, serviceType);
    AtMostOneRowPerPair(t, RouteUserId, serviceType);
    assert existing.Some? <==> key in t.rows;
    assert existing.Some? ==> existing.value == t.rows[key];
    var row :=
      if existing.Some? then existing.value.(credentials := credentials, isActive := true, updatedAt := now)
      else InsertedRow(t.nextId, RouteUserId, serviceType, credentials, now);
    var nextId := if existing.Some? then t.nextId else t.nextId + 1;
    PutKeepsWellFormed(t, row, nextId);
    TableState(t.rows[key := row], nextId)
  }

  /** Two saves to one pair leave exactly one row for it, holding the second payload. */
  lemma SaveTwiceKeepsOneRow(t: TableState, userId: int, serviceType: string, a: Credentials, b: Credentials, now1: int, now2: int)
    requires WellFormed(t)
    ensures var t1 := Upsert(t, userId, serviceType, a, now1).0;
      var (t2, row) := Upsert(t1, userId, serviceType, b, now2);
      RowsFor(t2.rows, userId, serviceType) == {row} && row.credentials == b
  {
    var t1 := Upsert(t, userId, serviceType, a, now1).0;
    var t2 := Upsert(t1, userId, serviceType, b, now2).0;
    AtMostOneRowPerPair(t2, userId, serviceType);
  }

  /** Two POSTs for one service type leave exactly one row of user 1 for it: active, with the latest payload. */
  lemma PostTwiceKeepsOneActiveRow(t: TableState, serviceType: string, a: Credentials, b: Credentials, now1: int, now2: int)
    requires WellFormed(t)
    ensures var t2 := UpdateOrInsert(UpdateOrInsert(t, serviceType, a, now1), serviceType, b, now2);
      exists row :: RowsFor(t2.rows, RouteUserId, serviceType) == {row} && row.credentials == b && row.isActive
  {
    var t2 := UpdateOrInsert(UpdateOrInsert(t, serviceType, a, now1), serviceType, b, now2);
    AtMostOneRowPerPair(t2, RouteUserId, serviceType);
    var row := t2.rows[Key(RouteUserId, serviceType)];
    assert RowsFor(t2.rows, RouteUserId, serviceType) == {row};
  }

  /**
   * The two writers differ in exactly one respect: on an existing inactive row,
   * the route reactivates it and the model's upsert leaves it inactive.
   */
  lemma OnlyTheRouteReactivates(t: TableState, serviceType: string, credentials: Credentials, now: int)
    requires WellFormed(t)
    requires Key(RouteUserId, serviceType) in t.rows && !t.rows[Key(RouteUserId, serviceType)].isActive
    ensures !Upsert(t, RouteUserId, serviceType, credentials, now).1.isActive
    ensures UpdateOrInsert(t, serviceType, credentials, now).rows[Key(RouteUserId, serviceType)].isActive
    ensures UpdateOrInsert(t, serviceType, credentials, now).rows[Key(RouteUserId, serviceType)]
         == Upsert(t, RouteUserId, serviceType, credentials, now).1.(isActive := true)
  {
  }

  /** A row as the GET route projects it: everything but `id` and `user_id`. */
  datatype Listing = Listing(
    serviceType: string, credentials: Credentials, isActive: bool, createdAt: int, updatedAt: int, lastSync: Option<int>)

  function ListingOf(row: ServiceCredential): Listing {
    Listing(row.serviceType, row.credentials, row.isActive, row.createdAt, row.updatedAt, row.lastSync)
  }

  /** The responses of the route handlers. */
  datatype Response = Saved | BadRequest(error: string) | Listed(listing: set<Listing>)

  const MissingFields: string := "Service type and credentials are required"

  /** `service_credentials`, written in place by both writers. */
  class Table {
    var rows: map<CredentialKey, ServiceCredential>
    var nextId: int

    function State(): TableState
      reads this
    {
      TableState(rows, nextId)
    }

    ghost predicate Valid()
      reads this
    {
      WellFormed(State())
    }

    constructor ()
      ensures Valid() && rows == map[] && nextId == 1
    {
      rows := map[];
      nextId := 1;
    }

    /** `saveServiceCredentials(userId, serviceType, credentials)`. */
    method Save(userId: int, serviceType: string, credentials: Credentials, now: int) returns (row: ServiceCredential)
      requires Valid()
      modifies this
      ensures Valid()
      ensures (State(), row) == Upsert(old(State()), userId, serviceType, credentials, now)
    {
      var key := Key(userId, serviceType);
      var id := nextId;
      nextId := nextId + 1;
      if key in rows {
        row := rows[key].(credentials := credentials, updatedAt := now);
      } else {
        row := InsertedRow(id, userId, serviceType, credentials, now);
      }
      rows := rows[key := row];
    }

    /**
     * POST `/credentials`: 400 and no change when `serviceType` or `credentials`
     * is missing; otherwise the update-or-insert for user 1.
     */
    method Post(serviceType: Option<string>, credentials: Option<Credentials>, now: int) returns (resp: Response)
      requires Valid()
      modifies this
      ensures Valid()
      ensures serviceType.None? || serviceType.value == "" || credentials.None? ==>
        resp == BadRequest(MissingFields) && State() == old(State())
      ensures serviceType.Some? && serviceType.value != "" && credentials.Some? ==>
        resp == Saved && State() == UpdateOrInsert(old(State()), serviceType.value, credentials.value, now)
    {
      if serviceType.None? || serviceType.value == "" || credentials.None? {
        return BadRequest(MissingFields);
      }
      var key := Key(RouteUserId, serviceType.value);
      var existing := Get(rows, RouteUserId, serviceType.value);
      if existing.Some? {
        rows := rows[key := existing.value.(credentials := credentials.value, isActive := true, updatedAt := now)];
      } else {
        rows := rows[key := InsertedRow(nextId, RouteUserId, serviceType.value, credentials.value, now)];
        nextId := nextId + 1;
      }
      resp := Saved;
    }

    /** GET `/credentials`: every row of user 1, projected, and no row of anyone else. */
    function List(): (resp: Response)
      reads this
      ensures resp.Listed?
      ensures forall k :: k in rows && k.0 == RouteUserId ==> ListingOf(rows[k]) in resp.listing
      ensures forall l :: l in resp.listing ==>
        exists k :: k in rows && rows[k].userId == RouteUserId && ListingOf(rows[k]) == l
      requires Valid()
    {
      Listed(set k | k in rows && k.0 == RouteUserId :: ListingOf(rows[k]))
    }
  }
}
