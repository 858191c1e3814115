/** The trip store behind the bot and the HTTP API: three tables (trips,
    users and the trip/user membership table) held as sequences of rows, the
    key and cascade rules of the membership schema, and the read views that
    fold joined rows into trip records. */
module Store {
  import opened Wrappers
  import opened Seqs
  import opened Text
  import opened Buckets

  datatype TripRow = TripRow(
    id: string,
    tripType: string,
    departure: int,
    duration: Option<string>,
    vessel: Option<string>,
    status: Option<string>)

  datatype UserRow = UserRow(
    id: int,
    firstName: Option<string>,
    lastName: Option<string>,
    role: Option<string>,
    vessel: Option<string>,
    deletedAt: Option<int>)

  /** A row of the membership table; `None` is SQL NULL. */
  datatype Membership = Membership(
    tripId: string,
    userId: int,
    role: Option<string>,
    kicked: Option<bool>,
    deletedAt: Option<int>)

  datatype Tables = Tables(trips: seq<TripRow>, users: seq<UserRow>, memberships: seq<Membership>)

  datatype DbError = DuplicateKey | ForeignKeyViolation

  function TripIds(db: Tables): (r: seq<string>)
    ensures |r| == |db.trips|
    ensures forall i | 0 <= i < |r| :: r[i] == db.trips[i].id
  {
    Map(db.trips, TripIdOf)
  }

  function UserIds(db: Tables): (r: seq<int>)
    ensures |r| == |db.users|
    ensures forall i | 0 <= i < |r| :: r[i] == db.users[i].id
  {
    Map(db.users, UserIdOf)
  }

  function TripIdOf(t: TripRow): string { t.id }

  function UserIdOf(u: UserRow): int { u.id }

  function PairOf(m: Membership): (string, int) { (m.tripId, m.userId) }

  /** The composite primary key of every membership row, in table order. */
  function Pairs(ms: seq<Membership>): (r: seq<(string, int)>)
    ensures |r| == |ms|
    ensures forall i | 0 <= i < |r| :: r[i] == PairOf(ms[i])
  {
    Map(ms, PairOf)
  }

  /** Every membership row refers to an existing trip and an existing user. */
  predicate ForeignKeys(db: Tables)
  {
    forall m | m in db.memberships :: m.tripId in TripIds(db) && m.userId in UserIds(db)
  }

  /** The schema's constraints: both ids are primary keys, (trip, user) is the
      membership key, and both membership columns are foreign keys. */
  predicate Valid(db: Tables)
  {
    && Distinct(TripIds(db))
    && Distinct(UserIds(db))
    && Distinct(Pairs(db.memberships))
    && ForeignKeys(db)
  }

  /** A membership counts in the trip views only when it is not soft-deleted
      and `kicked` is false; a NULL `kicked` fails the SQL equality. */
  predicate IsActive(m: Membership)
  {
    m.deletedAt.None? && m.kicked == Some(false)
  }

  // ----- Lookups and inserts -----

  function FindUser(db: Tables, id: int): (r: Option<UserRow>)
    ensures r.None? <==> id !in UserIds(db)
    ensures r.Some? ==> r.value in db.users && r.value.id == id
  {
    var k := FirstIndexWhere(db.users, (u: UserRow) => u.id == id);
    if k < 0 then None else Some(db.users[k])
  }

  function FindTrip(db: Tables, id: string): (r: Option<TripRow>)
    ensures r.None? <==> id !in TripIds(db)
    ensures r.Some? ==> r.value in db.trips && r.value.id == id
  {
    var k := FirstIndexWhere(db.trips, (t: TripRow) => t.id == id);
    if k < 0 then None else Some(db.trips[k])
  }

  /** With unique ids, the lookup returns the one row holding the id. */
  lemma FindUnique(db: Tables)
    requires Valid(db)
    ensures forall i | 0 <= i < |db.trips| :: FindTrip(db, db.trips[i].id) == Some(db.trips[i])
    ensures forall i | 0 <= i < |db.users| :: FindUser(db, db.users[i].id) == Some(db.users[i])
  {
    forall i | 0 <= i < |db.trips|
      ensures FindTrip(db, db.trips[i].id) == Some(db.trips[i])
    {
      var k := FirstIndexWhere(db.trips, (t: TripRow) => t.id == db.trips[i].id);
      assert TripIds(db)[k] == TripIds(db)[i];
    }
    forall i | 0 <= i < |db.users|
      ensures FindUser(db, db.users[i].id) == Some(db.users[i])
    {
      var k := FirstIndexWhere(db.users, (u: UserRow) => u.id == db.users[i].id);
      assert UserIds(db)[k] == UserIds(db)[i];
    }
  }

  /** Inserting a trip fails on a duplicate id and otherwise appends the row. */
  function AddTrip(db: Tables, t: TripRow): (r: Result<Tables, DbError>)
    ensures r.Failure? <==> t.id in TripIds(db)
    ensures r.Failure? ==> r.error == DuplicateKey
    ensures r.Success? ==> r.value.users == db.users && r.value.memberships == db.memberships
  {
    if t.id in TripIds(db) then Failure(DuplicateKey)
    else Success(db.(trips := db.trips + [t]))
  }

  function AddUser(db: Tables, u: UserRow): (r: Result<Tables, DbError>)
    ensures r.Failure? <==> u.id in UserIds(db)
    ensures r.Failure? ==> r.error == DuplicateKey
    ensures r.Success? ==> r.value.trips == db.trips && r.value.memberships == db.memberships
  {
    if u.id in UserIds(db) then Failure(DuplicateKey)
    else Success(db.(users := db.users + [u]))
  }

  /** After an insert the new row is found under its id and every other
      lookup is unchanged. */
  lemma AddTripThenFind(db: Tables, t: TripRow, id: string)
    requires AddTrip(db, t).Success?
    ensures FindTrip(AddTrip(db, t).value, id) == if id == t.id then Some(t) else FindTrip(db, id)
  {
    var db' := AddTrip(db, t).value;
    var p := (x: TripRow) => x.id == id;
    assert db'.trips[..|db.trips|] == db.trips;
    FirstIndexWhereSnoc(db'.trips, |db.trips|, p);
    assert db'.trips[..|db.trips| + 1] == db'.trips;
  }

  lemma AddUserThenFind(db: Tables, u: UserRow, id: int)
    requires AddUser(db, u).Success?
    ensures FindUser(AddUser(db, u).value, id) == if id == u.id then Some(u) else FindUser(db, id)
  {
    var db' := AddUser(db, u).value;
    var p := (x: UserRow) => x.id == id;
    assert db'.users[..|db.users|] == db.users;
    FirstIndexWhereSnoc(db'.users, |db.users|, p);
    assert db'.users[..|db.users| + 1] == db'.users;
  }

  lemma AddTripValid(db: Tables, t: TripRow)
    requires Valid(db) && AddTrip(db, t).Success?
    ensures Valid(AddTrip(db, t).value)
  {
    var db' := AddTrip(db, t).value;
    assert TripIds(db') == TripIds(db) + [t.id];
  }

  lemma AddUserValid(db: Tables, u: UserRow)
    requires Valid(db) && AddUser(db, u).Success?
    ensures Valid(AddUser(db, u).value)
  {
    var db' := AddUser(db, u).value;
    assert UserIds(db') == UserIds(db) + [u.id];
  }

  // ----- Membership writes -----

  /** The row an insert stores: an omitted role becomes "crew", an omitted
      `kicked` becomes false, and `deleted_at` starts unset. */
  function NewMembership(tripId: string, userId: int, role: Option<string>, kicked: Option<bool>): (m: Membership)
    ensures PairOf(m) == (tripId, userId)
    ensures role.None? ==> m.role == Some("crew")
    ensures kicked.None? ==> m.kicked == Some(false)
    ensures m.deletedAt.None?
    ensures kicked.None? ==> IsActive(m)
  {
    Membership(tripId, userId, Some(role.GetOr("crew")), Some(kicked.GetOr(false)), None)
  }

  /** Inserting a membership: a repeated (trip, user) key is rejected first,
      then a key that names a missing trip or user. */
  function AddTripUser(db: Tables, tripId: string, userId: int, role: Option<string>, kicked: Option<bool>): (r: Result<Tables, DbError>)
    ensures r.Failure? <==>
      (tripId, userId) in Pairs(db.memberships) || tripId !in TripIds(db) || userId !in UserIds(db)
    ensures r.Failure? ==>
      r.error == if (tripId, userId) in Pairs(db.memberships) then DuplicateKey else ForeignKeyViolation
    ensures r.Success? ==>
      && r.value.trips == db.trips && r.value.users == db.users
      && |r.value.memberships| == |db.memberships| + 1
      && r.value.memberships[..|db.memberships|] == db.memberships
      && r.value.memberships[|db.memberships|] == NewMembership(tripId, userId, role, kicked)
  {
    if (tripId, userId) in Pairs(db.memberships) then Failure(DuplicateKey)
    else if tripId !in TripIds(db) || userId !in UserIds(db) then Failure(ForeignKeyViolation)
    else Success(db.(memberships := db.memberships + [NewMembership(tripId, userId, role, kicked)]))
  }

  lemma AddTripUserValid(db: Tables, tripId: string, userId: int, role: Option<string>, kicked: Option<bool>)
    requires Valid(db) && AddTripUser(db, tripId, userId, role, kicked).Success?
    ensures Valid(AddTripUser(db, tripId, userId, role, kicked).value)
  {
    var db' := AddTripUser(db, tripId, userId, role, kicked).value;
    assert db'.memberships == db.memberships + [NewMembership(tripId, userId, role, kicked)];
    assert Pairs(db'.memberships) == Pairs(db.memberships) + [(tripId, userId)];
  }

  /** The columns an update sets; `None` leaves a column as it is and
      `Some(None)` writes NULL. */
  datatype Patch = Patch(role: Option<Option<string>>, kicked: Option<Option<bool>>, deletedAt: Option<Option<int>>)

  function Apply(m: Membership, p: Patch): (r: Membership)
    ensures PairOf(r) == PairOf(m)
    ensures r.role == (if p.role.Some? then p.role.value else m.role)
    ensures r.kicked == (if p.kicked.Some? then p.kicked.value else m.kicked)
    ensures r.deletedAt == (if p.deletedAt.Some? then p.deletedAt.value else m.deletedAt)
  {
    m.(role := p.role.GetOr(m.role), kicked := p.kicked.GetOr(m.kicked), deletedAt := p.deletedAt.GetOr(m.deletedAt))
  }

  predicate Matches(m: Membership, tripId: string, userId: int)
  {
    m.tripId == tripId && m.userId == userId
  }

  function UpdateRows(ms: seq<Membership>, tripId: string, userId: int, p: Patch): (r: seq<Membership>)
    ensures |r| == |ms|
    ensures forall i | 0 <= i < |ms| :: r[i] == if Matches(ms[i], tripId, userId) then Apply(ms[i], p) else ms[i]
  {
    if ms == [] then []
    else [if Matches(ms[0], tripId, userId) then Apply(ms[0], p) else ms[0]] + UpdateRows(ms[1..], tripId, userId, p)
  }

  datatype Updated = Updated(tables: Tables, row: Option<Membership>)

  /** Updates the row keyed (tripId, userId) and returns it, or nothing when
      no row has that key. */
  function UpdateTripUser(db: Tables, tripId: string, userId: int, p: Patch): (r: Updated)
    ensures r.tables.trips == db.trips && r.tables.users == db.users
    ensures |r.tables.memberships| == |db.memberships|
    ensures forall i | 0 <= i < |db.memberships| && !Matches(db.memberships[i], tripId, userId) ::
      r.tables.memberships[i] == db.memberships[i]
    ensures forall i | 0 <= i < |db.memberships| && Matches(db.memberships[i], tripId, userId) ::
      r.tables.memberships[i] == Apply(db.memberships[i], p)
    ensures r.row.None? <==> (tripId, userId) !in Pairs(db.memberships)
    ensures r.row.Some? ==> r.row.value in r.tables.memberships && Matches(r.row.value, tripId, userId)
  {
    var ms := db.memberships;
    var k := FirstIndexWhere(ms, (m: Membership) => Matches(m, tripId, userId));
    var ms' := UpdateRows(ms, tripId, userId, p);
    assert forall i | 0 <= i < |ms| :: Matches(ms[i], tripId, userId) <==> Pairs(ms)[i] == (tripId, userId);
    Updated(db.(memberships := ms'), if k < 0 then None else Some(ms'[k]))
  }

  /** An update never touches a key column, so every constraint still holds. */
  lemma UpdateTripUserValid(db: Tables, tripId: string, userId: int, p: Patch)
    requires Valid(db)
    ensures Valid(UpdateTripUser(db, tripId, userId, p).tables)
  {
    var r := UpdateTripUser(db, tripId, userId, p);
    var ms := db.memberships;
    var ms' := r.tables.memberships;
    forall i | 0 <= i < |ms|
      ensures PairOf(ms'[i]) == PairOf(ms[i])
    {
      if Matches(ms[i], tripId, userId) {
        assert ms'[i] == Apply(ms[i], p);
      }
    }
    SameKeysValid(db, r.tables);
  }

  /** Tables whose rows carry the same keys, position by position, satisfy
      the same constraints. */
  lemma SameKeysValid(db: Tables, db': Tables)
    requires Valid(db)
    requires db'.trips == db.trips && db'.users == db.users
    requires |db'.memberships| == |db.memberships|
    requires forall i | 0 <= i < |db.memberships| :: PairOf(db'.memberships[i]) == PairOf(db.memberships[i])
    ensures Valid(db')
  {
    var ms := db.memberships;
    var ms' := db'.memberships;
    assert Pairs(ms') == Pairs(ms);
    forall m | m in ms'
      ensures m.tripId in TripIds(db') && m.userId in UserIds(db')
    {
      var i :| 0 <= i < |ms'| && ms'[i] == m;
      assert PairOf(m) == PairOf(ms[i]);
      assert ms[i] in ms;
    }
  }

  /** With unique keys the returned row is the updated row at the key. */
  lemma UpdateTripUserRow(db: Tables, tripId: string, userId: int, p: Patch, i: nat)
    requires Distinct(Pairs(db.memberships))
    requires i < |db.memberships| && Matches(db.memberships[i], tripId, userId)
    ensures UpdateTripUser(db, tripId, userId, p).row == Some(Apply(db.memberships[i], p))
  {
    var ms := db.memberships;
    var k := FirstIndexWhere(ms, (m: Membership) => Matches(m, tripId, userId));
    assert 0 <= k <= i;
    assert Pairs(ms)[k] == Pairs(ms)[i];
    assert k == i;
    assert UpdateTripUser(db, tripId, userId, p).row == Some(UpdateRows(ms, tripId, userId, p)[k]);
  }

  // ----- Deletes with cascade -----

  function TripIdIsNot(id: string): TripRow -> bool { (t: TripRow) => t.id != id }
  function UserIdIsNot(id: int): UserRow -> bool { (u: UserRow) => u.id != id }
  function NotOfTrip(id: string): Membership -> bool { (m: Membership) => m.tripId != id }
  function NotOfUser(id: int): Membership -> bool { (m: Membership) => m.userId != id }

  /** Deleting a trip also deletes its memberships. */
  function DeleteTrip(db: Tables, id: string): Tables
  {
    Tables(Filter(db.trips, TripIdIsNot(id)), db.users, Filter(db.memberships, NotOfTrip(id)))
  }

  /** Deleting a user also deletes that user's memberships. */
  function DeleteUser(db: Tables, id: int): Tables
  {
    Tables(db.trips, Filter(db.users, UserIdIsNot(id)), Filter(db.memberships, NotOfUser(id)))
  }

  /** After the cascade the deleted trip's memberships are gone, every other
      membership and trip survives, and the constraints still hold. */
  lemma DeleteTripSpec(db: Tables, id: string)
    requires Valid(db)
    ensures var r := DeleteTrip(db, id);
      && Valid(r)
      && id !in TripIds(r)
      && (forall m :: m in r.memberships <==> m in db.memberships && m.tripId != id)
      && (forall t :: t in r.trips <==> t in db.trips && t.id != id)
  {
    var r := DeleteTrip(db, id);
    assert forall t :: t in r.trips <==> t in db.trips && t.id != id by {
      FilterMembers(db.trips, TripIdIsNot(id));
    }
    assert forall m :: m in r.memberships <==> m in db.memberships && m.tripId != id by {
      FilterMembers(db.memberships, NotOfTrip(id));
    }
    assert Distinct(TripIds(r)) by {
      FilterDistinct(db.trips, TripIdIsNot(id), TripIdOf);
    }
    assert Distinct(Pairs(r.memberships)) by {
      FilterDistinct(db.memberships, NotOfTrip(id), PairOf);
    }
    assert id !in TripIds(r) by {
      FilterKeys(db.trips, TripIdIsNot(id), TripIdOf, id);
    }
    assert UserIds(r) == UserIds(db);
    forall m | m in r.memberships
      ensures m.tripId in TripIds(r) && m.userId in UserIds(r)
    {
      assert m in db.memberships;
      var i :| 0 <= i < |db.trips| && TripIds(db)[i] == m.tripId;
      FilterKeys(db.trips, TripIdIsNot(id), TripIdOf, m.tripId);
      assert db.trips[i] in db.trips;
    }
  }

  lemma DeleteUserSpec(db: Tables, id: int)
    requires Valid(db)
    ensures var r := DeleteUser(db, id);
      && Valid(r)
      && id !in UserIds(r)
      && (forall m :: m in r.memberships <==> m in db.memberships && m.userId != id)
      && (forall u :: u in r.users <==> u in db.users && u.id != id)
  {
    var r := DeleteUser(db, id);
    assert forall u :: u in r.users <==> u in db.users && u.id != id by {
      FilterMembers(db.users, UserIdIsNot(id));
    }
    assert forall m :: m in r.memberships <==> m in db.memberships && m.userId != id by {
      FilterMembers(db.memberships, NotOfUser(id));
    }
    assert Distinct(UserIds(r)) by {
      FilterDistinct(db.users, UserIdIsNot(id), UserIdOf);
    }
    assert Distinct(Pairs(r.memberships)) by {
      FilterDistinct(db.memberships, NotOfUser(id), PairOf);
    }
    assert id !in UserIds(r) by {
      FilterKeys(db.users, UserIdIsNot(id), UserIdOf, id);
    }
    assert TripIds(r) == TripIds(db);
    forall m | m in r.memberships
      ensures m.tripId in TripIds(r) && m.userId in UserIds(r)
    {
      assert m in db.memberships;
      var i :| 0 <= i < |db.users| && UserIds(db)[i] == m.userId;
      FilterKeys(db.users, UserIdIsNot(id), UserIdOf, m.userId);
      assert db.users[i] in db.users;
    }
  }

  // ----- Read views -----

  /** One row of `trips LEFT JOIN active memberships LEFT JOIN users`. */
  datatype JoinedRow = JoinedRow(trip: TripRow, member: Option<Membership>, user: Option<UserRow>)

  function ActiveFor(tripId: string): Membership -> bool
  {
    (m: Membership) => m.tripId == tripId && IsActive(m)
  }

  /** The memberships the trip views join to trip `tripId`, in table order. */
  function ActiveMembers(db: Tables, tripId: string): seq<Membership>
  {
    Filter(db.memberships, ActiveFor(tripId))
  }

  /** The joined rows of one trip: one per active membership, each with the
      user of that id (the users' key makes it at most one), or a single row
      whose membership and user sides are both NULL. */
  function TripRows(db: Tables, t: TripRow): (r: seq<JoinedRow>)
    ensures |r| >= 1
    ensures forall i | 0 <= i < |r| :: r[i].trip == t
  {
    var ms := ActiveMembers(db, t.id);
    if ms == [] then [JoinedRow(t, None, None)]
    else Map(ms, (m: Membership) => JoinedRow(t, Some(m), FindUser(db, m.userId)))
  }

  predicate Selected(t: TripRow, only: Option<string>)
  {
    only.None? || t.id == only.value
  }

  /** The joined rows of the trips in `ts` (of those with id `only`, when
      given), trip by trip. */
  function JoinOf(db: Tables, ts: seq<TripRow>, only: Option<string>): seq<JoinedRow>
  {
    if ts == [] then []
    else
      var n := |ts| - 1;
      JoinOf(db, ts[..n], only) + if Selected(ts[n], only) then TripRows(db, ts[n]) else []
  }

  datatype CrewEntry = CrewEntry(id: string, name: string, position: Option<string>)

  datatype TripDto = TripDto(
    id: string,
    tripType: string,
    departure: int,
    vessel: Option<string>,
    status: Option<string>,
    crew: seq<CrewEntry>)

  /** A template literal renders a NULL column as "null". */
  function Render(v: Option<string>): string
  {
    if v.Some? then v.value else "null"
  }

  /** A crew entry of a trip view: the user id as a decimal string and the
      name "first last", trimmed. */
  function CrewOf(u: UserRow, m: Membership): CrewEntry
  {
    CrewEntry(IntString(u.id), Trim(Render(u.firstName) + " " + Render(u.lastName)), m.role)
  }

  function RowTripId(r: JoinedRow): string { r.trip.id }
  function RowTrip(r: JoinedRow): TripRow { r.trip }

  /** A row yields a crew entry only when both its user and membership sides are present. */
  function RowCrew(r: JoinedRow): (e: Option<CrewEntry>)
    ensures e.Some? <==> r.user.Some? && r.member.Some?
  {
    if r.user.Some? && r.member.Some? then Some(CrewOf(r.user.value, r.member.value)) else None
  }

  function DtoOf(b: Bucket<string, TripRow, CrewEntry>): TripDto
  {
    TripDto(b.head.id, b.head.tripType, b.head.departure, b.head.vessel, b.head.status, b.items)
  }

  function JoinRows(db: Tables): seq<JoinedRow>
  {
    JoinOf(db, db.trips, None)
  }

  /** All trips with their active crew: the joined rows folded into one
      record per trip id, in first-appearance order. */
  function GetTripsFromDb(db: Tables): seq<TripDto>
  {
    Map(GroupBy(JoinRows(db), RowTripId, RowTrip, RowCrew), DtoOf)
  }

  /** One trip with its active crew, or the "Trip Not found" error when no
      trip has the id. */
  function GetSingleTripFromDb(db: Tables, tripId: string): (r: Result<TripDto, string>)
    ensures r.Failure? <==> tripId !in TripIds(db)
    ensures r.Failure? ==> r.error == "Trip Not found"
    ensures r.Success? ==> r.value.id == tripId
  {
    var rows := JoinOf(db, db.trips, Some(tripId));
    SingleRows(db, tripId);
    if rows == [] then Failure("Trip Not found")
    else
      var t := rows[0].trip;
      Success(TripDto(t.id, t.tripType, t.departure, t.vessel, t.status, Somes(Map(rows, RowCrew))))
  }

  /** Reference definition of a trip's crew: `e` comes from an active
      membership of the trip whose user exists. */
  predicate CrewSource(db: Tables, tripId: string, e: CrewEntry)
  {
    exists m | m in db.memberships && m.tripId == tripId && IsActive(m) ::
      FindUser(db, m.userId).Some? && e == CrewOf(FindUser(db, m.userId).value, m)
  }

  /** The crew entries of one trip's rows are exactly its crew sources. */
  lemma TripRowsCrew(db: Tables, t: TripRow, e: CrewEntry)
    ensures (exists row | row in TripRows(db, t) :: RowCrew(row) == Some(e)) <==> CrewSource(db, t.id, e)
  {
    if exists row | row in TripRows(db, t) :: RowCrew(row) == Some(e) {
      TripRowsCrewSound(db, t, e);
    }
    if CrewSource(db, t.id, e) {
      var row := TripRowsCrewComplete(db, t, e);
    }
  }

  lemma TripRowsCrewSound(db: Tables, t: TripRow, e: CrewEntry)
    requires exists row | row in TripRows(db, t) :: RowCrew(row) == Some(e)
    ensures CrewSource(db, t.id, e)
  {
    var ms := ActiveMembers(db, t.id);
    var rows := TripRows(db, t);
    FilterMembers(db.memberships, ActiveFor(t.id));
    var row :| row in rows && RowCrew(row) == Some(e);
    var i :| 0 <= i < |rows| && rows[i] == row;
    assert ms != [];
    assert row == JoinedRow(t, Some(ms[i]), FindUser(db, ms[i].userId));
    assert ms[i] in ms;
  }

  lemma TripRowsCrewComplete(db: Tables, t: TripRow, e: CrewEntry) returns (row: JoinedRow)
    requires CrewSource(db, t.id, e)
    ensures row in TripRows(db, t) && row.trip == t && RowCrew(row) == Some(e)
  {
    var ms := ActiveMembers(db, t.id);
    var rows := TripRows(db, t);
    FilterMembers(db.memberships, ActiveFor(t.id));
    var m :| m in db.memberships && m.tripId == t.id && IsActive(m) &&
      FindUser(db, m.userId).Some? && e == CrewOf(FindUser(db, m.userId).value, m);
    assert m in ms;
    var i :| 0 <= i < |ms| && ms[i] == m;
    assert rows[i] == JoinedRow(t, Some(m), FindUser(db, m.userId));
    row := rows[i];
    assert RowCrew(row) == Some(e);
  }

  /** A joined row comes from one selected trip. */
  lemma {:induction false} JoinOfMembership(db: Tables, ts: seq<TripRow>, only: Option<string>, row: JoinedRow)
    ensures row in JoinOf(db, ts, only) <==>
      exists i | 0 <= i < |ts| :: Selected(ts[i], only) && row in TripRows(db, ts[i])
  {
    if ts != [] {
      var n := |ts| - 1;
      var init := ts[..n];
      JoinOfMembership(db, init, only, row);
      var tail := if Selected(ts[n], only) then TripRows(db, ts[n]) else [];
      assert JoinOf(db, ts, only) == JoinOf(db, init, only) + tail;
      if row in JoinOf(db, ts, only) {
        if row in JoinOf(db, init, only) {
          var i :| 0 <= i < n && Selected(init[i], only) && row in TripRows(db, init[i]);
          assert init[i] == ts[i];
        } else {
          assert row in tail;
          assert Selected(ts[n], only) && row in TripRows(db, ts[n]);
        }
      }
      if exists i | 0 <= i < |ts| :: Selected(ts[i], only) && row in TripRows(db, ts[i]) {
        var i :| 0 <= i < |ts| && Selected(ts[i], only) && row in TripRows(db, ts[i]);
        if i < n {
          assert init[i] == ts[i];
        }
      }
    }
  }

  /** The trip ids of the joined rows are the ids of the selected trips. */
  lemma JoinOfIds(db: Tables, ts: seq<TripRow>, only: Option<string>, k: string)
    ensures k in Map(JoinOf(db, ts, only), RowTripId) <==>
      exists i | 0 <= i < |ts| :: Selected(ts[i], only) && ts[i].id == k
  {
    var rows := JoinOf(db, ts, only);
    if k in Map(rows, RowTripId) {
      var j :| 0 <= j < |rows| && Map(rows, RowTripId)[j] == k;
      var i := JoinOfSource(db, ts, only, rows[j]);
    }
    if exists i | 0 <= i < |ts| :: Selected(ts[i], only) && ts[i].id == k {
      var i :| 0 <= i < |ts| && Selected(ts[i], only) && ts[i].id == k;
      var row := TripRows(db, ts[i])[0];
      JoinOfIncludes(db, ts, only, i, row);
      var j :| 0 <= j < |rows| && rows[j] == row;
      assert Map(rows, RowTripId)[j] == k;
    }
  }

  /** A joined row belongs to one of the selected trips. */
  lemma JoinOfSource(db: Tables, ts: seq<TripRow>, only: Option<string>, row: JoinedRow) returns (i: nat)
    requires row in JoinOf(db, ts, only)
    ensures i < |ts| && Selected(ts[i], only) && row.trip == ts[i]
  {
    JoinOfMembership(db, ts, only, row);
    i :| 0 <= i < |ts| && Selected(ts[i], only) && row in TripRows(db, ts[i]);
    var x :| 0 <= x < |TripRows(db, ts[i])| && TripRows(db, ts[i])[x] == row;
  }

  /** Position `i` holds the first trip of `ts` with id `k`. */
  predicate FirstWithId(ts: seq<TripRow>, k: string, i: int)
  {
    0 <= i < |ts| && ts[i].id == k && forall j | 0 <= j < i :: ts[j].id != k
  }

  lemma FindTripFirst(db: Tables, k: string, i: int)
    requires FirstWithId(db.trips, k, i)
    ensures FindTrip(db, k) == Some(db.trips[i])
  {
    var f := FirstIndexWhere(db.trips, (t: TripRow) => t.id == k);
    assert f >= 0;
  }

  /** The first joined row with trip id `k` belongs to the first trip with that id. */
  lemma {:induction false} FirstRowTrip(db: Tables, ts: seq<TripRow>, only: Option<string>, k: string)
    requires only.None? || only == Some(k)
    requires k in Map(JoinOf(db, ts, only), RowTripId)
    ensures var rows := JoinOf(db, ts, only);
      exists i :: FirstWithId(ts, k, i) && rows[IndexOf(Map(rows, RowTripId), k)].trip == ts[i]
  {
    var n := |ts| - 1;
    var init := ts[..n];
    assert ts == init + [ts[n]];
    var front := JoinOf(db, init, only);
    if k in Map(front, RowTripId) {
      FirstRowTrip(db, init, only, k);
      FirstRowInFront(db, init, ts[n], only, k);
    } else {
      FirstRowInLast(db, init, ts[n], only, k);
    }
  }

  lemma JoinOfSnoc(db: Tables, init: seq<TripRow>, t: TripRow, only: Option<string>)
    ensures JoinOf(db, init + [t], only) == JoinOf(db, init, only) + if Selected(t, only) then TripRows(db, t) else []
  {
    assert (init + [t])[..|init|] == init;
  }

  lemma FirstRowInFront(db: Tables, init: seq<TripRow>, t: TripRow, only: Option<string>, k: string)
    requires k in Map(JoinOf(db, init, only), RowTripId)
    requires var front := JoinOf(db, init, only);
      exists i :: FirstWithId(init, k, i) && front[IndexOf(Map(front, RowTripId), k)].trip == init[i]
    ensures var rows := JoinOf(db, init + [t], only);
      k in Map(rows, RowTripId) &&
      exists i :: FirstWithId(init + [t], k, i) && rows[IndexOf(Map(rows, RowTripId), k)].trip == (init + [t])[i]
  {
    var ts := init + [t];
    var front := JoinOf(db, init, only);
    var rows := JoinOf(db, ts, only);
    JoinOfSnoc(db, init, t, only);
    var ks := Map(rows, RowTripId);
    var fks := Map(front, RowTripId);
    assert rows[..|front|] == front;
    assert ks[..|front|] == fks;
    IndexOfPrefix(ks, |front|, k);
    var i :| FirstWithId(init, k, i) && front[IndexOf(fks, k)].trip == init[i];
    assert FirstWithId(ts, k, i) by {
      assert forall j | 0 <= j <= i :: init[j] == ts[j];
    }
    assert rows[IndexOf(ks, k)] == front[IndexOf(fks, k)];
  }

  lemma FirstRowInLast(db: Tables, init: seq<TripRow>, t: TripRow, only: Option<string>, k: string)
    requires only.None? || only == Some(k)
    requires k in Map(JoinOf(db, init + [t], only), RowTripId)
    requires k !in Map(JoinOf(db, init, only), RowTripId)
    ensures var rows := JoinOf(db, init + [t], only);
      exists i :: FirstWithId(init + [t], k, i) && rows[IndexOf(Map(rows, RowTripId), k)].trip == (init + [t])[i]
  {
    var ts := init + [t];
    var n := |init|;
    var front := JoinOf(db, init, only);
    var rows := JoinOf(db, ts, only);
    var ks := Map(rows, RowTripId);
    var idx := IndexOf(ks, k);
    var extra := if Selected(t, only) then TripRows(db, t) else [];
    assert rows == front + extra by {
      JoinOfSnoc(db, init, t, only);
    }
    assert idx >= |front| by {
      assert ks[..|front|] == Map(front, RowTripId);
    }
    assert rows[idx].trip == t by {
      assert rows[idx] == extra[idx - |front|];
    }
    assert FirstWithId(ts, k, n) by {
      JoinOfIds(db, init, only, k);
      forall j | 0 <= j < n
        ensures ts[j].id != k
      {
        assert init[j] == ts[j];
        assert Selected(init[j], only) || init[j].id != k;
      }
    }
    assert ts[n] == t;
  }

  /** Every joined row of `JoinOf(..., Some(k))` has trip id `k`. */
  lemma JoinOfOnly(db: Tables, ts: seq<TripRow>, k: string)
    ensures var rows := JoinOf(db, ts, Some(k));
      forall j | 0 <= j < |rows| :: RowTripId(rows[j]) == k
  {
    var rows := JoinOf(db, ts, Some(k));
    forall j | 0 <= j < |rows|
      ensures RowTripId(rows[j]) == k
    {
      JoinOfMembership(db, ts, Some(k), rows[j]);
      var i :| 0 <= i < |ts| && Selected(ts[i], Some(k)) && rows[j] in TripRows(db, ts[i]);
    }
  }

  lemma CollectOtherTrip(db: Tables, t: TripRow, k: string)
    requires t.id != k
    ensures Collect(TripRows(db, t), k, RowTripId, RowCrew) == []
  {
    var rows := TripRows(db, t);
    forall j | 0 <= j < |rows|
      ensures Map(rows, RowTripId)[j] != k
    {
      assert rows[j].trip == t;
    }
    CollectAbsent(rows, k, RowTripId, RowCrew);
  }

  /** The crew collected for `k` from all joined rows is the crew of the
      rows restricted to trip `k`. */
  lemma {:induction false} CollectJoin(db: Tables, ts: seq<TripRow>, k: string)
    ensures Collect(JoinOf(db, ts, None), k, RowTripId, RowCrew) == Collect(JoinOf(db, ts, Some(k)), k, RowTripId, RowCrew)
  {
    if ts != [] {
      var n := |ts| - 1;
      var extra := TripRows(db, ts[n]);
      assert JoinOf(db, ts, None) == JoinOf(db, ts[..n], None) + extra;
      CollectJoin(db, ts[..n], k);
      CollectAppend(JoinOf(db, ts[..n], None), extra, k, RowTripId, RowCrew);
      if ts[n].id == k {
        CollectAppend(JoinOf(db, ts[..n], Some(k)), extra, k, RowTripId, RowCrew);
      } else {
        assert JoinOf(db, ts, Some(k)) == JoinOf(db, ts[..n], Some(k));
        CollectOtherTrip(db, ts[n], k);
      }
    }
  }

  /** A DTO carries the columns of a trip row. */
  predicate Describes(d: TripDto, t: TripRow)
  {
    d.id == t.id && d.tripType == t.tripType && d.departure == t.departure && d.vessel == t.vessel && d.status == t.status
  }

  function DtoId(d: TripDto): string { d.id }

  /** One record per distinct trip id of the joined rows, in first-appearance
      order; those ids are exactly the ids of the stored trips; and each
      record carries the columns of the first trip with its id. */
  lemma GetTripsFromDbTrips(db: Tables)
    ensures var r := GetTripsFromDb(db);
      && Map(r, DtoId) == Dedup(Map(JoinRows(db), RowTripId))
      && (forall k :: k in Map(r, DtoId) <==> k in TripIds(db))
      && forall i | 0 <= i < |r| :: FindTrip(db, r[i].id).Some? && Describes(r[i], FindTrip(db, r[i].id).value)
  {
    var rows := JoinRows(db);
    var bs := GroupBy(rows, RowTripId, RowTrip, RowCrew);
    var r := GetTripsFromDb(db);
    GroupBySpec(rows, RowTripId, RowTrip, RowCrew);
    forall i | 0 <= i < |r|
      ensures r[i].id == bs[i].key
      ensures FindTrip(db, r[i].id).Some? && Describes(r[i], FindTrip(db, r[i].id).value)
    {
      DtoDescribes(db, i);
    }
    assert Map(r, DtoId) == Keys(bs);
    forall k
      ensures k in Map(r, DtoId) <==> k in TripIds(db)
    {
      DtoIds(db, k);
    }
  }

  /** A trip id has a record exactly when it is the id of a stored trip. */
  lemma DtoIds(db: Tables, k: string)
    ensures k in Map(GetTripsFromDb(db), DtoId) <==> k in TripIds(db)
  {
    var r := GetTripsFromDb(db);
    if k in Map(r, DtoId) {
      var i :| 0 <= i < |r| && Map(r, DtoId)[i] == k;
      DtoKey(db, i);
    }
    if k in TripIds(db) {
      var rows := JoinRows(db);
      var bs := GroupBy(rows, RowTripId, RowTrip, RowCrew);
      assert k in Keys(bs) by {
        var i :| 0 <= i < |db.trips| && TripIds(db)[i] == k;
        JoinOfIds(db, db.trips, None, k);
        GroupByKeys(rows, RowTripId, RowTrip, RowCrew);
      }
      var i :| 0 <= i < |bs| && Keys(bs)[i] == k;
      DtoKey(db, i);
      assert Map(r, DtoId)[i] == k;
    }
  }

  /** A record carries the columns of the first stored trip with its id. */
  lemma DtoDescribes(db: Tables, i: nat)
    requires i < |GetTripsFromDb(db)|
    ensures var r := GetTripsFromDb(db);
      && i < |GroupBy(JoinRows(db), RowTripId, RowTrip, RowCrew)|
      && r[i].id == GroupBy(JoinRows(db), RowTripId, RowTrip, RowCrew)[i].key
      && FindTrip(db, r[i].id).Some? && Describes(r[i], FindTrip(db, r[i].id).value)
  {
    var rows := JoinRows(db);
    var bs := GroupBy(rows, RowTripId, RowTrip, RowCrew);
    GroupBySpec(rows, RowTripId, RowTrip, RowCrew);
    var k := bs[i].key;
    FirstRowTrip(db, db.trips, None, k);
    var j :| FirstWithId(db.trips, k, j) && rows[IndexOf(Map(rows, RowTripId), k)].trip == db.trips[j];
    FindTripFirst(db, k, j);
  }

  /** A record's id is its bucket's key, which is the id of a stored trip. */
  lemma DtoKey(db: Tables, i: nat)
    requires i < |GetTripsFromDb(db)|
    ensures var bs := GroupBy(JoinRows(db), RowTripId, RowTrip, RowCrew);
      i < |bs| && GetTripsFromDb(db)[i].id == bs[i].key && bs[i].key in TripIds(db)
  {
    var rows := JoinRows(db);
    var bs := GroupBy(rows, RowTripId, RowTrip, RowCrew);
    GroupBySpec(rows, RowTripId, RowTrip, RowCrew);
    var k := bs[i].key;
    FirstRowTrip(db, db.trips, None, k);
    JoinOfIds(db, db.trips, None, k);
  }

  /** A record's crew is exactly the entries of the trip's active members
      whose user exists. */
  lemma GetTripsFromDbCrew(db: Tables, i: nat, e: CrewEntry)
    requires i < |GetTripsFromDb(db)|
    ensures var d := GetTripsFromDb(db)[i];
      e in d.crew <==> CrewSource(db, d.id, e)
  {
    var rows := JoinRows(db);
    var bs := GroupBy(rows, RowTripId, RowTrip, RowCrew);
    DtoKey(db, i);
    GroupByItems(rows, RowTripId, RowTrip, RowCrew);
    var k := bs[i].key;
    CollectMembership(rows, k, RowTripId, RowCrew, e);
    CrewFromRows(db, k, e);
  }

  /** A trip with no active member whose user exists has an empty crew. */
  lemma NoActiveMembersNoCrew(db: Tables, i: nat)
    requires i < |GetTripsFromDb(db)|
    requires forall e :: !CrewSource(db, GetTripsFromDb(db)[i].id, e)
    ensures GetTripsFromDb(db)[i].crew == []
  {
    var d := GetTripsFromDb(db)[i];
    if d.crew != [] {
      GetTripsFromDbCrew(db, i, d.crew[0]);
    }
  }

  /** Some joined row of trip `k` yields `e` exactly when `e` has a crew source. */
  lemma CrewFromRows(db: Tables, k: string, e: CrewEntry)
    requires k in TripIds(db)
    ensures var rows := JoinRows(db);
      (exists j | 0 <= j < |rows| :: RowTripId(rows[j]) == k && RowCrew(rows[j]) == Some(e)) <==> CrewSource(db, k, e)
  {
    var rows := JoinRows(db);
    if exists j | 0 <= j < |rows| :: RowTripId(rows[j]) == k && RowCrew(rows[j]) == Some(e) {
      var j :| 0 <= j < |rows| && RowTripId(rows[j]) == k && RowCrew(rows[j]) == Some(e);
      CrewFromRowsSound(db, k, e, j);
    }
    if CrewSource(db, k, e) {
      CrewFromRowsComplete(db, k, e);
    }
  }

  lemma CrewFromRowsSound(db: Tables, k: string, e: CrewEntry, j: nat)
    requires j < |JoinRows(db)| && RowTripId(JoinRows(db)[j]) == k && RowCrew(JoinRows(db)[j]) == Some(e)
    ensures CrewSource(db, k, e)
  {
    var row := JoinRows(db)[j];
    JoinOfMembership(db, db.trips, None, row);
    var i :| 0 <= i < |db.trips| && Selected(db.trips[i], None) && row in TripRows(db, db.trips[i]);
    TripRowsCrew(db, db.trips[i], e);
  }

  lemma CrewFromRowsComplete(db: Tables, k: string, e: CrewEntry)
    requires k in TripIds(db) && CrewSource(db, k, e)
    ensures var rows := JoinRows(db);
      exists j | 0 <= j < |rows| :: RowTripId(rows[j]) == k && RowCrew(rows[j]) == Some(e)
  {
    var rows := JoinRows(db);
    var i :| 0 <= i < |db.trips| && TripIds(db)[i] == k;
    var t := db.trips[i];
    var row := TripRowsCrewComplete(db, t, e);
    JoinOfIncludes(db, db.trips, None, i, row);
    var j :| 0 <= j < |rows| && rows[j] == row;
    assert RowTripId(rows[j]) == k;
  }

  /** Every row of a selected trip is among the joined rows. */
  lemma {:induction false} JoinOfIncludes(db: Tables, ts: seq<TripRow>, only: Option<string>, i: nat, row: JoinedRow)
    requires i < |ts| && Selected(ts[i], only) && row in TripRows(db, ts[i])
    ensures row in JoinOf(db, ts, only)
  {
    var n := |ts| - 1;
    var init := ts[..n];
    assert JoinOf(db, ts, only) == JoinOf(db, init, only) + if Selected(ts[n], only) then TripRows(db, ts[n]) else [];
    if i < n {
      assert init[i] == ts[i];
      JoinOfIncludes(db, init, only, i, row);
    }
  }

  /** The rows of the single-trip query exist exactly when the trip does,
      and all of them carry its id. */
  lemma SingleRows(db: Tables, tripId: string)
    ensures var rows := JoinOf(db, db.trips, Some(tripId));
      && (rows == [] <==> tripId !in TripIds(db))
      && forall j | 0 <= j < |rows| :: rows[j].trip.id == tripId
  {
    var rows := JoinOf(db, db.trips, Some(tripId));
    JoinOfOnly(db, db.trips, tripId);
    JoinOfIds(db, db.trips, Some(tripId), tripId);
    if tripId in TripIds(db) {
      var i :| 0 <= i < |db.trips| && TripIds(db)[i] == tripId;
    }
    if rows != [] {
      assert Map(rows, RowTripId)[0] == tripId;
    }
  }

  /** The record both views build for trip id `k`: the columns of the
      first trip with that id and the crew collected for `k`. */
  function RecordFor(db: Tables, t: TripRow, k: string): TripDto
  {
    TripDto(t.id, t.tripType, t.departure, t.vessel, t.status, Collect(JoinRows(db), k, RowTripId, RowCrew))
  }

  lemma SingleTripIs(db: Tables, k: string, j: int)
    requires FirstWithId(db.trips, k, j)
    ensures GetSingleTripFromDb(db, k) == Success(RecordFor(db, db.trips[j], k))
  {
    var only := JoinOf(db, db.trips, Some(k));
    SingleRows(db, k);
    JoinOfIds(db, db.trips, Some(k), k);
    FirstRowTrip(db, db.trips, Some(k), k);
    var j' :| FirstWithId(db.trips, k, j') && only[IndexOf(Map(only, RowTripId), k)].trip == db.trips[j'];
    assert Map(only, RowTripId)[0] == k;
    assert j == j' by {
      FirstWithIdUnique(db.trips, k, j, j');
    }
    CollectJoin(db, db.trips, k);
    CollectAllKey(only, k, RowTripId, RowCrew);
  }

  lemma ListedTripIs(db: Tables, i: nat)
    requires i < |GetTripsFromDb(db)|
    ensures var d := GetTripsFromDb(db)[i];
      exists j :: FirstWithId(db.trips, d.id, j) && d == RecordFor(db, db.trips[j], d.id)
  {
    var rows := JoinRows(db);
    var bs := GroupBy(rows, RowTripId, RowTrip, RowCrew);
    DtoKey(db, i);
    GroupBySpec(rows, RowTripId, RowTrip, RowCrew);
    var k := bs[i].key;
    FirstRowTrip(db, db.trips, None, k);
    var j :| FirstWithId(db.trips, k, j) && rows[IndexOf(Map(rows, RowTripId), k)].trip == db.trips[j];
    assert GetTripsFromDb(db)[i] == RecordFor(db, db.trips[j], k);
  }

  lemma FirstWithIdUnique(ts: seq<TripRow>, k: string, i: int, j: int)
    requires FirstWithId(ts, k, i) && FirstWithId(ts, k, j)
    ensures i == j
  {
  }

  /** The single-trip view of a listed trip is that trip's record in the
      list of all trips. */
  lemma SingleTripAgrees(db: Tables, i: nat)
    requires i < |GetTripsFromDb(db)|
    ensures GetSingleTripFromDb(db, GetTripsFromDb(db)[i].id) == Success(GetTripsFromDb(db)[i])
  {
    var d := GetTripsFromDb(db)[i];
    ListedTripIs(db, i);
    var j :| FirstWithId(db.trips, d.id, j) && d == RecordFor(db, db.trips[j], d.id);
    SingleTripIs(db, d.id, j);
  }

  // ----- Free crew -----

  /** An entry of the free-crew list: the name is "last first", trimmed. */
  datatype FreeCrewEntry = FreeCrewEntry(id: int, name: string, position: Option<string>, vessel: Option<string>)

  function FreeEntryOf(u: UserRow): FreeCrewEntry
  {
    FreeCrewEntry(u.id, Trim(Render(u.lastName) + " " + Render(u.firstName)), u.role, u.vessel)
  }

  function MemberUserId(m: Membership): int { m.userId }

  /** The users' filter: not soft-deleted and, only when the trip has active
      members, not one of them. */
  function FreeFilter(existing: seq<Membership>): UserRow -> bool
  {
    (u: UserRow) => u.deletedAt.None? && (|existing| > 0 ==> u.id !in Map(existing, MemberUserId))
  }

  function FreeUsers(db: Tables, tripId: string): seq<UserRow>
  {
    Filter(db.users, FreeFilter(ActiveMembers(db, tripId)))
  }

  /** The users who could still join trip `tripId`, in table order. */
  function GetFreeCrew(db: Tables, tripId: string): (r: seq<FreeCrewEntry>)
    ensures |r| <= |db.users|
  {
    Map(FreeUsers(db, tripId), FreeEntryOf)
  }

  /** Reference definition: `userId` holds an active membership of `tripId`. */
  predicate ActiveMember(db: Tables, tripId: string, userId: int)
  {
    exists m | m in db.memberships :: m.tripId == tripId && m.userId == userId && IsActive(m)
  }

  /** The free users are exactly the stored users that are not soft-deleted
      and hold no active membership of the trip, in table order. */
  lemma FreeUsersSpec(db: Tables, tripId: string)
    ensures forall u :: u in FreeUsers(db, tripId) <==>
      u in db.users && u.deletedAt.None? && !ActiveMember(db, tripId, u.id)
    ensures IsSubsequence(FreeUsers(db, tripId), db.users)
  {
    var existing := ActiveMembers(db, tripId);
    FilterSpec(db.users, FreeFilter(existing));
    FilterMembers(db.memberships, ActiveFor(tripId));
    forall u: UserRow
      ensures u.id in Map(existing, MemberUserId) <==> ActiveMember(db, tripId, u.id)
    {
      if u.id in Map(existing, MemberUserId) {
        var j :| 0 <= j < |existing| && Map(existing, MemberUserId)[j] == u.id;
        assert existing[j] in existing;
      }
      if ActiveMember(db, tripId, u.id) {
        var m :| m in db.memberships && m.tripId == tripId && m.userId == u.id && IsActive(m);
        assert m in existing;
        MapMembers(existing, MemberUserId);
      }
    }
  }

  /** With no active member, every user that is not soft-deleted is free. */
  lemma FreeCrewWithoutMembers(db: Tables, tripId: string)
    requires forall m | m in db.memberships :: !(m.tripId == tripId && IsActive(m))
    ensures FreeUsers(db, tripId) == Filter(db.users, (u: UserRow) => u.deletedAt.None?)
  {
    var existing := ActiveMembers(db, tripId);
    FilterMembers(db.memberships, ActiveFor(tripId));
    FilterNone(db.memberships, ActiveFor(tripId));
    FilterSameTest(db.users, FreeFilter(existing), (u: UserRow) => u.deletedAt.None?);
  }

  /** A free-crew entry per free user, in order. */
  lemma GetFreeCrewEntries(db: Tables, tripId: string)
    ensures var r := GetFreeCrew(db, tripId);
      |r| == |FreeUsers(db, tripId)| &&
      forall i | 0 <= i < |r| :: r[i] == FreeEntryOf(FreeUsers(db, tripId)[i])
  {
  }

  // ----- Crew names -----

  predicate Unpadded(s: string)
  {
    s != [] && !IsSpace(s[0]) && !IsSpace(s[|s| - 1])
  }

  /** With both names stored and unpadded, the trip views show "first last"
      and the free-crew list shows "last first". */
  lemma CrewNames(u: UserRow, m: Membership)
    requires u.firstName.Some? && u.lastName.Some?
    requires Unpadded(u.firstName.value) && Unpadded(u.lastName.value)
    ensures CrewOf(u, m).name == u.firstName.value + " " + u.lastName.value
    ensures FreeEntryOf(u).name == u.lastName.value + " " + u.firstName.value
  {
    var f := u.firstName.value;
    var l := u.lastName.value;
    TrimUnchanged(f + " " + l);
    TrimUnchanged(l + " " + f);
  }

  /** A missing last name shows up as the word "null". */
  lemma CrewNameWithNullLastName(u: UserRow, m: Membership)
    requires u.firstName.Some? && u.lastName.None? && Unpadded(u.firstName.value)
    ensures CrewOf(u, m).name == u.firstName.value + " null"
  {
    TrimUnchanged(u.firstName.value + " null");
  }
}
