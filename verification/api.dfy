/** The HTTP layer's own logic: the three trip-list filters, the routing of
    join and leave requests to a participant mark, the refresh report, the
    error-to-reply mapping and the redaction of bearer tokens before logging.
    Trip records are generic here: the routes only read their date and type. */
module Api {
  import opened Wrappers
  import opened Seqs
  import opened Text

  // ----- Trip lists -----

  datatype Listing<T> = Listing(key: string, trips: seq<T>, count: nat)

  function HasDate<T>(date: T -> string, d: string): T -> bool { (t: T) => date(t) == d }
  function HasType<T>(tripType: T -> string, k: string): T -> bool { (t: T) => tripType(t) == k }

  /** `GET /trips/date/:date`. */
  function TripsByDate<T(==,!new)>(trips: seq<T>, date: T -> string, d: string): (r: Listing<T>)
    ensures r.key == d && r.count == |r.trips|
  {
    var f := Filter(trips, HasDate(date, d));
    Listing(d, f, |f|)
  }

  /** `GET /trips/type/:type`. */
  function TripsByType<T(==,!new)>(trips: seq<T>, tripType: T -> string, k: string): (r: Listing<T>)
    ensures r.key == k && r.count == |r.trips|
  {
    var f := Filter(trips, HasType(tripType, k));
    Listing(k, f, |f|)
  }

  /** The date listing holds exactly the trips on that date, each as often as
      before and in the original order. */
  lemma TripsByDateSpec<T(!new)>(trips: seq<T>, date: T -> string, d: string)
    ensures var r := TripsByDate(trips, date, d);
      && (forall t :: t in r.trips <==> t in trips && date(t) == d)
      && (forall t :: multiset(r.trips)[t] == if date(t) == d then multiset(trips)[t] else 0)
      && IsSubsequence(r.trips, trips)
  {
    FilterSpec(trips, HasDate(date, d));
  }

  lemma TripsByTypeSpec<T(!new)>(trips: seq<T>, tripType: T -> string, k: string)
    ensures var r := TripsByType(trips, tripType, k);
      && (forall t :: t in r.trips <==> t in trips && tripType(t) == k)
      && (forall t :: multiset(r.trips)[t] == if tripType(t) == k then multiset(trips)[t] else 0)
      && IsSubsequence(r.trips, trips)
  {
    FilterSpec(trips, HasType(tripType, k));
  }

  datatype RangeListing<T> = RangeListing(from: Option<string>, to: Option<string>, trips: seq<T>, count: nat)

  /** A query parameter is applied only when present and non-empty. */
  predicate Given(bound: Option<string>) { bound.Some? && bound.value != "" }

  function NotBefore<T>(date: T -> string, from: string): T -> bool { (t: T) => StrLe(from, date(t)) }
  function NotAfter<T>(date: T -> string, to: string): T -> bool { (t: T) => StrLe(date(t), to) }

  /** `GET /trips/range`: both bounds optional and inclusive, compared as strings. */
  function TripsInRange<T(==,!new)>(trips: seq<T>, date: T -> string, from: Option<string>, to: Option<string>): (r: RangeListing<T>)
    ensures r.from == from && r.to == to && r.count == |r.trips|
  {
    var afterFrom := if Given(from) then Filter(trips, NotBefore(date, from.value)) else trips;
    var inRange := if Given(to) then Filter(afterFrom, NotAfter(date, to.value)) else afterFrom;
    RangeListing(from, to, inRange, |inRange|)
  }

  /** Reference definition of the range test. */
  predicate InRange(d: string, from: Option<string>, to: Option<string>)
  {
    (Given(from) ==> StrLe(from.value, d)) && (Given(to) ==> StrLe(d, to.value))
  }

  /** The range listing keeps exactly the trips whose date is in range, in
      order; with neither bound it is the whole list. */
  lemma TripsInRangeSpec<T(!new)>(trips: seq<T>, date: T -> string, from: Option<string>, to: Option<string>)
    ensures var r := TripsInRange(trips, date, from, to);
      && (forall t :: t in r.trips <==> t in trips && InRange(date(t), from, to))
      && IsSubsequence(r.trips, trips)
      && (!Given(from) && !Given(to) ==> r.trips == trips)
  {
    var afterFrom := if Given(from) then Filter(trips, NotBefore(date, from.value)) else trips;
    SubsequenceReflexive(trips);
    if Given(from) {
      FilterSpec(trips, NotBefore(date, from.value));
    }
    if Given(to) {
      FilterSpec(afterFrom, NotAfter(date, to.value));
      SubsequenceTransitive(Filter(afterFrom, NotAfter(date, to.value)), afterFrom, trips);
    }
  }

  /** An inclusive range from a date to itself lists exactly that date's trips. */
  lemma SingleDayRange<T(!new)>(trips: seq<T>, date: T -> string, d: string)
    requires d != ""
    ensures forall t :: t in TripsInRange(trips, date, Some(d), Some(d)).trips <==> t in TripsByDate(trips, date, d).trips
  {
    TripsInRangeSpec(trips, date, Some(d), Some(d));
    TripsByDateSpec(trips, date, d);
    forall t | t in trips
      ensures InRange(date(t), Some(d), Some(d)) <==> date(t) == d
    {
      if InRange(date(t), Some(d), Some(d)) {
        StrLeAntisymmetric(d, date(t));
      } else {
        StrLeReflexive(d);
      }
    }
  }

  // ----- Join and leave -----

  /** The body of `POST /trips/join` and `POST /trips/leave`. */
  datatype MemberBody = MemberBody(userId: string, tripId: string, byCaptain: bool)

  /** The schema check on the body: the user id is at most 64 characters. */
  predicate ValidBody(b: MemberBody) { |b.userId| <= 64 }

  /** The call the route makes to record a participant: the mark written
      into the participant's cell. */
  datatype ParticipantUpdate = ParticipantUpdate(userId: string, tripId: string, mark: string)

  datatype Route = JoinRoute | LeaveRoute

  function MarkOf(route: Route): string
  {
    match route
    case JoinRoute => "1"
    case LeaveRoute => ""
  }

  /** A body that fails the schema never reaches the handler; otherwise the
      handler forwards the ids with the route's mark and drops `byCaptain`. */
  function HandleMember(route: Route, b: MemberBody): (r: Result<ParticipantUpdate, ErrorCode>)
    ensures r.Failure? <==> !ValidBody(b)
    ensures r.Failure? ==> r.error.Validation?
    ensures r.Success? ==> r.value.userId == b.userId && r.value.tripId == b.tripId
    ensures r.Success? ==> (r.value.mark == "1" <==> route == JoinRoute)
  {
    if !ValidBody(b) then Failure(Validation("body does not match the schema"))
    else Success(ParticipantUpdate(b.userId, b.tripId, MarkOf(route)))
  }

  /** `byCaptain` has no effect on what either route does. */
  lemma ByCaptainIgnored(route: Route, b: MemberBody, byCaptain: bool)
    ensures HandleMember(route, b.(byCaptain := byCaptain)) == HandleMember(route, b)
  {
  }

  /** Joining and then leaving the same trip writes a mark and then clears it. */
  lemma JoinLeaveMarks(b: MemberBody)
    requires ValidBody(b)
    ensures HandleMember(JoinRoute, b).value.mark == "1"
    ensures HandleMember(LeaveRoute, b).value.mark == ""
    ensures HandleMember(JoinRoute, b).value.(mark := "") == HandleMember(LeaveRoute, b).value
  {
  }

  // ----- Refresh -----

  /** What a `catch` receives: an `Error` with its message, or any other value. */
  datatype Thrown = ThrownError(message: string) | ThrownValue

  datatype RefreshReply = RefreshReply(success: bool, message: string, count: Option<nat>, error: Option<string>)

  /** `POST /trips/refresh`: the outcome of reloading and listing the trips
      (the number of trips, or what was thrown) becomes a reply; the route
      itself never fails. */
  function Refresh(outcome: Result<nat, Thrown>): (r: RefreshReply)
    ensures r.success <==> outcome.Success?
    ensures r.success ==> r.message == "Trips data refreshed successfully" && r.count == Some(outcome.value) && r.error.None?
    ensures !r.success ==> r.message == "Failed to refresh trips data" && r.count.None? && r.error.Some?
    ensures outcome.Failure? && outcome.error.ThrownError? ==> r.error == Some(outcome.error.message)
    ensures outcome.Failure? && outcome.error.ThrownValue? ==> r.error == Some("Unknown error")
  {
    match outcome
    case Success(n) => RefreshReply(true, "Trips data refreshed successfully", Some(n), None)
    case Failure(e) =>
      RefreshReply(false, "Failed to refresh trips data", None,
        Some(if e.ThrownError? then e.message else "Unknown error"))
  }

  // ----- Error replies -----

  /** A value an error parameter may hold: a string, a number or a boolean.
      Numbers are modelled as integers. */
  datatype Value = Str(s: string) | Num(n: int) | Bool(b: bool)

  /** The error kinds the error hook tells apart. A missing message is
      `None`; missing parameters are the empty list. */
  datatype ErrorCode =
    | Client(errorCode: string, errorMessage: Option<string>, params: seq<(string, Value)>)
    | Unauthorized(errorCode: string, errorMessage: Option<string>)
    | Validation(message: string)
    | NotFound(message: string)
    | Other(code: string)

  /** A JavaScript object as its own properties in the order the engine
      enumerates them; a property holding `undefined` has the value `None`. */
  type Object = seq<(string, Option<Value>)>

  const MaxArrayIndex := 4294967294

  /** A key the engine treats as an array index: the canonical decimal
      form (no sign, no leading zero) of a number up to 2^32 - 2. */
  predicate IsArrayIndex(k: string)
  {
    && |k| > 0
    && (forall i | 0 <= i < |k| :: IsDigit(k[i]))
    && (|k| > 1 ==> k[0] != '0')
    && DigitsValue(k) <= MaxArrayIndex
  }

  function NotIndex(k: string): bool { !IsArrayIndex(k) }

  /** The keys that are not array indices, in their order. */
  function NonIndexKeys(names: seq<string>): seq<string>
  {
    Filter(names, NotIndex)
  }

  /** The engine's enumeration order: no key twice, and the array-index keys
      first, in ascending numeric order, ahead of every other key. */
  predicate Enumerable(names: seq<string>)
  {
    && Distinct(names)
    && forall i, j | 0 <= i < j < |names| && IsArrayIndex(names[j]) ::
         IsArrayIndex(names[i]) && DigitsValue(names[i]) <= DigitsValue(names[j])
  }

  /** The keys of an object, or of a parameter list, in order. */
  function FieldNames<V>(o: seq<(string, V)>): (r: seq<string>)
    ensures |r| == |o|
    ensures forall i | 0 <= i < |o| :: r[i] == o[i].0
  {
    if o == [] then [] else [o[0].0] + FieldNames(o[1..])
  }

  /** The value of an existing key, replaced in place. */
  function Replace(o: Object, k: string, v: Option<Value>): Object
  {
    if o == [] then []
    else if o[0].0 == k then [(k, v)] + o[1..]
    else [o[0]] + Replace(o[1..], k, v)
  }

  /** Whether a new index key `k` goes in front of `o`. */
  predicate InsertsHere(o: Object, k: string)
    requires IsArrayIndex(k)
  {
    o == [] || !IsArrayIndex(o[0].0) || DigitsValue(k) < DigitsValue(o[0].0)
  }

  /** A new array-index key, placed after the index keys not above it. */
  function InsertIndex(o: Object, k: string, v: Option<Value>): Object
    requires IsArrayIndex(k)
  {
    if InsertsHere(o, k) then [(k, v)] + o
    else [o[0]] + InsertIndex(o[1..], k, v)
  }

  /** Property definition: an existing key keeps its place and takes the new
      value; a new array-index key joins the index keys in numeric order; any
      other new key goes last. */
  function SetField(o: Object, k: string, v: Option<Value>): Object
  {
    if k in FieldNames(o) then Replace(o, k, v)
    else if IsArrayIndex(k) then InsertIndex(o, k, v)
    else o + [(k, v)]
  }

  /** Object spread: the properties of `src` defined one by one, in order. */
  function Spread(o: Object, src: seq<(string, Value)>): Object
    decreases src
  {
    if src == [] then o
    else Spread(SetField(o, src[0].0, Some(src[0].1)), src[1..])
  }

  /** The value a lookup of `k` gives: `None` for a missing key. */
  function Get(o: Object, k: string): Option<Option<Value>>
  {
    if o == [] then None
    else if o[0].0 == k then Some(o[0].1)
    else Get(o[1..], k)
  }

  /** An optional message as a property value. */
  function MessageValue(m: Option<string>): Option<Value>
  {
    if m.Some? then Some(Str(m.value)) else None
  }

  /** The two fields every 400 and 401 reply starts from. */
  function ErrorFields(ec: string, em: Option<string>): Object
  {
    [("error_code", Some(Str(ec))), ("error_message", MessageValue(em))]
  }

  datatype Body = Json(fields: Object) | Plain(text: string)

  /** `status` is the code the hook sets; `None` leaves the framework's. */
  datatype Reply = Reply(status: Option<nat>, body: Body)

  /** The error hook in production mode. */
  function OnError(code: ErrorCode): (r: Reply)
    ensures code.Client? <==> r.status == Some(400)
    ensures code.Unauthorized? <==> r.status == Some(401)
    ensures code.Unauthorized? ==> r.body == Json([("error_code", Some(Str(code.errorCode))), ("error_message", MessageValue(code.errorMessage))])
    ensures code.Validation? ==> r == Reply(None, Plain("VALIDATION"))
    ensures code.NotFound? ==> r == Reply(None, Plain("NOT_FOUND"))
    ensures code.Other? ==> r == Reply(None, Plain("INTERNAL_SERVER_ERROR"))
  {
    match code
    case Client(ec, em, params) =>
      Reply(Some(400), Json(Spread(ErrorFields(ec, em), params)))
    case Unauthorized(ec, em) => Reply(Some(401), Json(ErrorFields(ec, em)))
    case Validation(_) => Reply(None, Plain("VALIDATION"))
    case NotFound(_) => Reply(None, Plain("NOT_FOUND"))
    case Other(_) => Reply(None, Plain("INTERNAL_SERVER_ERROR"))
  }

  /** The JSON text of a reply object, as its members: a property holding
      `undefined` is dropped and the others keep their order. */
  function Stringify(o: Object): (r: seq<(string, Value)>)
    ensures forall k, v :: (k, v) in r <==> (k, Some(v)) in o
    ensures |r| <= |o|
  {
    if o == [] then []
    else
      var rest := Stringify(o[1..]);
      assert o == [o[0]] + o[1..];
      if o[0].1.Some? then [(o[0].0, o[0].1.value)] + rest else rest
  }

  lemma {:induction false} GetMissing(o: Object, x: string)
    requires x !in FieldNames(o)
    ensures Get(o, x) == None
  {
    if o != [] {
      assert FieldNames(o) == [o[0].0] + FieldNames(o[1..]);
      GetMissing(o[1..], x);
    }
  }

  lemma {:induction false} ReplaceFacts(o: Object, k: string, v: Option<Value>, x: string)
    requires k in FieldNames(o)
    ensures FieldNames(Replace(o, k, v)) == FieldNames(o)
    ensures Get(Replace(o, k, v), x) == if x == k then Some(v) else Get(o, x)
  {
    assert FieldNames(o) == [o[0].0] + FieldNames(o[1..]);
    var r := Replace(o, k, v);
    if o[0].0 == k {
      assert r[1..] == o[1..];
    } else {
      ReplaceFacts(o[1..], k, v, x);
      assert r[1..] == Replace(o[1..], k, v);
    }
  }

  lemma {:induction false} AppendFacts(o: Object, k: string, v: Option<Value>, x: string)
    requires k !in FieldNames(o)
    ensures FieldNames(o + [(k, v)]) == FieldNames(o) + [k]
    ensures Get(o + [(k, v)], x) == if x == k then Some(v) else Get(o, x)
  {
    if o == [] {
      assert [(k, v)][1..] == [];
    } else {
      assert FieldNames(o) == [o[0].0] + FieldNames(o[1..]);
      assert (o + [(k, v)])[1..] == o[1..] + [(k, v)];
      AppendFacts(o[1..], k, v, x);
    }
  }

  /** An enumeration order with one more key in front. */
  lemma EnumerableCons(x: string, rest: seq<string>)
    requires Enumerable(rest) && x !in rest
    requires forall y | y in rest && IsArrayIndex(y) :: IsArrayIndex(x) && DigitsValue(x) <= DigitsValue(y)
    ensures Enumerable([x] + rest)
  {
    DistinctCons(x, rest);
    var r := [x] + rest;
    forall i, j | 0 <= i < j < |r| && IsArrayIndex(r[j])
      ensures IsArrayIndex(r[i]) && DigitsValue(r[i]) <= DigitsValue(r[j])
    {
      assert r[j] == rest[j - 1];
      if i > 0 {
        assert r[i] == rest[i - 1];
      }
    }
  }

  /** The front key of an enumeration order comes before every index key. */
  lemma EnumerableTail(names: seq<string>)
    requires names != [] && Enumerable(names)
    ensures Enumerable(names[1..]) && names[0] !in names[1..]
    ensures forall y | y in names[1..] && IsArrayIndex(y) :: IsArrayIndex(names[0]) && DigitsValue(names[0]) <= DigitsValue(y)
  {
    DistinctHead(names);
    var t := names[1..];
    forall i, j | 0 <= i < j < |t| && IsArrayIndex(t[j])
      ensures IsArrayIndex(t[i]) && DigitsValue(t[i]) <= DigitsValue(t[j])
    {
      assert t[i] == names[i + 1] && t[j] == names[j + 1];
    }
    forall y | y in t && IsArrayIndex(y)
      ensures IsArrayIndex(names[0]) && DigitsValue(names[0]) <= DigitsValue(y)
    {
      var j :| 0 <= j < |t| && t[j] == y;
      assert names[j + 1] == y;
    }
  }

  /** Where `InsertIndex` places its key: after the index keys whose value
      is not above it, and before the first key that is not one of them. */
  function IndexSlot(o: Object, k: string): (p: nat)
    requires IsArrayIndex(k)
    ensures p <= |o|
    ensures forall i | 0 <= i < p :: IsArrayIndex(o[i].0) && DigitsValue(o[i].0) <= DigitsValue(k)
    ensures p < |o| ==> !IsArrayIndex(o[p].0) || DigitsValue(k) < DigitsValue(o[p].0)
  {
    if InsertsHere(o, k) then 0
    else
      var p := IndexSlot(o[1..], k);
      assert forall i | 0 < i <= p :: o[i] == o[1..][i - 1];
      1 + p
  }

  lemma {:induction false} InsertIndexSplit(o: Object, k: string, v: Option<Value>)
    requires IsArrayIndex(k)
    ensures var p := IndexSlot(o, k); InsertIndex(o, k, v) == o[..p] + [(k, v)] + o[p..]
  {
    if !InsertsHere(o, k) {
      InsertIndexSplit(o[1..], k, v);
      var p := IndexSlot(o[1..], k);
      assert o[1..][..p] == o[1..p + 1] && o[1..][p..] == o[p + 1..];
      assert o[..p + 1] == [o[0]] + o[1..p + 1];
    }
  }

  lemma DistinctInsert(a: seq<string>, k: string, b: seq<string>)
    requires Distinct(a + b) && k !in a + b
    ensures Distinct(a + [k] + b)
  {
    var s, r := a + b, a + [k] + b;
    forall i, j | 0 <= i < j < |r|
      ensures r[i] != r[j]
    {
      if i < |a| && j > |a| {
        assert r[i] == s[i] && r[j] == s[j - 1];
      } else if i > |a| {
        assert r[i] == s[i - 1] && r[j] == s[j - 1];
      } else if j < |a| {
        assert r[i] == s[i] && r[j] == s[j];
      } else if i == |a| {
        assert r[j] == s[j - 1];
      } else {
        assert r[i] == s[i];
      }
    }
  }

  lemma InsertIndexNames(o: Object, k: string, v: Option<Value>)
    requires IsArrayIndex(k)
    ensures var names, p := FieldNames(o), IndexSlot(o, k);
      FieldNames(InsertIndex(o, k, v)) == names[..p] + [k] + names[p..]
  {
    InsertIndexSplit(o, k, v);
  }

  /** An index key placed after the index keys not above it, and before
      every other key, keeps an enumeration order. */
  lemma EnumerableInsert(names: seq<string>, k: string, p: nat)
    requires Enumerable(names) && IsArrayIndex(k) && k !in names && p <= |names|
    requires forall i | 0 <= i < p :: IsArrayIndex(names[i]) && DigitsValue(names[i]) <= DigitsValue(k)
    requires p < |names| ==> !IsArrayIndex(names[p]) || DigitsValue(k) < DigitsValue(names[p])
    ensures Enumerable(names[..p] + [k] + names[p..])
  {
    var r := names[..p] + [k] + names[p..];
    assert names == names[..p] + names[p..];
    DistinctInsert(names[..p], k, names[p..]);
    forall i, j | 0 <= i < j < |r| && IsArrayIndex(r[j])
      ensures IsArrayIndex(r[i]) && DigitsValue(r[i]) <= DigitsValue(r[j])
    {
      InsertedPair(names, k, p, i, j);
    }
  }

  lemma InsertedPair(names: seq<string>, k: string, p: nat, i: nat, j: nat)
    requires Enumerable(names) && IsArrayIndex(k) && p <= |names|
    requires forall i | 0 <= i < p :: IsArrayIndex(names[i]) && DigitsValue(names[i]) <= DigitsValue(k)
    requires p < |names| ==> !IsArrayIndex(names[p]) || DigitsValue(k) < DigitsValue(names[p])
    requires i < j < |names| + 1
    requires var r := names[..p] + [k] + names[p..]; IsArrayIndex(r[j])
    ensures var r := names[..p] + [k] + names[p..]; IsArrayIndex(r[i]) && DigitsValue(r[i]) <= DigitsValue(r[j])
  {
    var r := names[..p] + [k] + names[p..];
    var a := if i < p then names[i] else if i == p then k else names[i - 1];
    var b := if j < p then names[j] else if j == p then k else names[j - 1];
    assert r[i] == a && r[j] == b;
    if j > p {
      assert IsArrayIndex(names[p]) && DigitsValue(k) < DigitsValue(names[p]) <= DigitsValue(names[j - 1]);
    }
  }

  lemma InsertIndexEnumerable(o: Object, k: string, v: Option<Value>)
    requires IsArrayIndex(k) && k !in FieldNames(o) && Enumerable(FieldNames(o))
    ensures Enumerable(FieldNames(InsertIndex(o, k, v)))
  {
    InsertIndexNames(o, k, v);
    EnumerableInsert(FieldNames(o), k, IndexSlot(o, k));
  }

  lemma {:induction false} InsertIndexGet(o: Object, k: string, v: Option<Value>, x: string)
    requires IsArrayIndex(k) && k !in FieldNames(o)
    ensures Get(InsertIndex(o, k, v), x) == if x == k then Some(v) else Get(o, x)
  {
    if InsertsHere(o, k) {
      assert ([(k, v)] + o)[1..] == o;
    } else {
      assert FieldNames(o) == [o[0].0] + FieldNames(o[1..]);
      var tail := InsertIndex(o[1..], k, v);
      assert InsertIndex(o, k, v) == [o[0]] + tail;
      assert ([o[0]] + tail)[1..] == tail;
      InsertIndexGet(o[1..], k, v, x);
    }
  }

  /** After defining a key, the key reads the new value and every other key
      reads what it read before. */
  lemma SetFieldGet(o: Object, k: string, v: Option<Value>, x: string)
    ensures Get(SetField(o, k, v), x) == if x == k then Some(v) else Get(o, x)
  {
    if k in FieldNames(o) {
      ReplaceFacts(o, k, v, x);
    } else if IsArrayIndex(k) {
      InsertIndexGet(o, k, v, x);
    } else {
      AppendFacts(o, k, v, x);
    }
  }

  /** Defining a key adds exactly that key and keeps the keys there were in
      their order: an existing key stays where it is, a new non-index key goes
      last, and a new index key is inserted. */
  lemma SetFieldNames(o: Object, k: string, v: Option<Value>)
    ensures var names, r := FieldNames(o), FieldNames(SetField(o, k, v));
      && (forall y :: y in r <==> y in names || y == k)
      && (k in names ==> r == names)
      && (k !in names && !IsArrayIndex(k) ==> r == names + [k])
      && (k !in names && IsArrayIndex(k) ==> exists p :: 0 <= p <= |names| && r == names[..p] + [k] + names[p..])
      && NonIndexKeys(r) == (if k in names || IsArrayIndex(k) then NonIndexKeys(names) else NonIndexKeys(names) + [k])
  {
    var names, r := FieldNames(o), FieldNames(SetField(o, k, v));
    if k in names {
      ReplaceFacts(o, k, v, k);
    } else if IsArrayIndex(k) {
      InsertIndexNames(o, k, v);
      var p := IndexSlot(o, k);
      NonIndexInsert(names, k, p);
      assert r == names[..p] + [k] + names[p..];
    } else {
      AppendFacts(o, k, v, k);
      NonIndexSnoc(names, k);
    }
  }

  /** Defining a key keeps the engine's enumeration order. */
  lemma SetFieldEnumerable(o: Object, k: string, v: Option<Value>)
    requires Enumerable(FieldNames(o))
    ensures Enumerable(FieldNames(SetField(o, k, v)))
  {
    var names := FieldNames(o);
    if k in names {
      ReplaceFacts(o, k, v, k);
    } else if IsArrayIndex(k) {
      InsertIndexEnumerable(o, k, v);
    } else {
      AppendFacts(o, k, v, k);
      EnumerableSnoc(names, k);
    }
  }

  lemma NonIndexInsert(names: seq<string>, k: string, p: nat)
    requires IsArrayIndex(k) && p <= |names|
    ensures NonIndexKeys(names[..p] + [k] + names[p..]) == NonIndexKeys(names)
    ensures forall y :: y in names[..p] + [k] + names[p..] <==> y in names || y == k
  {
    assert names == names[..p] + names[p..];
    FilterAppend(names[..p], names[p..], NotIndex);
    FilterAppend(names[..p] + [k], names[p..], NotIndex);
    FilterAppend(names[..p], [k], NotIndex);
    assert Filter([k], NotIndex) == [];
  }

  lemma NonIndexSnoc(names: seq<string>, k: string)
    requires !IsArrayIndex(k)
    ensures NonIndexKeys(names + [k]) == NonIndexKeys(names) + [k]
  {
    FilterAppend(names, [k], NotIndex);
    assert Filter([k], NotIndex) == [k];
  }

  lemma EnumerableSnoc(names: seq<string>, k: string)
    requires Enumerable(names) && k !in names && !IsArrayIndex(k)
    ensures Enumerable(names + [k])
  {
    var r := names + [k];
    DistinctSnoc(names, k);
    assert forall i | 0 <= i < |names| :: r[i] == names[i];
  }

  lemma DistinctSnoc(d: seq<string>, x: string)
    requires Distinct(d) && x !in d
    ensures Distinct(d + [x])
  {
  }

  lemma LetterNotIndex(k: string)
    requires |k| > 0 && !IsDigit(k[0])
    ensures !IsArrayIndex(k)
  {
  }

  /** Reference definition: the last value `src` gives `x`, if any. */
  function LastValue(src: seq<(string, Value)>, x: string): Option<Value>
  {
    if src == [] then None
    else
      var later := LastValue(src[1..], x);
      if later.Some? then later else if src[0].0 == x then Some(src[0].1) else None
  }

  /** After a spread, a key of `src` reads the last value `src` gives it and
      every other key reads as before. */
  lemma {:induction false} SpreadGet(o: Object, src: seq<(string, Value)>, x: string)
    ensures Get(Spread(o, src), x) == if LastValue(src, x).Some? then Some(LastValue(src, x)) else Get(o, x)
    decreases src
  {
    if src != [] {
      SpreadGet(SetField(o, src[0].0, Some(src[0].1)), src[1..], x);
      SetFieldGet(o, src[0].0, Some(src[0].1), x);
    }
  }

  /** A spread adds exactly the keys of `src` and keeps the non-index keys of
      `o` in front of the non-index keys it adds. */
  lemma {:induction false} SpreadNames(o: Object, src: seq<(string, Value)>)
    ensures var names, r := FieldNames(o), FieldNames(Spread(o, src));
      && (forall y :: y in r <==> y in names || y in FieldNames(src))
      && |NonIndexKeys(names)| <= |NonIndexKeys(r)|
      && NonIndexKeys(r)[..|NonIndexKeys(names)|] == NonIndexKeys(names)
    decreases src
  {
    if src != [] {
      var o' := SetField(o, src[0].0, Some(src[0].1));
      SetFieldNames(o, src[0].0, Some(src[0].1));
      SpreadNames(o', src[1..]);
      assert FieldNames(src) == [src[0].0] + FieldNames(src[1..]);
      var a, b := NonIndexKeys(FieldNames(o)), NonIndexKeys(FieldNames(o'));
      assert b[..|a|] == a;
    }
  }

  /** A spread keeps the engine's enumeration order. */
  lemma {:induction false} SpreadEnumerable(o: Object, src: seq<(string, Value)>)
    requires Enumerable(FieldNames(o))
    ensures Enumerable(FieldNames(Spread(o, src)))
    decreases src
  {
    if src != [] {
      SetFieldEnumerable(o, src[0].0, Some(src[0].1));
      SpreadEnumerable(SetField(o, src[0].0, Some(src[0].1)), src[1..]);
    }
  }

  /** The 400 reply: its keys are `error_code`, `error_message` and the
      parameters' keys in the engine's enumeration order, with `error_code` and
      `error_message` the first two non-index keys; a parameter of the same
      name overrides the value but not the place, and every other parameter is
      carried with its last value. */
  lemma ClientReply(ec: string, em: Option<string>, params: seq<(string, Value)>, x: string)
    ensures var o := OnError(Client(ec, em, params)).body.fields;
      && Enumerable(FieldNames(o))
      && (x in FieldNames(o) <==> x == "error_code" || x == "error_message" || x in FieldNames(params))
      && |NonIndexKeys(FieldNames(o))| >= 2
      && NonIndexKeys(FieldNames(o))[..2] == ["error_code", "error_message"]
      && Get(o, x) == if LastValue(params, x).Some? then Some(LastValue(params, x))
                      else if x == "error_code" then Some(Some(Str(ec)))
                      else if x == "error_message" then Some(MessageValue(em))
                      else None
  {
    var base := ErrorFields(ec, em);
    ErrorFieldsFacts(ec, em, x);
    SpreadNames(base, params);
    SpreadEnumerable(base, params);
    SpreadGet(base, params, x);
  }

  lemma ErrorFieldsFacts(ec: string, em: Option<string>, x: string)
    ensures var names := FieldNames(ErrorFields(ec, em));
      && names == ["error_code", "error_message"]
      && Enumerable(names)
      && NonIndexKeys(names) == names
      && Get(ErrorFields(ec, em), x) == if x == "error_code" then Some(Some(Str(ec)))
                                      else if x == "error_message" then Some(MessageValue(em))
                                      else None
  {
    var base := ErrorFields(ec, em);
    var names := FieldNames(base);
    assert names == ["error_code", "error_message"];
    LetterNotIndex("error_code");
    LetterNotIndex("error_message");
    NonIndexSnoc([], "error_code");
    NonIndexSnoc(["error_code"], "error_message");
    assert ["error_code"] + ["error_message"] == names;
    var rest: Object := [("error_message", MessageValue(em))];
    assert base[1..] == rest && rest[1..] == [];
    assert Get(rest, x) == if x == "error_message" then Some(MessageValue(em)) else None;
    assert Get(base, x) == if x == "error_code" then Some(Some(Str(ec))) else Get(rest, x);
  }

  /** An index-like parameter key is enumerated before `error_code`. */
  lemma ClientReplyIndexFirst()
    ensures FieldNames(OnError(Client("E", Some("m"), [("0", Str("x"))])).body.fields) == ["0", "error_code", "error_message"]
  {
    var base := ErrorFields("E", Some("m"));
    assert IsArrayIndex("0");
    assert "0" !in FieldNames(base);
    assert InsertIndex(base, "0", Some(Str("x"))) == [("0", Some(Str("x")))] + base;
  }

  /** A missing message is left out of the 401 reply's JSON text. */
  lemma UnauthorizedText(ec: string, em: Option<string>)
    ensures Stringify(OnError(Unauthorized(ec, em)).body.fields)
      == if em.Some? then [("error_code", Str(ec)), ("error_message", Str(em.value))] else [("error_code", Str(ec))]
  {
    var o := ErrorFields(ec, em);
    assert o[1..][1..] == [];
  }

  // ----- Redaction -----

  const BearerPrefix := "Bearer "
  const RedactedBearer := "Bearer ****"

  /** The `authorization` header as logged. */
  function Redact(header: Option<string>): (r: Option<string>)
    ensures header.None? ==> r.None?
    ensures header.Some? && StartsWith(header.value, BearerPrefix) ==> r == Some(RedactedBearer)
    ensures header.Some? && !StartsWith(header.value, BearerPrefix) ==> r == header
  {
    if header.Some? && StartsWith(header.value, BearerPrefix) then Some(RedactedBearer) else header
  }

  /** Redacting twice is redacting once, and a redacted bearer header keeps
      no character of the token. */
  lemma RedactIdempotent(header: Option<string>)
    ensures Redact(Redact(header)) == Redact(header)
    ensures header.Some? && StartsWith(header.value, BearerPrefix) ==> |Redact(header).value| == |BearerPrefix| + 4
  {
  }
}
