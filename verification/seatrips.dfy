/** `transformToSeaTrips` and its tables (backend/src/Trips.ts): every
    registration with a known activity code becomes a planned trip of the
    vessel "Орион" whose crew are the registered names, numbered across all
    trips from 1, and the trips are ordered by date. */
module SeaTrips {
  import opened Wrappers
  import opened Seqs
  import opened Text
  import opened Attendance

  datatype TripType = MorningTraining | Training | TrainingRace | Race | Trip | Commercial | Ladoga

  /** The name of a trip type in the `SeaTrip.type` union. */
  function TypeName(t: TripType): string
  {
    match t
    case MorningTraining => "morningTraining"
    case Training => "training"
    case TrainingRace => "trainingrace"
    case Race => "race"
    case Trip => "trip"
    case Commercial => "commercial"
    case Ladoga => "ladoga"
  }

  /** The sheet code of a trip type: the key of the `mapActivityType` table. */
  function CodeOf(t: TripType): string
  {
    match t
    case MorningTraining => "УТ"
    case Training => "Т"
    case TrainingRace => "ТГ"
    case Race => "Г"
    case Trip => "П"
    case Commercial => "К"
    case Ladoga => "Л"
  }

  /** `mapActivityType`: an exact, case-sensitive lookup of the sheet code. */
  function MapActivityType(csvType: string): (r: Option<TripType>)
    ensures r.Some? ==> CodeOf(r.value) == csvType
    ensures r.None? ==> forall t: TripType :: CodeOf(t) != csvType
  {
    if csvType == "УТ" then Some(MorningTraining)
    else if csvType == "Т" then Some(Training)
    else if csvType == "ТГ" then Some(TrainingRace)
    else if csvType == "Г" then Some(Race)
    else if csvType == "П" then Some(Trip)
    else if csvType == "К" then Some(Commercial)
    else if csvType == "Л" then Some(Ladoga)
    else None
  }

  /** Every trip type is recognised from its own code, so the codes are distinct. */
  lemma MapActivityTypeOfCode(t: TripType)
    ensures MapActivityType(CodeOf(t)) == Some(t)
  {
  }

  /** `HH:MM` on a 24-hour clock. */
  predicate IsClock(s: string)
  {
    && |s| == 5 && IsDigit(s[0]) && IsDigit(s[1]) && s[2] == ':' && IsDigit(s[3]) && IsDigit(s[4])
    && 10 * DigitValue(s[0]) + DigitValue(s[1]) < 24
    && 10 * DigitValue(s[3]) + DigitValue(s[4]) < 60
  }

  /** Minutes after midnight of a clock time. */
  function Minutes(s: string): nat
    requires IsClock(s)
  {
    60 * (10 * DigitValue(s[0]) + DigitValue(s[1])) + 10 * DigitValue(s[3]) + DigitValue(s[4])
  }

  /** `getDefaultTime`. */
  function DefaultTime(t: TripType): (r: string)
    ensures IsClock(r)
  {
    match t
    case MorningTraining => "06:00"
    case Training => "08:00"
    case TrainingRace => "07:00"
    case Race => "18:30"
    case Trip => "09:00"
    case Commercial => "07:00"
    case Ladoga => "06:00"
  }

  datatype Schedule = Schedule(departure: string, estimatedReturn: string)

  /** Both times of a schedule are clock times and the return is later the
      same day. */
  predicate SameDay(s: Schedule)
  {
    IsClock(s.departure) && IsClock(s.estimatedReturn) && Minutes(s.departure) < Minutes(s.estimatedReturn)
  }

  /** `getDefaultSchedule`. */
  function DefaultSchedule(t: TripType): Schedule
  {
    match t
    case MorningTraining => Schedule("06:00", "09:00")
    case Training => Schedule("19:00", "22:00")
    case TrainingRace => Schedule("18:30", "22:00")
    case Race => Schedule("10:00", "18:00")
    case Trip => Schedule("08:30", "18:30")
    case Commercial => Schedule("06:30", "17:30")
    case Ladoga => Schedule("05:00", "20:00")
  }

  /** Every default outing returns later the same day. */
  lemma DefaultScheduleSameDay(t: TripType)
    ensures SameDay(DefaultSchedule(t))
  {
    var s := DefaultSchedule(t);
    ClockTimes(s.departure);
    ClockTimes(s.estimatedReturn);
  }

  /** The clock times the default schedules use are well formed. */
  lemma ClockTimes(s: string)
    requires s in ["06:00", "09:00", "19:00", "22:00", "18:30", "10:00", "18:00", "08:30", "06:30", "17:30", "05:00", "20:00"]
    ensures IsClock(s)
  {
  }

  datatype CrewMember = CrewMember(id: int, name: string, position: string, experience: string)

  datatype TripStatus = Planned | Active | Completed

  datatype SeaTrip = SeaTrip(
    tripType: TripType, date: string, time: string, crew: seq<CrewMember>, vessel: string,
    departure: string, estimatedReturn: string, destination: string, status: TripStatus)

  /** The one participant the source appoints boatswain; everyone else is a sailor. */
  function PositionOf(name: string): string
  {
    if name == "Курочкина Ольга" then "Боцман" else "Матрос"
  }

  /** The crew of one registration, numbered from `firstId` in name order. */
  function CrewOf(names: seq<string>, firstId: int): (r: seq<CrewMember>)
    ensures |r| == |names|
    ensures forall i | 0 <= i < |r| :: r[i] == CrewMember(firstId + i, names[i], PositionOf(names[i]), "Не указан")
  {
    seq(|names|, i requires 0 <= i < |names| => CrewMember(firstId + i, names[i], PositionOf(names[i]), "Не указан"))
  }

  function TripOf(g: Registration, t: TripType, firstId: int): SeaTrip
  {
    var schedule := DefaultSchedule(t);
    SeaTrip(t, g.date, DefaultTime(t), CrewOf(g.participants, firstId), "Орион",
            schedule.departure, schedule.estimatedReturn, "море", Planned)
  }

  predicate Known(g: Registration) { MapActivityType(g.activityType).Some? }

  /** The number of crew ids the kept registrations use. */
  function Headcount(regs: seq<Registration>): nat
  {
    if regs == [] then 0
    else (if Known(regs[0]) then |regs[0].participants| else 0) + Headcount(regs[1..])
  }

  /** The loop of `transformToSeaTrips` before sorting, `memberId` starting at `nextId`:
      a registration with an unknown code is skipped and uses no ids. */
  function BuildFrom(regs: seq<Registration>, nextId: int): seq<SeaTrip>
  {
    if regs == [] then []
    else
      var g := regs[0];
      match MapActivityType(g.activityType)
      case None => BuildFrom(regs[1..], nextId)
      case Some(t) => [TripOf(g, t, nextId)] + BuildFrom(regs[1..], nextId + |g.participants|)
  }

  /** The crew ids of a list of trips, trip by trip. */
  function CrewIds(trips: seq<SeaTrip>): seq<int>
  {
    if trips == [] then [] else Map(trips[0].crew, (m: CrewMember) => m.id) + CrewIds(trips[1..])
  }

  /** The trip built for a registration keeps its date, its type is the one
      its code names, its crew are its participants in order with the default
      position and experience, and the constant fields are the source's. */
  predicate TripFor(trip: SeaTrip, g: Registration)
  {
    && CodeOf(trip.tripType) == g.activityType
    && trip.date == g.date
    && |trip.crew| == |g.participants|
    && (forall i | 0 <= i < |trip.crew| ::
          && trip.crew[i].name == g.participants[i]
          && trip.crew[i].position == PositionOf(g.participants[i])
          && trip.crew[i].experience == "Не указан")
    && trip.time == DefaultTime(trip.tripType)
    && trip.departure == DefaultSchedule(trip.tripType).departure
    && trip.estimatedReturn == DefaultSchedule(trip.tripType).estimatedReturn
    && trip.vessel == "Орион" && trip.destination == "море" && trip.status == Planned
  }

  lemma TripOfFor(g: Registration, t: TripType, firstId: int)
    requires MapActivityType(g.activityType) == Some(t)
    ensures TripFor(TripOf(g, t, firstId), g)
  {
  }

  /** One trip per registration with a known code, in registration order. */
  lemma {:induction false} BuildFromTrips(regs: seq<Registration>, nextId: int)
    ensures var kept := Filter(regs, Known);
      var trips := BuildFrom(regs, nextId);
      && |trips| == |kept|
      && forall i | 0 <= i < |trips| :: TripFor(trips[i], kept[i])
  {
    if regs != [] {
      if Known(regs[0]) {
        BuildFromTrips(regs[1..], nextId + |regs[0].participants|);
        KeptTrips(regs, nextId);
      } else {
        BuildFromTrips(regs[1..], nextId);
        assert BuildFrom(regs, nextId) == BuildFrom(regs[1..], nextId);
        assert Filter(regs, Known) == Filter(regs[1..], Known);
      }
    }
  }

  /** The step of `BuildFromTrips` where the first registration is kept. */
  lemma KeptTrips(regs: seq<Registration>, nextId: int)
    requires regs != [] && Known(regs[0])
    requires var kept := Filter(regs[1..], Known);
      var trips := BuildFrom(regs[1..], nextId + |regs[0].participants|);
      && |trips| == |kept|
      && forall i | 0 <= i < |trips| :: TripFor(trips[i], kept[i])
    ensures var kept := Filter(regs, Known);
      var trips := BuildFrom(regs, nextId);
      && |trips| == |kept|
      && forall i | 0 <= i < |trips| :: TripFor(trips[i], kept[i])
  {
    var g := regs[0];
    var t := MapActivityType(g.activityType).value;
    var restTrips := BuildFrom(regs[1..], nextId + |g.participants|);
    var restKept := Filter(regs[1..], Known);
    var trips := BuildFrom(regs, nextId);
    var kept := Filter(regs, Known);
    assert trips == [TripOf(g, t, nextId)] + restTrips by {
      BuildFromKept(regs, nextId, t);
    }
    assert kept == [g] + restKept;
    TripOfFor(g, t, nextId);
    ConsTripFor(trips, kept, restTrips, restKept);
  }

  /** Trips matching their registrations position by position stay matched
      when one matching pair is put in front. */
  lemma ConsTripFor(trips: seq<SeaTrip>, kept: seq<Registration>, restTrips: seq<SeaTrip>, restKept: seq<Registration>)
    requires trips != [] && kept != [] && trips[1..] == restTrips && kept[1..] == restKept
    requires TripFor(trips[0], kept[0]) && |restTrips| == |restKept|
    requires forall i | 0 <= i < |restTrips| :: TripFor(restTrips[i], restKept[i])
    ensures |trips| == |kept| && forall i | 0 <= i < |trips| :: TripFor(trips[i], kept[i])
  {
    forall i | 1 <= i < |trips|
      ensures TripFor(trips[i], kept[i])
    {
      assert trips[i] == restTrips[i - 1];
      assert kept[i] == restKept[i - 1];
    }
  }

  /** The crew ids are `nextId`, `nextId`+1, ... in trip order: one id per
      registered name of a kept registration, never reused. */
  lemma {:induction false} BuildFromIds(regs: seq<Registration>, nextId: int)
    ensures CrewIds(BuildFrom(regs, nextId)) == Range(nextId, Headcount(regs))
  {
    if regs != [] {
      if Known(regs[0]) {
        BuildFromIds(regs[1..], nextId + |regs[0].participants|);
        KeptIds(regs, nextId);
      } else {
        BuildFromIds(regs[1..], nextId);
        SkippedIds(regs, nextId);
      }
    }
  }

  /** A kept first registration contributes its crew's ids ahead of the rest. */
  lemma KeptIds(regs: seq<Registration>, nextId: int)
    requires regs != [] && Known(regs[0])
    requires var n := |regs[0].participants|;
      CrewIds(BuildFrom(regs[1..], nextId + n)) == Range(nextId + n, Headcount(regs[1..]))
    ensures CrewIds(BuildFrom(regs, nextId)) == Range(nextId, Headcount(regs))
  {
    var g := regs[0];
    var n := |g.participants|;
    var t := MapActivityType(g.activityType).value;
    var rest := BuildFrom(regs[1..], nextId + n);
    assert CrewIds(BuildFrom(regs, nextId)) == Range(nextId, n) + CrewIds(rest) by {
      BuildFromKept(regs, nextId, t);
      var trips := [TripOf(g, t, nextId)] + rest;
      assert trips[1..] == rest;
      CrewOfIds(g.participants, nextId);
    }
    assert Headcount(regs) == n + Headcount(regs[1..]);
    RangeCompose(CrewIds(BuildFrom(regs, nextId)), CrewIds(rest), nextId, n, Headcount(regs[1..]), Headcount(regs));
  }

  /** A skipped first registration uses no ids. */
  lemma SkippedIds(regs: seq<Registration>, nextId: int)
    requires regs != [] && !Known(regs[0])
    requires CrewIds(BuildFrom(regs[1..], nextId)) == Range(nextId, Headcount(regs[1..]))
    ensures CrewIds(BuildFrom(regs, nextId)) == Range(nextId, Headcount(regs))
  {
    assert BuildFrom(regs, nextId) == BuildFrom(regs[1..], nextId);
  }

  lemma BuildFromKept(regs: seq<Registration>, nextId: int, t: TripType)
    requires regs != [] && MapActivityType(regs[0].activityType) == Some(t)
    ensures BuildFrom(regs, nextId) == [TripOf(regs[0], t, nextId)] + BuildFrom(regs[1..], nextId + |regs[0].participants|)
  {
  }

  /** The ids of a registration's crew count up from `firstId`. */
  lemma CrewOfIds(names: seq<string>, firstId: int)
    ensures Map(CrewOf(names, firstId), (m: CrewMember) => m.id) == Range(firstId, |names|)
  {
  }

  /** The `n` consecutive integers from `a`. */
  function Range(a: int, n: nat): (r: seq<int>)
    ensures |r| == n && forall i | 0 <= i < n :: r[i] == a + i
  {
    seq(n, i => a + i)
  }

  lemma RangeCompose(ids: seq<int>, rest: seq<int>, a: int, n: nat, m: nat, total: nat)
    requires ids == Range(a, n) + rest && rest == Range(a + n, m) && total == n + m
    ensures ids == Range(a, total)
  {
    RangeAppend(a, n, m);
  }

  lemma RangeAppend(a: int, n: nat, m: nat)
    ensures Range(a, n + m) == Range(a, n) + Range(a + n, m)
  {
    var l := Range(a, n + m);
    var r := Range(a, n) + Range(a + n, m);
    forall i | 0 <= i < n + m
      ensures l[i] == r[i]
    {
      if i >= n {
        assert r[i] == Range(a + n, m)[i - n];
      }
    }
  }

  predicate SortedByDate(s: seq<SeaTrip>)
  {
    forall i, j | 0 <= i < j < |s| :: StrLe(s[i].date, s[j].date)
  }

  /** Places `x` before the first trip it does not come after, so it stays
      ahead of the trips with its own date. */
  function Insert(x: SeaTrip, s: seq<SeaTrip>): (r: seq<SeaTrip>)
    requires SortedByDate(s)
    ensures SortedByDate(r)
    ensures multiset(r) == multiset(s) + multiset{x}
  {
    if s == [] || StrLe(x.date, s[0].date) then
      SortedFront(x, s);
      [x] + s
    else
      StrLeTotal(x.date, s[0].date);
      var rest := Insert(x, s[1..]);
      assert s == [s[0]] + s[1..];
      ConsSorted(s[0], rest, x, s[1..]);
      [s[0]] + rest
  }

  /** A trip dated no later than the first of a sorted list can go in front. */
  lemma SortedFront(x: SeaTrip, s: seq<SeaTrip>)
    requires SortedByDate(s) && (s == [] || StrLe(x.date, s[0].date))
    ensures SortedByDate([x] + s)
  {
    var r := [x] + s;
    forall i, j | 0 <= i < j < |r|
      ensures StrLe(r[i].date, r[j].date)
    {
      if i == 0 && j > 1 {
        StrLeTransitive(x.date, s[0].date, s[j - 1].date);
      }
    }
  }

  lemma ConsSorted(y: SeaTrip, rest: seq<SeaTrip>, x: SeaTrip, tail: seq<SeaTrip>)
    requires SortedByDate(rest) && SortedByDate([y] + tail)
    requires multiset(rest) == multiset(tail) + multiset{x}
    requires StrLe(y.date, x.date)
    ensures SortedByDate([y] + rest)
  {
    var r := [y] + rest;
    forall i, j | 0 <= i < j < |r|
      ensures StrLe(r[i].date, r[j].date)
    {
      if i == 0 {
        var z := rest[j - 1];
        assert r[0] == y && r[j] == z;
        assert z in multiset(rest);
        if z != x {
          assert z in multiset(tail);
          assert z in tail;
          var k :| 0 <= k < |tail| && tail[k] == z;
          assert ([y] + tail)[0] == y && ([y] + tail)[k + 1] == z;
        }
      } else {
        assert r[i] == rest[i - 1] && r[j] == rest[j - 1];
      }
    }
  }

  /** `Array.prototype.sort` with `a.date.localeCompare(b.date)`: a stable sort by date. */
  function SortByDate(s: seq<SeaTrip>): (r: seq<SeaTrip>)
    ensures SortedByDate(r)
    ensures multiset(r) == multiset(s)
  {
    if s == [] then []
    else
      assert s == [s[0]] + s[1..];
      Insert(s[0], SortByDate(s[1..]))
  }

  function OnDate(d: string): SeaTrip -> bool
  {
    (t: SeaTrip) => t.date == d
  }

  lemma {:induction false} InsertOnDate(x: SeaTrip, s: seq<SeaTrip>, d: string)
    requires SortedByDate(s)
    ensures Filter(Insert(x, s), OnDate(d)) == Filter([x] + s, OnDate(d))
  {
    if s != [] && !StrLe(x.date, s[0].date) {
      InsertOnDate(x, s[1..], d);
      StrLeTotal(x.date, s[0].date);
      if s[0].date == x.date {
        StrLeReflexive(x.date);
      }
      assert ([x] + s)[1..] == s;
      assert ([x] + s[1..])[1..] == s[1..];
      assert ([s[0]] + Insert(x, s[1..]))[1..] == Insert(x, s[1..]);
    }
  }

  /** The sort keeps the trips of each date in their original order. */
  lemma {:induction false} SortByDateStable(s: seq<SeaTrip>, d: string)
    ensures Filter(SortByDate(s), OnDate(d)) == Filter(s, OnDate(d))
  {
    if s != [] {
      SortByDateStable(s[1..], d);
      InsertOnDate(s[0], SortByDate(s[1..]), d);
      assert ([s[0]] + SortByDate(s[1..]))[1..] == SortByDate(s[1..]);
    }
  }

  /** `transformToSeaTrips`: build the trips, numbering crew from 1, then sort them by date. */
  function TransformToSeaTrips(regs: seq<Registration>): seq<SeaTrip>
  {
    SortByDate(BuildFrom(regs, 1))
  }

  /** The result holds one trip per registration with a known code, ordered
      by date, registrations of equal date keeping their order; the crew ids
      of the built trips are 1, 2, ... */
  lemma TransformToSeaTripsSpec(regs: seq<Registration>, d: string)
    ensures var r := TransformToSeaTrips(regs);
      && SortedByDate(r)
      && multiset(r) == multiset(BuildFrom(regs, 1))
      && Filter(r, OnDate(d)) == Filter(BuildFrom(regs, 1), OnDate(d))
      && CrewIds(BuildFrom(regs, 1)) == Range(1, Headcount(regs))
  {
    SortByDateStable(BuildFrom(regs, 1), d);
    BuildFromIds(regs, 1);
  }
}
