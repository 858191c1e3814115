/** Display helpers: the Russian labels of the trip types (the server's
    table used in bot messages and the web client's table), the status
    colour classes, the client's date formatting and its month grid. */
module Labels {
  import opened Wrappers
  import opened Seqs
  import opened Text
  import SeaTrips

  const Unknown := "Неизвестно"

  /** The type strings both label tables recognise, in table order. */
  const TypeKeys: seq<string> := ["morningTraining", "training", "trainingRace", "race", "commercial", "trip", "ladoga"]

  /** The server's labels, position by position with `TypeKeys`. */
  const ServerLabels: seq<string> := ["Утренняя тренировка", "Тренировка", "Тренировочная гонка", "Гонка", "Мастер-класс", "Поход", "Ладога"]

  /** The web client's labels: the same except that "training" is the evening session. */
  const ClientLabels: seq<string> := ["Утренняя тренировка", "Вечерняя тренировка", "Тренировочная гонка", "Гонка", "Мастер-класс", "Поход", "Ладога"]

  /** The label of a trip type in bot messages. */
  function GetTypeText(tripType: string): (r: string)
    ensures forall i | 0 <= i < |TypeKeys| :: tripType == TypeKeys[i] ==> r == ServerLabels[i]
    ensures tripType !in TypeKeys ==> r == Unknown
  {
    if tripType == "morningTraining" then "Утренняя тренировка"
    else if tripType == "training" then "Тренировка"
    else if tripType == "trainingRace" then "Тренировочная гонка"
    else if tripType == "race" then "Гонка"
    else if tripType == "commercial" then "Мастер-класс"
    else if tripType == "trip" then "Поход"
    else if tripType == "ladoga" then "Ладога"
    else Unknown
  }

  /** The label of a trip type in the web client. */
  function ClientTypeText(tripType: string): (r: string)
    ensures forall i | 0 <= i < |TypeKeys| :: tripType == TypeKeys[i] ==> r == ClientLabels[i]
    ensures tripType !in TypeKeys ==> r == Unknown
  {
    if tripType == "morningTraining" then "Утренняя тренировка"
    else if tripType == "training" then "Вечерняя тренировка"
    else if tripType == "trainingRace" then "Тренировочная гонка"
    else if tripType == "race" then "Гонка"
    else if tripType == "commercial" then "Мастер-класс"
    else if tripType == "trip" then "Поход"
    else if tripType == "ladoga" then "Ладога"
    else Unknown
  }

  /** The seven labels of each table are pairwise distinct and none of them
      is the fallback, so a label names its type. */
  lemma LabelsDistinct()
    ensures Distinct(ServerLabels) && Unknown !in ServerLabels
    ensures Distinct(ClientLabels) && Unknown !in ClientLabels
  {
  }

  /** Two recognised types with the same label are the same type, and a
      string gets the fallback label exactly when it is not recognised. */
  lemma GetTypeTextInjective(a: string, b: string)
    ensures GetTypeText(a) == Unknown <==> a !in TypeKeys
    ensures a in TypeKeys && b in TypeKeys && GetTypeText(a) == GetTypeText(b) ==> a == b
  {
    LabelsDistinct();
    if a in TypeKeys && b in TypeKeys && GetTypeText(a) == GetTypeText(b) {
      var i :| 0 <= i < |TypeKeys| && TypeKeys[i] == a;
      var j :| 0 <= j < |TypeKeys| && TypeKeys[j] == b;
      assert ServerLabels[i] == ServerLabels[j];
    }
    if a in TypeKeys {
      var i :| 0 <= i < |TypeKeys| && TypeKeys[i] == a;
      assert ServerLabels[i] in ServerLabels;
    }
  }

  /** The two tables differ only on "training". */
  lemma ClientDiffersOnlyOnTraining(tripType: string)
    ensures ClientTypeText(tripType) != GetTypeText(tripType) <==> tripType == "training"
  {
  }

  /** The trip builder spells the training-race type "trainingrace", which the
      server's table does not recognise; every other built type has a label. */
  lemma BuiltTypeLabels(t: SeaTrips.TripType)
    ensures GetTypeText(SeaTrips.TypeName(t)) == Unknown <==> t == SeaTrips.TrainingRace
  {
  }

  // ----- Status colours -----

  const Blue := "bg-blue-100 text-blue-800"
  const Green := "bg-green-100 text-green-800"
  const Grey := "bg-gray-100 text-gray-800"
  const Red := "bg-red-100 text-red-800"

  function GetStatusColor(status: string): (r: string)
    ensures r in {Blue, Green, Grey, Red}
    ensures r == Blue <==> status == "planned"
    ensures r == Green <==> status == "active"
    ensures r == Red <==> status == "canceled"
  {
    if status == "planned" then Blue
    else if status == "active" then Green
    else if status == "completed" then Grey
    else if status == "canceled" then Red
    else Grey
  }

  /** Planned, active and canceled trips get their own colours; a completed
      trip looks like one of unknown status. */
  lemma StatusColors(other: string)
    requires other !in {"planned", "active", "completed", "canceled"}
    ensures |{GetStatusColor("planned"), GetStatusColor("active"), GetStatusColor("canceled"), GetStatusColor("completed")}| == 4
    ensures GetStatusColor("completed") == GetStatusColor(other)
  {
    assert GetStatusColor("planned") == Blue;
    assert GetStatusColor("active") == Green;
    assert GetStatusColor("canceled") == Red;
    assert GetStatusColor("completed") == Grey;
  }

  // ----- Dates -----

  /** `String(n).padStart(2, "0")`. */
  function Pad2(n: int): string
  {
    PadStart(IntString(n), 2, '0')
  }

  /** The client's date string: the year, then the 0-based month shifted to
      1-based, then the day, each of the last two padded to two digits. */
  function FormatDate(year: int, month: int, day: int): (r: string)
    ensures |r| >= |IntString(year)| + 6
    ensures r[|IntString(year)|] == '-'
  {
    IntString(year) + "-" + Pad2(month + 1) + "-" + Pad2(day)
  }

  /** Reference definition: `s` is the extended calendar date
      YYYY-MM-DD of section 4.1.2.2 of ISO 8601:2004 for the given values. */
  predicate IsCalendarDate(s: string, y: nat, m: nat, d: nat)
  {
    && |s| == 10 && s[4] == '-' && s[7] == '-'
    && (forall k | 0 <= k < 10 && k != 4 && k != 7 :: IsDigit(s[k]))
    && DigitsValue(s[..4]) == y && DigitsValue(s[5..7]) == m && DigitsValue(s[8..]) == d
  }

  lemma {:induction false} FourDigits(n: nat)
    requires 1000 <= n <= 9999
    ensures |NatString(n)| == 4
  {
    assert NatString(n) == NatString(n / 10) + [DigitChar(n % 10)];
    assert NatString(n / 10) == NatString(n / 100) + [DigitChar(n / 10 % 10)];
    assert NatString(n / 100) == NatString(n / 1000) + [DigitChar(n / 100 % 10)];
  }

  /** A four-digit year is rendered as four digits spelling its value. */
  lemma YearField(year: int)
    requires 1000 <= year <= 9999
    ensures |IntString(year)| == 4 && AllDigits(IntString(year)) && DigitsValue(IntString(year)) == year
  {
    assert IntString(year) == NatString(year);
    FourDigits(year);
    NatStringValue(year);
  }

  lemma {:induction false} TwoDigits(n: nat)
    requires 1 <= n <= 99
    ensures |Pad2(n)| == 2 && AllDigits(Pad2(n))
    ensures DigitsValue(Pad2(n)) == n
  {
    var p := Pad2(n);
    NatStringValue(n);
    if n < 10 {
      assert p == ['0'] + NatString(n);
      assert p[..1] == ['0'];
      assert DigitsValue(['0']) == 0 by {
        assert ['0'][..0] == [];
      }
    } else {
      assert NatString(n) == NatString(n / 10) + [DigitChar(n % 10)];
      assert p == NatString(n);
    }
  }

  predicate AllDigits(s: string)
  {
    forall k | 0 <= k < |s| :: IsDigit(s[k])
  }

  /** Joining a four-digit, a two-digit and a two-digit field with hyphens
      gives the calendar date of their values. */
  lemma CalendarOfParts(a: string, b: string, c: string, y: nat, m: nat, d: nat)
    requires |a| == 4 && |b| == 2 && |c| == 2
    requires AllDigits(a) && AllDigits(b) && AllDigits(c)
    requires DigitsValue(a) == y && DigitsValue(b) == m && DigitsValue(c) == d
    ensures IsCalendarDate(a + "-" + b + "-" + c, y, m, d)
  {
    var s := a + "-" + b + "-" + c;
    assert s[..4] == a && s[5..7] == b && s[8..] == c;
    assert forall k | 0 <= k < 4 :: s[k] == a[k];
    assert s[5] == b[0] && s[6] == b[1] && s[8] == c[0] && s[9] == c[1];
  }

  /** For a four-digit year, a month index 0..11 and a day 1..31 the result
      is the ten-character calendar date of that year, month and day. */
  lemma FormatDateIso(year: int, month: int, day: int)
    requires 1000 <= year <= 9999 && 0 <= month <= 11 && 1 <= day <= 31
    ensures IsCalendarDate(FormatDate(year, month, day), year, month + 1, day)
  {
    YearField(year);
    TwoDigits(month + 1);
    TwoDigits(day);
    CalendarOfParts(IntString(year), Pad2(month + 1), Pad2(day), year, month + 1, day);
  }

  // ----- Month grid -----

  /** The weekday of the first day (0 = Sunday) as a Monday-based column. */
  function MondayOffset(firstWeekday: nat): (r: nat)
    requires firstWeekday < 7
    ensures r < 7
    ensures r == (firstWeekday + 6) % 7
  {
    if firstWeekday == 0 then 6 else firstWeekday - 1
  }

  /** The cells of the client's month calendar: one empty cell per column
      before the first day, then the day numbers. The weekday of the first
      day and the number of days come from the platform's date library. */
  method GetDaysInMonth(firstWeekday: nat, daysInMonth: nat) returns (days: seq<Option<nat>>)
    requires firstWeekday < 7
    ensures |days| == MondayOffset(firstWeekday) + daysInMonth
    ensures forall i | 0 <= i < MondayOffset(firstWeekday) :: days[i].None?
    ensures forall i | MondayOffset(firstWeekday) <= i < |days| :: days[i] == Some(i - MondayOffset(firstWeekday) + 1)
  {
    var start := MondayOffset(firstWeekday);
    days := [];
    var i := 0;
    while i < start
      invariant 0 <= i <= start
      invariant |days| == i
      invariant forall k | 0 <= k < i :: days[k].None?
    {
      days := days + [None];
      i := i + 1;
    }
    var day := 1;
    while day <= daysInMonth
      invariant 1 <= day <= daysInMonth + 1
      invariant |days| == start + day - 1
      invariant forall k | 0 <= k < start :: days[k].None?
      invariant forall k | start <= k < |days| :: days[k] == Some(k - start + 1)
    {
      days := days + [Some(day)];
      day := day + 1;
    }
  }

  /** Every day lands in the column of its weekday, Monday first: day `d` of
      a month starting on weekday `w` (0 = Sunday) falls on weekday
      (w + d - 1) mod 7, and its cell index mod 7 is that weekday moved to a
      Monday-based count. */
  lemma DayColumns(firstWeekday: nat, d: nat)
    requires firstWeekday < 7 && d >= 1
    ensures (MondayOffset(firstWeekday) + d - 1) % 7 == ((firstWeekday + d - 1) % 7 + 6) % 7
  {
  }
}
