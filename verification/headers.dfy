/** The header scan of `parseCsv` (backend/src/Trips.ts): the month, day and
    activity rows are read column by column, each month label is carried
    forward over the merged cells to its right, and every usable column yields
    one dated header. */
module Headers {
  import opened Wrappers
  import opened Seqs
  import opened Text
  import opened Grid

  /** The year the source writes into every date. */
  const Year: string := "2025"

  /** The keys of the `getMonthNumber` table, January first. */
  const MonthNames: seq<string> := [
    "январь", "февраль", "март", "апрель", "май", "июнь",
    "июль", "август", "сентябрь", "октябрь", "ноябрь", "декабрь"]

  /** The values of the `getMonthNumber` table, in the same order. */
  const MonthNumbers: seq<string> := [
    "01", "02", "03", "04", "05", "06", "07", "08", "09", "10", "11", "12"]

  /** `num` is the two-digit number of the month called `name` (any case). */
  predicate IsMonthNumberOf(num: string, name: string)
  {
    && |num| == 2 && IsDigit(num[0]) && IsDigit(num[1])
    && 1 <= 10 * DigitValue(num[0]) + DigitValue(num[1]) <= 12
    && MonthNames[10 * DigitValue(num[0]) + DigitValue(num[1]) - 1] == Lower(name)
  }

  lemma MonthNumbersSpec(k: nat)
    requires k < 12
    ensures |MonthNumbers[k]| == 2 && IsDigit(MonthNumbers[k][0]) && IsDigit(MonthNumbers[k][1])
    ensures 10 * DigitValue(MonthNumbers[k][0]) + DigitValue(MonthNumbers[k][1]) == k + 1
  {
  }

  /** `getMonthNumber`: a case-insensitive lookup of the twelve month names. */
  function MonthNumber(monthName: string): (r: Option<string>)
    ensures r.Some? <==> Lower(monthName) in MonthNames
    ensures r.Some? ==> IsMonthNumberOf(r.value, monthName)
  {
    var key := Lower(monthName);
    if key in MonthNames then
      var k := IndexOf(MonthNames, key);
      MonthNumbersSpec(k);
      Some(MonthNumbers[k])
    else None
  }

  datatype Header = Header(date: string, activityType: string)

  /** The three header rows the scan reads. */
  datatype HeaderRows = HeaderRows(months: Row, days: Row, activities: Row)

  /** The loop bound: the shortest of the three rows. */
  function Width(h: HeaderRows): nat
  {
    var m := if |h.months| < |h.days| then |h.months| else |h.days|;
    if m < |h.activities| then m else |h.activities|
  }

  /** The latest column in 1..c with a non-blank month cell, or 0 if none. */
  function MonthColumn(h: HeaderRows, c: nat): (r: nat)
    requires c < Width(h)
    ensures r <= c
    ensures r == 0 ==> forall k | 1 <= k <= c :: Trim(h.months[k]) == ""
    ensures r > 0 ==> Trim(h.months[r]) != "" && forall k | r < k <= c :: Trim(h.months[k]) == ""
  {
    if c == 0 then 0
    else if Trim(h.months[c]) != "" then c
    else MonthColumn(h, c - 1)
  }

  /** The month in force at column `c`: the label of the nearest labelled
      column at or to the left of `c` (column 0 is never read). */
  function CurrentMonth(h: HeaderRows, c: nat): string
    requires c < Width(h)
  {
    var k := MonthColumn(h, c);
    if k == 0 then "" else Trim(h.months[k])
  }

  /** The date string `2025-<num>-<day>` with the day left-padded with '0'. */
  function FormatDate(num: string, day: string): (date: string)
    requires |num| == 2
    ensures |date| >= 10
    ensures date[..5] == Year + "-" && date[5..7] == num && date[7] == '-'
    ensures date[8..] == PadStart(day, 2, '0')
  {
    var prefix := Year + "-" + num + "-";
    assert |prefix| == 8 && prefix[..5] == Year + "-" && prefix[5..7] == num && prefix[7] == '-';
    var date := prefix + PadStart(day, 2, '0');
    assert date[..8] == prefix;
    date
  }

  /** What column `c` contributes (see `ColumnHeaderSpec`). */
  function ColumnHeader(h: HeaderRows, c: nat): Option<Header>
    requires 1 <= c < Width(h)
  {
    var monthCell := Trim(h.months[c]);
    var day := Trim(h.days[c]);
    var activityType := Trim(h.activities[c]);
    var month := CurrentMonth(h, c);
    if monthCell == "май" then None
    else if day == "" || activityType == "" || month == "" then None
    else
      match MonthNumber(month)
      case None => None
      case Some(num) => Some(Header(FormatDate(num, day), activityType))
  }

  /** Column `c` contributes nothing when its own month cell is the label
      "май", when its day or activity cell is blank, when no month is in force
      yet or when the month is unknown; otherwise a header dated 2025-MM-DD,
      MM being the number of the month in force and DD the trimmed day cell
      left-padded with '0' to two characters. */
  lemma ColumnHeaderSpec(h: HeaderRows, c: nat)
    requires 1 <= c < Width(h)
    ensures ColumnHeader(h, c).None? <==>
      || Trim(h.months[c]) == "май"
      || Trim(h.days[c]) == "" || Trim(h.activities[c]) == ""
      || CurrentMonth(h, c) == "" || Lower(CurrentMonth(h, c)) !in MonthNames
    ensures ColumnHeader(h, c).Some? ==>
      var hd := ColumnHeader(h, c).value;
      && hd.activityType == Trim(h.activities[c])
      && |hd.date| >= 10
      && hd.date[..5] == Year + "-"
      && IsMonthNumberOf(hd.date[5..7], CurrentMonth(h, c))
      && hd.date[7] == '-'
      && hd.date[8..] == PadStart(Trim(h.days[c]), 2, '0')
  {
  }

  /** Every column's contribution, column 0 (the name column) contributing nothing. */
  function ColumnHeaders(h: HeaderRows): (r: seq<Option<Header>>)
    ensures |r| == Width(h)
    ensures forall c | 1 <= c < |r| :: r[c] == ColumnHeader(h, c)
    ensures r != [] ==> r[0].None?
  {
    seq(Width(h), c requires 0 <= c < Width(h) => if c == 0 then None else ColumnHeader(h, c))
  }

  /** One pass of the source's column loop on trimmed cells: the month now in
      force and the header the column yields, if any. */
  function LoopBody(monthCell: string, day: string, activityType: string, currentMonth: string): (string, Option<Header>)
  {
    var current := if monthCell != "" then monthCell else currentMonth;
    if monthCell != "" && current == "май" then (current, None)
    else if day == "" || activityType == "" || current == "" then (current, None)
    else
      match MonthNumber(current)
      case None => (current, None)
      case Some(monthNum) => (current, Some(Header(FormatDate(monthNum, day), activityType)))
  }

  /** The loop body, entered with the month in force at column c-1, leaves the
      month in force at column `c` and yields column `c`'s contribution. */
  lemma LoopBodyIsColumnHeader(h: HeaderRows, c: nat)
    requires 1 <= c < Width(h)
    ensures LoopBody(Trim(h.months[c]), Trim(h.days[c]), Trim(h.activities[c]), CurrentMonth(h, c - 1))
      == (CurrentMonth(h, c), ColumnHeader(h, c))
  {
  }

  /** The `for colIndex` loop of the source, carrying `currentMonth` and the list
      built so far: it computes the per-column contributions, compacted. */
  function ScanColumns(h: HeaderRows, c: nat, currentMonth: string, acc: seq<Header>): (r: seq<Header>)
    requires 1 <= c <= Width(h)
    decreases Width(h) - c
  {
    if c == Width(h) then acc
    else
      var step := LoopBody(Trim(h.months[c]), Trim(h.days[c]), Trim(h.activities[c]), currentMonth);
      ScanColumns(h, c + 1, step.0, acc + Emitted(step.1))
  }

  /** Entered at column `c` with the month in force at column c-1 and the
      contributions of the columns before `c`, the loop ends with the
      contributions of all columns, compacted. */
  lemma {:induction false} ScanColumnsSpec(h: HeaderRows, c: nat, currentMonth: string, acc: seq<Header>)
    requires 1 <= c <= Width(h)
    requires currentMonth == CurrentMonth(h, c - 1)
    requires acc == Somes(ColumnHeaders(h)[..c])
    ensures ScanColumns(h, c, currentMonth, acc) == Somes(ColumnHeaders(h))
    decreases Width(h) - c
  {
    if c == Width(h) {
      ScanDone(h, c);
    } else {
      ScanStep(h, c, currentMonth, acc);
      ScanColumnsSpec(h, c + 1, CurrentMonth(h, c), Somes(ColumnHeaders(h)[..c + 1]));
    }
  }

  /** The list a column's optional header adds. */
  function Emitted(o: Option<Header>): seq<Header>
  {
    match o
    case None => []
    case Some(header) => [header]
  }

  lemma ScanDone(h: HeaderRows, c: nat)
    requires c == Width(h)
    ensures Somes(ColumnHeaders(h)[..c]) == Somes(ColumnHeaders(h))
  {
    assert ColumnHeaders(h)[..c] == ColumnHeaders(h);
  }

  /** One pass of the loop extends the month and the compacted list by
      column `c`. */
  lemma ScanStep(h: HeaderRows, c: nat, currentMonth: string, acc: seq<Header>)
    requires 1 <= c < Width(h)
    requires currentMonth == CurrentMonth(h, c - 1)
    requires acc == Somes(ColumnHeaders(h)[..c])
    ensures ScanColumns(h, c, currentMonth, acc) == ScanColumns(h, c + 1, CurrentMonth(h, c), Somes(ColumnHeaders(h)[..c + 1]))
  {
    var cols := ColumnHeaders(h);
    var step := LoopBody(Trim(h.months[c]), Trim(h.days[c]), Trim(h.activities[c]), currentMonth);
    assert ScanColumns(h, c, currentMonth, acc) == ScanColumns(h, c + 1, step.0, acc + Emitted(step.1));
    LoopBodyIsColumnHeader(h, c);
    SomesSnoc(cols, c);
    assert acc + Emitted(step.1) == Somes(cols[..c + 1]);
  }

  /** `dateActivityHeaders`: the contributions of columns 1..Width-1, in column order. */
  function DateHeaders(h: HeaderRows): (r: seq<Header>)
    ensures r == Somes(ColumnHeaders(h))
  {
    if Width(h) == 0 then []
    else
      assert ColumnHeaders(h)[..1] == [None];
      ScanColumnsSpec(h, 1, "", []);
      ScanColumns(h, 1, "", [])
  }

  /** Entry k of the header list is the contribution of the k-th contributing
      column; entry c-1 belongs to a column at or right of `c`, and to column
      `c` itself exactly when none of the columns 1..c was skipped. */
  lemma HeaderColumns(h: HeaderRows, c: nat)
    requires 1 <= c <= |DateHeaders(h)|
    ensures |SomePositions(ColumnHeaders(h))| == |DateHeaders(h)|
    ensures ColumnHeader(h, SomePositions(ColumnHeaders(h))[c - 1]) == Some(DateHeaders(h)[c - 1])
    ensures SomePositions(ColumnHeaders(h))[c - 1] >= c
    ensures SomePositions(ColumnHeaders(h))[c - 1] == c <==>
      forall k | 1 <= k <= c :: ColumnHeader(h, k).Some?
  {
    var s := ColumnHeaders(h);
    SomesAtPositions(s);
    PositionAlignment(s, c);
  }
}
