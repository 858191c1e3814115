/** Locating the header rows and the participant block of the sheet
    (`parseCsv` in backend/src/Trips.ts, from `rawRows` onward). The sheet is
    the CSV already turned into rows of cell strings. */
module Grid {
  import opened Wrappers
  import opened Seqs
  import opened Text

  type Row = seq<string>
  type Sheet = seq<Row>

  /** A row with no cells: its first cell is `undefined`, so the keyword test
      `firstCell.includes(...)` throws a TypeError and the whole parse fails. */
  datatype ParseError = RowWithoutCells(row: nat)

  /** Row indices found by the keyword scan; -1 stands for "not found". */
  datatype Layout = Layout(monthsRow: int, daysRow: int, activityRow: int, participantStart: int)

  /** A lower-cased first cell that can start the participant block:
      non-empty and mentioning none of the six header keywords. */
  predicate IsParticipantLabel(firstCell: string)
  {
    && firstCell != ""
    && !Contains(firstCell, "команде") && !Contains(firstCell, "дата")
    && !Contains(firstCell, "день") && !Contains(firstCell, "активность")
    && !Contains(firstCell, "часы") && !Contains(firstCell, "время")
  }

  /** The first cell lower-cased exactly equals "дата". */
  predicate IsDaysRow(r: Row)
  {
    |r| > 0 && Lower(r[0]) == "дата"
  }

  /** Not a days row, and the lower-cased first cell mentions "активность". */
  predicate IsActivityRow(r: Row)
  {
    |r| > 0 && Lower(r[0]) != "дата" && Contains(Lower(r[0]), "активность")
  }

  /** Neither a days nor an activity row, with a participant label. */
  predicate IsParticipantRow(r: Row)
  {
    |r| > 0 && Lower(r[0]) != "дата" && !Contains(Lower(r[0]), "активность") && IsParticipantLabel(Lower(r[0]))
  }

  /** The months row sits two rows above the days row, or is row 0. */
  function MonthsRowFor(daysRow: int): int
  {
    if daysRow > 0 then daysRow - 2 else 0
  }

  /** The indices found so far by the scan over the rows. */
  datatype ScanState = ScanState(days: int, activity: int, start: int)

  /** One iteration of the source's loop: the `if / else if` chain on the
      lower-cased first cell of row `i`. */
  function Step(firstCell: string, i: nat, st: ScanState): ScanState
  {
    if firstCell == "дата" then st.(days := i)
    else if Contains(firstCell, "активность") then st.(activity := i)
    else if IsParticipantLabel(firstCell) && st.start == -1 then st.(start := i)
    else st
  }

  /** What the scan has found after reading the first `i` rows. */
  ghost predicate Scanned(rows: Sheet, i: nat, st: ScanState)
    requires i <= |rows|
  {
    && st.days == LastIndexWhere(rows[..i], IsDaysRow)
    && st.activity == LastIndexWhere(rows[..i], IsActivityRow)
    && st.start == FirstIndexWhere(rows[..i], IsParticipantRow)
  }

  lemma StepScans(rows: Sheet, i: nat, st: ScanState)
    requires i < |rows| && |rows[i]| > 0 && Scanned(rows, i, st)
    ensures Scanned(rows, i + 1, Step(Lower(rows[i][0]), i, st))
  {
    LastIndexWhereSnoc(rows, i, IsDaysRow);
    LastIndexWhereSnoc(rows, i, IsActivityRow);
    FirstIndexWhereSnoc(rows, i, IsParticipantRow);
  }

  /** The source's forward loop over the rows. */
  function ScanFrom(rows: Sheet, i: nat, st: ScanState): (r: Result<Layout, ParseError>)
    requires i <= |rows|
    requires forall k | 0 <= k < i :: |rows[k]| > 0
    requires Scanned(rows, i, st)
    ensures r.Success? <==> forall k | 0 <= k < |rows| :: |rows[k]| > 0
    ensures r.Success? ==> r.value == Layout(
      MonthsRowFor(LastIndexWhere(rows, IsDaysRow)),
      LastIndexWhere(rows, IsDaysRow),
      LastIndexWhere(rows, IsActivityRow),
      FirstIndexWhere(rows, IsParticipantRow))
    ensures r.Failure? ==> i <= r.error.row < |rows| && |rows[r.error.row]| == 0
                           && forall k | 0 <= k < r.error.row :: |rows[k]| > 0
    decreases |rows| - i
  {
    if i == |rows| then
      ScannedAll(rows, st);
      Success(Layout(MonthsRowFor(st.days), st.days, st.activity, st.start))
    else if |rows[i]| == 0 then
      Failure(RowWithoutCells(i))
    else
      var next := Step(Lower(rows[i][0]), i, st);
      StepScans(rows, i, st);
      assert forall k | 0 <= k < i + 1 :: |rows[k]| > 0;
      ScanFrom(rows, i + 1, next)
  }

  lemma ScannedAll(rows: Sheet, st: ScanState)
    requires Scanned(rows, |rows|, st)
    ensures st.days == LastIndexWhere(rows, IsDaysRow)
    ensures st.activity == LastIndexWhere(rows, IsActivityRow)
    ensures st.start == FirstIndexWhere(rows, IsParticipantRow)
  {
    assert rows[..|rows|] == rows;
  }

  /** The header-row location step: the last "дата" row, the last activity row,
      the first participant row, and the months row derived from the days row.
      A row with no cells makes the scan throw. */
  function Locate(rows: Sheet): (r: Result<Layout, ParseError>)
    ensures r.Success? <==> forall k | 0 <= k < |rows| :: |rows[k]| > 0
    ensures r.Failure? ==> r.error.row < |rows| && |rows[r.error.row]| == 0
                           && forall k | 0 <= k < r.error.row :: |rows[k]| > 0
    ensures r.Success? ==> var l := r.value;
      && (l.daysRow == -1 <==> forall k | 0 <= k < |rows| :: !IsDaysRow(rows[k]))
      && (l.daysRow >= 0 ==> l.daysRow < |rows| && IsDaysRow(rows[l.daysRow])
                              && forall k | l.daysRow < k < |rows| :: !IsDaysRow(rows[k]))
      && (l.activityRow == -1 <==> forall k | 0 <= k < |rows| :: !IsActivityRow(rows[k]))
      && (l.activityRow >= 0 ==> l.activityRow < |rows| && IsActivityRow(rows[l.activityRow])
                                  && forall k | l.activityRow < k < |rows| :: !IsActivityRow(rows[k]))
      && (l.participantStart == -1 <==> forall k | 0 <= k < |rows| :: !IsParticipantRow(rows[k]))
      && (l.participantStart >= 0 ==> l.participantStart < |rows| && IsParticipantRow(rows[l.participantStart])
                                       && forall k | 0 <= k < l.participantStart :: !IsParticipantRow(rows[k]))
      && l.monthsRow == (if l.daysRow > 0 then l.daysRow - 2 else 0)
  {
    assert rows[..0] == [];
    ScanFrom(rows, 0, ScanState(-1, -1, -1))
  }

  /** `rawRows[k] || []`: a missing row reads as an empty row. */
  function RowAt(rows: Sheet, k: int): (r: Row)
    ensures 0 <= k < |rows| ==> r == rows[k]
    ensures !(0 <= k < |rows|) ==> r == []
  {
    if 0 <= k < |rows| then rows[k] else []
  }

  /** A slice position as `Array.prototype.slice` resolves it: negative counts from the end. */
  function ClampIndex(k: int, len: nat): (r: nat)
    ensures r <= len
    ensures 0 <= k <= len ==> r == k
    ensures k < 0 ==> r == if len + k < 0 then 0 else len + k
    ensures k > len ==> r == len
  {
    if k < 0 then (if len + k < 0 then 0 else len + k)
    else if k > len then len
    else k
  }

  /** `Array.prototype.slice(start, end)`. */
  function JsSlice<T>(s: seq<T>, start: int, end: int): seq<T>
  {
    var a := ClampIndex(start, |s|);
    var b := ClampIndex(end, |s|);
    if a < b then s[a..b] else []
  }

  /** `rawRows.slice(participantStartIndex, participantStartIndex + 31)`: at most 31
      rows from the first participant row on; when no participant row was found
      the start -1 counts from the end, so the block is the last row of a sheet of
      1 to 30 rows and empty otherwise. */
  function ParticipantRows(rows: Sheet, start: int): (r: seq<Row>)
    requires start >= -1
    ensures |r| <= 31
    ensures start >= 0 && start + 31 <= |rows| ==> r == rows[start..start + 31]
    ensures start >= 0 && start <= |rows| < start + 31 ==> r == rows[start..]
    ensures start == -1 ==> r == if 1 <= |rows| <= 30 then [rows[|rows| - 1]] else []
    ensures IsSubsequence(r, rows) || r == []
  {
    var a := ClampIndex(start, |rows|);
    var b := ClampIndex(start + 31, |rows|);
    if a < b then
      SliceIsSubsequence(rows, a, b);
      rows[a..b]
    else []
  }

  lemma {:induction false} SliceIsSubsequence<T>(s: seq<T>, a: nat, b: nat)
    requires a < b <= |s|
    ensures IsSubsequence(s[a..b], s)
    decreases |s|
  {
    if a > 0 {
      SliceIsSubsequence(s[1..], a - 1, b - 1);
      assert s[1..][a - 1..b - 1] == s[a..b];
    } else {
      var t := s[a..b];
      assert t[0] == s[0];
      if b > 1 {
        SliceIsSubsequence(s[1..], 0, b - 1);
        assert s[1..][0..b - 1] == t[1..];
      } else {
        EmptyIsSubsequence(s[1..]);
        assert t[1..] == [];
      }
    }
  }
}
