/** The participant scan of `parseCsv` (backend/src/Trips.ts): every '1' mark
    in a participant row signs the row's participant up for a dated activity,
    and the sign-ups are grouped into registrations keyed by date and type. */
module Attendance {
  import opened Wrappers
  import opened Seqs
  import opened Text
  import opened Grid
  import opened Headers
  import opened Buckets

  /** One '1' mark: a participant signed up for a dated activity. */
  datatype SignUp = SignUp(header: Header, name: string)

  /** `ActivityRegistration`. */
  datatype Registration = Registration(date: string, activityType: string, participants: seq<string>)

  /** The registration map key: the date and the activity type joined by '-'. */
  function Key(hd: Header): string
  {
    hd.date + "-" + hd.activityType
  }

  function SignUpKey(s: SignUp): string { Key(s.header) }

  function SignUpHeader(s: SignUp): Header { s.header }

  function SignUpName(s: SignUp): Option<string> { Some(s.name) }

  function RegistrationKey(g: Registration): string
  {
    Key(Header(g.date, g.activityType))
  }

  /** The trimmed name cell; a row with no cells has none. */
  function ParticipantName(row: Row): string
  {
    if row == [] then "" else Trim(row[0])
  }

  predicate Marked(row: Row, c: nat)
    requires c < |row|
  {
    Trim(row[c]) == "1"
  }

  /** Which header a mark in column c is counted for. The source reads the
      compacted header list at c-1; `ByColumn` reads column c's own header. */
  datatype Attribution =
    | AsWritten(headers: seq<Header>)
    | ByColumn(columns: seq<Option<Header>>)

  /** Number of leading columns of `row` the mark loop looks at (column 0
      holds the name). */
  function MarkLimit(row: Row, a: Attribution): nat
  {
    var bound := if a.AsWritten? then |a.headers| + 1 else |a.columns|;
    if |row| < bound then |row| else bound
  }

  /** The header a mark in column c >= 1 is counted for. */
  function Target(a: Attribution, c: nat): Option<Header>
    requires 1 <= c && (if a.AsWritten? then c <= |a.headers| else c < |a.columns|)
  {
    if a.AsWritten? then Some(a.headers[c - 1]) else a.columns[c]
  }

  /** The header each looked-at column of `row` is signed up for, if any. */
  function Marks(row: Row, a: Attribution): (r: seq<Option<Header>>)
    ensures |r| == MarkLimit(row, a)
    ensures forall c | 0 <= c < |r| :: r[c] == if c == 0 || !Marked(row, c) then None else Target(a, c)
  {
    seq(MarkLimit(row, a), c requires 0 <= c < MarkLimit(row, a) =>
      if c == 0 || !Marked(row, c) then None else Target(a, c))
  }

  function SignUpOf(name: string): Header -> SignUp
  {
    (hd: Header) => SignUp(hd, name)
  }

  /** The sign-ups of one participant row, in column order; a row whose name
      cell is blank is skipped. */
  function RowSignUps(row: Row, a: Attribution): seq<SignUp>
  {
    var name := ParticipantName(row);
    if name == "" then [] else Map(Somes(Marks(row, a)), SignUpOf(name))
  }

  /** The sign-ups of each participant row. */
  function RowsSignUps(rows: seq<Row>, a: Attribution): (r: seq<seq<SignUp>>)
    ensures |r| == |rows|
    ensures forall i | 0 <= i < |rows| :: r[i] == RowSignUps(rows[i], a)
  {
    seq(|rows|, i requires 0 <= i < |rows| => RowSignUps(rows[i], a))
  }

  /** The sign-ups of all participant rows, row by row. */
  function SheetSignUps(rows: seq<Row>, a: Attribution): seq<SignUp>
  {
    Flatten(RowsSignUps(rows, a))
  }

  /** `registrationMap`: one registration per distinct key, in the order the
      keys first appear, listing the names of its sign-ups. */
  function Group(signUps: seq<SignUp>): seq<Registration>
  {
    var bs := GroupBy(signUps, SignUpKey, SignUpHeader, SignUpName);
    Map(bs, (b: Bucket<string, Header, string>) => Registration(b.head.date, b.head.activityType, b.items))
  }

  /** The header rows a layout points at; a missing row reads as empty. */
  function HeaderRowsOf(rows: Sheet, l: Layout): HeaderRows
  {
    HeaderRows(RowAt(rows, l.monthsRow), RowAt(rows, l.daysRow), RowAt(rows, l.activityRow))
  }

  /** The participant rows a layout points at. */
  function ParticipantRowsOf(rows: Sheet, l: Layout): seq<Row>
    requires l.participantStart >= -1
  {
    ParticipantRows(rows, l.participantStart)
  }

  /** `parseCsv` after the CSV decoding, as written: marks are counted for the
      compacted header list at c-1. */
  function ParseGrid(rows: Sheet): (r: Result<seq<Registration>, ParseError>)
    ensures r.Failure? <==> exists k | 0 <= k < |rows| :: rows[k] == []
    ensures r.Failure? ==> r == Failure(Locate(rows).error)
  {
    var l :- Locate(rows);
    var headers := DateHeaders(HeaderRowsOf(rows, l));
    Success(Group(SheetSignUps(ParticipantRowsOf(rows, l), AsWritten(headers))))
  }

  /** `parseCsv` with each mark counted for its own column's header. */
  function ParseGridByColumn(rows: Sheet): (r: Result<seq<Registration>, ParseError>)
    ensures r.Failure? <==> exists k | 0 <= k < |rows| :: rows[k] == []
    ensures r.Failure? ==> r == Failure(Locate(rows).error)
  {
    var l :- Locate(rows);
    var columns := ColumnHeaders(HeaderRowsOf(rows, l));
    Success(Group(SheetSignUps(ParticipantRowsOf(rows, l), ByColumn(columns))))
  }

  /** The sign-ups of a row are its marked, attributed columns in column
      order, each carrying the row's trimmed name; a nameless row has none. */
  lemma RowSignUpsSpec(row: Row, a: Attribution)
    ensures ParticipantName(row) == "" ==> RowSignUps(row, a) == []
    ensures ParticipantName(row) != "" ==>
      var r := RowSignUps(row, a);
      var cols := SomePositions(Marks(row, a));
      && |r| == |cols|
      && forall k | 0 <= k < |r| ::
           1 <= cols[k] < |row| && Marked(row, cols[k])
           && Marks(row, a)[cols[k]] == Some(r[k].header)
           && r[k].name == ParticipantName(row)
  {
    SomesAtPositions(Marks(row, a));
  }

  /** A sign-up comes from a row exactly when the row has a name, the sign-up
      carries it, and some marked column of the row is attributed to its header. */
  lemma RowSignUpsMembership(row: Row, a: Attribution, su: SignUp)
    ensures su in RowSignUps(row, a) <==>
      && ParticipantName(row) != "" && su.name == ParticipantName(row)
      && exists c | 0 <= c < MarkLimit(row, a) :: Marks(row, a)[c] == Some(su.header)
  {
    var name := ParticipantName(row);
    if name != "" {
      SomesMembership(Marks(row, a), su.header);
      var hs := Somes(Marks(row, a));
      if su.name == name && su.header in hs {
        var k :| 0 <= k < |hs| && hs[k] == su.header;
        assert Map(hs, SignUpOf(name))[k] == su;
      }
    }
  }

  /** The sheet's sign-ups are the union of its rows' sign-ups. */
  lemma SheetSignUpsMembership(rows: seq<Row>, a: Attribution, su: SignUp)
    ensures su in SheetSignUps(rows, a) <==> exists i | 0 <= i < |rows| :: su in RowSignUps(rows[i], a)
  {
    var perRow := RowsSignUps(rows, a);
    FlattenMembership(perRow, su);
    assert forall i | 0 <= i < |rows| :: perRow[i] == RowSignUps(rows[i], a);
  }

  /** The names collected for key `k` are those of the sign-ups with that key. */
  lemma {:induction false} CollectNames(signUps: seq<SignUp>, k: string, name: string)
    ensures name in Collect(signUps, k, SignUpKey, SignUpName) <==>
      exists j | 0 <= j < |signUps| :: SignUpKey(signUps[j]) == k && signUps[j].name == name
  {
    if signUps != [] {
      var init := signUps[..|signUps| - 1];
      CollectNames(init, k, name);
      assert forall j | 0 <= j < |init| :: init[j] == signUps[j];
    }
  }

  /** A key that occurs among the sign-ups collects at least one name. */
  lemma {:induction false} CollectNonEmpty(signUps: seq<SignUp>, k: string)
    requires k in Map(signUps, SignUpKey)
    ensures Collect(signUps, k, SignUpKey, SignUpName) != []
  {
    var j :| 0 <= j < |signUps| && SignUpKey(signUps[j]) == k;
    CollectNames(signUps, k, signUps[j].name);
  }

  /** The registrations have distinct keys in first-appearance order; each
      takes its date and type from the first sign-up with its key and lists
      the names of all sign-ups with that key, in order, so never none. */
  lemma GroupSpec(signUps: seq<SignUp>)
    ensures var r := Group(signUps);
      && Map(r, RegistrationKey) == Dedup(Map(signUps, SignUpKey))
      && forall i | 0 <= i < |r| ::
           && RegistrationKey(r[i]) in Map(signUps, SignUpKey)
           && Header(r[i].date, r[i].activityType)
                == signUps[IndexOf(Map(signUps, SignUpKey), RegistrationKey(r[i]))].header
           && r[i].participants == Collect(signUps, RegistrationKey(r[i]), SignUpKey, SignUpName)
           && r[i].participants != []
  {
    var bs := GroupBy(signUps, SignUpKey, SignUpHeader, SignUpName);
    GroupBySpec(signUps, SignUpKey, SignUpHeader, SignUpName);
    var r := Group(signUps);
    forall i | 0 <= i < |r|
      ensures RegistrationKey(r[i]) == bs[i].key
    {
      var j := IndexOf(Map(signUps, SignUpKey), bs[i].key);
      assert SignUpKey(signUps[j]) == bs[i].key;
    }
    assert Map(r, RegistrationKey) == Keys(bs);
    forall i | 0 <= i < |r|
      ensures r[i].participants != []
    {
      CollectNonEmpty(signUps, bs[i].key);
    }
  }

  /** A name is listed in a registration exactly when a sign-up with the
      registration's key carries it. */
  lemma GroupNames(signUps: seq<SignUp>, g: Registration, name: string)
    requires g in Group(signUps)
    ensures name in g.participants <==>
      exists j | 0 <= j < |signUps| :: SignUpKey(signUps[j]) == RegistrationKey(g) && signUps[j].name == name
  {
    GroupSpec(signUps);
    CollectNames(signUps, RegistrationKey(g), name);
  }

  /** A sign-up of the sheet comes from a named participant row and a marked
      column of it attributed to the sign-up's header, and every such pair
      gives one. */
  lemma SheetSignUpSource(rows: seq<Row>, a: Attribution, su: SignUp)
    ensures su in SheetSignUps(rows, a) <==>
      exists i, c | 0 <= i < |rows| && 0 <= c < MarkLimit(rows[i], a) ::
        ParticipantName(rows[i]) != "" && su.name == ParticipantName(rows[i])
        && Marks(rows[i], a)[c] == Some(su.header)
  {
    SheetSignUpsMembership(rows, a, su);
    forall i | 0 <= i < |rows|
      ensures su in RowSignUps(rows[i], a) <==>
        ParticipantName(rows[i]) != "" && su.name == ParticipantName(rows[i])
        && exists c | 0 <= c < MarkLimit(rows[i], a) :: Marks(rows[i], a)[c] == Some(su.header)
    {
      RowSignUpsMembership(rows[i], a, su);
    }
  }

  /** Every listed name comes from a participant row with a mark attributed
      to a header with the registration's key. */
  lemma SheetGroupNamesSound(rows: seq<Row>, a: Attribution, g: Registration, name: string)
    requires g in Group(SheetSignUps(rows, a)) && name in g.participants
    ensures exists i, c | 0 <= i < |rows| && 0 <= c < MarkLimit(rows[i], a) ::
      && name != "" && ParticipantName(rows[i]) == name
      && Marks(rows[i], a)[c].Some? && Key(Marks(rows[i], a)[c].value) == RegistrationKey(g)
  {
    var signUps := SheetSignUps(rows, a);
    GroupNames(signUps, g, name);
    var j :| 0 <= j < |signUps| && SignUpKey(signUps[j]) == RegistrationKey(g) && signUps[j].name == name;
    var su := signUps[j];
    SheetSignUpSource(rows, a, su);
    var i, c :| 0 <= i < |rows| && 0 <= c < MarkLimit(rows[i], a)
      && ParticipantName(rows[i]) != "" && su.name == ParticipantName(rows[i])
      && Marks(rows[i], a)[c] == Some(su.header);
    assert Key(Marks(rows[i], a)[c].value) == RegistrationKey(g);
  }

  /** Every mark attributed to a header with the registration's key lists the
      row's name in it. */
  lemma SheetGroupNamesComplete(rows: seq<Row>, a: Attribution, g: Registration, i: nat, c: nat)
    requires g in Group(SheetSignUps(rows, a))
    requires i < |rows| && c < MarkLimit(rows[i], a) && ParticipantName(rows[i]) != ""
    requires Marks(rows[i], a)[c].Some? && Key(Marks(rows[i], a)[c].value) == RegistrationKey(g)
    ensures ParticipantName(rows[i]) in g.participants
  {
    var signUps := SheetSignUps(rows, a);
    var name := ParticipantName(rows[i]);
    var su := SignUp(Marks(rows[i], a)[c].value, name);
    SheetSignUpSource(rows, a, su);
    var j :| 0 <= j < |signUps| && signUps[j] == su;
    GroupNames(signUps, g, name);
  }

  /** A name is listed in a registration of the sheet exactly when some
      participant row with that name has a mark attributed to a header with
      the registration's key. */
  lemma SheetGroupNames(rows: seq<Row>, a: Attribution, g: Registration, name: string)
    requires g in Group(SheetSignUps(rows, a))
    ensures name in g.participants <==>
      exists i, c | 0 <= i < |rows| && 0 <= c < MarkLimit(rows[i], a) ::
        && name != "" && ParticipantName(rows[i]) == name
        && Marks(rows[i], a)[c].Some? && Key(Marks(rows[i], a)[c].value) == RegistrationKey(g)
  {
    if name in g.participants {
      SheetGroupNamesSound(rows, a, g, name);
    } else {
      forall i, c | 0 <= i < |rows| && 0 <= c < MarkLimit(rows[i], a)
        ensures !(&& name != "" && ParticipantName(rows[i]) == name
                  && Marks(rows[i], a)[c].Some? && Key(Marks(rows[i], a)[c].value) == RegistrationKey(g))
      {
        if name != "" && ParticipantName(rows[i]) == name
           && Marks(rows[i], a)[c].Some? && Key(Marks(rows[i], a)[c].value) == RegistrationKey(g) {
          SheetGroupNamesComplete(rows, a, g, i, c);
        }
      }
    }
  }

  /** The registrations of a successful by-column parse: a name is listed in
      a registration exactly when a participant row with that (trimmed) name
      has a '1' in a column whose own header has the registration's key. */
  lemma ParseGridByColumnNames(rows: Sheet, g: Registration, name: string)
    requires ParseGridByColumn(rows).Success? && g in ParseGridByColumn(rows).value
    ensures var l := Locate(rows).value;
      var h := HeaderRowsOf(rows, l);
      var prs := ParticipantRowsOf(rows, l);
      name in g.participants <==>
        exists i, c | 0 <= i < |prs| && 1 <= c < |prs[i]| && c < Width(h) ::
          && name != "" && ParticipantName(prs[i]) == name && Marked(prs[i], c)
          && ColumnHeader(h, c).Some? && Key(ColumnHeader(h, c).value) == RegistrationKey(g)
  {
    var l := Locate(rows).value;
    ByColumnNames(ParticipantRowsOf(rows, l), HeaderRowsOf(rows, l), g, name);
  }

  lemma ByColumnNames(prs: seq<Row>, h: HeaderRows, g: Registration, name: string)
    requires g in Group(SheetSignUps(prs, ByColumn(ColumnHeaders(h))))
    ensures name in g.participants <==>
      exists i, c | 0 <= i < |prs| && 1 <= c < |prs[i]| && c < Width(h) ::
        && name != "" && ParticipantName(prs[i]) == name && Marked(prs[i], c)
        && ColumnHeader(h, c).Some? && Key(ColumnHeader(h, c).value) == RegistrationKey(g)
  {
    ColumnListNames(prs, ColumnHeaders(h), g, name);
  }

  /** The names of a by-column registration are those of the rows with a
      mark in a column whose header has the registration's key. */
  lemma ColumnListNames(prs: seq<Row>, cols: seq<Option<Header>>, g: Registration, name: string)
    requires cols != [] ==> cols[0].None?
    requires g in Group(SheetSignUps(prs, ByColumn(cols)))
    ensures name in g.participants <==>
      exists i, c | 0 <= i < |prs| && 1 <= c < |prs[i]| && c < |cols| ::
        && name != "" && ParticipantName(prs[i]) == name && Marked(prs[i], c)
        && cols[c].Some? && Key(cols[c].value) == RegistrationKey(g)
  {
    var a := ByColumn(cols);
    if name in g.participants {
      SheetGroupNamesSound(prs, a, g, name);
      var i, c :| 0 <= i < |prs| && 0 <= c < MarkLimit(prs[i], a)
        && name != "" && ParticipantName(prs[i]) == name
        && Marks(prs[i], a)[c].Some? && Key(Marks(prs[i], a)[c].value) == RegistrationKey(g);
      assert c != 0 && Marked(prs[i], c) && Marks(prs[i], a)[c] == cols[c];
    } else {
      forall i, c | 0 <= i < |prs| && 1 <= c < |prs[i]| && c < |cols|
        ensures !(&& name != "" && ParticipantName(prs[i]) == name && Marked(prs[i], c)
                  && cols[c].Some? && Key(cols[c].value) == RegistrationKey(g))
      {
        assert c < MarkLimit(prs[i], a);
        if name != "" && ParticipantName(prs[i]) == name && Marked(prs[i], c)
           && cols[c].Some? && Key(cols[c].value) == RegistrationKey(g) {
          assert Marks(prs[i], a)[c] == cols[c];
          SheetGroupNamesComplete(prs, a, g, i, c);
        }
      }
    }
  }

  /** When no header column between the name column and the end is skipped,
      entry c-1 of the header list is column c's header. */
  lemma NoSkippedColumn(h: HeaderRows)
    requires forall c | 1 <= c < Width(h) :: ColumnHeader(h, c).Some?
    ensures Width(h) >= 1 ==> |DateHeaders(h)| == Width(h) - 1
    ensures Width(h) == 0 ==> DateHeaders(h) == []
    ensures forall c | 1 <= c < Width(h) :: ColumnHeader(h, c) == Some(DateHeaders(h)[c - 1])
  {
    var s := ColumnHeaders(h);
    if Width(h) >= 1 {
      NoGapSomes(s);
    }
  }

  /** With no skipped header column, the source's attribution and the
      by-column attribution give a row the same sign-ups. */
  lemma AttributionsAgree(h: HeaderRows, row: Row)
    requires forall c | 1 <= c < Width(h) :: ColumnHeader(h, c).Some?
    ensures RowSignUps(row, AsWritten(DateHeaders(h))) == RowSignUps(row, ByColumn(ColumnHeaders(h)))
  {
    var s := ColumnHeaders(h);
    if Width(h) >= 1 {
      NoGapSomes(s);
      MarksAgree(row, Somes(s), s);
    } else {
      var m := Marks(row, AsWritten(DateHeaders(h)));
      assert |m| <= 1;
      if |m| == 1 {
        assert m[..0] == [];
      }
      assert Somes(m) == [];
    }
  }

  /** Reading the compacted list at c-1 and the column list at c mark the
      same headers when the column list has no gap. */
  lemma MarksAgree(row: Row, hs: seq<Header>, cols: seq<Option<Header>>)
    requires |cols| == |hs| + 1 && cols[0].None?
    requires forall c | 1 <= c < |cols| :: cols[c] == Some(hs[c - 1])
    ensures Marks(row, AsWritten(hs)) == Marks(row, ByColumn(cols))
  {
    var m1 := Marks(row, AsWritten(hs));
    var m2 := Marks(row, ByColumn(cols));
    assert |m1| == |m2|;
    forall c | 0 <= c < |m1|
      ensures m1[c] == m2[c]
    {
    }
  }

  /** With no skipped header column the source's parse is the by-column parse. */
  lemma ParseGridAgrees(rows: Sheet)
    requires ParseGrid(rows).Success?
    requires var h := HeaderRowsOf(rows, Locate(rows).value);
      forall c | 1 <= c < Width(h) :: ColumnHeader(h, c).Some?
    ensures ParseGrid(rows) == ParseGridByColumn(rows)
  {
    var l := Locate(rows).value;
    var h := HeaderRowsOf(rows, l);
    var prs := ParticipantRowsOf(rows, l);
    forall i | 0 <= i < |prs|
      ensures RowsSignUps(prs, AsWritten(DateHeaders(h)))[i] == RowsSignUps(prs, ByColumn(ColumnHeaders(h)))[i]
    {
      AttributionsAgree(h, prs[i]);
    }
    assert RowsSignUps(prs, AsWritten(DateHeaders(h))) == RowsSignUps(prs, ByColumn(ColumnHeaders(h)));
  }

  /** Concrete header rows where column 1 opens March but has no day, so it
      is skipped and the header list is one entry short of the columns. */
  function SkippedColumnRows(): HeaderRows
  {
    HeaderRows(["", "март", "", ""], ["", "", "2", "3"], ["", "Т", "Т", "Г"])
  }

  /** The cells of the example sheet are their own trims. */
  lemma TrimCell(s: string)
    requires s in ["", "март", "Т", "Г", "1", "2", "3", "Иванов"]
    ensures Trim(s) == s
  {
    TrimUnchanged(s);
  }

  lemma MarchNumber()
    ensures MonthNumber("март") == Some("03")
  {
    assert Lower("март") == "март";
    assert IndexOf(MonthNames, "март") == 2;
  }

  lemma SkippedColumnMonth()
    ensures Width(SkippedColumnRows()) == 4
    ensures CurrentMonth(SkippedColumnRows(), 1) == "март"
    ensures CurrentMonth(SkippedColumnRows(), 2) == "март"
    ensures CurrentMonth(SkippedColumnRows(), 3) == "март"
  {
    TrimCell("");
    TrimCell("март");
    var h := SkippedColumnRows();
    assert MonthColumn(h, 1) == 1;
    assert MonthColumn(h, 2) == 1;
    assert MonthColumn(h, 3) == 1;
  }

  lemma SkippedColumnOne()
    ensures Width(SkippedColumnRows()) == 4
    ensures ColumnHeader(SkippedColumnRows(), 1) == None
  {
    SkippedColumnMonth();
    TrimCell("");
    TrimCell("март");
  }

  lemma MarchDates()
    ensures FormatDate("03", "2") == "2025-03-02" && FormatDate("03", "3") == "2025-03-03"
  {
    assert PadStart("2", 2, '0') == "02";
    assert PadStart("3", 2, '0') == "03";
  }

  lemma SkippedColumnCells()
    ensures var h := SkippedColumnRows();
      && Trim(h.months[2]) == "" && Trim(h.days[2]) == "2" && Trim(h.activities[2]) == "Т"
      && Trim(h.months[3]) == "" && Trim(h.days[3]) == "3" && Trim(h.activities[3]) == "Г"
  {
    TrimCell("");
    TrimCell("Т");
    TrimCell("2");
    TrimCell("Г");
    TrimCell("3");
  }

  lemma SkippedColumnTwo()
    ensures Width(SkippedColumnRows()) == 4
    ensures ColumnHeader(SkippedColumnRows(), 2) == Some(Header("2025-03-02", "Т"))
  {
    SkippedColumnMonth();
    SkippedColumnCells();
    MarchNumber();
    MarchDates();
  }

  lemma SkippedColumnThree()
    ensures Width(SkippedColumnRows()) == 4
    ensures ColumnHeader(SkippedColumnRows(), 3) == Some(Header("2025-03-03", "Г"))
  {
    SkippedColumnMonth();
    SkippedColumnCells();
    MarchNumber();
    MarchDates();
  }

  lemma SeqOfFour<T>(s: seq<T>)
    requires |s| == 4
    ensures s == [s[0], s[1], s[2], s[3]]
  {
  }

  lemma SkippedColumnList()
    ensures ColumnHeaders(SkippedColumnRows()) ==
      [None, None, Some(Header("2025-03-02", "Т")), Some(Header("2025-03-03", "Г"))]
  {
    SkippedColumnOne();
    SkippedColumnTwo();
    SkippedColumnThree();
    var r := ColumnHeaders(SkippedColumnRows());
    SeqOfFour(r);
  }

  lemma SomesOfFour<T>(s: seq<Option<T>>, x: T, y: T)
    requires s == [None, None, Some(x), Some(y)]
    ensures Somes(s) == [x, y]
  {
    assert s[..0] == [];
    SomesSnoc(s, 0);
    SomesSnoc(s, 1);
    SomesSnoc(s, 2);
    SomesSnoc(s, 3);
    assert s[..4] == s;
  }

  /** The header list of the example: two entries, for the columns 2 and 3. */
  lemma SkippedColumnHeaders()
    ensures ColumnHeaders(SkippedColumnRows()) ==
      [None, None, Some(Header("2025-03-02", "Т")), Some(Header("2025-03-03", "Г"))]
    ensures DateHeaders(SkippedColumnRows()) ==
      [Header("2025-03-02", "Т"), Header("2025-03-03", "Г")]
  {
    SkippedColumnList();
    var h := SkippedColumnRows();
    SomesOfFour(ColumnHeaders(h), Header("2025-03-02", "Т"), Header("2025-03-03", "Г"));
  }

  /** The example row: a participant marking only column 2. */
  function MarkedRow(): Row
  {
    ["Иванов", "", "1", ""]
  }

  lemma MarkedRowCells()
    ensures ParticipantName(MarkedRow()) == "Иванов"
    ensures !Marked(MarkedRow(), 1) && Marked(MarkedRow(), 2) && !Marked(MarkedRow(), 3)
  {
    TrimCell("Иванов");
    TrimCell("");
    TrimCell("1");
  }

  lemma MarksOfRow(row: Row, a: Attribution, x: Option<Header>)
    requires |row| == 4 && !Marked(row, 1) && Marked(row, 2) && !Marked(row, 3)
    requires MarkLimit(row, a) >= 3 && Target(a, 2) == x
    ensures Somes(Marks(row, a)) == if x.Some? then [x.value] else []
  {
    var m := Marks(row, a);
    assert m[..0] == [];
    SomesSnoc(m, 0);
    SomesSnoc(m, 1);
    SomesSnoc(m, 2);
    if |m| == 4 {
      SomesSnoc(m, 3);
      assert m[..4] == m;
    } else {
      assert m[..3] == m;
    }
  }

  lemma SingleSignUp(row: Row, a: Attribution, x: Header)
    requires ParticipantName(row) != "" && Somes(Marks(row, a)) == [x]
    ensures RowSignUps(row, a) == [SignUp(x, ParticipantName(row))]
  {
  }

  lemma MisattributedAsWritten(h: HeaderRows, row: Row)
    requires h == SkippedColumnRows() && row == MarkedRow()
    ensures RowSignUps(row, AsWritten(DateHeaders(h))) == [SignUp(Header("2025-03-03", "Г"), "Иванов")]
  {
    SkippedColumnHeaders();
    MarkedRowCells();
    var a := AsWritten(DateHeaders(h));
    assert MarkLimit(row, a) == 3 && Target(a, 2) == Some(Header("2025-03-03", "Г"));
    MarksOfRow(row, a, Some(Header("2025-03-03", "Г")));
    SingleSignUp(row, a, Header("2025-03-03", "Г"));
  }

  lemma AttributedByColumn(h: HeaderRows, row: Row)
    requires h == SkippedColumnRows() && row == MarkedRow()
    ensures RowSignUps(row, ByColumn(ColumnHeaders(h))) == [SignUp(Header("2025-03-02", "Т"), "Иванов")]
  {
    SkippedColumnHeaders();
    MarkedRowCells();
    var a := ByColumn(ColumnHeaders(h));
    assert MarkLimit(row, a) == 4 && Target(a, 2) == Some(Header("2025-03-02", "Т"));
    MarksOfRow(row, a, Some(Header("2025-03-02", "Т")));
    SingleSignUp(row, a, Header("2025-03-02", "Т"));
  }

  /** In that sheet a participant marking column 2 (2 March, type Т) is
      counted by the source for the next header (3 March, type Г); the
      by-column attribution counts the mark for 2 March. */
  lemma MisattributedMark(h: HeaderRows, row: Row)
    requires h == SkippedColumnRows() && row == MarkedRow()
    ensures RowSignUps(row, AsWritten(DateHeaders(h))) == [SignUp(Header("2025-03-03", "Г"), "Иванов")]
    ensures RowSignUps(row, ByColumn(ColumnHeaders(h))) == [SignUp(Header("2025-03-02", "Т"), "Иванов")]
  {
    MisattributedAsWritten(h, row);
    AttributedByColumn(h, row);
  }
}
