/**
 * The counting part of `createSummary` (google-apps-script.js): the data
 * rows of the sheet, and per column a tally of how often each cell value
 * occurs, kept in a dictionary whose keys are listed in the order they
 * were first added.
 */
module Summary {
  import opened Headers
  import opened Sink

  /** Column 1 of a data row: the usage level in the intended layout. */
  const UsageColumn := 1
  /** Column 24 of a data row: the department in the intended layout. */
  const DepartmentColumn := 24

  /** `row[i]` used as a property name: a missing cell is `undefined`,
      whose property name is "undefined". */
  function CellAt(row: seq<string>, i: nat): string {
    if i < |row| then row[i] else "undefined"
  }

  /** The cells of column `i`, one per row; `SummaryReadsSheet` says
      what they are in terms of the sheet. */
  function Column(rows: seq<seq<string>>, i: nat): seq<string> {
    seq(|rows|, j requires 0 <= j < |rows| => CellAt(rows[j], i))
  }

  /** `getDataRange().getValues()`: every row cut or padded with "" to
      the sheet's last column. */
  function DataRange(sheet: seq<seq<string>>): (data: seq<seq<string>>)
    ensures |data| == |sheet|
    ensures forall j :: 0 <= j < |data| ==> |data[j]| == LastColumn(sheet)
  {
    seq(|sheet|, j requires 0 <= j < |sheet| =>
      seq(LastColumn(sheet), i requires 0 <= i < LastColumn(sheet) => if i < |sheet[j]| then sheet[j][i] else ""))
  }

  /** The rectangle holds every cell with content where the sheet has it,
      and "" wherever the sheet has none. */
  lemma DataRangeKeepsContent(sheet: seq<seq<string>>)
    ensures forall j, i :: 0 <= j < |sheet| && 0 <= i < |sheet[j]| && sheet[j][i] != "" ==>
              i < |DataRange(sheet)[j]| && DataRange(sheet)[j][i] == sheet[j][i]
    ensures forall j, i :: 0 <= j < |sheet| && 0 <= i < |DataRange(sheet)[j]| && DataRange(sheet)[j][i] != "" ==>
              i < |sheet[j]| && DataRange(sheet)[j][i] == sheet[j][i]
  {
    LastColumnMeaning(sheet);
  }

  /** `data.slice(1)`: every row but the header row. */
  function DataRows(data: seq<seq<string>>): seq<seq<string>> {
    if |data| == 0 then [] else data[1..]
  }

  /** What the counting loop reads for column `i`: the cell of data row
      `j` is the sheet's cell `sheet[j + 1][i]` where that exists, "" where
      the row is shorter but the column is inside the data range, and
      "undefined" in every row once the column lies past the last column. */
  lemma SummaryReadsSheet(sheet: seq<seq<string>>, i: nat)
    ensures |Column(DataRows(DataRange(sheet)), i)| == (if sheet == [] then 0 else |sheet| - 1)
    ensures forall j :: 0 <= j < |sheet| - 1 ==>
              Column(DataRows(DataRange(sheet)), i)[j] ==
                if i >= LastColumn(sheet) then "undefined"
                else if i < |sheet[j + 1]| then sheet[j + 1][i]
                else ""
  {
    forall j | 0 <= j < |sheet| - 1 {
      DataRowCell(sheet, i, j);
    }
  }

  lemma DataRowCell(sheet: seq<seq<string>>, i: nat, j: nat)
    requires j < |sheet| - 1
    ensures Column(DataRows(DataRange(sheet)), i)[j] ==
              if i >= LastColumn(sheet) then "undefined"
              else if i < |sheet[j + 1]| then sheet[j + 1][i]
              else ""
  {
    var data := DataRange(sheet);
    var row := data[j + 1];
    assert DataRows(data)[j] == row;
    assert Column(DataRows(data), i)[j] == CellAt(row, i);
    assert |row| == LastColumn(sheet);
  }

  /** How many cells hold `v`: the reference definition of a count. */
  function Occurrences(cells: seq<string>, v: string): nat
    decreases |cells|
  {
    if cells == [] then 0
    else Occurrences(cells[..|cells| - 1], v) + (if cells[|cells| - 1] == v then 1 else 0)
  }

  /** The dictionary the counting loop leaves: one entry per distinct
      value, holding its number of occurrences. */
  function Tally(cells: seq<string>): map<string, nat> {
    map v | v in cells :: Occurrences(cells, v)
  }

  /** The dictionary's keys in insertion order, which is the order
      `Object.entries` lists them in. */
  function FirstSeen(cells: seq<string>): seq<string>
    decreases |cells|
  {
    if cells == [] then []
    else
      var init := cells[..|cells| - 1];
      if cells[|cells| - 1] in init then FirstSeen(init) else FirstSeen(init) + [cells[|cells| - 1]]
  }

  /** A sum of dictionary entries over a list of keys (a key that is
      absent adds nothing). */
  function SumOver(keys: seq<string>, counts: map<string, nat>): nat
    decreases |keys|
  {
    if keys == [] then 0
    else SumOver(keys[..|keys| - 1], counts) + (if keys[|keys| - 1] in counts then counts[keys[|keys| - 1]] else 0)
  }

  /** A sum of occurrences over a list of values. */
  function SumOccurrences(keys: seq<string>, cells: seq<string>): nat
    decreases |keys|
  {
    if keys == [] then 0
    else SumOccurrences(keys[..|keys| - 1], cells) + Occurrences(cells, keys[|keys| - 1])
  }

  predicate Distinct(keys: seq<string>) {
    forall i, j :: 0 <= i < j < |keys| ==> keys[i] != keys[j]
  }

  /** A value occurs iff it is one of the cells. */
  lemma {:induction false} OccursIffPresent(cells: seq<string>, v: string)
    ensures Occurrences(cells, v) > 0 <==> v in cells
    ensures Occurrences(cells, v) <= |cells|
    decreases |cells|
  {
    if cells != [] {
      var init := cells[..|cells| - 1];
      OccursIffPresent(init, v);
      assert cells == init + [cells[|cells| - 1]];
    }
  }

  /** The insertion order lists every distinct value exactly once. */
  lemma {:induction false} FirstSeenListsEachValueOnce(cells: seq<string>)
    ensures Distinct(FirstSeen(cells))
    ensures forall v :: v in FirstSeen(cells) <==> v in cells
    decreases |cells|
  {
    if cells != [] {
      var init := cells[..|cells| - 1];
      FirstSeenListsEachValueOnce(init);
      assert cells == init + [cells[|cells| - 1]];
    }
  }

  /** One more cell adds one to the sum over distinct keys when the cell
      is one of them, and nothing otherwise. */
  lemma {:induction false} SumOccurrencesSnoc(keys: seq<string>, cells: seq<string>, x: string)
    requires Distinct(keys)
    ensures SumOccurrences(keys, cells + [x]) == SumOccurrences(keys, cells) + (if x in keys then 1 else 0)
    decreases |keys|
  {
    if keys != [] {
      var init := keys[..|keys| - 1];
      assert Distinct(init);
      SumOccurrencesSnoc(init, cells, x);
      assert (cells + [x])[..|cells + [x]| - 1] == cells;
      assert keys == init + [keys[|keys| - 1]];
      assert x in keys <==> x in init || x == keys[|keys| - 1];
      assert x == keys[|keys| - 1] ==> x !in init;
    }
  }

  /** The counts of the distinct values add up to the number of cells. */
  lemma {:induction false} CountsSumToTotal(cells: seq<string>)
    ensures SumOccurrences(FirstSeen(cells), cells) == |cells|
    decreases |cells|
  {
    if cells != [] {
      var init := cells[..|cells| - 1];
      var x := cells[|cells| - 1];
      assert cells == init + [x];
      CountsSumToTotal(init);
      FirstSeenListsEachValueOnce(init);
      SumOccurrencesSnoc(FirstSeen(init), init, x);
      if x !in init {
        OccursIffPresent(init, x);
        assert FirstSeen(cells) == FirstSeen(init) + [x];
        assert FirstSeen(cells)[..|FirstSeen(cells)| - 1] == FirstSeen(init);
      }
    }
  }

  /** Summing the dictionary over its own keys is summing occurrences. */
  lemma {:induction false} SumOverTally(keys: seq<string>, cells: seq<string>)
    requires forall k :: k in keys ==> k in cells
    ensures SumOver(keys, Tally(cells)) == SumOccurrences(keys, cells)
    decreases |keys|
  {
    if keys != [] {
      SumOverTally(keys[..|keys| - 1], cells);
      assert keys[|keys| - 1] in cells;
    }
  }

  /** The dictionary's entries: a key per distinct value, holding the
      number of its occurrences; and its listed counts add up to the
      number of cells. */
  lemma TallyMeaning(cells: seq<string>)
    ensures forall v :: v in Tally(cells) <==> v in cells
    ensures forall v :: v in Tally(cells) ==> Tally(cells)[v] == Occurrences(cells, v) > 0
    ensures SumOver(FirstSeen(cells), Tally(cells)) == |cells|
  {
    forall v | v in cells ensures Occurrences(cells, v) > 0 {
      OccursIffPresent(cells, v);
    }
    FirstSeenListsEachValueOnce(cells);
    SumOverTally(FirstSeen(cells), cells);
    CountsSumToTotal(cells);
  }

  /** Adding one cell to the counts: the dictionary update of the loop
      body, `counts[v] = (counts[v] || 0) + 1`. */
  lemma TallySnoc(cells: seq<string>, x: string)
    ensures Tally(cells + [x]) == Tally(cells)[x := if x in Tally(cells) then Tally(cells)[x] + 1 else 1]
    ensures FirstSeen(cells + [x]) == if x in cells then FirstSeen(cells) else FirstSeen(cells) + [x]
  {
    var c := cells + [x];
    assert c[..|c| - 1] == cells;
    OccursIffPresent(cells, x);
  }

  /** One `responses.forEach(row => { counts[row[i]] = ... })` loop. */
  method CountColumn(rows: seq<seq<string>>, i: nat) returns (counts: map<string, nat>, order: seq<string>)
    ensures counts == Tally(Column(rows, i))
    ensures order == FirstSeen(Column(rows, i))
  {
    ghost var col := Column(rows, i);
    counts := map[];
    order := [];
    for j := 0 to |rows|
      invariant counts == Tally(col[..j])
      invariant order == FirstSeen(col[..j])
    {
      var v := CellAt(rows[j], i);
      assert col[..j + 1] == col[..j] + [v];
      TallySnoc(col[..j], v);
      if v in counts {
        counts := counts[v := counts[v] + 1];
      } else {
        counts := counts[v := 1];
        order := order + [v];
      }
    }
    assert col[..|rows|] == col;
  }

  /** What `createSummary` computes before writing it out. */
  datatype Report = Report(
    total: nat,
    usage: map<string, nat>, usageOrder: seq<string>,
    departments: map<string, nat>, departmentOrder: seq<string>)

  /** `createSummary`'s counting: the total is the number of data rows,
      and each breakdown lists every distinct value of its column once,
      with counts that add up to the total. */
  method CreateSummary(sheet: seq<seq<string>>) returns (report: Report)
    ensures report.total == |DataRows(DataRange(sheet))| == (if |sheet| == 0 then 0 else |sheet| - 1)
    ensures report.usage == Tally(Column(DataRows(DataRange(sheet)), UsageColumn))
    ensures report.departments == Tally(Column(DataRows(DataRange(sheet)), DepartmentColumn))
    ensures Distinct(report.usageOrder) && Distinct(report.departmentOrder)
    ensures forall v :: v in report.usageOrder <==> v in report.usage
    ensures forall v :: v in report.departmentOrder <==> v in report.departments
    ensures SumOver(report.usageOrder, report.usage) == report.total
    ensures SumOver(report.departmentOrder, report.departments) == report.total
  {
    var data := DataRange(sheet);
    var responses := DataRows(data);
    var usage, usageOrder := CountColumn(responses, UsageColumn);
    var departments, departmentOrder := CountColumn(responses, DepartmentColumn);
    TallyMeaning(Column(responses, UsageColumn));
    TallyMeaning(Column(responses, DepartmentColumn));
    FirstSeenListsEachValueOnce(Column(responses, UsageColumn));
    FirstSeenListsEachValueOnce(Column(responses, DepartmentColumn));
    report := Report(|responses|, usage, usageOrder, departments, departmentOrder);
  }

  /** On rows appended by `doPost` as written (created headers, no
      `timestamp` answer), the usage column is empty in every row and
      the department column holds the respondent's name. */
  lemma AsWrittenRowsMiscount(stamps: seq<string>, answers: seq<map<string, string>>)
    requires |stamps| == |answers|
    requires forall j :: 0 <= j < |answers| ==> "timestamp" !in answers[j]
    ensures var rows := seq(|answers|, j requires 0 <= j < |answers| => AsWrittenRow(CreateHeaders(), stamps[j], answers[j]));
            && (forall j :: 0 <= j < |rows| ==> Column(rows, UsageColumn)[j] == "")
            && (forall j :: 0 <= j < |rows| ==> Column(rows, DepartmentColumn)[j] == ResponseCell(answers[j], "q17_name"))
  {
    CreatedHeadersDistinct();
    assert CreatedKeys[23] == "q17_name";
    forall j | 0 <= j < |answers| {
      ColumnShift(stamps[j], answers[j]);
    }
  }

  /** So the usage breakdown of such a sheet is one entry, "", counting
      every response. */
  lemma AsWrittenUsageIsOneBlankEntry(stamps: seq<string>, answers: seq<map<string, string>>)
    requires |stamps| == |answers| > 0
    requires forall j :: 0 <= j < |answers| ==> "timestamp" !in answers[j]
    ensures var rows := seq(|answers|, j requires 0 <= j < |answers| => AsWrittenRow(CreateHeaders(), stamps[j], answers[j]));
            Tally(Column(rows, UsageColumn)) == map["" := |answers|]
  {
    var rows := seq(|answers|, j requires 0 <= j < |answers| => AsWrittenRow(CreateHeaders(), stamps[j], answers[j]));
    AsWrittenRowsMiscount(stamps, answers);
    UniformTally(Column(rows, UsageColumn), "");
  }

  /** The same, read the way `createSummary` reads it: a sheet whose
      header row is the created headers and whose other rows were appended
      as written has the usage breakdown "" counting every response. */
  lemma AsWrittenSheetUsageIsOneBlankEntry(stamps: seq<string>, answers: seq<map<string, string>>)
    requires |stamps| == |answers| > 0
    requires forall j :: 0 <= j < |answers| ==> "timestamp" !in answers[j]
    ensures var rows := seq(|answers|, j requires 0 <= j < |answers| => AsWrittenRow(CreateHeaders(), stamps[j], answers[j]));
            Tally(Column(DataRows(DataRange([CreateHeaders()] + rows)), UsageColumn)) == map["" := |answers|]
  {
    var rows := seq(|answers|, j requires 0 <= j < |answers| => AsWrittenRow(CreateHeaders(), stamps[j], answers[j]));
    AsWrittenUsageIsOneBlankEntry(stamps, answers);
    CreatedHeadersAreWide(rows);
    ColumnUnderHeader(CreateHeaders(), rows, UsageColumn);
  }

  /** A sheet whose first row is the created headers is at least 27
      columns wide. */
  lemma CreatedHeadersAreWide(rows: seq<seq<string>>)
    ensures LastColumn([CreateHeaders()] + rows) >= 27
  {
    var sheet := [CreateHeaders()] + rows;
    assert sheet[0][26] != "";
    assert ContentWidth(sheet[0]) == 27;
  }

  /** Under a header row, a column inside the data range that every row
      reaches reads back exactly as the rows hold it. */
  lemma ColumnUnderHeader(header: seq<string>, rows: seq<seq<string>>, i: nat)
    requires i < LastColumn([header] + rows)
    requires forall j :: 0 <= j < |rows| ==> i < |rows[j]|
    ensures Column(DataRows(DataRange([header] + rows)), i) == Column(rows, i)
  {
    var sheet := [header] + rows;
    var read := Column(DataRows(DataRange(sheet)), i);
    assert |read| == |rows|;
    forall j | 0 <= j < |rows| ensures read[j] == Column(rows, i)[j] {
      DataRowCell(sheet, i, j);
      assert sheet[j + 1] == rows[j];
    }
  }

  /** A column whose every cell is `v` tallies to the one entry `v`. */
  lemma UniformTally(col: seq<string>, v: string)
    requires |col| > 0
    requires forall j :: 0 <= j < |col| ==> col[j] == v
    ensures Tally(col) == map[v := |col|]
  {
    UniformOccurrences(col, v);
    assert col[0] == v;
  }

  lemma {:induction false} UniformOccurrences(col: seq<string>, v: string)
    requires forall j :: 0 <= j < |col| ==> col[j] == v
    ensures Occurrences(col, v) == |col|
    decreases |col|
  {
    if col != [] {
      UniformOccurrences(col[..|col| - 1], v);
    }
  }

  /** On rows built by the aligned builder, column 1 holds the usage
      answer and column 24 the department answer, as `createSummary`
      expects. */
  lemma AlignedRowsCountTheRightAnswers(stamps: seq<string>, answers: seq<map<string, string>>)
    requires |stamps| == |answers|
    ensures var rows := seq(|answers|, j requires 0 <= j < |answers| => AlignedRow(CreateHeaders(), stamps[j], answers[j]));
            && (forall j :: 0 <= j < |rows| ==> Column(rows, UsageColumn)[j] == ResponseCell(answers[j], "q1_usage_level"))
            && (forall j :: 0 <= j < |rows| ==> Column(rows, DepartmentColumn)[j] == ResponseCell(answers[j], "q18_department"))
  {
    CreatedHeadersDistinct();
    assert CreatedKeys[1] == "q1_usage_level" && CreatedKeys[24] == "q18_department";
    forall j | 0 <= j < |answers| {
      AlignedRowUnderItsHeader(stamps[j], answers[j]);
    }
  }
}
