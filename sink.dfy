/**
 * `doPost` (google-apps-script.js): ensure the header row, build one row
 * from the submitted responses, append it to the sheet, answer with a
 * status. The sheet is a sequence of rows of cell texts.
 */
module Sink {
  import opened Common
  import opened Headers

  /** The POST body after `JSON.parse`: `Malformed` when parsing throws;
      `responses` is None when `data.responses` cannot be indexed (absent,
      or `data` itself is `null`). A falsy or absent `timestamp` is None or
      Some(""). */
  datatype Request =
    | Malformed
    | Parsed(timestamp: Option<string>, responses: Option<map<string, string>>)

  /** The `status` field of the JSON answer. */
  datatype Status = Success | Error

  /** The header row is missing: no cells, or an empty first cell. */
  predicate NeedsHeaders(existing: seq<string>) {
    |existing| == 0 || existing[0] == ""
  }

  /** The headers `doPost` works with: the created list when the sheet
      has none, the existing row otherwise. Either way the result is a
      header row that would not be replaced again. */
  function EnsureHeaders(existing: seq<string>): (headers: seq<string>)
    ensures NeedsHeaders(existing) ==> headers == CreateHeaders()
    ensures !NeedsHeaders(existing) ==> headers == existing
    ensures !NeedsHeaders(headers) && |headers| > 0
  {
    if NeedsHeaders(existing) then CreateHeaders() else existing
  }

  /** Ensuring the schema twice is ensuring it once. */
  lemma EnsureHeadersIdempotent(existing: seq<string>)
    ensures EnsureHeaders(EnsureHeaders(existing)) == EnsureHeaders(existing)
  {
  }

  /** `data.responses[key] || ''` */
  function ResponseCell(responses: map<string, string>, key: string): string {
    if key in responses && responses[key] != "" then responses[key] else ""
  }

  /** `data.timestamp || new Date().toISOString()`, the clock read passed
      in as `now`. */
  function TimestampCell(timestamp: Option<string>, now: string): string {
    if timestamp.Some? && timestamp.value != "" then timestamp.value else now
  }

  /** How many columns of a row hold content: its length without the
      trailing empty cells. */
  function ContentWidth(row: seq<string>): nat
    decreases |row|
  {
    if row == [] then 0
    else if row[|row| - 1] != "" then |row|
    else ContentWidth(row[..|row| - 1])
  }

  /** `sheet.getLastColumn()`: the widest content of any row. */
  function LastColumn(rows: seq<seq<string>>): (last: nat)
    ensures forall j :: 0 <= j < |rows| ==> ContentWidth(rows[j]) <= last
    ensures last == 0 || exists j :: 0 <= j < |rows| && ContentWidth(rows[j]) == last
    decreases |rows|
  {
    if rows == [] then 0
    else
      var init := rows[..|rows| - 1];
      var w := ContentWidth(rows[|rows| - 1]);
      var before := LastColumn(init);
      assert forall j :: 0 <= j < |init| ==> rows[j] == init[j];
      if w > before then w else before
  }

  /** Row 1, `lastColumn` cells wide, blank cells reading as "". */
  function FirstRowCells(rows: seq<seq<string>>, width: nat): seq<string> {
    seq(width, i requires 0 <= i < width => if rows != [] && i < |rows[0]| then rows[0][i] else "")
  }

  /** `sheet.getRange(1, 1, 1, sheet.getLastColumn()).getValues()[0]` as
      written: a range needs at least one column, so on a sheet without
      content the read throws (None). */
  function HeaderReadAsWritten(rows: seq<seq<string>>): (r: Option<seq<string>>)
    ensures r.None? <==> forall j, i :: 0 <= j < |rows| && 0 <= i < |rows[j]| ==> rows[j][i] == ""
    ensures r.Some? ==> |r.value| == LastColumn(rows) > 0
  {
    NoLastColumnIffNoContent(rows);
    var width := LastColumn(rows);
    if width == 0 then None else Some(FirstRowCells(rows, width))
  }

  /** The read as evidently intended: a sheet without content has an
      empty header row, which the `headers.length === 0` test catches. */
  function HeaderRead(rows: seq<seq<string>>): (headers: seq<string>)
    ensures |headers| == LastColumn(rows)
    ensures rows != [] ==> forall i :: 0 <= i < |rows[0]| && rows[0][i] != "" ==> i < |headers| && headers[i] == rows[0][i]
    ensures forall i :: 0 <= i < |headers| && headers[i] != "" ==> rows != [] && i < |rows[0]| && headers[i] == rows[0][i]
  {
    LastColumnMeaning(rows);
    FirstRowCells(rows, LastColumn(rows))
  }

  /** The content width is the row minus its trailing empty cells. */
  lemma {:induction false} ContentWidthMeaning(row: seq<string>)
    ensures ContentWidth(row) <= |row|
    ensures ContentWidth(row) > 0 ==> row[ContentWidth(row) - 1] != ""
    ensures forall i :: ContentWidth(row) <= i < |row| ==> row[i] == ""
    decreases |row|
  {
    if row != [] && row[|row| - 1] == "" {
      ContentWidthMeaning(row[..|row| - 1]);
    }
  }

  /** The last column reaches every non-empty cell of every row, and
      goes no further than the content. */
  lemma LastColumnMeaning(rows: seq<seq<string>>)
    ensures forall j, i :: 0 <= j < |rows| && 0 <= i < |rows[j]| && rows[j][i] != "" ==> i < LastColumn(rows)
  {
    forall j | 0 <= j < |rows| ensures forall i :: ContentWidth(rows[j]) <= i < |rows[j]| ==> rows[j][i] == "" {
      ContentWidthMeaning(rows[j]);
    }
  }

  /** A sheet has no last column exactly when none of its cells holds
      content. */
  lemma NoLastColumnIffNoContent(rows: seq<seq<string>>)
    ensures LastColumn(rows) == 0 <==> forall j, i :: 0 <= j < |rows| && 0 <= i < |rows[j]| ==> rows[j][i] == ""
  {
    LastColumnMeaning(rows);
    if LastColumn(rows) != 0 {
      var j :| 0 <= j < |rows| && ContentWidth(rows[j]) == LastColumn(rows);
      ContentWidthMeaning(rows[j]);
    }
  }

  /** As written, the header read throws on a sheet without content and
      otherwise returns at least one cell, so `headers.length === 0` never
      holds: a fresh sheet never gets its header row. */
  lemma FreshSheetIsNeverInitialised(rows: seq<seq<string>>)
    ensures HeaderReadAsWritten(rows).None? <==> LastColumn(rows) == 0
    ensures HeaderReadAsWritten(rows).Some? ==> |HeaderReadAsWritten(rows).value| > 0
    ensures HeaderReadAsWritten([]) == None
  {
  }

  /** The intended read agrees with the written one wherever that one
      returns, and yields an empty header row, to be replaced, on a sheet
      without content. */
  lemma HeaderReadIsTheWrittenReadMadeTotal(rows: seq<seq<string>>)
    ensures HeaderReadAsWritten(rows).Some? ==> HeaderRead(rows) == HeaderReadAsWritten(rows).value
    ensures HeaderReadAsWritten(rows).None? ==> HeaderRead(rows) == [] && NeedsHeaders(HeaderRead(rows))
  {
  }

  /** The row as `doPost` builds it: one cell per header, the Timestamp
      header included, then the timestamp put in front. */
  function AsWrittenRow(headers: seq<string>, stamp: string, responses: map<string, string>): seq<string> {
    [stamp] + seq(|headers|, i requires 0 <= i < |headers| => ResponseCell(responses, HeaderToKey(headers[i])))
  }

  /** The row aligned with its headers: the timestamp fills column 0 (the
      Timestamp column) and column `i` holds the answer for header `i`. */
  function AlignedRow(headers: seq<string>, stamp: string, responses: map<string, string>): seq<string> {
    seq(if |headers| == 0 then 1 else |headers|,
        i requires 0 <= i < (if |headers| == 0 then 1 else |headers|) =>
          if i == 0 then stamp else ResponseCell(responses, HeaderToKey(headers[i])))
  }

  /** The `headers.forEach(... rowData.push(...))` loop and the
      `rowData.unshift(...)` that follow it, as written. */
  method BuildRowAsWritten(headers: seq<string>, stamp: string, responses: map<string, string>)
    returns (row: seq<string>)
    ensures row == AsWrittenRow(headers, stamp, responses)
  {
    ghost var want := AsWrittenRow(headers, stamp, responses);
    var cells := [];
    for i := 0 to |headers|
      invariant [stamp] + cells == want[..i + 1]
    {
      cells := cells + [ResponseCell(responses, HeaderToKey(headers[i]))];
    }
    row := [stamp] + cells;
  }

  /** The same loop with the Timestamp column left to the timestamp, so
      that every cell sits under its own header. */
  method BuildAlignedRow(headers: seq<string>, stamp: string, responses: map<string, string>)
    returns (row: seq<string>)
    requires |headers| > 0
    ensures row == AlignedRow(headers, stamp, responses)
  {
    ghost var want := AlignedRow(headers, stamp, responses);
    row := [stamp];
    for i := 1 to |headers|
      invariant row == want[..i]
    {
      row := row + [ResponseCell(responses, HeaderToKey(headers[i]))];
    }
  }

  /** Row 1 after `getRange(1, 1, 1, n).setValues([headers])`: the first
      `n` cells replaced, the sheet's other cells untouched. */
  function WithHeaderRow(rows: seq<seq<string>>, headers: seq<string>): seq<seq<string>> {
    if rows == [] then [headers]
    else [headers + (if |rows[0]| > |headers| then rows[0][|headers|..] else [])] + rows[1..]
  }

  /** The active sheet. Its rows are taken to end at the last row with
      content, as Sheets keeps them; that rule is assumed here and not
      checked, so the methods accept any sequence of rows. */
  class Sheet {
    var rows: seq<seq<string>>

    constructor (rows: seq<seq<string>>)
      ensures this.rows == rows
    {
      this.rows := rows;
    }

    /** `sheet.appendRow(row)`: one row more at the end, the others kept. */
    method AppendRow(row: seq<string>)
      modifies this
      ensures rows == old(rows) + [row]
      ensures |rows| == |old(rows)| + 1 && rows[..|old(rows)|] == old(rows)
    {
      rows := rows + [row];
    }

    /** Writing the header row. */
    method WriteHeaderRow(headers: seq<string>)
      modifies this
      ensures rows == WithHeaderRow(old(rows), headers)
      ensures rows != [] && |rows[0]| >= |headers| && rows[0][..|headers|] == headers
      ensures |headers| > 0 && headers[0] != "" ==> !NeedsHeaders(HeaderRead(rows))
    {
      rows := WithHeaderRow(rows, headers);
    }

    /** `doPost`: on a body that parses, the header row is made sure of
        (and written if missing), then one row is appended; any exception
        answers Error. The row is built by the aligned builder, the
        intended layout (see the column-shift lemmas below). */
    method DoPost(request: Request, now: string) returns (status: Status)
      modifies this
      ensures request.Malformed? ==> status == Error && rows == old(rows)
      ensures request.Parsed? ==>
                var headers := EnsureHeaders(old(HeaderRead(rows)));
                var framed := if NeedsHeaders(old(HeaderRead(rows))) then WithHeaderRow(old(rows), headers) else old(rows);
                && (request.responses.None? ==> status == Error && rows == framed)
                && (request.responses.Some? ==>
                      && status == Success
                      && rows == framed + [AlignedRow(headers, TimestampCell(request.timestamp, now), request.responses.value)])
      ensures request.Parsed? ==> !NeedsHeaders(HeaderRead(rows))
    {
      if request.Malformed? {
        return Error;
      }
      var headers := HeaderRead(rows);
      if NeedsHeaders(headers) {
        headers := CreateHeaders();
        WriteHeaderRow(headers);
      }
      if request.responses.None? {
        return Error;
      }
      assert rows != [] && |rows[0]| > 0 && rows[0][0] != "";
      var row := BuildAlignedRow(headers, TimestampCell(request.timestamp, now), request.responses.value);
      AppendRow(row);
      status := Success;
    }
  }

  /** The column shift in `doPost` as written: against the created
      headers, and with no `timestamp` key among the responses (the client
      never sends one), the cell under "Usage Level" is always empty and
      each answer sits one column right of its header. */
  lemma ColumnShift(stamp: string, responses: map<string, string>)
    requires "timestamp" !in responses
    ensures |AsWrittenRow(CreateHeaders(), stamp, responses)| == |CreateHeaders()| + 1
    ensures AsWrittenRow(CreateHeaders(), stamp, responses)[1] == ""
    ensures forall i :: 1 <= i < |CreateHeaders()| ==>
              AsWrittenRow(CreateHeaders(), stamp, responses)[i + 1] == ResponseCell(responses, CreatedKeys[i])
  {
    var row := AsWrittenRow(CreateHeaders(), stamp, responses);
    forall i | 0 <= i < |CreateHeaders()| ensures row[i + 1] == ResponseCell(responses, CreatedKeys[i]) {
      CreatedHeaderIsMapped(i);
    }
    assert CreatedKeys[0] == "timestamp";
  }

  /** The aligned row puts every answer under its own header. */
  lemma AlignedRowUnderItsHeader(stamp: string, responses: map<string, string>)
    ensures |AlignedRow(CreateHeaders(), stamp, responses)| == |CreateHeaders()|
    ensures AlignedRow(CreateHeaders(), stamp, responses)[0] == stamp
    ensures forall i :: 1 <= i < |CreateHeaders()| ==>
              AlignedRow(CreateHeaders(), stamp, responses)[i] == ResponseCell(responses, CreatedKeys[i])
  {
    var row := AlignedRow(CreateHeaders(), stamp, responses);
    forall i | 1 <= i < |CreateHeaders()| ensures row[i] == ResponseCell(responses, CreatedKeys[i]) {
      CreatedHeaderIsMapped(i);
    }
  }

  /** The as-written row is the aligned row with an extra cell — the
      Timestamp header's own lookup — pushed in at column 1. */
  lemma AsWrittenIsAlignedPlusOne(headers: seq<string>, stamp: string, responses: map<string, string>)
    requires |headers| > 0
    ensures AsWrittenRow(headers, stamp, responses) ==
              [stamp, ResponseCell(responses, HeaderToKey(headers[0]))] + AlignedRow(headers, stamp, responses)[1..]
  {
    var a := AsWrittenRow(headers, stamp, responses);
    var b := [stamp, ResponseCell(responses, HeaderToKey(headers[0]))] + AlignedRow(headers, stamp, responses)[1..];
    assert |a| == |b|;
    forall k | 2 <= k < |a| ensures a[k] == b[k] {
      assert b[k] == AlignedRow(headers, stamp, responses)[k - 1];
    }
  }

  /** Two headers, Timestamp and Usage Level, and the answer "daily": the
      code appends ["T1", "", "daily"] where ["T1", "daily"] is meant; with
      the answer missing the aligned row is ["T1", ""]. */
  lemma TwoColumnExample()
    ensures AsWrittenRow(["Timestamp", "Usage Level"], "T1", map["q1_usage_level" := "daily"]) == ["T1", "", "daily"]
    ensures AlignedRow(["Timestamp", "Usage Level"], "T1", map["q1_usage_level" := "daily"]) == ["T1", "daily"]
    ensures AlignedRow(["Timestamp", "Usage Level"], "T1", map[]) == ["T1", ""]
  {
    var hs := ["Timestamp", "Usage Level"];
    assert hs == CreateHeaders()[..2];
    CreatedHeaderIsMapped(0);
    CreatedHeaderIsMapped(1);
    var a := AsWrittenRow(hs, "T1", map["q1_usage_level" := "daily"]);
    assert a[1] == "" && a[2] == "daily";
  }
}
