/** Reading the code list and writing results (utils/excel_handler.py).
    A spreadsheet is a map from column names to cells, a cell being a
    value or null; pandas' `dropna().unique()` and the per-site summary are
    stated over these. */
module ExcelHandler {
  import opened Wrappers

  // ---------------------------------------------------------------------
  // First-appearance deduplication and counting
  // ---------------------------------------------------------------------

  /** The distinct elements of `xs` in order of first appearance
      (pandas' `unique()`). */
  function Uniq<T(==)>(xs: seq<T>): seq<T>
  {
    if |xs| == 0 then []
    else
      var u := Uniq(xs[..|xs| - 1]);
      if xs[|xs| - 1] in u then u else u + [xs[|xs| - 1]]
  }

  /** The number of occurrences of `x` in `xs`. */
  function Count<T(==)>(xs: seq<T>, x: T): nat
  {
    if |xs| == 0 then 0 else Count(xs[..|xs| - 1], x) + (if xs[|xs| - 1] == x then 1 else 0)
  }

  /** `x` occurs in `xs` before the first occurrence of `y`. */
  predicate OccursBefore<T(==)>(xs: seq<T>, x: T, y: T) {
    exists a :: 0 <= a < |xs| && xs[a] == x && y !in xs[..a + 1]
  }

  lemma {:induction false} UniqSpec<T>(xs: seq<T>)
    ensures NoDuplicates(Uniq(xs))
    ensures forall x :: x in Uniq(xs) <==> x in xs
    ensures forall i, j :: 0 <= i < j < |Uniq(xs)| ==> OccursBefore(xs, Uniq(xs)[i], Uniq(xs)[j])
    decreases |xs|
  {
    if |xs| > 0 {
      var init := xs[..|xs| - 1];
      var x := xs[|xs| - 1];
      UniqSpec(init);
      assert xs == init + [x];
      var u := Uniq(xs);
      forall i, j | 0 <= i < j < |u|
        ensures OccursBefore(xs, u[i], u[j])
      {
        if j < |Uniq(init)| {
          assert u[i] == Uniq(init)[i] && u[j] == Uniq(init)[j];
          assert OccursBefore(init, Uniq(init)[i], Uniq(init)[j]);
          var a :| 0 <= a < |init| && init[a] == Uniq(init)[i] && Uniq(init)[j] !in init[..a + 1];
          assert xs[..a + 1] == init[..a + 1];
        } else {
          assert u == Uniq(init) + [x];
          assert u[j] == x && x !in init;
          assert u[i] == Uniq(init)[i];
          assert i < |Uniq(init)|;
          UniqMembersOccur(init);
          var a :| 0 <= a < |init| && init[a] == Uniq(init)[i];
          assert xs[..a + 1] == init[..a + 1];
          assert xs[a] == u[i];
        }
      }
    }
  }

  /** Every element of `Uniq(xs)` sits at some index of `xs`. */
  lemma {:induction false} UniqMembersOccur<T>(xs: seq<T>)
    ensures forall k :: 0 <= k < |Uniq(xs)| ==> exists a :: 0 <= a < |xs| && xs[a] == Uniq(xs)[k]
    decreases |xs|
  {
    if |xs| > 0 {
      var init := xs[..|xs| - 1];
      UniqMembersOccur(init);
      forall k | 0 <= k < |Uniq(xs)|
        ensures exists a :: 0 <= a < |xs| && xs[a] == Uniq(xs)[k]
      {
        if k < |Uniq(init)| {
          var a :| 0 <= a < |init| && init[a] == Uniq(init)[k];
          assert xs[a] == Uniq(xs)[k];
        } else {
          assert xs[|xs| - 1] == Uniq(xs)[k];
        }
      }
    } else {
      assert |Uniq(xs)| == 0;
    }
  }

  /** Counting in a sequence extended by one element. */
  lemma CountSnoc<T>(xs: seq<T>, y: T, x: T)
    ensures Count(xs + [y], x) == Count(xs, x) + (if y == x then 1 else 0)
  {
    assert (xs + [y])[..|xs|] == xs;
  }

  /** Counting in a sequence extended at the front. */
  lemma {:induction false} CountCons<T>(y: T, xs: seq<T>, x: T)
    ensures Count([y] + xs, x) == (if y == x then 1 else 0) + Count(xs, x)
    decreases |xs|
  {
    if |xs| == 0 {
      assert [y] + xs == [] + [y];
      CountSnoc([], y, x);
    } else {
      var init := xs[..|xs| - 1];
      assert [y] + xs == ([y] + init) + [xs[|xs| - 1]];
      assert xs == init + [xs[|xs| - 1]];
      CountCons(y, init, x);
      CountSnoc([y] + init, xs[|xs| - 1], x);
      CountSnoc(init, xs[|xs| - 1], x);
    }
  }

  lemma {:induction false} CountAbsent<T>(xs: seq<T>, x: T)
    requires x !in xs
    ensures Count(xs, x) == 0
    decreases |xs|
  {
    if |xs| > 0 {
      CountAbsent(xs[..|xs| - 1], x);
    }
  }

  // ---------------------------------------------------------------------
  // read_oem_codes
  // ---------------------------------------------------------------------

  /** What is at the input path: nothing, a file pandas cannot read, or a
      table of columns. */
  datatype Workbook = Missing | Corrupt(reason: string) | Table(columns: map<string, seq<Option<string>>>)

  const CodeColumn := "OEM_CODE"

  /** The two exceptions `read_oem_codes` raises. */
  datatype ReadError =
    | FileNotFound(path: string)   // FileNotFoundError
    | BadFile(reason: string)      // ValueError from a failed read
    | NoCodeColumn                 // ValueError for a missing column
  {
    /** `str(e)`: the exception's message. */
    function Message(): string {
      match this
      case FileNotFound(p) => "Input file not found: " + p
      case BadFile(reason) => "Error reading Excel file: " + reason
      case NoCodeColumn => "Excel file must contain an 'OEM_CODE' column"
    }
  }

  /** The non-null cells of a column, in order (`dropna()`). */
  function DropNulls(cells: seq<Option<string>>): (r: seq<string>)
    ensures forall x :: x in r <==> Some(x) in cells
  {
    if |cells| == 0 then []
    else
      var rest := DropNulls(cells[1..]);
      assert forall x :: Some(x) in cells <==> cells[0] == Some(x) || Some(x) in cells[1..];
      if cells[0].Some? then [cells[0].value] + rest else rest
  }

  /** `read_oem_codes(path)`: the file-existence check comes first, then the
      read, then the column check; the codes are the column's non-null
      values without repeats, in order of first appearance. */
  function ReadOemCodes(path: string, wb: Workbook): (r: Result<seq<string>, ReadError>)
    ensures wb.Missing? <==> r == Failure(FileNotFound(path))
    ensures wb.Corrupt? ==> r == Failure(BadFile(wb.reason))
    ensures wb.Table? && CodeColumn !in wb.columns ==> r == Failure(NoCodeColumn)
    ensures r.Success? <==> wb.Table? && CodeColumn in wb.columns
    ensures r.Success? ==> NoDuplicates(r.value)
    ensures r.Success? ==> forall x :: x in r.value <==> Some(x) in wb.columns[CodeColumn]
  {
    match wb
    case Missing => Failure(FileNotFound(path))
    case Corrupt(reason) => Failure(BadFile(reason))
    case Table(columns) =>
      if CodeColumn !in columns then Failure(NoCodeColumn)
      else
        var codes := Uniq(DropNulls(columns[CodeColumn]));
        UniqSpec(DropNulls(columns[CodeColumn]));
        Success(codes)
  }

  /** Dropping nulls keeps every value as often as the column holds it. */
  lemma {:induction false} DropNullsCounts(cells: seq<Option<string>>, x: string)
    ensures Count(DropNulls(cells), x) == Count(cells, Some(x))
    decreases |cells|
  {
    if |cells| > 0 {
      DropNullsCounts(cells[1..], x);
      assert cells == [cells[0]] + cells[1..];
      CountCons(cells[0], cells[1..], Some(x));
      if cells[0].Some? {
        CountCons(cells[0].value, DropNulls(cells[1..]), x);
      }
    }
  }

  /** Dropping nulls keeps the order of the values: a value that comes
      before another in the non-null cells comes before it in the column. */
  lemma {:induction false} DropNullsKeepsOrder(cells: seq<Option<string>>, x: string, y: string)
    requires OccursBefore(DropNulls(cells), x, y)
    ensures OccursBefore(cells, Some(x), Some(y))
  {
    var r := DropNulls(cells);
    var rest := DropNulls(cells[1..]);
    var a :| 0 <= a < |r| && r[a] == x && y !in r[..a + 1];
    if cells[0].Some? && a == 0 {
      assert r[..1] == [x];
      assert cells[..1] == [Some(x)];
    } else {
      if cells[0].Some? {
        assert r == [cells[0].value] + rest;
        assert rest[..a] == r[1..a + 1];
        assert OccursBefore(rest, x, y) by { assert rest[a - 1] == x; }
      } else {
        assert r == rest;
      }
      DropNullsKeepsOrder(cells[1..], x, y);
      var b :| 0 <= b < |cells[1..]| && cells[1..][b] == Some(x) && Some(y) !in cells[1..][..b + 1];
      assert cells[..b + 2] == [cells[0]] + cells[1..][..b + 1];
      assert cells[0] != Some(y) by {
        if cells[0].Some? { assert r[0] == cells[0].value && r[0] in r[..a + 1]; }
      }
      assert cells[b + 1] == Some(x);
    }
  }

  /** The codes keep the column's order: of two codes, the earlier one
      occurs in the column before the later one first does. */
  lemma ReadOemCodesKeepsOrder(path: string, wb: Workbook)
    requires ReadOemCodes(path, wb).Success?
    ensures var codes := ReadOemCodes(path, wb).value;
            forall i, j :: 0 <= i < j < |codes| ==> OccursBefore(wb.columns[CodeColumn], Some(codes[i]), Some(codes[j]))
  {
    var column := wb.columns[CodeColumn];
    var codes := ReadOemCodes(path, wb).value;
    UniqSpec(DropNulls(column));
    forall i, j | 0 <= i < j < |codes|
      ensures OccursBefore(column, Some(codes[i]), Some(codes[j]))
    {
      DropNullsKeepsOrder(column, codes[i], codes[j]);
    }
  }

  // ---------------------------------------------------------------------
  // save_results and save_results_with_summary
  // ---------------------------------------------------------------------

  /** One result dictionary: column name to value. */
  type ResultRow = map<string, string>

  /** A column exists in the frame built from `rows` when some row has it. */
  predicate HasColumn(rows: seq<ResultRow>, col: string) {
    exists i :: 0 <= i < |rows| && col in rows[i]
  }

  /** What `save_results` did: its return value and the table written. */
  datatype Saved = Saved(ok: bool, written: Option<seq<ResultRow>>)

  /** `save_results(results, path)`: refuses an empty list without writing;
      otherwise writes every row, and reports False if writing raised. */
  function SaveResults(rows: seq<ResultRow>, writeFails: bool): (r: Saved)
    ensures r.ok <==> |rows| > 0 && !writeFails
    ensures r.written.Some? <==> r.ok
    ensures r.written.Some? ==> r.written.value == rows
  {
    if |rows| == 0 then Saved(false, None)
    else if writeFails then Saved(false, None)
    else Saved(true, Some(rows))
  }

  /** The Website cell of each row; a row without one is NaN in the frame. */
  function Websites(rows: seq<ResultRow>): (ws: seq<Option<string>>)
    ensures |ws| == |rows|
    ensures forall i :: 0 <= i < |rows| ==> (ws[i].Some? <==> "Website" in rows[i])
    ensures forall i :: 0 <= i < |rows| && "Website" in rows[i] ==> ws[i] == Some(rows[i]["Website"])
  {
    seq(|rows|, i requires 0 <= i < |rows| => if "Website" in rows[i] then Some(rows[i]["Website"]) else None)
  }

  /** A line of the Summary sheet. NaN never equals itself, so its count is 0. */
  datatype SummaryRow = SummaryRow(website: Option<string>, found: nat)

  function SummaryOf(sites: seq<Option<string>>, ws: seq<Option<string>>): seq<SummaryRow>
  {
    if |sites| == 0 then []
    else
      var last := sites[|sites| - 1];
      SummaryOf(sites[..|sites| - 1], ws) + [SummaryRow(last, if last.None? then 0 else Count(ws, last))]
  }

  /** The Summary sheet: one line per distinct Website value, in order of
      first appearance, with the number of rows carrying it. */
  function Summary(rows: seq<ResultRow>): (s: seq<SummaryRow>)
    ensures |s| == |Uniq(Websites(rows))|
  {
    SummaryOfLength(Uniq(Websites(rows)), Websites(rows));
    SummaryOf(Uniq(Websites(rows)), Websites(rows))
  }

  lemma {:induction false} SummaryOfLength(sites: seq<Option<string>>, ws: seq<Option<string>>)
    ensures |SummaryOf(sites, ws)| == |sites|
    decreases |sites|
  {
    if |sites| > 0 {
      SummaryOfLength(sites[..|sites| - 1], ws);
    }
  }

  function Total(s: seq<SummaryRow>): nat
  {
    if |s| == 0 then 0 else Total(s[..|s| - 1]) + s[|s| - 1].found
  }

  /** Each summary line counts the rows with its website. */
  lemma {:induction false} SummaryEntries(sites: seq<Option<string>>, ws: seq<Option<string>>)
    ensures |SummaryOf(sites, ws)| == |sites|
    ensures forall i :: 0 <= i < |sites| ==>
              SummaryOf(sites, ws)[i] == SummaryRow(sites[i], if sites[i].None? then 0 else Count(ws, sites[i]))
    decreases |sites|
  {
    if |sites| > 0 {
      SummaryEntries(sites[..|sites| - 1], ws);
    }
  }

  /** The summary of `sites` is that of all but the last site, plus the
      last site's line. */
  lemma SummaryOfSnoc(sites: seq<Option<string>>, ws: seq<Option<string>>)
    requires |sites| > 0
    ensures var last := sites[|sites| - 1];
            Total(SummaryOf(sites, ws)) == Total(SummaryOf(sites[..|sites| - 1], ws)) + (if last.None? then 0 else Count(ws, last))
  {
    var s := SummaryOf(sites[..|sites| - 1], ws);
    var last := sites[|sites| - 1];
    var row := SummaryRow(last, if last.None? then 0 else Count(ws, last));
    assert SummaryOf(sites, ws) == s + [row];
    assert (s + [row])[..|s|] == s;
  }

  /** Adding a row adds one to the line of its site, if that site is listed. */
  lemma {:induction false} TotalSnoc(sites: seq<Option<string>>, ws: seq<Option<string>>, w: Option<string>)
    requires NoDuplicates(sites)
    ensures Total(SummaryOf(sites, ws + [w])) == Total(SummaryOf(sites, ws)) + (if w.Some? && w in sites then 1 else 0)
    decreases |sites|
  {
    if |sites| > 0 {
      var init := sites[..|sites| - 1];
      var last := sites[|sites| - 1];
      assert sites == init + [last];
      assert NoDuplicates(init);
      TotalSnoc(init, ws, w);
      SummaryOfSnoc(sites, ws + [w]);
      SummaryOfSnoc(sites, ws);
      CountSnoc(ws, w, last);
      assert w in sites <==> w in init || w == last;
      assert last !in init;
    }
  }

  /** The counts of the Summary sheet add up to the number of rows that have
      a Website: every such row is counted under exactly one line. */
  lemma {:induction false} SummaryTotalCountsRows(ws: seq<Option<string>>)
    ensures Total(SummaryOf(Uniq(ws), ws)) + Count(ws, None) == |ws|
    decreases |ws|
  {
    if |ws| > 0 {
      var init := ws[..|ws| - 1];
      var w := ws[|ws| - 1];
      assert ws == init + [w];
      SummaryTotalCountsRows(init);
      UniqSpec(init);
      var u := Uniq(init);
      TotalSnoc(u, init, w);
      CountSnoc(init, w, None);
      if w !in u {
        assert Uniq(ws) == u + [w];
        assert (u + [w])[..|u|] == u;
        if w.Some? {
          CountAbsent(init, w);
          CountSnoc(init, w, w);
        }
      }
    }
  }

  /** The summary's lines are the distinct websites, and the counts sum to
      the number of rows that carry a Website value. */
  lemma SummaryCountsEveryRow(rows: seq<ResultRow>)
    ensures var ws := Websites(rows);
            && NoDuplicates(Uniq(ws))
            && (forall i :: 0 <= i < |rows| && "Website" in rows[i] ==> Some(rows[i]["Website"]) in Uniq(ws))
            && Total(Summary(rows)) + Count(ws, None) == |rows|
  {
    var ws := Websites(rows);
    UniqSpec(ws);
    SummaryTotalCountsRows(ws);
    forall i | 0 <= i < |rows| && "Website" in rows[i]
      ensures Some(rows[i]["Website"]) in Uniq(ws)
    {
      assert ws[i] == Some(rows[i]["Website"]);
    }
  }

  /** The workbook `save_results_with_summary` writes. */
  datatype Book = Book(comparison: seq<ResultRow>, summary: Option<seq<SummaryRow>>)

  datatype SavedBook = SavedBook(ok: bool, written: Option<Book>)

  /** `save_results_with_summary(results, path)`: refuses an empty list;
      writes the Price Comparison sheet, and the Summary sheet only when the
      frame has both a Website and a Price column. */
  function SaveResultsWithSummary(rows: seq<ResultRow>, writeFails: bool): (r: SavedBook)
    ensures r.ok <==> |rows| > 0 && !writeFails
    ensures r.written.Some? <==> r.ok
    ensures r.written.Some? ==> r.written.value.comparison == rows
    ensures r.written.Some? ==>
              (r.written.value.summary.Some? <==> HasColumn(rows, "Website") && HasColumn(rows, "Price"))
    ensures r.written.Some? && r.written.value.summary.Some? ==> r.written.value.summary.value == Summary(rows)
  {
    if |rows| == 0 || writeFails then SavedBook(false, None)
    else
      var summary := if HasColumn(rows, "Website") && HasColumn(rows, "Price") then Some(Summary(rows)) else None;
      SavedBook(true, Some(Book(rows, summary)))
  }

  /** The two writers share the empty-input rule and the failure rule, and
      on success both write the same rows to the main sheet. */
  lemma SaveResultsAgree(rows: seq<ResultRow>, writeFails: bool)
    ensures SaveResults(rows, writeFails).ok == SaveResultsWithSummary(rows, writeFails).ok
    ensures SaveResults(rows, writeFails).written.Some? ==>
              SaveResults(rows, writeFails).written.value == SaveResultsWithSummary(rows, writeFails).written.value.comparison
  {
  }
}
