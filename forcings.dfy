/**
 * The forcing loader: the file of one basin for one forcing product. The
 * file is read as a stream: three header lines, of which the third holds
 * the catchment area, then a whitespace-separated table with Year, Mnth
 * and Day columns.
 */
module Forcings {
  import opened Wrappers
  import opened Errors
  import opened PyText
  import opened Dates
  import opened FileMatch

  /** One row of the forcing table: the date columns and the remaining measurements in column order. */
  datatype ForcingRow = ForcingRow(year: int, mnth: int, day: int, measurements: seq<real>)

  /** The date-indexed forcing table; the Year, Mnth and Day columns stay in the rows. */
  datatype ForcingTable = ForcingTable(dates: seq<Date>, rows: seq<ForcingRow>)

  /** The loader's result: the table and the catchment area in m^2. */
  datatype ForcingData = ForcingData(table: ForcingTable, area: int)

  /** An open text file read line by line; each line keeps its newline. */
  class LineReader {
    const lines: seq<string>
    var pos: nat

    ghost predicate Valid()
      reads this
    {
      pos <= |lines|
    }

    constructor (lines: seq<string>)
      ensures Valid() && this.lines == lines && pos == 0
    {
      this.lines := lines;
      pos := 0;
    }

    /** The next line, or "" once the file is exhausted. */
    method ReadLine() returns (line: string)
      requires Valid()
      modifies this`pos
      ensures Valid()
      ensures old(pos) < |lines| ==> line == lines[old(pos)] && pos == old(pos) + 1
      ensures old(pos) == |lines| ==> line == "" && pos == old(pos)
    {
      if pos < |lines| {
        line := lines[pos];
        pos := pos + 1;
      } else {
        line := "";
      }
    }
  }

  /** The third line of the file as readline returns it ("" when the file is shorter). */
  function AreaLine(lines: seq<string>): string {
    if |lines| >= 3 then lines[2] else ""
  }

  /**
   * Loads the forcing data of a basin. dirExists says whether the product
   * directory exists; matches is what the search for the basin's file
   * returned; lines are the lines of the first match; rows is the table
   * that the whitespace-separated reader parses from the lines after the
   * third.
   */
  method LoadForcings(dirExists: bool, basin: string, matches: seq<string>,
                      lines: seq<string>, rows: seq<ForcingRow>)
    returns (r: Result<ForcingData, Error>)
    ensures !dirExists ==> r == Err(ForcingFolderNotFound)
    ensures dirExists && |matches| == 0 ==> r == Err(NoFileForBasin(basin))
    ensures dirExists && |matches| > 0 && ParseInt(AreaLine(lines)).None? ==>
              r == Err(InvalidInteger(AreaLine(lines)))
    ensures dirExists && |matches| > 0 && ParseInt(AreaLine(lines)).Some? ==>
              (r.Ok? <==> forall i :: 0 <= i < |rows| ==> ValidYmd((rows[i].year, rows[i].mnth, rows[i].day)))
    ensures r.Err? && r.error.InvalidDate? ==>
              exists i :: 0 <= i < |rows| && !ValidYmd((rows[i].year, rows[i].mnth, rows[i].day))
    ensures dirExists && |matches| > 0 && ParseInt(AreaLine(lines)).Some? && r.Err? ==>
              exists k :: 0 <= k < |rows| && !ValidYmd((rows[k].year, rows[k].mnth, rows[k].day))
                && (forall j :: 0 <= j < k ==> ValidYmd((rows[j].year, rows[j].mnth, rows[j].day)))
                && r.error == InvalidDate(DateText(rows[k].year, rows[k].mnth, rows[k].day))
    ensures r.Ok? ==> Some(r.value.area) == ParseInt(AreaLine(lines))
    ensures r.Ok? ==> r.value.table.rows == rows && |r.value.table.dates| == |rows|
    ensures r.Ok? ==> forall i :: 0 <= i < |rows| ==>
              r.value.table.dates[i] == Date(rows[i].year, rows[i].mnth, rows[i].day)
  {
    if !dirExists {
      return Err(ForcingFolderNotFound);
    }
    var file := SelectFile(basin, matches);
    if file.Err? {
      return Err(file.error);
    }
    var reader := new LineReader(lines);
    var _ := reader.ReadLine();
    var _ := reader.ReadLine();
    var areaLine := reader.ReadLine();
    assert areaLine == AreaLine(lines);
    var area := ParseInt(areaLine);
    if area.None? {
      return Err(InvalidInteger(areaLine));
    }
    var ymd := Ymds(rows, (row: ForcingRow) => (row.year, row.mnth, row.day));
    var dates := DateIndex(ymd);
    if dates.Err? {
      var k := FirstInvalid(ymd);
      assert k < |rows| && ymd[k] == (rows[k].year, rows[k].mnth, rows[k].day);
      return Err(dates.error);
    }
    r := Ok(ForcingData(ForcingTable(dates.value, rows), area.value));
  }

  /**
   * A header whose third line is an integer printed by str(), with any
   * surrounding whitespace, yields exactly that area when it has at most
   * MAX_STR_DIGITS digits, and a ValueError otherwise; the first two lines
   * play no part.
   */
  lemma AreaFromHeader(l1: string, l2: string, area: int, pre: string, post: string, rest: seq<string>)
    requires AllSpace(pre) && AllSpace(post)
    ensures ParseInt(AreaLine([l1, l2, pre + IntStr(area) + post] + rest))
         == if |NatStr(Abs(area))| <= MAX_STR_DIGITS then Some(area) else None
  {
    IntStrRoundTrip(area, pre, post);
  }
}
