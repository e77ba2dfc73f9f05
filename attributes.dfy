/**
 * The attribute loader: every attribute file of the data set, joined on
 * gauge_id, with the zero-padded region code 'huc' derived from 'huc_02',
 * optionally restricted to a list of basins.
 */
module Attributes {
  import opened Wrappers
  import opened Errors
  import opened PyText

  /** A cell value as the semicolon-separated reader types it. A float is kept as the text str() prints for it. */
  datatype Value = Int(i: int) | Float(text: string) | Text(s: string)

  /** The cells of one basin, by column; a column absent from the map holds NaN. */
  type Row = map<string, Value>

  /** A basin-indexed table: the row index in order, the columns in order, and the rows by gauge id. */
  datatype Table = Table(index: seq<string>, columns: seq<string>, rows: map<string, Row>)

  predicate NoDup(s: seq<string>) {
    forall i, j :: 0 <= i < j < |s| ==> s[i] != s[j]
  }

  function Elems(s: seq<string>): set<string> {
    set x | x in s
  }

  /** Every index entry has a row, every row only holds listed columns, and no column is listed twice. */
  predicate Shaped(t: Table) {
    && Elems(t.index) == t.rows.Keys
    && (forall id :: id in t.rows ==> t.rows[id].Keys <= Elems(t.columns))
    && NoDup(t.columns)
  }

  /** A parsed attribute file, indexed by gauge_id: a shaped table whose gauge ids are unique. */
  predicate Indexed(t: Table) {
    Shaped(t) && NoDup(t.index)
  }

  /** The cell of a basin in a column; None is NaN. */
  function Cell(t: Table, id: string, col: string): Option<Value> {
    if id in t.rows && col in t.rows[id] then Some(t.rows[id][col]) else None
  }

  // ---------------------------------------------------------------------
  // Joining the files on gauge_id

  /** The gauge ids of all files. */
  function KeyUnion(dfs: seq<Table>): set<string> {
    if |dfs| == 0 then {} else KeyUnion(dfs[..|dfs| - 1]) + dfs[|dfs| - 1].rows.Keys
  }

  /** The column names of all files. */
  function ColumnUnion(dfs: seq<Table>): set<string> {
    if |dfs| == 0 then {} else ColumnUnion(dfs[..|dfs| - 1]) + Elems(dfs[|dfs| - 1].columns)
  }

  /**
   * The joined value of a basin in a column: that of the last file listing
   * the column, NaN where that file has no row for the basin.
   */
  function Lookup(dfs: seq<Table>, id: string, col: string): Option<Value> {
    if |dfs| == 0 then None
    else if col in dfs[|dfs| - 1].columns then Cell(dfs[|dfs| - 1], id, col)
    else Lookup(dfs[..|dfs| - 1], id, col)
  }

  lemma {:induction false} KeyUnionMembers(dfs: seq<Table>, id: string)
    ensures id in KeyUnion(dfs) <==> exists i :: 0 <= i < |dfs| && id in dfs[i].rows
  {
    if |dfs| > 0 {
      var init := dfs[..|dfs| - 1];
      KeyUnionMembers(init, id);
      assert forall i :: 0 <= i < |init| ==> init[i] == dfs[i];
    }
  }

  lemma {:induction false} ColumnUnionMembers(dfs: seq<Table>, col: string)
    ensures col in ColumnUnion(dfs) <==> exists i :: 0 <= i < |dfs| && col in dfs[i].columns
  {
    if |dfs| > 0 {
      var init := dfs[..|dfs| - 1];
      ColumnUnionMembers(init, col);
      assert forall i :: 0 <= i < |init| ==> init[i] == dfs[i];
    }
  }

  /**
   * The joined cell comes from the last file that lists the column, and is
   * NaN for a basin that file has no row for; a column that no file lists
   * is NaN for every basin.
   */
  lemma {:induction false} LookupFromLastFile(dfs: seq<Table>, id: string, col: string, j: int)
    requires 0 <= j < |dfs| && col in dfs[j].columns
    requires forall k :: j < k < |dfs| ==> col !in dfs[k].columns
    ensures Lookup(dfs, id, col) == Cell(dfs[j], id, col)
    ensures id !in dfs[j].rows ==> Lookup(dfs, id, col) == None
  {
    if j < |dfs| - 1 {
      var init := dfs[..|dfs| - 1];
      assert forall k :: 0 <= k < |init| ==> init[k] == dfs[k];
      LookupFromLastFile(init, id, col, j);
    }
  }

  lemma {:induction false} LookupUnlisted(dfs: seq<Table>, id: string, col: string)
    requires forall k :: 0 <= k < |dfs| ==> col !in dfs[k].columns
    ensures Lookup(dfs, id, col) == None
  {
    if |dfs| > 0 {
      var init := dfs[..|dfs| - 1];
      assert forall k :: 0 <= k < |init| ==> init[k] == dfs[k];
      LookupUnlisted(init, id, col);
    }
  }

  lemma AppendAbsent(s: seq<string>, x: string)
    ensures x !in s && NoDup(s) ==> NoDup(s + [x])
    ensures Elems(s + [x]) == Elems(s) + {x}
    ensures (s + [x])[..|s|] == s
  {
    assert forall i :: 0 <= i < |s| ==> (s + [x])[i] == s[i];
  }

  /** acc followed by the entries of xs it does not already hold, in order of first appearance. */
  function AppendNew(acc: seq<string>, xs: seq<string>): (r: seq<string>)
    ensures NoDup(acc) ==> NoDup(r)
    ensures Elems(r) == Elems(acc) + Elems(xs)
    ensures |acc| <= |r| && r[..|acc|] == acc
    decreases |xs|
  {
    if |xs| == 0 then acc
    else
      var acc' := if xs[0] in acc then acc else acc + [xs[0]];
      AppendAbsent(acc, xs[0]);
      assert Elems(acc') == Elems(acc) + {xs[0]};
      assert Elems(xs) == {xs[0]} + Elems(xs[1..]);
      var r := AppendNew(acc', xs[1..]);
      assert r[..|acc|] == r[..|acc'|][..|acc|];
      r
  }

  /** The row of a basin once file t is joined in: t's columns replaced by t's cells. */
  function MergeRow(rows: map<string, Row>, t: Table, id: string): Row {
    var kept := if id in rows then rows[id] - Elems(t.columns) else map[];
    if id in t.rows then kept + t.rows[id] else kept
  }

  /** The accumulated join with one more file joined in. */
  function JoinStep(acc: Table, t: Table): Table {
    Table(AppendNew(acc.index, t.index), AppendNew(acc.columns, t.columns),
          map id | id in acc.rows.Keys + t.rows.Keys :: MergeRow(acc.rows, t, id))
  }

  /** acc is the outer join of dfs: one row per gauge id, every cell the joined value. */
  ghost predicate JoinOf(acc: Table, dfs: seq<Table>) {
    && Shaped(acc) && NoDup(acc.index)
    && acc.rows.Keys == KeyUnion(dfs)
    && Elems(acc.columns) == ColumnUnion(dfs)
    && forall id, col :: id in acc.rows ==> Cell(acc, id, col) == Lookup(dfs, id, col)
  }

  lemma {:induction false} LookupAbsent(dfs: seq<Table>, id: string, col: string)
    requires forall i :: 0 <= i < |dfs| ==> Shaped(dfs[i])
    requires id !in KeyUnion(dfs)
    ensures Lookup(dfs, id, col) == None
  {
    if |dfs| > 0 {
      var init := dfs[..|dfs| - 1];
      assert forall k :: 0 <= k < |init| ==> init[k] == dfs[k];
      LookupAbsent(init, id, col);
    }
  }

  lemma JoinStepCells(acc: Table, dfs: seq<Table>, t: Table, id: string, col: string)
    requires forall i :: 0 <= i < |dfs| ==> Shaped(dfs[i])
    requires JoinOf(acc, dfs) && Indexed(t)
    requires id in JoinStep(acc, t).rows
    ensures Cell(JoinStep(acc, t), id, col) == Lookup(dfs + [t], id, col)
  {
    assert (dfs + [t])[..|dfs|] == dfs;
    var m := MergeRow(acc.rows, t, id);
    assert JoinStep(acc, t).rows[id] == m;
    if col in t.columns {
      assert Lookup(dfs + [t], id, col) == Cell(t, id, col);
      if id in t.rows {
        assert col in m <==> col in t.rows[id];
        assert col in t.rows[id] ==> m[col] == t.rows[id][col];
      } else {
        assert col !in m;
      }
    } else {
      assert Lookup(dfs + [t], id, col) == Lookup(dfs, id, col);
      assert id in t.rows ==> col !in t.rows[id];
      if id in acc.rows {
        assert Cell(acc, id, col) == Lookup(dfs, id, col);
        assert col in m <==> col in acc.rows[id];
        assert col in m ==> m[col] == acc.rows[id][col];
      } else {
        LookupAbsent(dfs, id, col);
        assert col !in m;
      }
    }
  }

  lemma MergeRowKeys(rows: map<string, Row>, t: Table, id: string, cols: set<string>)
    requires id in rows ==> rows[id].Keys <= cols
    requires id in t.rows ==> t.rows[id].Keys <= cols
    ensures MergeRow(rows, t, id).Keys <= cols
  {
  }

  lemma JoinStepShape(acc: Table, t: Table)
    requires Shaped(acc) && NoDup(acc.index) && Indexed(t)
    ensures var next := JoinStep(acc, t);
      && Shaped(next) && NoDup(next.index)
      && next.rows.Keys == acc.rows.Keys + t.rows.Keys
      && Elems(next.columns) == Elems(acc.columns) + Elems(t.columns)
  {
    var index := AppendNew(acc.index, t.index);
    var columns := AppendNew(acc.columns, t.columns);
    var rows := map id | id in acc.rows.Keys + t.rows.Keys :: MergeRow(acc.rows, t, id);
    assert JoinStep(acc, t) == Table(index, columns, rows);
    var cols := Elems(columns);
    assert cols == Elems(acc.columns) + Elems(t.columns);
    forall id | id in rows
      ensures rows[id].Keys <= cols
    {
      MergeRowKeys(acc.rows, t, id, cols);
    }
    assert Elems(index) == rows.Keys;
  }

  lemma JoinStepKeeps(acc: Table, dfs: seq<Table>, t: Table)
    requires forall i :: 0 <= i < |dfs| ==> Shaped(dfs[i])
    requires JoinOf(acc, dfs) && Indexed(t)
    ensures JoinOf(JoinStep(acc, t), dfs + [t])
  {
    var next := JoinStep(acc, t);
    assert (dfs + [t])[..|dfs|] == dfs;
    JoinStepShape(acc, t);
    forall id, col | id in next.rows
      ensures Cell(next, id, col) == Lookup(dfs + [t], id, col)
    {
      JoinStepCells(acc, dfs, t, id, col);
    }
  }

  /**
   * pd.concat(dfs, axis=1): the outer join of the files on gauge_id. It
   * raises on an empty list; otherwise every gauge id of some file gets
   * exactly one row, and every cell holds the joined value.
   */
  method Concat(dfs: seq<Table>) returns (r: Result<Table, Error>)
    requires forall i :: 0 <= i < |dfs| ==> Indexed(dfs[i])
    ensures r.Err? <==> |dfs| == 0
    ensures r.Err? ==> r.error == NoObjectsToConcatenate
    ensures r.Ok? ==> Shaped(r.value) && NoDup(r.value.index)
    ensures r.Ok? ==> r.value.rows.Keys == KeyUnion(dfs)
    ensures r.Ok? ==> Elems(r.value.columns) == ColumnUnion(dfs)
    ensures r.Ok? ==> forall id, col :: id in r.value.rows ==> Cell(r.value, id, col) == Lookup(dfs, id, col)
  {
    if |dfs| == 0 {
      return Err(NoObjectsToConcatenate);
    }
    var df := Table([], [], map[]);
    for i := 0 to |dfs|
      invariant JoinOf(df, dfs[..i])
    {
      assert dfs[..i + 1] == dfs[..i] + [dfs[i]];
      JoinStepKeeps(df, dfs[..i], dfs[i]);
      df := JoinStep(df, dfs[i]);
    }
    assert dfs[..|dfs|] == dfs;
    r := Ok(df);
  }

  // ---------------------------------------------------------------------
  // The region code

  /**
   * Python's str() of a cell; NaN prints as "nan", and an int within the
   * digit limit prints as text int() reads back.
   */
  function Str(v: Option<Value>): (r: string)
    ensures v.Some? && v.value.Int? && |NatStr(Abs(v.value.i))| <= MAX_STR_DIGITS ==> ParseInt(r) == Some(v.value.i)
  {
    match v
    case None => "nan"
    case Some(Int(i)) =>
      IntStrRoundTrip(i, "", "");
      assert "" + IntStr(i) + "" == IntStr(i);
      IntStr(i)
    case Some(Float(text)) => text
    case Some(Text(s)) => s
  }

  /** The padded region code of a huc_02 cell: str(x).zfill(2). */
  function HucCode(v: Option<Value>): string {
    ZFill(Str(v), 2)
  }

  /**
   * A HUC-02 region number 0..99 becomes exactly two decimal digits that
   * read back as the number; a NaN cell (a basin missing from the file that
   * holds huc_02) becomes "nan".
   */
  lemma HucCodeOfRegion(i: int)
    requires 0 <= i < 100
    ensures |HucCode(Some(Int(i)))| == 2 && AllDigits(HucCode(Some(Int(i))))
    ensures DigitsValue(HucCode(Some(Int(i)))) == i
    ensures HucCode(None) == "nan"
  {
    SmallNatStr(i);
    NatStrValue(i);
    var s := NatStr(i);
    var h := HucCode(Some(Int(i)));
    if i < 10 {
      assert h == "0" + s;
      assert h[..1] == "0";
    } else {
      assert h == s;
    }
  }

  lemma AppendColumn(columns: seq<string>, col: string)
    requires NoDup(columns)
    ensures var r := if col in columns then columns else columns + [col];
      NoDup(r) && Elems(r) == Elems(columns) + {col}
  {
    if col !in columns {
      var r := columns + [col];
      assert forall i :: 0 <= i < |columns| ==> r[i] == columns[i] && r[i] != col;
    }
  }

  lemma SetColumnShape(t: Table, col: string, cells: map<string, Value>, columns: seq<string>, rows: map<string, Row>)
    requires Shaped(t) && cells.Keys == t.rows.Keys
    requires columns == if col in t.columns then t.columns else t.columns + [col]
    requires rows.Keys == t.rows.Keys && forall id :: id in rows ==> rows[id] == t.rows[id][col := cells[id]]
    ensures Shaped(Table(t.index, columns, rows))
  {
    AppendColumn(t.columns, col);
    forall id | id in rows
      ensures rows[id].Keys <= Elems(columns)
    {
      assert rows[id].Keys == t.rows[id].Keys + {col};
    }
  }

  lemma SetColumnCells(t: Table, col: string, cells: map<string, Value>, r: Table)
    requires cells.Keys == t.rows.Keys
    requires r.rows.Keys == t.rows.Keys && forall id :: id in r.rows ==> r.rows[id] == t.rows[id][col := cells[id]]
    ensures forall id :: id in t.rows ==> Cell(r, id, col) == Some(cells[id])
    ensures forall id, c :: id in t.rows && c != col ==> Cell(r, id, c) == Cell(t, id, c)
  {
    forall id | id in t.rows
      ensures Cell(r, id, col) == Some(cells[id])
    {
      assert r.rows[id] == t.rows[id][col := cells[id]];
    }
    forall id, c | id in t.rows && c != col
      ensures Cell(r, id, c) == Cell(t, id, c)
    {
      assert r.rows[id] == t.rows[id][col := cells[id]];
    }
  }

  /**
   * df[col] = cells: every row gets its cell in col, col becomes a new last
   * column unless it is already listed, and every other cell is kept.
   */
  function SetColumn(t: Table, col: string, cells: map<string, Value>): (r: Table)
    requires Shaped(t) && cells.Keys == t.rows.Keys
    ensures Shaped(r) && r.index == t.index && r.rows.Keys == t.rows.Keys
    ensures r.columns == if col in t.columns then t.columns else t.columns + [col]
    ensures forall id :: id in t.rows ==> Cell(r, id, col) == Some(cells[id])
    ensures forall id, c :: id in t.rows && c != col ==> Cell(r, id, c) == Cell(t, id, c)
  {
    var columns := if col in t.columns then t.columns else t.columns + [col];
    var rows := map id | id in t.rows :: t.rows[id][col := cells[id]];
    SetColumnShape(t, col, cells, columns, rows);
    SetColumnCells(t, col, cells, Table(t.index, columns, rows));
    Table(t.index, columns, rows)
  }

  /**
   * df['huc'] = df['huc_02'].apply(lambda x: str(x).zfill(2)): a KeyError
   * when there is no huc_02 column; otherwise every row gets a 'huc' text
   * cell (a new last column, or the existing 'huc' column overwritten) and
   * nothing else changes.
   */
  function AssignHuc(t: Table): (r: Result<Table, Error>)
    requires Shaped(t)
    ensures r.Err? <==> "huc_02" !in t.columns
    ensures r.Err? ==> r.error == ColumnNotFound("huc_02")
    ensures r.Ok? ==> Shaped(r.value) && r.value.index == t.index && r.value.rows.Keys == t.rows.Keys
    ensures r.Ok? ==> r.value.columns == if "huc" in t.columns then t.columns else t.columns + ["huc"]
    ensures r.Ok? ==> forall id :: id in t.rows ==> Cell(r.value, id, "huc") == Some(Text(HucCode(Cell(t, id, "huc_02"))))
    ensures r.Ok? ==> forall id, col :: id in t.rows && col != "huc" ==> Cell(r.value, id, col) == Cell(t, id, col)
  {
    if "huc_02" !in t.columns then Err(ColumnNotFound("huc_02"))
    else Ok(SetColumn(t, "huc", map id | id in t.rows :: Text(HucCode(Cell(t, id, "huc_02")))))
  }

  /** Removes col from a sequence of column names. */
  function Without(s: seq<string>, col: string): (r: seq<string>)
    ensures Elems(r) == Elems(s) - {col}
    ensures NoDup(s) ==> NoDup(r)
    ensures col !in s ==> r == s
  {
    if |s| == 0 then []
    else
      var rest := Without(s[1..], col);
      assert Elems(s) == {s[0]} + Elems(s[1..]);
      if s[0] == col then rest
      else
        assert Elems([s[0]] + rest) == {s[0]} + Elems(rest);
        assert NoDup(s) ==> s[0] !in Elems(s[1..]);
        [s[0]] + rest
  }

  /** In a list without duplicates, removing the col at position k cuts out that position and keeps the order of the rest. */
  lemma {:induction false} WithoutAt(s: seq<string>, col: string, k: nat)
    requires NoDup(s) && k < |s| && s[k] == col
    ensures Without(s, col) == s[..k] + s[k + 1..]
  {
    assert forall i, j :: 0 <= i < j < |s| - 1 ==> s[1..][i] == s[i + 1] && s[1..][j] == s[j + 1];
    assert NoDup(s[1..]);
    if k == 0 {
      assert forall i :: 0 <= i < |s| - 1 ==> s[1..][i] == s[i + 1] && s[i + 1] != s[0];
      assert col !in s[1..];
    } else {
      assert s[0] != col;
      assert s[1..][k - 1] == col;
      WithoutAt(s[1..], col, k - 1);
      assert s[1..][..k - 1] == s[1..k] && s[1..][k..] == s[k + 1..];
      assert [s[0]] + s[1..k] == s[..k];
    }
  }

  /**
   * df.drop(col, axis=1): a KeyError when there is no such column;
   * otherwise the column is gone from the column list and from every row,
   * and every other cell is kept (DropColumnKeepsOrder: the remaining
   * columns keep their order).
   */
  function DropColumn(t: Table, col: string): (r: Result<Table, Error>)
    requires Shaped(t)
    ensures r.Err? <==> col !in t.columns
    ensures r.Err? ==> r.error == ColumnNotFound(col)
    ensures r.Ok? ==> Shaped(r.value) && r.value.index == t.index && r.value.rows.Keys == t.rows.Keys
    ensures r.Ok? ==> col !in r.value.columns && Elems(r.value.columns) == Elems(t.columns) - {col}
    ensures r.Ok? ==> forall id :: id in r.value.rows ==> col !in r.value.rows[id]
    ensures r.Ok? ==> forall id, c :: id in t.rows && c != col ==> Cell(r.value, id, c) == Cell(t, id, c)
  {
    if col !in t.columns then Err(ColumnNotFound(col))
    else Ok(Table(t.index, Without(t.columns, col), map id | id in t.rows :: t.rows[id] - {col}))
  }

  lemma ReplaceHucCells(t: Table, a: Table, d: Table)
    requires a.rows.Keys == t.rows.Keys && d.rows.Keys == a.rows.Keys
    requires forall id :: id in t.rows ==> Cell(a, id, "huc") == Some(Text(HucCode(Cell(t, id, "huc_02"))))
    requires forall id, c :: id in t.rows && c != "huc" ==> Cell(a, id, c) == Cell(t, id, c)
    requires forall id :: id in d.rows ==> "huc_02" !in d.rows[id]
    requires forall id, c :: id in a.rows && c != "huc_02" ==> Cell(d, id, c) == Cell(a, id, c)
    ensures forall id :: id in t.rows ==>
              Cell(d, id, "huc") == Some(Text(HucCode(Cell(t, id, "huc_02")))) && Cell(d, id, "huc_02") == None
    ensures forall id, c :: id in t.rows && c != "huc" && c != "huc_02" ==> Cell(d, id, c) == Cell(t, id, c)
  {
  }

  /**
   * The huc_02 column replaced by huc: a KeyError when there is no huc_02
   * column; otherwise the columns lose huc_02 and gain huc, every row's huc
   * cell is str(huc_02).zfill(2) and its huc_02 cell is gone, and every
   * other cell is kept.
   */
  function ReplaceHuc(t: Table): (r: Result<Table, Error>)
    requires Shaped(t)
    ensures r.Err? <==> "huc_02" !in t.columns
    ensures r.Err? ==> r.error == ColumnNotFound("huc_02")
    ensures r.Ok? ==> Shaped(r.value) && r.value.index == t.index && r.value.rows.Keys == t.rows.Keys
    ensures r.Ok? ==> Elems(r.value.columns) == Elems(t.columns) - {"huc_02"} + {"huc"}
    ensures r.Ok? ==> forall id :: id in t.rows ==>
              Cell(r.value, id, "huc") == Some(Text(HucCode(Cell(t, id, "huc_02")))) && Cell(r.value, id, "huc_02") == None
    ensures r.Ok? ==> forall id, c :: id in t.rows && c != "huc" && c != "huc_02" ==> Cell(r.value, id, c) == Cell(t, id, c)
  {
    var withHuc := AssignHuc(t);
    if withHuc.Err? then Err(withHuc.error)
    else
      AppendColumn(t.columns, "huc");
      assert "huc_02" in Elems(withHuc.value.columns);
      var dropped := DropColumn(withHuc.value, "huc_02");
      ReplaceHucCells(t, withHuc.value, dropped.value);
      dropped
  }

  /** Dropping the column at position k keeps every other column, in order. */
  lemma DropColumnKeepsOrder(t: Table, col: string, k: nat)
    requires Shaped(t) && k < |t.columns| && t.columns[k] == col
    ensures DropColumn(t, col).Ok?
    ensures DropColumn(t, col).value.columns == t.columns[..k] + t.columns[k + 1..]
  {
    WithoutAt(t.columns, col, k);
  }

  // ---------------------------------------------------------------------
  // The basin filter

  /**
   * The filter: an empty list keeps the table; a list naming a basin that
   * has no row raises; otherwise df.loc[basins], the rows of exactly the
   * requested basins in the requested order (a basin named twice appears
   * twice).
   */
  function SelectBasins(t: Table, basins: seq<string>): (r: Result<Table, Error>)
    requires Shaped(t)
    ensures |basins| == 0 ==> r == Ok(t)
    ensures |basins| > 0 ==> (r.Err? <==> exists b :: b in basins && b !in t.rows)
    ensures r.Err? ==> r.error == MissingStaticAttributes
    ensures |basins| > 0 && r.Ok? ==> Shaped(r.value) && r.value.index == basins && r.value.columns == t.columns
    ensures |basins| > 0 && r.Ok? ==> r.value.rows.Keys == Elems(basins) && r.value.rows.Keys <= t.rows.Keys
    ensures |basins| > 0 && r.Ok? ==> forall b, col :: b in basins ==> Cell(r.value, b, col) == Cell(t, b, col)
  {
    if |basins| == 0 then Ok(t)
    else if exists b :: b in basins && b !in t.index then Err(MissingStaticAttributes)
    else Ok(Table(basins, t.columns, map b | b in basins :: t.rows[b]))
  }

  // ---------------------------------------------------------------------
  // The loader

  /**
   * Loads the attribute table. dirExists says whether the attribute folder
   * exists; files are the attribute files the search found, each parsed
   * and indexed by gauge_id; basins is the optional filter.
   */
  method LoadAttributes(dirExists: bool, files: seq<Table>, basins: seq<string>) returns (r: Result<Table, Error>)
    requires forall i :: 0 <= i < |files| ==> Indexed(files[i])
    ensures !dirExists ==> r == Err(AttributeFolderNotFound)
    ensures dirExists && |files| == 0 ==> r == Err(NoObjectsToConcatenate)
    ensures dirExists && |files| > 0 && "huc_02" !in ColumnUnion(files) ==> r == Err(ColumnNotFound("huc_02"))
    ensures dirExists && |files| > 0 && "huc_02" in ColumnUnion(files) ==>
              (r.Err? <==> |basins| > 0 && exists b :: b in basins && b !in KeyUnion(files))
    ensures r.Err? && r.error == MissingStaticAttributes ==> exists b :: b in basins && b !in KeyUnion(files)
    ensures dirExists && |files| > 0 && "huc_02" in ColumnUnion(files) && r.Err? ==> r.error == MissingStaticAttributes
    ensures r.Ok? ==> Shaped(r.value) && "huc" in r.value.columns && "huc_02" !in r.value.columns
    ensures r.Ok? ==> Elems(r.value.columns) == ColumnUnion(files) - {"huc_02"} + {"huc"}
    ensures r.Ok? ==> forall id :: id in r.value.rows ==> "huc" in r.value.rows[id] && "huc_02" !in r.value.rows[id]
    ensures r.Ok? ==> forall id :: id in r.value.rows ==> r.value.rows[id]["huc"] == Text(HucCode(Lookup(files, id, "huc_02")))
    ensures r.Ok? ==> forall id, col :: id in r.value.rows && col != "huc" && col != "huc_02" ==>
              Cell(r.value, id, col) == Lookup(files, id, col)
    ensures r.Ok? && |basins| == 0 ==> r.value.rows.Keys == KeyUnion(files) && NoDup(r.value.index)
    ensures r.Ok? && |basins| > 0 ==> r.value.index == basins
  {
    if !dirExists {
      return Err(AttributeFolderNotFound);
    }
    var joined := Concat(files);
    if joined.Err? {
      return Err(joined.error);
    }
    var replaced := ReplaceHuc(joined.value);
    if replaced.Err? {
      return Err(replaced.error);
    }
    r := SelectBasins(replaced.value, basins);
  }
}
