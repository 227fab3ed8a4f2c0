/**
 * The "Registros" worksheet as the form sees it: a grid of text cells, held as the
 * list of its rows (each the list of its cells), together with its column count.
 */
module Sheet {

  const UserNameHeader: string := "Usuario_Nome"

  /** The header row a newly created "Registros" worksheet receives. */
  const Headers: seq<string> := ["Data", "Órgão", "Dotação", "Sequencial", "Valor", UserNameHeader]

  /** Columns of a newly created "Registros" worksheet. */
  const NewSheetCols: nat := 20

  /** A row as Google Sheets reports it: without its trailing blank cells. */
  function TrimBlank(row: seq<string>): (r: seq<string>)
    ensures |r| <= |row| && r == row[..|r|]
    ensures r == [] || r[|r| - 1] != ""
    ensures forall i :: |r| <= i < |row| ==> row[i] == ""
  {
    if row == [] then []
    else if row[|row| - 1] == "" then TrimBlank(row[..|row| - 1])
    else row
  }

  /**
   * A row's reported values are the only prefix of it that ends in a non-blank cell
   * and leaves only blanks behind.
   */
  lemma TrimBlankUnique(row: seq<string>, r: seq<string>)
    requires |r| <= |row| && r == row[..|r|]
    requires r == [] || r[|r| - 1] != ""
    requires forall i :: |r| <= i < |row| ==> row[i] == ""
    ensures r == TrimBlank(row)
  {
    var t := TrimBlank(row);
    assert |t| > 0 ==> row[|t| - 1] != "";
    assert |r| > 0 ==> row[|r| - 1] != "";
    assert |r| == |t|;
  }

  /** `row_values(r)` for a 1-based row number: the reported values, empty beyond the last row. */
  function RowValuesOf(rows: seq<seq<string>>, r: nat): (vs: seq<string>)
    requires r >= 1
    ensures vs == [] || vs[|vs| - 1] != ""
    ensures forall k :: 0 <= k < |rows| && k == r - 1 ==>
      |vs| <= |rows[k]| && vs == rows[k][..|vs|] && forall i :: |vs| <= i < |rows[k]| ==> rows[k][i] == ""
    ensures r - 1 >= |rows| ==> vs == []
  {
    if r - 1 < |rows| then TrimBlank(rows[r - 1]) else []
  }

  /** One row after writing `v` at 0-based column `c`; a shorter row is padded with blanks. */
  function SetCell(row: seq<string>, c: nat, v: string): (r: seq<string>)
    ensures |r| == if c < |row| then |row| else c + 1
    ensures r[c] == v
    ensures forall i :: 0 <= i < |r| && i != c ==> r[i] == if i < |row| then row[i] else ""
  {
    if c < |row| then row[c := v] else row + seq(c - |row|, _ => "") + [v]
  }

  /** The grid after writing `v` at 0-based row `r`, column `c`; missing rows are added empty. */
  function SetGridCell(rows: seq<seq<string>>, r: nat, c: nat, v: string): (g: seq<seq<string>>)
    ensures |g| == if r < |rows| then |rows| else r + 1
    ensures g[r] == SetCell(if r < |rows| then rows[r] else [], c, v)
    ensures forall i :: 0 <= i < |g| && i != r ==> g[i] == if i < |rows| then rows[i] else []
  {
    var padded := if r < |rows| then rows else rows + seq(r + 1 - |rows|, _ => []);
    padded[r := SetCell(padded[r], c, v)]
  }

  /**
   * The grid after the start-up repair: when the header row lacks "Usuario_Nome",
   * it is written in the column just after the last header.
   */
  function RepairHeaders(rows: seq<seq<string>>): (g: seq<seq<string>>)
    ensures |g| == if rows == [] then 1 else |rows|
    ensures forall i :: 1 <= i < |rows| ==> g[i] == rows[i]
  {
    var headers := RowValuesOf(rows, 1);
    if UserNameHeader in headers then rows
    else SetGridCell(rows, 0, |headers|, UserNameHeader)
  }

  /**
   * The repair appends "Usuario_Nome" to the reported headers when it is missing and
   * leaves them alone otherwise; no other row changes.
   */
  lemma RepairHeadersSpec(rows: seq<seq<string>>)
    ensures UserNameHeader in RowValuesOf(rows, 1) ==> RepairHeaders(rows) == rows
    ensures UserNameHeader !in RowValuesOf(rows, 1) ==>
      RowValuesOf(RepairHeaders(rows), 1) == RowValuesOf(rows, 1) + [UserNameHeader]
  {
    var headers := RowValuesOf(rows, 1);
    if UserNameHeader !in headers {
      var row := if rows == [] then [] else rows[0];
      assert headers == TrimBlank(row);
      var repaired := SetCell(row, |headers|, UserNameHeader);
      assert RepairHeaders(rows)[0] == repaired;
      var expected := headers + [UserNameHeader];
      assert expected == repaired[..|expected|];
      TrimBlankUnique(repaired, expected);
    }
  }

  /** Running the repair a second time changes nothing. */
  lemma RepairHeadersIdempotent(rows: seq<seq<string>>)
    ensures RepairHeaders(RepairHeaders(rows)) == RepairHeaders(rows)
  {
    RepairHeadersSpec(rows);
    if UserNameHeader !in RowValuesOf(rows, 1) {
      var headers := RowValuesOf(RepairHeaders(rows), 1);
      assert headers[|headers| - 1] == UserNameHeader;
    }
  }

  class Worksheet {
    var rows: seq<seq<string>>
    var colCount: nat

    /** Every row fits in the grid's columns. */
    ghost predicate Valid()
      reads this
    {
      forall i :: 0 <= i < |rows| ==> |rows[i]| <= colCount
    }

    /** An existing worksheet with the given contents. */
    constructor Open(contents: seq<seq<string>>, cols: nat)
      requires forall i :: 0 <= i < |contents| ==> |contents[i]| <= cols
      ensures Valid() && rows == contents && colCount == cols
    {
      rows := contents;
      colCount := cols;
    }

    /** `add_worksheet(title, rows, cols)`: a new, empty worksheet. */
    constructor Create(cols: nat)
      ensures Valid() && rows == [] && colCount == cols
    {
      rows := [];
      colCount := cols;
    }

    /** `row_values(r)`. */
    function RowValues(r: nat): seq<string>
      reads this
      requires r >= 1
    {
      RowValuesOf(rows, r)
    }

    /** `append_row(values)`: one new last row; the grid widens if the row needs it. */
    method AppendRow(values: seq<string>)
      requires Valid()
      modifies this
      ensures Valid()
      ensures rows == old(rows) + [values]
      ensures colCount == if |values| > old(colCount) then |values| else old(colCount)
    {
      rows := rows + [values];
      if |values| > colCount {
        colCount := |values|;
      }
    }

    /** `add_cols(n)`: `n` more columns, no cell changes. */
    method AddCols(n: nat)
      requires Valid()
      modifies this
      ensures Valid()
      ensures rows == old(rows) && colCount == old(colCount) + n
    {
      colCount := colCount + n;
    }

    /** `update_cell(r, c, v)` for a 1-based cell inside the grid's columns. */
    method UpdateCell(r: nat, c: nat, v: string)
      requires Valid() && 1 <= r && 1 <= c <= colCount
      modifies this
      ensures Valid()
      ensures rows == SetGridCell(old(rows), r - 1, c - 1, v) && colCount == old(colCount)
    {
      rows := SetGridCell(rows, r - 1, c - 1, v);
    }

    /**
     * The start-up check on an existing "Registros" worksheet: when the header row has
     * no "Usuario_Nome", one column is added and the header written after the last one.
     */
    method RepairUserNameColumn()
      requires Valid()
      modifies this
      ensures Valid()
      ensures rows == RepairHeaders(old(rows))
      ensures colCount == old(colCount) + (if UserNameHeader in RowValuesOf(old(rows), 1) then 0 else 1)
    {
      var headers := RowValues(1);
      if UserNameHeader !in headers {
        AddCols(1);
        UpdateCell(1, |headers| + 1, UserNameHeader);
      }
    }
  }

  /**
   * Opening "Registros": an existing worksheet gets the header repair; when there is
   * none, a new one is created with 20 columns and the six fixed headers as its first row.
   */
  method SetupRegistros(found: Worksheet?) returns (ws: Worksheet)
    requires found != null ==> found.Valid()
    modifies found
    ensures ws.Valid()
    ensures found != null ==> ws == found && ws.rows == RepairHeaders(old(found.rows))
    ensures found != null ==>
      ws.colCount == old(found.colCount) + (if UserNameHeader in RowValuesOf(old(found.rows), 1) then 0 else 1)
    ensures found == null ==> fresh(ws) && ws.rows == [Headers] && ws.colCount == NewSheetCols
  {
    if found != null {
      found.RepairUserNameColumn();
      ws := found;
    } else {
      ws := new Worksheet.Create(NewSheetCols);
      ws.AppendRow(Headers);
    }
  }
}
