/**
 * The "ENVIAR PARA SMO" submission: checking and normalising the value, assembling
 * the six-field record, and appending it as one row of the "Registros" worksheet.
 */
module Submission {

  import opened Wrappers
  import opened Text
  import opened Selector
  import opened SessionState
  import opened Amount
  import opened Dates
  import opened Sheet

  /** One release of an allocation, as written to the ledger. */
  datatype Record = Record(
    data: string,
    orgao: string,
    dotacao: string,
    sequencial: int,
    valor: string,
    usuarioNome: string)

  /** Why a submission appended nothing. */
  datatype SubmitError =
    | MissingValue    // the value field is empty
    | InvalidNumber   // `float()` rejects the normalised value
    | StoreFailure    // the append to the spreadsheet failed

  /** The text a record holds under a given header of the worksheet. */
  function Cell(rec: Record, header: string): string {
    if header == "Data" then rec.data
    else if header == "Órgão" then rec.orgao
    else if header == "Dotação" then rec.dotacao
    else if header == "Sequencial" then ShowInt(rec.sequencial)
    else if header == "Valor" then rec.valor
    else if header == UserNameHeader then rec.usuarioNome
    else ""
  }

  /**
   * The row `save_to_sheets` appends: one cell per header of a new worksheet, each
   * holding the record's field of that name, the sequence number as `str` renders it.
   */
  function RecordRow(rec: Record): (row: seq<string>)
    ensures |row| == |Headers|
    ensures forall i :: 0 <= i < |Headers| ==> row[i] == Cell(rec, Headers[i])
  {
    [rec.data, rec.orgao, rec.dotacao, ShowInt(rec.sequencial), rec.valor, rec.usuarioNome]
  }

  /** Reads a ledger row back into a record; `None` if it does not have that shape. */
  function ReadRecord(row: seq<string>): (r: Option<Record>)
  {
    if |row| == 6 && ParseInt(row[3]).Some? then
      Some(Record(row[0], row[1], row[2], ParseInt(row[3]).value, row[4], row[5]))
    else None
  }

  /** A written row loses nothing of its record, the sequence number included. */
  lemma RecordRowRoundTrip(rec: Record)
    ensures ReadRecord(RecordRow(rec)) == Some(rec)
  {
    ShowIntRoundTrip(rec.sequencial);
  }

  /** Rows of several records, in submission order. */
  function RecordRows(recs: seq<Record>): (rows: seq<seq<string>>)
    ensures |rows| == |recs|
    ensures forall i :: 0 <= i < |recs| ==> rows[i] == RecordRow(recs[i])
  {
    if recs == [] then []
    else RecordRows(recs[..|recs| - 1]) + [RecordRow(recs[|recs| - 1])]
  }

  lemma RecordRowsAppend(recs: seq<Record>, rec: Record)
    ensures RecordRows(recs + [rec]) == RecordRows(recs) + [RecordRow(rec)]
  {
    assert (recs + [rec])[..|recs|] == recs;
  }

  /**
   * An append-only ledger: the starting rows followed by one row per submitted record,
   * each of whose triples is a row of the reference table.
   */
  ghost predicate Ledger(df: seq<Row>, base: seq<seq<string>>, recs: seq<Record>, rows: seq<seq<string>>) {
    && rows == base + RecordRows(recs)
    && forall i :: 0 <= i < |recs| ==> Row(recs[i].orgao, recs[i].dotacao, recs[i].sequencial) in df
  }

  /** Appending the row of a record whose triple is in the table keeps the ledger one. */
  lemma LedgerAppend(df: seq<Row>, base: seq<seq<string>>, recs: seq<Record>, rows: seq<seq<string>>, rec: Record)
    requires Ledger(df, base, recs, rows)
    requires Row(rec.orgao, rec.dotacao, rec.sequencial) in df
    ensures Ledger(df, base, recs + [rec], rows + [RecordRow(rec)])
  {
    RecordRowsAppend(recs, rec);
  }

  /** A record whose text fields are all filled fills every column of its row. */
  lemma RecordFieldsFilled(rec: Record)
    requires rec.data != "" && rec.orgao != "" && rec.dotacao != "" && rec.valor != "" && rec.usuarioNome != ""
    ensures forall i :: 0 <= i < |Headers| ==> RecordRow(rec)[i] != ""
  {
  }

  /**
   * The value check and record assembly: an empty value is refused first, then a value
   * `float()` cannot read after normalisation; otherwise the record holds the date as
   * DD/MM/YYYY, the three choices, the currency text and the session's user name.
   */
  function Assemble(
    valor: string, date: CalendarDate, org: string, dot: string, sq: int,
    nome: string, formatCurrency: string -> string): (r: Result<Record, SubmitError>)
    ensures valor == "" ==> r == Failure(MissingValue)
    ensures valor != "" && !ParsesAsFloat(Normalize(valor)) ==> r == Failure(InvalidNumber)
    ensures r.Success? <==> valor != "" && ParsesAsFloat(Normalize(valor))
    ensures r.Success? ==> ParseDate(r.value.data) == Some(date)
    ensures r.Success? ==> r.value.orgao == org && r.value.dotacao == dot && r.value.sequencial == sq
    ensures r.Success? ==> r.value.valor == formatCurrency(Normalize(valor)) && r.value.usuarioNome == nome
  {
    if valor == "" then Failure(MissingValue)
    else if !ParsesAsFloat(Normalize(valor)) then Failure(InvalidNumber)
    else
      FormatDateRoundTrip(date);
      Success(Record(FormatDate(date), org, dot, sq, formatCurrency(Normalize(valor)), nome))
  }

  /** The result of a submission once the append has either succeeded or failed. */
  function Outcome(assembled: Result<Record, SubmitError>, stored: bool): (r: Result<Record, SubmitError>)
    ensures r.Success? <==> assembled.Success? && stored
    ensures r.Success? ==> r == assembled
    ensures assembled.Failure? ==> r == assembled
    ensures assembled.Success? && !stored ==> r == Failure(StoreFailure)
  {
    match assembled
    case Failure(e) => Failure(e)
    case Success(rec) => if stored then Success(rec) else Failure(StoreFailure)
  }

  /** Two appends of the same row. */
  lemma TwoAppends(rows0: seq<seq<string>>, rows1: seq<seq<string>>, rows2: seq<seq<string>>, row: seq<string>)
    requires rows1 == rows0 + [row] && rows2 == rows1 + [row]
    ensures rows2 == rows0 + [row, row]
  {
  }

  class DotacaoApp {
    const df: seq<Row>
    const orgaos: seq<string>
    const worksheet: Worksheet
    /** The rows the worksheet held when the application started. */
    ghost const baseRows: seq<seq<string>>
    /** The records this application has appended since. */
    ghost var submitted: seq<Record>

    /**
     * The ledger is append-only: it is its starting rows followed by one row per
     * successful submission, and every submitted triple is a row of the table.
     */
    ghost predicate Valid()
      reads this, worksheet
    {
      && worksheet.Valid()
      && orgaos == Orgaos(df)
      && Ledger(df, baseRows, submitted, worksheet.rows)
    }

    /** Start-up: open (or create) "Registros", then load the table and its organisations. */
    constructor (table: seq<Row>, found: Worksheet?)
      requires found != null ==> found.Valid()
      modifies found
      ensures Valid() && df == table && submitted == []
      ensures found != null ==> worksheet == found && worksheet.rows == RepairHeaders(old(found.rows))
      ensures found == null ==> fresh(worksheet) && worksheet.rows == [Headers]
    {
      var ws := SetupRegistros(found);
      df := table;
      orgaos := Orgaos(table);
      worksheet := ws;
      baseRows := ws.rows;
      submitted := [];
    }

    /**
     * Pressing "ENVIAR PARA SMO" with a triple chosen through the three drop-downs: at
     * most one row is appended, exactly when the value is accepted and the store is
     * reachable (`stored`), and its triple is one of the table's.
     */
    method Submit(
      session: Session, org: string, dot: string, sq: int, valor: string, date: CalendarDate,
      formatCurrency: string -> string, stored: bool) returns (res: Result<Record, SubmitError>)
      requires Valid()
      requires session.loginOk && session.Valid(orgaos)
      requires Selectable(df, org, dot, sq)
      requires forall s :: formatCurrency(s) != ""
      modifies this, worksheet
      ensures Valid()
      ensures res == Outcome(Assemble(valor, date, org, dot, sq, session.usuarioNome, formatCurrency), stored)
      ensures res.Success? ==>
        && worksheet.rows == old(worksheet.rows) + [RecordRow(res.value)]
        && worksheet.colCount == (if |Headers| > old(worksheet.colCount) then |Headers| else old(worksheet.colCount))
        && submitted == old(submitted) + [res.value]
        && Row(org, dot, sq) in df
        && forall i :: 0 <= i < |Headers| ==> RecordRow(res.value)[i] != ""
      ensures res.Failure? ==> unchanged(worksheet) && submitted == old(submitted)
    {
      var assembled := Assemble(valor, date, org, dot, sq, session.usuarioNome, formatCurrency);
      res := Outcome(assembled, stored);
      if res.Success? {
        var rec := res.value;
        assert rec == assembled.value;
        assert rec.valor == formatCurrency(Normalize(valor));
        SelectableIsTableRow(df, org, dot, sq);
        RecordFieldsFilled(rec);
        LedgerAppend(df, baseRows, submitted, worksheet.rows, rec);
        worksheet.AppendRow(RecordRow(rec));
        submitted := submitted + [rec];
      }
    }

    /** Submitting the same inputs twice gives two identical rows: nothing is deduplicated. */
    method SubmitTwice(
      session: Session, org: string, dot: string, sq: int, valor: string, date: CalendarDate,
      formatCurrency: string -> string) returns (first: Result<Record, SubmitError>, second: Result<Record, SubmitError>)
      requires Valid()
      requires session.loginOk && session.Valid(orgaos)
      requires Selectable(df, org, dot, sq)
      requires forall s :: formatCurrency(s) != ""
      modifies this, worksheet
      ensures Valid()
      ensures first == second
      ensures first.Success? ==> worksheet.rows == old(worksheet.rows) + [RecordRow(first.value), RecordRow(first.value)]
    {
      ghost var rows0 := worksheet.rows;
      first := Submit(session, org, dot, sq, valor, date, formatCurrency, true);
      ghost var rows1 := worksheet.rows;
      second := Submit(session, org, dot, sq, valor, date, formatCurrency, true);
      if first.Success? {
        TwoAppends(rows0, rows1, worksheet.rows, RecordRow(first.value));
      }
    }
  }
}
