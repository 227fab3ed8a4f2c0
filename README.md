# Dotação release form — a Dafny model

The application is a Streamlit form (`app.py`). A civil servant uses it to record budget-allocation
("dotação") releases in a Google Sheets ledger. The user logs in with a name and a budget unit.
They pick an organisation (ÓRGÃO), then an allocation (DOTAÇÃO) within it, then a sequence number
(SEQUENCIAL) within both, all drawn from a reference table. They then type a value in Brazilian
notation ("1.000,00") and choose a date. Pressing "ENVIAR PARA SMO" appends one six-column row
to the "Registros" worksheet.

This project models the logic under the form:

- `Ordered`: Python's `sorted(column.unique())`. It is generic in a strict total order, and
  `StrLt` implements Python's code-point order on `str`.
- `Selector`: the three cascading drop-downs over the reference table.
- `SessionState`: the session record (`login_ok`, `usuario_nome`, `unidade_orcamentaria`) as a
  class with login and logout. It also holds the index arithmetic the login form uses to
  pre-select the stored unit.
- `Text` and `Amount`: the value normalisation `replace('.', '').replace(',', '.')`, and which
  strings Python's `float()` accepts (its float-literal grammar).
- `Dates`: `strftime('%d/%m/%Y')`, with its inverse.
- `Sheet`: the "Registros" worksheet as a class holding its rows and column count, with
  `append_row`, `add_cols`, `update_cell`, `row_values`, the start-up header repair and the
  creation of a new worksheet.
- `Submission`: record assembly, the row layout of `save_to_sheets`, and the application object
  whose `Submit` appends to the worksheet. The ledger invariant is that the worksheet holds its
  starting rows plus one row per successful submission, and that every submitted
  (ÓRGÃO, DOTAÇÃO, SEQUENCIAL) triple is a row of the reference table.

Three behaviours of the code are worth stating plainly:

- An empty organisation or allocation hides the next drop-down rather than offering an empty
  list; the model represents a hidden drop-down as `None`.
- A drop-down left unselected raises no error; the form simply stops there.
- The worksheet's header names are the Portuguese ones `app.py` writes.

## Model

| member | source | states |
|---|---|---|
| Ordered.StrLtIsStrictTotalOrder | app.py:114 | Python's comparison of `str` values is irreflexive, transitive and total, so sorting organisations and allocations is well defined |
| Ordered.SortedDistinct | app.py:114 | `sorted(unique(xs))` is strictly increasing, has no duplicates, and holds exactly the values occurring in `xs` |
| Ordered.StrictlySortedUnique | app.py:114 | two strictly sorted lists with the same elements are equal, so any sorted, duplicate-free list of a column's values is the one computed |
| Selector.Orgaos | app.py:114 | the organisation list is strictly sorted, duplicate-free, and holds exactly the ÓRGÃO values of the table |
| Selector.OrgaosCharacterised | app.py:114 | every sorted list holding exactly the table's organisations equals the organisation list |
| Selector.OrgaoOptions | app.py:186-189 | the organisation drop-down is a leading empty choice followed by exactly the organisation list, so its options after the empty one are sorted and distinct |
| Selector.Dotacoes | app.py:192 | the allocation list is strictly sorted, duplicate-free, and holds exactly the DOTAÇÃO values of rows with the chosen ÓRGÃO |
| Selector.DotacoesCharacterised | app.py:192 | every sorted list holding exactly the organisation's allocations equals the allocation list |
| Selector.DotacaoStep | app.py:191-197 | no allocation drop-down exists iff the organisation is empty; otherwise it is an empty choice followed by exactly the sorted, distinct allocation list of that organisation |
| Selector.Sequenciais | app.py:200-205 | the sequence list is strictly increasing, duplicate-free, and holds exactly the SEQUENCIAL values of rows matching both choices |
| Selector.SequenciaisCharacterised | app.py:200-205 | every increasing list holding exactly the pair's sequence numbers equals the sequence list |
| Selector.SequencialStep | app.py:191-210 | no sequence drop-down exists iff the organisation or the allocation is empty; otherwise it is exactly the sorted, distinct sequence list of the pair, with no empty choice |
| Selector.SequenciaisNonEmpty | app.py:199-210 | an allocation taken from the allocation list always has at least one sequence to offer |
| Selector.SelectableIsTableRow | app.py:186-210 | a triple is reachable through the three drop-downs iff its organisation and allocation are non-empty and it is a row of the table |
| SessionState.IndexOf | app.py:151 | `list.index`: absent iff the value is not in the list (Python raises ValueError); otherwise the first position holding it |
| SessionState.PreselectIndex | app.py:149-151 | the pre-selected index is 0 iff the stored unit is empty; otherwise it is one past the unit's position, pointing at the unit in `[''] + orgaos`; none when `index` would raise |
| SessionState.Session.constructor | app.py:23-28 | a new session is logged out with empty name and unit |
| SessionState.Session.Login | app.py:155-162 | login succeeds iff name and unit are both non-empty, and then sets the flag, name and unit; otherwise the session is unchanged; the session invariant is kept |
| SessionState.Session.Logout | app.py:180-184 | logout clears the flag and both strings |
| SessionState.Session.LoginFormIndex | app.py:147-152 | for a valid session the login form's index points at the stored unit in `[''] + orgaos` and is 0 iff no unit is stored, so `orgaos.index` never raises |
| Text.RemoveChar | app.py:229 | `replace(c, '')` leaves no `c` and shortens the string by the number of `c`s; a one-character string loses its character exactly when it is `c` |
| Text.RemoveCharCounts | app.py:229 | deleting `c` keeps every other character, as often as it occurred, and no character appears that was not there |
| Text.RemoveCharConcat | app.py:229 | deleting from a concatenation deletes from each part in turn; with the one-character case this fixes the result, so the kept characters stay in their order |
| Text.ReplaceChar | app.py:229 | `replace(a, b)` keeps the length and changes exactly the positions holding `a` into `b` |
| Text.ReplaceCharCounts | app.py:229 | after replacing `a` by a different `b`, no `a` remains and the count of `b` grows by the count of `a` |
| Amount.Normalize | app.py:229 | the normalised value has no comma and is shorter than the input by the number of points deleted |
| Amount.NormalizeSpec | app.py:229 | the normalised value has as many points as the input had commas, and every other character as often as before |
| Amount.ParsesAsFloat | app.py:229 | whether `float()` returns rather than raising ValueError, following Python's float-literal grammar; blank or sign-only text is never accepted |
| Amount.LocalNotationAccepted | app.py:229 | for a value made of digits, points and commas, `float()` accepts the normalised string iff there is at most one comma and some digit |
| Amount.NormalizeExample | app.py:229 | "1.000,00" normalises to "1000.00" |
| Amount.AcceptedExample | app.py:213-216 | the help text's example "1.000,00" is accepted after normalisation |
| Amount.RejectedExample | app.py:246-247 | "abc" is rejected by `float()` after normalisation |
| Text.Padded | app.py:231 | a zero-padded field has exactly the requested width, only digits, and denotes the number |
| Dates.FormatDate | app.py:231 | the rendered date is ten characters, DD/MM/YYYY, with `/` at positions 2 and 5 and digits elsewhere |
| Dates.FormatDateRoundTrip | app.py:231 | reading the rendered date back gives the same day, month and year |
| Dates.FormatDateInjective | app.py:231 | different dates are rendered differently |
| Text.ShowNat | app.py:131 | `str` of a natural number is a non-empty digit string without leading zeros that denotes the number |
| Text.ShowInt | app.py:131 | `str` of an integer is non-empty, starts with `-` exactly for negative numbers, and is all digits otherwise |
| Text.ShowIntRoundTrip | app.py:131 | `str` of an integer reads back as the same integer |
| Text.ShowIntInjective | app.py:131 | different sequence numbers are written as different text |
| Sheet.TrimBlank | app.py:97 | `row_values` reports a prefix of the row that ends in a non-blank cell, with only blank cells after it |
| Sheet.TrimBlankUnique | app.py:97 | the reported values are the only such prefix |
| Sheet.RowValuesOf | app.py:97 | `row_values(r)` is a prefix of row `r` ending in a non-blank cell with only blanks after it, and empty for a row beyond the last |
| Sheet.RepairHeaders | app.py:97-100 | the repaired grid keeps every row after the first and has at least the header row |
| Sheet.RepairHeadersSpec | app.py:97-100 | with "Usuario_Nome" present nothing changes; otherwise the reported headers become the old ones followed by "Usuario_Nome" (column len(headers)+1); rows after the first are untouched |
| Sheet.RepairHeadersIdempotent | app.py:97-100 | a second repair changes nothing |
| Sheet.Worksheet.RepairUserNameColumn | app.py:96-100 | the in-place repair adds one column and writes the header exactly when it is missing, leaving the grid as the repair function describes |
| Sheet.Worksheet.AppendRow | app.py:135 | `append_row` adds exactly one last row and leaves earlier rows unchanged |
| Sheet.Worksheet.AddCols | app.py:99 | `add_cols(n)` widens the grid by `n` columns and changes no cell |
| Sheet.Worksheet.UpdateCell | app.py:100 | `update_cell` writes one cell inside the grid's columns and changes nothing else |
| Sheet.Worksheet.Open | app.py:95 | an existing worksheet holds the given rows and column count |
| Sheet.Worksheet.Create | app.py:103 | a new worksheet is empty with the requested columns |
| Sheet.SetupRegistros | app.py:93-105 | an existing worksheet is repaired in place, gaining one column exactly when the header was missing; otherwise a new 20-column worksheet whose only row is the six fixed headers |
| Submission.RecordRow | app.py:127-134 | the appended row has one cell per header, each holding the record's field under that header name, with the sequence as `str` text |
| Submission.RecordRowRoundTrip | app.py:127-134 | the row can be read back into the same record, sequence number included |
| Submission.RecordFieldsFilled | app.py:230-237 | a record with date, organisation, allocation, currency text and user name fills all six columns of its row |
| Submission.Assemble | app.py:227-237 | an empty value is refused, then a value `float()` rejects after normalisation; otherwise the record holds the date as DD/MM/YYYY, the three choices, the currency text of the normalised value and the user name |
| Submission.Outcome | app.py:239-249 | a submission succeeds iff the record was assembled and stored; then its result is the record, a refused value keeps its error, and a failed store is reported as such |
| Submission.LedgerAppend | app.py:135 | appending the row of a record whose triple is in the table keeps the ledger invariant |
| Submission.DotacaoApp.constructor | app.py:18-21 | start-up opens or creates and repairs "Registros", loads the organisation list, and starts an empty ledger |
| Submission.DotacaoApp.Submit | app.py:226-251 | exactly one row (the record's, with all six cells filled) is appended iff the value is accepted and the store succeeds, and the grid widens only to fit it; otherwise the worksheet is unchanged; the appended triple is a table row and the ledger invariant holds |
| Submission.DotacaoApp.SubmitTwice | app.py:226-239 | two submissions of identical inputs give identical results and, on success, two identical new rows |

## Left out

- Page configuration, CSS, markdown and image rendering, titles, sidebar text, and success, warning and error messages: presentation only.
- Streamlit reruns and widget state: the model takes the drop-down choices, text inputs and button presses as method arguments.
- Service-account credentials, `gspread.authorize`, `open_by_key` and the sheet identifier: network I/O. The found-or-missing worksheet is a parameter of `SetupRegistros`. Failures during start-up are not modelled.
- The row count of a new worksheet (1000) and growth of the grid's rows: only the rows holding data and the column count are modelled.
- How the remote service locates the end of the table on `append_row`: the model appends after the last held row and widens the grid to fit the row.
- `pd.read_excel` of the reference file, and its fatal error when the file is missing: file I/O. The table is given as a sequence of rows.
- Missing values (NaN) in the reference table, a text-typed SEQUENCIAL column, and mixed-type columns: SEQUENCIAL is modelled as an integer column.
- The locale set-up and `format_currency`: they are locale-dependent and work on floats. The currency text is a function parameter applied to the normalised value string. `Submit` requires it never to return empty text: `locale.currency` writes at least the digits and the fallback writes `R$ ` and the value (app.py:119-123).
- The numeric value of `float()`: only whether parsing succeeds is modelled. Unicode whitespace and non-ASCII digits, which `float()` also accepts, are not.
- `datetime.now()` as the date picker's default: clock I/O. The date is an argument.
- Dates.FormatDate: writes years below 1000 with four digits. glibc's `%Y` leaves them unpadded, but the date picker's default range excludes those years.
- Failures of the spreadsheet append: the outcome is the `stored` parameter of `Submit`.
- Concurrent submissions from other sessions: rows appended by other sessions between two submissions are not modelled.
