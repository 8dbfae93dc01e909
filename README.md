# Portfolio dashboard: table operations and indicators

`streamlit_app.py` is a one-page dashboard for an investment portfolio. The portfolio is an ordered table of
`(ticker, amount_ARS)` rows that the page keeps between reruns. It is first read from a CSV file. Three buttons
then replace it: "Agregar ticker" appends a row, "Eliminar seleccionados" removes the selected tickers, and
"Aplicar cambios de la tabla" stores the data editor's rows in normalised form. A side panel derives three
indicators from the stored table: the total invested, the number of instruments and the top-3 concentration.

This project models that core in Dafny and proves properties about it.

- `wrappers.dfy`: module `Wrappers`, an `Option` type.
- `text.dfy`: module `Text`.
  - `Strip` follows Python's `str.strip`. It removes the characters `str.isspace` accepts from both ends.
  - `Upper` upper-cases ASCII letters.
  - Lemmas characterise `Strip` (the unique trimmed middle piece) and relate the two operations.
- `portfolio.dfy`: module `Portfolio`.
  - Holds the row type, the CSV loader (`load_portfolio`) and the three button handlers.
  - Each handler is a pure function of the rows the data editor shows. It returns `Accepted(rows)` or
    `Rejected(reason)`, where the reason is the warning the page shows.
- `metrics.dfy`: module `Metrics`. The three indicators, with their bounds and how the edits change them.
- `dashboard.dfy`: module `Dashboard`.
  - Class `Session` holds the stored table (`st.session_state.df`) as a `seq<Row>` field.
  - Each button is a method that replaces the field on success and leaves it alone on refusal.
  - Each method is proved against a pure function: the constructor against `Portfolio.Load`, `Session.Add`
    against `Portfolio.AddTicker`, `Session.DeleteSelected` against `Portfolio.DeleteSelected` and
    `Session.ApplyEdits` against `Portfolio.ApplyEdits`.

Representation choices:

- A cell of `amount_ARS` is an `Option<real>`, where `None` is pandas' NaN (text that did not parse, or an
  editor cell left empty).
- The loader and "apply changes" turn `None` into 0.
- "Agregar ticker" copies the editor's rows as they are, so a `None` can reach the stored table.
- For the indicators, the total skips `None` as pandas' `sum` does.
- `sort_values` puts NaN rows last, so the three largest amounts are computed over the numeric ones only.
  `head(3)` gives the same sum either way: NaN rows are only reached when there are fewer than three numbers,
  and the sum skips them.

What the code does where a reader might expect otherwise:

- The loader strips tickers but does not upper-case them (`streamlit_app.py:25`).
- The loader returns an empty table when either required column is missing, not only when both are
  (`streamlit_app.py:21`).
- The duplicate check of "Agregar ticker" compares the stripped ticker as typed with the tickers of the rows the
  data editor shows (`edited`, `streamlit_app.py:63-64`), with no case folding. The row it appends is
  upper-cased (`streamlit_app.py:67`), so `Portfolio.AddAdmitsCaseVariant` shows "abcd" accepted next to an
  existing "ABCD", which leaves two rows with the same ticker although the comment at `streamlit_app.py:62`
  says exact duplicates are avoided.

## Model

| member | source | states |
|---|---|---|
| Text.Strip | streamlit_app.py:25 | the result has no leading or trailing whitespace, and it is the middle of the input with only whitespace cut from either side |
| Text.StripBlank | streamlit_app.py:59 | a string strips to "" exactly when every character in it is whitespace |
| Text.StripUnique | streamlit_app.py:25 | any trimmed middle piece of the input with only whitespace around it is the strip of the input |
| Text.StripTrimmed | streamlit_app.py:25 | a string with no whitespace at either end is its own strip |
| Text.StripIdempotent | streamlit_app.py:25 | stripping a stripped string changes nothing |
| Text.Upper | streamlit_app.py:89 | the length is kept, no lower-case letter remains, every other character is kept, and each lower-case letter becomes its capital |
| Text.UpperIdempotent | streamlit_app.py:89 | upper-casing twice is upper-casing once |
| Text.UpperChanges | streamlit_app.py:67 | a string holding a lower-case letter is changed by upper-casing |
| Text.StripUpper | streamlit_app.py:89 | stripping and upper-casing commute |
| Text.StripUpperTrimmed | streamlit_app.py:89 | a stripped, upper-cased ticker has no surrounding whitespace |
| Text.StripUpperIdempotent | streamlit_app.py:89 | stripping and upper-casing a second time changes nothing |
| Portfolio.Coerce | streamlit_app.py:24 | a number stays itself and a non-number becomes 0 |
| Portfolio.Load | streamlit_app.py:14-26 | a failed read, or a file without `ticker` or without `amount_ARS`, gives an empty table; otherwise every record is kept in order, with its ticker stripped and its amount coerced |
| Portfolio.LoadIsClean | streamlit_app.py:24-25 | every loaded amount is a number and no loaded ticker has surrounding whitespace |
| Portfolio.LoadReload | streamlit_app.py:21-26 | load is idempotent on its own output: loading a two-column file whose records are a loaded table gives that table |
| Portfolio.ApplyEdits | streamlit_app.py:88-90 | the row count and each row's position are kept; each ticker becomes the upper-cased strip of the edited one and each amount its coerced value |
| Portfolio.ApplyEditsNormalises | streamlit_app.py:89 | after applying changes no ticker has surrounding whitespace or a lower-case letter |
| Portfolio.ApplyEditsIdempotent | streamlit_app.py:88-90 | applying changes twice gives what applying them once gives |
| Portfolio.ApplyEditsAfterLoad | streamlit_app.py:86-91 | on a freshly loaded table, applying changes only upper-cases the tickers |
| Portfolio.AddTicker | streamlit_app.py:58-69 | refused as blank exactly when the ticker is all whitespace or the amount is not positive; refused as duplicate exactly when it is neither and the stripped ticker is already a ticker; otherwise the edited rows with one row (upper-cased stripped ticker, amount) appended |
| Portfolio.AddAcceptsFresh | streamlit_app.py:59-68 | a ticker that is not blank, with a positive amount and not already a ticker, is appended upper-cased and stripped |
| Portfolio.AddAbcdToEmpty | streamlit_app.py:59-68 | adding "ABCD" to an empty table gives the one-row table |
| Portfolio.AddAbcdAgain | streamlit_app.py:64-65 | adding "ABCD" to a table whose first ticker is "ABCD" is refused as a duplicate |
| Portfolio.AddAdmitsCaseVariant | streamlit_app.py:64-67 | adding "abcd" to a table holding "ABCD" is accepted and leaves two "ABCD" rows |
| Portfolio.AddRepeatsLowercase | streamlit_app.py:64-67 | a ticker with a lower-case letter that was added is accepted again when added a second time |
| Portfolio.AddRejectsRepeatUppercase | streamlit_app.py:64-65 | a ticker typed stripped and in capitals that was added is refused as a duplicate the second time |
| Portfolio.HasTickerAppend | streamlit_app.py:64 | `HasTicker`, the exact, case-sensitive `in` test of the duplicate check, holds of two tables put end to end exactly when it holds of one of them |
| Portfolio.AppendKeepsFresh | streamlit_app.py:64-68 | appending a row with a different ticker keeps a ticker absent from the table |
| Portfolio.Keep | streamlit_app.py:81 | no more rows than before and no selected ticker remains |
| Portfolio.KeptPositions | streamlit_app.py:81 | the increasing list of exactly the positions whose ticker is not selected |
| Portfolio.KeepAtKeptPositions | streamlit_app.py:81 | the rows kept are the rows at those positions, in that order: the order-keeping subsequence of unselected rows |
| Portfolio.KeepCounts | streamlit_app.py:81 | every row whose ticker is not selected keeps all its occurrences, and a selected one keeps none |
| Portfolio.KeepAppend | streamlit_app.py:81 | deleting from two tables put end to end deletes from each one |
| Portfolio.KeepAll | streamlit_app.py:81 | nothing is removed exactly when no ticker is selected |
| Portfolio.KeepIdempotent | streamlit_app.py:81 | deleting the same selection twice removes nothing more |
| Portfolio.DeleteSelected | streamlit_app.py:76-83 | refused, with the empty-selection warning, exactly when nothing is selected; otherwise the rows Keep retains |
| Metrics.Amounts | streamlit_app.py:105 | no more numeric amounts than there are rows; NumericPositions, AmountsAtNumericPositions and AmountsMembers say which values they are |
| Metrics.NumericPositions | streamlit_app.py:105 | the increasing list of exactly the positions whose cell holds a number |
| Metrics.AmountsAtNumericPositions | streamlit_app.py:105 | the amounts are the numbers at those positions, in row order: one per numeric cell and nothing else |
| Metrics.AmountsMembers | streamlit_app.py:105 | a value is among the amounts exactly when some cell holds it |
| Metrics.Total | streamlit_app.py:105 | never negative when no amount is; TotalIsCoercedSum and TotalAppend relate it to the rows |
| Metrics.Count | streamlit_app.py:106 | every numeric amount is one instrument, and rows without a number count too; Kpis, AddRaisesTotal and ApplyEditsKeepsTotal say how it follows the table |
| Metrics.TopThree | streamlit_app.py:112 | as many values as `head(3)` takes: three, or all when there are fewer; TopThreeAreLargest says they are the largest |
| Metrics.TopThreeSum | streamlit_app.py:112 | the total less what the amounts not picked hold; TopThreeSumBounded bounds it |
| Metrics.AmountsOfNumeric | streamlit_app.py:105 | with every amount numeric, the amounts are exactly the rows' amounts, in row order |
| Metrics.AmountsNonNegative | streamlit_app.py:105 | with no negative number in the rows, no amount is negative |
| Metrics.TotalIsCoercedSum | streamlit_app.py:105 | skipping NaN in the total is the same as counting each NaN as 0 |
| Metrics.CoercedSumPointwise | streamlit_app.py:90 | two tables whose rows coerce to the same amounts have the same coerced sum |
| Metrics.Insert | streamlit_app.py:112 | inserting into a descending sequence keeps it descending, adds the value to its multiset and to its sum |
| Metrics.SortDescending | streamlit_app.py:112 | a descending permutation of the amounts, with the same length and sum |
| Metrics.TotalAppend | streamlit_app.py:105 | the total of two tables put end to end is the sum of their totals |
| Metrics.TopThreeAreLargest | streamlit_app.py:112 | the amounts split into the at most three picked and the others, and every picked amount is at least every other |
| Metrics.SumSplit | streamlit_app.py:112 | the sum of the amounts is the top-three sum plus the sum of the others |
| Metrics.TopThreeSumOfFew | streamlit_app.py:112 | with three numeric amounts or fewer, the top three hold the whole total |
| Metrics.TopThreeSumBounded | streamlit_app.py:105-112 | with no negative amount, the top-three sum is between 0 and the total |
| Metrics.Concentration | streamlit_app.py:111-115 | no value ("N/A") exactly for an empty table, and 0 when the total is not positive |
| Metrics.Kpis | streamlit_app.py:105-115 | the count is the number of rows |
| Metrics.ConcentrationInRange | streamlit_app.py:112 | with no negative amount and a positive total, the concentration is a percentage from 0 to 100 |
| Metrics.ConcentrationOfFew | streamlit_app.py:112 | with three numeric amounts or fewer and a positive total, the concentration is 100 |
| Metrics.PrefixAverage | streamlit_app.py:112 | in a descending sequence the first k values average at least as much as all of them |
| Metrics.ConcentrationFloor | streamlit_app.py:112 | with a positive total, the concentration is at least 100 · min(3, n) / n for n numeric amounts |
| Metrics.TotalOfOne | streamlit_app.py:105 | a one-row table totals its amount, or 0 for a non-number |
| Metrics.AddRaisesTotal | streamlit_app.py:67-68 | an accepted add raises the total by the amount and the count by one |
| Metrics.ApplyEditsKeepsTotal | streamlit_app.py:90 | applying changes keeps the total and the count |
| Metrics.KeepLowersTotal | streamlit_app.py:81 | with no negative amount, deleting never raises the total |
| Dashboard.Session.constructor | streamlit_app.py:34-35 | the first page load stores the loaded table |
| Dashboard.Session.Add | streamlit_app.py:58-70 | the two refusals under the conditions of AddTicker, each leaving the stored table unchanged; on success the stored table is the edited rows plus the new row |
| Dashboard.Session.DeleteSelected | streamlit_app.py:76-83 | refused, leaving the stored table unchanged, exactly when the selection is empty; otherwise the stored table is the unselected edited rows |
| Dashboard.Session.ApplyEdits | streamlit_app.py:86-93 | never refused; the stored table becomes the normalised edited rows |

## Left out

- The page itself is not modelled: widgets, layout, messages, `experimental_rerun`, and `session_state` beyond the
  one stored table (`streamlit_app.py:8-10, 40-56, 95-99`).
- Caching of the loader (`@st.cache_data`) is not modelled.
- Reading the CSV file (`pd.read_csv`) is not modelled. The loader starts from the parsed file: its column names
  and each record's ticker text and amount, or nothing when reading failed.
- What the user does in the data editor is not modelled, nor the fallback to the experimental editor
  (`streamlit_app.py:46-50`). The editor's rows are a parameter of each button.
- Portfolio.Load, Portfolio.ApplyEdits and Portfolio.AddTicker: a ticker is always text (`Row.ticker` is a
  string), so a ticker cell that is empty or not text is not represented. In the code, `astype(str)` would turn
  a NaN or `None` ticker into "nan" or "None" on load (`streamlit_app.py:25`) and into "NAN" or "NONE" when
  changes are applied (`streamlit_app.py:89`). The `in` test of the duplicate check (`streamlit_app.py:64`)
  would not match such a cell against the text "None".
- Writing the table as CSV bytes (`df_to_csv_bytes`, `streamlit_app.py:28-31`) and the download button are not
  modelled.
- The charts and the sorted display table (`streamlit_app.py:118-131`) are rendering only.
- Metrics.Kpis: amounts are mathematical reals, not IEEE doubles. Rounding in the sums and in the percentage
  division is not modelled.
- The display formatting of the indicators (`streamlit_app.py:108-113`) is not modelled.
- Text.Upper: only ASCII letters are upper-cased. Python's `str.upper` also maps letters outside ASCII, and
  some of them to more than one character.
- Text.Strip: the whitespace set is the list `str.isspace` accepts, written out as a finite set of code points.
- pandas row indices (`ignore_index`, `reset_index`) are not modelled. Rows are identified by position.
- Persisting the file to a remote repository, undo and retries are not in `streamlit_app.py`.
