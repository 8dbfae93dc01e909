/**
 * The portfolio table of the dashboard: an ordered sequence of
 * (ticker, amount_ARS) rows, how it is read from a parsed CSV file and the
 * three edits the left-hand panel's buttons make to it. Every edit is a
 * function of the data editor's current rows; the session that holds the
 * table is in module Dashboard.
 */
module Portfolio {
  import opened Wrappers
  import opened Text

  const TickerColumn: string := "ticker"
  const AmountColumn: string := "amount_ARS"

  /**
   * One row. `amount` is `None` where the cell holds no number (pandas' NaN:
   * text that did not parse, or a cell left blank in the editor).
   */
  datatype Row = Row(ticker: string, amount: Option<real>)

  /**
   * A CSV file as the parser returns it: the set of column names, and for
   * each record the text of its `ticker` cell and the number (if any) in its
   * `amount_ARS` cell. The other columns' cells are not represented, since
   * the loader drops them.
   */
  datatype Frame = Frame(columns: set<string>, rows: seq<Row>)

  /** Why a button press was refused; each is a warning the page shows. */
  datatype Rejection =
    | BlankTickerOrAmount   // the ticker is blank or the amount is not positive
    | DuplicateTicker       // the stripped ticker is already in the table
    | EmptySelection        // nothing was selected for deletion

  /** What an edit produces: the table to store, or the reason it was refused. */
  datatype Outcome = Accepted(rows: seq<Row>) | Rejected(reason: Rejection)

  /** `pd.to_numeric(..., errors='coerce').fillna(0)` on one cell. */
  function Coerce(a: Option<real>): (x: real)
    ensures a.Some? ==> x == a.value
    ensures a.None? ==> x == 0.0
  {
    a.GetOr(0.0)
  }

  /** Every amount in `rows` is a number. */
  predicate Numeric(rows: seq<Row>) {
    forall i :: 0 <= i < |rows| ==> rows[i].amount.Some?
  }

  /** Some row of `rows` has exactly the ticker `t`. */
  predicate HasTicker(rows: seq<Row>, t: string) {
    exists i :: 0 <= i < |rows| && rows[i].ticker == t
  }

  predicate HasRequiredColumns(f: Frame) {
    TickerColumn in f.columns && AmountColumn in f.columns
  }

  /** One row as the loader keeps it: ticker stripped, amount coerced. */
  function LoadRow(row: Row): Row {
    Row(Strip(row.ticker), Some(Coerce(row.amount)))
  }

  /** One row as "apply the table's changes" keeps it: ticker stripped and upper-cased, amount coerced. */
  function CleanRow(row: Row): Row {
    Row(Upper(Strip(row.ticker)), Some(Coerce(row.amount)))
  }

  /**
   * `load_portfolio`: no table (`None`, the read failed) or a table lacking
   * either required column gives an empty portfolio; otherwise every record
   * is kept, in order, with its ticker stripped (not upper-cased) and a
   * non-numeric amount replaced by 0.
   */
  function Load(source: Option<Frame>): (r: seq<Row>)
    ensures source.None? ==> r == []
    ensures source.Some? && !HasRequiredColumns(source.value) ==> r == []
    ensures source.Some? && HasRequiredColumns(source.value) ==>
      |r| == |source.value.rows| &&
      forall i :: 0 <= i < |r| ==>
        r[i].ticker == Strip(source.value.rows[i].ticker) &&
        r[i].amount == Some(Coerce(source.value.rows[i].amount))
  {
    match source
    case None => []
    case Some(f) =>
      if !HasRequiredColumns(f) then []
      else seq(|f.rows|, i requires 0 <= i < |f.rows| => LoadRow(f.rows[i]))
  }

  /**
   * The "Aplicar cambios" button: every edited row is kept in place, with its
   * ticker stripped and upper-cased and a non-numeric amount replaced by 0.
   */
  function ApplyEdits(edited: seq<Row>): (r: seq<Row>)
    ensures |r| == |edited|
    ensures Numeric(r)
    ensures forall i :: 0 <= i < |r| ==>
      r[i].ticker == Upper(Strip(edited[i].ticker)) && r[i].amount == Some(Coerce(edited[i].amount))
  {
    seq(|edited|, i requires 0 <= i < |edited| => CleanRow(edited[i]))
  }

  /**
   * The "Agregar ticker" button. It is refused when the ticker is blank or the
   * amount is not positive, and refused when the stripped ticker (with its
   * case as typed) is already a ticker of the edited rows. Otherwise the
   * edited rows are kept and one row is appended: the stripped, upper-cased
   * ticker with the amount.
   */
  function AddTicker(edited: seq<Row>, ticker: string, amount: real): (o: Outcome)
    ensures o == Rejected(BlankTickerOrAmount) <==> AllSpace(ticker) || amount <= 0.0
    ensures o == Rejected(DuplicateTicker) <==>
      !AllSpace(ticker) && amount > 0.0 && HasTicker(edited, Strip(ticker))
    ensures o.Accepted? ==>
      |o.rows| == |edited| + 1 && o.rows[..|edited|] == edited &&
      o.rows[|edited|] == Row(Upper(Strip(ticker)), Some(amount))
    ensures o != Rejected(EmptySelection)
  {
    StripBlank(ticker);
    var t := Strip(ticker);
    if t == [] || amount <= 0.0 then Rejected(BlankTickerOrAmount)
    else if HasTicker(edited, t) then Rejected(DuplicateTicker)
    else Accepted(edited + [Row(Upper(t), Some(amount))])
  }

  /**
   * The rows whose ticker is not in `selection`, in their original order:
   * the mask `~d['ticker'].isin(selection)`.
   */
  function Keep(rows: seq<Row>, selection: seq<string>): (r: seq<Row>)
    ensures |r| <= |rows|
    ensures forall k :: 0 <= k < |r| ==> r[k].ticker !in selection
  {
    if rows == [] then []
    else
      var last := rows[|rows| - 1];
      Keep(rows[..|rows| - 1], selection) + (if last.ticker in selection then [] else [last])
  }

  /**
   * The positions of `rows` that Keep retains, in increasing order: exactly the
   * positions whose ticker is not selected.
   */
  function KeptPositions(rows: seq<Row>, selection: seq<string>): (p: seq<nat>)
    ensures forall k :: 0 <= k < |p| ==> p[k] < |rows|
    ensures forall k, l :: 0 <= k < l < |p| ==> p[k] < p[l]
    ensures forall i :: 0 <= i < |rows| ==> (i in p <==> rows[i].ticker !in selection)
  {
    if rows == [] then []
    else
      var n := |rows| - 1;
      var p := KeptPositions(rows[..n], selection);
      assert forall i :: 0 <= i < n ==> rows[..n][i] == rows[i];
      p + (if rows[n].ticker in selection then [] else [n])
  }

  /**
   * The "Eliminar seleccionados" button: refused when nothing is selected;
   * otherwise the edited rows whose ticker is not selected, in order.
   */
  function DeleteSelected(edited: seq<Row>, selection: seq<string>): (o: Outcome)
    ensures o.Rejected? <==> selection == []
    ensures o.Rejected? ==> o.reason == EmptySelection
    ensures o.Accepted? ==> o.rows == Keep(edited, selection)
  {
    if selection == [] then Rejected(EmptySelection) else Accepted(Keep(edited, selection))
  }

  // ---------- Load ----------

  /** A loaded table has a number in every row and no whitespace around any ticker. */
  lemma LoadIsClean(source: Option<Frame>)
    ensures Numeric(Load(source))
    ensures forall i :: 0 <= i < |Load(source)| ==> Trimmed(Load(source)[i].ticker)
  {
  }

  /**
   * Load is idempotent on its own output: loading a two-column file that
   * holds a loaded table gives that table. (Writing the file is not
   * modelled, and a ticker cell left empty would not read back as "".)
   */
  lemma LoadReload(source: Option<Frame>)
    ensures Load(Some(Frame({TickerColumn, AmountColumn}, Load(source)))) == Load(source)
  {
    var r := Load(source);
    var r' := Load(Some(Frame({TickerColumn, AmountColumn}, r)));
    forall i | 0 <= i < |r| ensures r'[i] == r[i] {
      StripIdempotent(if source.Some? then source.value.rows[i].ticker else []);
    }
  }

  // ---------- Apply edits ----------

  /** After applying the table's changes every ticker is stripped and upper-case. */
  lemma ApplyEditsNormalises(edited: seq<Row>)
    ensures forall i :: 0 <= i < |ApplyEdits(edited)| ==>
      Trimmed(ApplyEdits(edited)[i].ticker) && !HasLowercase(ApplyEdits(edited)[i].ticker)
  {
    forall i | 0 <= i < |edited| ensures Trimmed(ApplyEdits(edited)[i].ticker) {
      StripUpperTrimmed(edited[i].ticker);
    }
  }

  /** Applying the table's changes twice gives what applying them once gives. */
  lemma ApplyEditsIdempotent(edited: seq<Row>)
    ensures ApplyEdits(ApplyEdits(edited)) == ApplyEdits(edited)
  {
    var once := ApplyEdits(edited);
    var twice := ApplyEdits(once);
    forall i | 0 <= i < |edited| ensures twice[i] == once[i] {
      StripUpperIdempotent(edited[i].ticker);
    }
  }

  /** Applying the table's changes to a freshly loaded table only upper-cases its tickers. */
  lemma ApplyEditsAfterLoad(source: Option<Frame>)
    ensures |ApplyEdits(Load(source))| == |Load(source)|
    ensures forall i :: 0 <= i < |Load(source)| ==>
      ApplyEdits(Load(source))[i] == Row(Upper(Load(source)[i].ticker), Load(source)[i].amount)
  {
    var r := Load(source);
    forall i | 0 <= i < |r| ensures ApplyEdits(r)[i] == Row(Upper(r[i].ticker), r[i].amount) {
      StripIdempotent(source.value.rows[i].ticker);
    }
  }

  // ---------- Add ----------

  /** A ticker that is not blank, with a positive amount and not already present, is appended. */
  lemma AddAcceptsFresh(edited: seq<Row>, ticker: string, amount: real)
    requires !AllSpace(ticker) && amount > 0.0 && !HasTicker(edited, Strip(ticker))
    ensures AddTicker(edited, ticker, amount) == Accepted(edited + [Row(Upper(Strip(ticker)), Some(amount))])
  {
  }

  /**
   * The duplicate check compares the stripped ticker as typed, while the row
   * it appends holds the upper-cased ticker: typing "abcd" next to an existing
   * "ABCD" is accepted and leaves two "ABCD" rows.
   */
  lemma AddAdmitsCaseVariant()
    ensures AddTicker([Row("ABCD", Some(1000.0))], "abcd", 500.0)
         == Accepted([Row("ABCD", Some(1000.0)), Row("ABCD", Some(500.0))])
  {
    AbcdNotBlank();
    LowerAbcdIsFresh();
    AddAcceptsFresh([Row("ABCD", Some(1000.0))], "abcd", 500.0);
    StripUpperAbcd();
  }

  /** Adding "ABCD" to an empty table appends it. */
  lemma AddAbcdToEmpty()
    ensures AddTicker([], "ABCD", 1000.0) == Accepted([Row("ABCD", Some(1000.0))])
  {
    AbcdNotBlank();
    AddAcceptsFresh([], "ABCD", 1000.0);
    StripUpperCapitals();
  }

  /** "ABCD" is refused as a duplicate by a table that holds it. */
  lemma AddAbcdAgain(edited: seq<Row>)
    requires |edited| > 0 && edited[0].ticker == "ABCD"
    ensures AddTicker(edited, "ABCD", 1.0) == Rejected(DuplicateTicker)
  {
    AbcdNotBlank();
    AbcdIsStripped();
  }

  lemma StripUpperAbcd()
    ensures Upper(Strip("abcd")) == "ABCD"
  {
    AbcdIsStripped();
    UpperAbcd();
  }

  lemma StripUpperCapitals()
    ensures Upper(Strip("ABCD")) == "ABCD"
  {
    AbcdIsStripped();
    UpperAbcd();
  }

  lemma LowerAbcdIsFresh()
    ensures !HasTicker([Row("ABCD", Some(1000.0))], Strip("abcd"))
  {
    AbcdIsStripped();
    NoLowercaseAbcd();
  }

  lemma AbcdIsStripped()
    ensures Strip("abcd") == "abcd" && Strip("ABCD") == "ABCD"
  {
    var lower, upper := "abcd", "ABCD";
    assert !IsSpace(lower[0]) && !IsSpace(lower[3]);
    assert !IsSpace(upper[0]) && !IsSpace(upper[3]);
    StripTrimmed(lower);
    StripTrimmed(upper);
  }

  lemma AbcdNotBlank()
    ensures !AllSpace("abcd") && !AllSpace("ABCD")
  {
    var lower, upper := "abcd", "ABCD";
    assert !IsSpace(lower[0]) && !IsSpace(upper[0]);
  }

  lemma UpperAbcd()
    ensures Upper("abcd") == "ABCD" && Upper("ABCD") == "ABCD"
  {
    var u, v := Upper("abcd"), Upper("ABCD");
    assert u[0] == 'A' && u[1] == 'B' && u[2] == 'C' && u[3] == 'D';
    assert v[0] == 'A' && v[1] == 'B' && v[2] == 'C' && v[3] == 'D';
  }

  lemma NoLowercaseAbcd()
    ensures !HasTicker([Row("ABCD", Some(1000.0))], "abcd")
  {
    var table := [Row("ABCD", Some(1000.0))];
    assert table[0].ticker[0] != "abcd"[0];
  }

  /**
   * A ticker typed in lower case is accepted again after it was added, so
   * repeating the same add makes a second row with the same ticker.
   */
  lemma AddRepeatsLowercase(edited: seq<Row>, ticker: string, amount: real, again: real)
    requires AddTicker(edited, ticker, amount).Accepted?
    requires HasLowercase(Strip(ticker)) && again > 0.0
    ensures AddTicker(AddTicker(edited, ticker, amount).rows, ticker, again).Accepted?
  {
    var t := Strip(ticker);
    AddAcceptsFresh(edited, ticker, amount);
    UpperChanges(t);
    AppendKeepsFresh(edited, t, Row(Upper(t), Some(amount)));
    AddAcceptsFresh(edited + [Row(Upper(t), Some(amount))], ticker, again);
  }

  /** A ticker is in two tables put end to end exactly when it is in one of them. */
  lemma HasTickerAppend(a: seq<Row>, b: seq<Row>, t: string)
    ensures HasTicker(a + b, t) <==> HasTicker(a, t) || HasTicker(b, t)
  {
    if HasTicker(a + b, t) {
      var i :| 0 <= i < |a + b| && (a + b)[i].ticker == t;
      if i >= |a| { assert b[i - |a|] == (a + b)[i]; }
    }
    if HasTicker(a, t) {
      var j :| 0 <= j < |a| && a[j].ticker == t;
      assert (a + b)[j] == a[j];
    }
    if HasTicker(b, t) {
      var j :| 0 <= j < |b| && b[j].ticker == t;
      assert (a + b)[|a| + j] == b[j];
    }
  }

  /** Appending a row with another ticker keeps a ticker absent. */
  lemma AppendKeepsFresh(rows: seq<Row>, t: string, row: Row)
    requires !HasTicker(rows, t) && row.ticker != t
    ensures !HasTicker(rows + [row], t)
  {
    forall i | 0 <= i < |rows + [row]| ensures (rows + [row])[i].ticker != t {
      if i < |rows| { assert (rows + [row])[i] == rows[i]; }
    }
  }

  /**
   * A ticker typed stripped and in upper case is refused as a duplicate the
   * second time it is added.
   */
  lemma AddRejectsRepeatUppercase(edited: seq<Row>, ticker: string, amount: real, again: real)
    requires AddTicker(edited, ticker, amount).Accepted?
    requires Upper(Strip(ticker)) == Strip(ticker) && again > 0.0
    ensures AddTicker(AddTicker(edited, ticker, amount).rows, ticker, again) == Rejected(DuplicateTicker)
  {
    var rows := AddTicker(edited, ticker, amount).rows;
    assert rows[|edited|].ticker == Strip(ticker);
  }

  // ---------- Delete ----------

  /** Keep retains exactly the rows at KeptPositions, in that order. */
  lemma {:induction false} KeepAtKeptPositions(rows: seq<Row>, selection: seq<string>)
    ensures |Keep(rows, selection)| == |KeptPositions(rows, selection)|
    ensures forall k :: 0 <= k < |Keep(rows, selection)| ==>
      Keep(rows, selection)[k] == rows[KeptPositions(rows, selection)[k]]
  {
    if rows != [] {
      var n := |rows| - 1;
      var front := rows[..n];
      KeepAtKeptPositions(front, selection);
      var kf, pf := Keep(front, selection), KeptPositions(front, selection);
      var kept := rows[n].ticker !in selection;
      assert Keep(rows, selection) == kf + (if kept then [rows[n]] else []);
      assert KeptPositions(rows, selection) == pf + (if kept then [n] else []);
      forall k | 0 <= k < |kf| ensures kf[k] == rows[pf[k]] {
        assert front[pf[k]] == rows[pf[k]];
      }
    }
  }

  /** Deleting from the concatenation of two tables deletes from each part. */
  lemma {:induction false} KeepAppend(a: seq<Row>, b: seq<Row>, selection: seq<string>)
    ensures Keep(a + b, selection) == Keep(a, selection) + Keep(b, selection)
  {
    if b == [] {
      assert a + b == a;
    } else {
      var n := |b| - 1;
      var last := b[n];
      var tail := if last.ticker in selection then [] else [last];
      assert (a + b)[..|a + b| - 1] == a + b[..n];
      assert (a + b)[|a + b| - 1] == last;
      assert Keep(a + b, selection) == Keep(a + b[..n], selection) + tail;
      KeepAppend(a, b[..n], selection);
      assert Keep(b, selection) == Keep(b[..n], selection) + tail;
    }
  }

  /** Nothing is removed exactly when no row's ticker is selected. */
  lemma {:induction false} KeepAll(rows: seq<Row>, selection: seq<string>)
    ensures Keep(rows, selection) == rows <==>
      forall i :: 0 <= i < |rows| ==> rows[i].ticker !in selection
  {
    if rows != [] {
      var n := |rows| - 1;
      KeepAll(rows[..n], selection);
      if Keep(rows, selection) == rows {
        assert rows[n] == Keep(rows, selection)[n];
        assert Keep(rows[..n], selection) == rows[..n] by {
          assert Keep(rows, selection) == Keep(rows[..n], selection) + [rows[n]];
        }
      }
    }
  }

  /** Deleting the same selection again removes nothing more. */
  lemma KeepIdempotent(rows: seq<Row>, selection: seq<string>)
    ensures Keep(Keep(rows, selection), selection) == Keep(rows, selection)
  {
    KeepAll(Keep(rows, selection), selection);
  }

  /** Every row the selection does not name survives the deletion, as often as it occurred. */
  lemma {:induction false} KeepCounts(rows: seq<Row>, selection: seq<string>, row: Row)
    ensures multiset(Keep(rows, selection))[row] ==
      if row.ticker in selection then 0 else multiset(rows)[row]
  {
    if rows != [] {
      var n := |rows| - 1;
      assert rows == rows[..n] + [rows[n]];
      KeepCounts(rows[..n], selection, row);
    }
  }
}
