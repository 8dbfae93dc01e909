/**
 * The table the dashboard keeps between reruns (`st.session_state.df`) and
 * the three buttons of the left-hand panel that replace it. Each button works
 * on `edited`, the rows the data editor currently shows, and on success
 * stores a new table; on refusal the stored table stays as it was.
 */
module Dashboard {
  import opened Wrappers
  import opened Text
  import opened Portfolio

  /** What a button press did: replaced the table, or showed a warning. */
  datatype Status = Applied | Refused(reason: Rejection)

  /** The status a pure edit outcome corresponds to. */
  function StatusOf(o: Outcome): (s: Status)
    ensures s.Applied? <==> o.Accepted?
    ensures o.Rejected? ==> s == Refused(o.reason)
  {
    match o
    case Accepted(_) => Applied
    case Rejected(reason) => Refused(reason)
  }

  class Session {
    /** The stored portfolio, in row order. */
    var table: seq<Row>

    /** The first page load: the table is the one the loader gives. */
    constructor (source: Option<Frame>)
      ensures table == Load(source)
    {
      table := Load(source);
    }

    /**
     * "Agregar ticker": refused when the stripped ticker is empty or the
     * amount is not positive, refused when the stripped ticker already is a
     * ticker of the edited rows; otherwise the edited rows with one new row
     * appended become the table.
     */
    method Add(edited: seq<Row>, ticker: string, amount: real) returns (status: Status)
      modifies this
      ensures status == Refused(BlankTickerOrAmount) <==> AllSpace(ticker) || amount <= 0.0
      ensures status == Refused(DuplicateTicker) <==>
        !AllSpace(ticker) && amount > 0.0 && HasTicker(edited, Strip(ticker))
      ensures status.Refused? ==> table == old(table)
      ensures status.Applied? ==> table == edited + [Row(Upper(Strip(ticker)), Some(amount))]
      ensures status == StatusOf(AddTicker(edited, ticker, amount))
      ensures status.Applied? ==> table == AddTicker(edited, ticker, amount).rows
    {
      StripBlank(ticker);
      var t := Strip(ticker);
      if t == [] || amount <= 0.0 {
        status := Refused(BlankTickerOrAmount);
      } else {
        var d := edited;
        if HasTicker(d, t) {
          status := Refused(DuplicateTicker);
        } else {
          d := d + [Row(Upper(t), Some(amount))];
          table := d;
          status := Applied;
        }
      }
    }

    /**
     * "Eliminar seleccionados": refused when nothing is selected; otherwise
     * the edited rows whose ticker is not selected become the table.
     */
    method DeleteSelected(edited: seq<Row>, selection: seq<string>) returns (status: Status)
      modifies this
      ensures status.Refused? <==> selection == []
      ensures status.Refused? ==> status.reason == EmptySelection && table == old(table)
      ensures status.Applied? ==> table == Keep(edited, selection)
      ensures status == StatusOf(Portfolio.DeleteSelected(edited, selection))
    {
      if selection == [] {
        status := Refused(EmptySelection);
      } else {
        var d := edited;
        d := Keep(d, selection);
        table := d;
        status := Applied;
      }
    }

    /**
     * "Aplicar cambios de la tabla": the edited rows, with tickers stripped
     * and upper-cased and amounts coerced, become the table. It is never refused.
     */
    method ApplyEdits(edited: seq<Row>) returns (status: Status)
      modifies this
      ensures status == Applied
      ensures table == Portfolio.ApplyEdits(edited)
    {
      var cleaned := Portfolio.ApplyEdits(edited);
      table := cleaned;
      status := Applied;
    }
  }
}
