/** The historical-prices endpoint of IexRestController: the service's answer, post-processed by
  * insertSymbol so that every row carries the requested symbol. */
module Controller {
  import opened Wrappers
  import opened Domain
  import opened Calendar
  import opened Service

  /** Two rows that agree on everything but the symbol. */
  predicate SameQuote(a: HistoricalPrice, b: HistoricalPrice) {
    a.date == b.date && a.open == b.open && a.low == b.low && a.close == b.close
    && a.high == b.high && a.volume == b.volume
  }

  /** The rows with their symbol set to `symbol`, in the same order. */
  function WithSymbol(prices: seq<HistoricalPrice>, symbol: string): (r: seq<HistoricalPrice>)
    ensures |r| == |prices|
    ensures forall i | 0 <= i < |r| :: r[i].symbol == symbol && SameQuote(r[i], prices[i])
  {
    if prices == [] then [] else [prices[0].(symbol := symbol)] + WithSymbol(prices[1..], symbol)
  }

  /** Setting the symbol twice is setting it once. */
  lemma {:induction false} WithSymbolIdempotent(prices: seq<HistoricalPrice>, symbol: string)
    ensures WithSymbol(WithSymbol(prices, symbol), symbol) == WithSymbol(prices, symbol)
  {
    if prices != [] {
      var r := WithSymbol(prices, symbol);
      assert r[1..] == WithSymbol(prices[1..], symbol);
      WithSymbolIdempotent(prices[1..], symbol);
    }
  }

  /** Rows change exactly when some row carries another symbol. */
  lemma {:induction false} WithSymbolUnchangedIff(prices: seq<HistoricalPrice>, symbol: string)
    ensures WithSymbol(prices, symbol) == prices
        <==> forall i | 0 <= i < |prices| :: prices[i].symbol == symbol
  {
    if prices != [] {
      WithSymbolUnchangedIff(prices[1..], symbol);
      if WithSymbol(prices, symbol) == prices {
        assert WithSymbol(prices, symbol)[1..] == prices[1..];
      }
    }
  }

  class IexRestController {
    const iexService: IexService

    constructor (iexService: IexService)
      ensures this.iexService == iexService
    {
      this.iexService := iexService;
    }

    /** insertSymbol: sets the symbol of every row in place and hands back the same list. */
    method InsertSymbol(prices: array<HistoricalPrice>, symbol: string) returns (r: array<HistoricalPrice>)
      modifies prices
      ensures r == prices
      ensures prices[..] == WithSymbol(old(prices[..]), symbol)
    {
      var i := 0;
      while i < prices.Length
        invariant 0 <= i <= prices.Length
        invariant forall j | 0 <= j < i :: prices[j] == old(prices[j]).(symbol := symbol)
        invariant forall j | i <= j < prices.Length :: prices[j] == old(prices[j])
      {
        prices[i] := prices[i].(symbol := symbol);
        i := i + 1;
      }
      r := prices;
    }

    /** getHistoricalPrices: the service's answer for the symbol, range and date (the date
      * parameter defaults to the empty string, never null), with the symbol inserted into every
      * row. `served` is the service's own answer. */
    method GetHistoricalPrices(symbol: string, range: string, date: string, today: Date)
      returns (r: Result<seq<HistoricalPrice>, Failure>, ghost served: Result<seq<HistoricalPrice>, Failure>)
      requires iexService.Valid() && ValidDate(today)
      modifies iexService, iexService.client, iexService.store
      ensures iexService.Valid()
      ensures symbol == [] ==> r == Success([]) && iexService.NoUpstreamCall()
      ensures symbol == [] ==> iexService.store.rows == old(iexService.store.rows) && iexService.WatermarkUnchanged()
      ensures symbol != [] ==> iexService.DateLookup(symbol, date, served)
      ensures r == if served.Success? then Success(WithSymbol(served.value, symbol)) else served
      ensures r.Success? ==> forall i | 0 <= i < |r.value| :: r.value[i].symbol == symbol
      ensures symbol != [] && |date| < 6 ==> r == Failure(StringIndexOutOfBounds)
    {
      var answer := iexService.GetHistoricalPrices(symbol, range, Some(date), today);
      served := answer;
      if answer.Failure? {
        return answer, served;
      }
      var rows := answer.value;
      var prices := new HistoricalPrice[|rows|](i requires 0 <= i < |rows| => rows[i]);
      assert prices[..] == rows;
      prices := InsertSymbol(prices, symbol);
      r := Success(prices[..]);
    }
  }
}
