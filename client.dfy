/** The remote market-data client, seen from the service: the four calls the service makes
  * (IexService.java:63, :77, :111, :164), answered by an oracle, with a ghost log of every call
  * so that "no upstream call" can be stated. */
module Client {
  import opened Wrappers
  import opened Domain

  /** A call the service makes, with the arguments it passes (the API token may be null). */
  datatype Call =
    | AllSymbols(token: Option<string>)
    | LastTradedPrices(symbols: seq<string>, token: Option<string>)
    | HistoricalPriceForDate(symbol: string, date: string, chartByDay: bool, token: Option<string>)
    | HistoricalPriceForRange(symbol: string, range: string, token: Option<string>)

  /** The remote API. Each answer may depend on how many calls came before it, so the same
    * request can be answered differently over time; None is a failed HTTP exchange. */
  datatype Upstream = Upstream(
    allSymbols: (nat, Option<string>) -> Option<seq<IexSymbol>>,
    lastTraded: (nat, seq<string>, Option<string>) -> Option<seq<LastTradedPrice>>,
    forDate: (nat, string, string, bool, Option<string>) -> Option<seq<HistoricalPrice>>,
    forRange: (nat, string, string, Option<string>) -> Option<seq<HistoricalPrice>>)

  /** A failed exchange surfaces as an exception that the service does not catch. */
  function Reply<T>(answer: Option<T>): (r: Result<T, Failure>)
    ensures r.Success? <==> answer.Some?
    ensures r.Success? ==> r.value == answer.value
    ensures r.Failure? ==> r.error == UpstreamError
  {
    match answer
    case Some(v) => Success(v)
    case None => Failure(UpstreamError)
  }

  class IexClient {
    const upstream: Upstream
    /** How many calls have been made; the oracle's notion of time. */
    var calls: nat
    ghost var log: seq<Call>

    ghost predicate Valid()
      reads this
    {
      calls == |log|
    }

    constructor (upstream: Upstream)
      ensures Valid() && this.upstream == upstream && log == []
    {
      this.upstream := upstream;
      calls := 0;
      log := [];
    }

    method GetAllSymbols(token: Option<string>) returns (r: Result<seq<IexSymbol>, Failure>)
      requires Valid()
      modifies this
      ensures Valid()
      ensures log == old(log) + [AllSymbols(token)]
      ensures r == Reply(upstream.allSymbols(old(calls), token))
    {
      r := Reply(upstream.allSymbols(calls, token));
      calls := calls + 1;
      log := log + [AllSymbols(token)];
    }

    method GetLastTradedPriceForSymbols(symbols: seq<string>, token: Option<string>)
      returns (r: Result<seq<LastTradedPrice>, Failure>)
      requires Valid()
      modifies this
      ensures Valid()
      ensures log == old(log) + [LastTradedPrices(symbols, token)]
      ensures r == Reply(upstream.lastTraded(old(calls), symbols, token))
    {
      r := Reply(upstream.lastTraded(calls, symbols, token));
      calls := calls + 1;
      log := log + [LastTradedPrices(symbols, token)];
    }

    method GetHistoricalPriceForDate(symbol: string, date: string, chartByDay: bool, token: Option<string>)
      returns (r: Result<seq<HistoricalPrice>, Failure>)
      requires Valid()
      modifies this
      ensures Valid()
      ensures log == old(log) + [HistoricalPriceForDate(symbol, date, chartByDay, token)]
      ensures r == Reply(upstream.forDate(old(calls), symbol, date, chartByDay, token))
    {
      r := Reply(upstream.forDate(calls, symbol, date, chartByDay, token));
      calls := calls + 1;
      log := log + [HistoricalPriceForDate(symbol, date, chartByDay, token)];
    }

    method GetHistoricalPriceForRange(symbol: string, range: string, token: Option<string>)
      returns (r: Result<seq<HistoricalPrice>, Failure>)
      requires Valid()
      modifies this
      ensures Valid()
      ensures log == old(log) + [HistoricalPriceForRange(symbol, range, token)]
      ensures r == Reply(upstream.forRange(old(calls), symbol, range, token))
    {
      r := Reply(upstream.forRange(calls, symbol, range, token));
      calls := calls + 1;
      log := log + [HistoricalPriceForRange(symbol, range, token)];
    }
  }
}
