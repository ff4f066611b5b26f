/** IexService: the decision between an empty answer, the single-date path, a range served from
  * the store and a range fetched upstream, with the watermark that drives the range decision. */
module Service {
  import opened Wrappers
  import opened Domain
  import opened Text
  import opened Calendar
  import opened Client
  import opened Repository

  /** formatDate: YYYYMMDD to YYYY-MM-DD by position only, nothing is validated. */
  function FormatDate(date: string): (r: Result<string, Failure>)
    ensures r.Success? <==> |date| >= 6
    ensures r.Failure? ==> r.error == StringIndexOutOfBounds
    ensures r.Success? ==> |r.value| == |date| + 2 && r.value[4] == '-' && r.value[7] == '-'
    ensures r.Success? ==> r.value[..4] + r.value[5..7] + r.value[8..] == date
  {
    if |date| < 6 then Failure(StringIndexOutOfBounds)
    else
      var r := date[..4] + "-" + date[4..6] + "-" + date[6..];
      assert r[..4] == date[..4] && r[5..7] == date[4..6] && r[8..] == date[6..];
      assert date == date[..4] + date[4..6] + date[6..];
      Success(r)
  }

  /** The basic form YYYYMMDD of a date with a year of at most four digits. */
  function BasicIsoString(d: Date): string
    requires ValidDate(d) && 0 <= d.year
  {
    Fixed(d.year, 4) + Fixed(d.month, 2) + Fixed(d.day, 2)
  }

  /** On a well-formed basic date, formatDate yields exactly the text LocalDate.toString gives
    * that date, which is the key the store holds. */
  lemma FormatDateOfBasicDate(d: Date)
    requires ValidDate(d) && 0 <= d.year <= 9999
    ensures FormatDate(BasicIsoString(d)) == Success(IsoString(d))
  {
    IsoStringFixedWidth(d);
    var b := BasicIsoString(d);
    assert b[..4] == Fixed(d.year, 4);
    assert b[4..6] == Fixed(d.month, 2);
    assert b[6..] == Fixed(d.day, 2);
    assert b[..4] + "-" + b[4..6] + "-" + b[6..]
      == Fixed(d.year, 4) + ("-" + (Fixed(d.month, 2) + ("-" + Fixed(d.day, 2))));
  }

  /** formatDate does not check the calendar: month 13, day 32 pass through. */
  lemma FormatDateDoesNotValidate()
    ensures FormatDate("20201332") == Success("2020-13-32")
  {
    var date := "20201332";
    assert date[..4] == "2020" && date[4..6] == "13" && date[6..] == "32";
    assert "2020" + "-" + "13" + "-" + "32" == "2020-13-32";
  }

  /** The unit named by the last character of a range: 'm' months, 'y' years, anything else days. */
  function UnitOf(suffix: char): (u: ChronoUnit)
    ensures u == Months <==> suffix == 'm'
    ensures u == Years <==> suffix == 'y'
  {
    if suffix == 'm' then Months else if suffix == 'y' then Years else Days
  }

  /** rangeToStartDateHelper: `today` minus the amount written before the last character, in
    * the unit that character names. */
  function RangeToStartDate(range: string, today: Date): (r: Result<Date, Failure>)
    requires ValidDate(today)
    ensures r.Success? ==> ValidDate(r.value) && InSupportedRange(r.value)
    ensures |range| == 0 ==> r == Failure(StringIndexOutOfBounds)
    ensures |range| > 0 && ParseInt(range[..|range| - 1]).None? ==> r == Failure(NumberFormat)
  {
    if |range| == 0 then Failure(StringIndexOutOfBounds)
    else
      var unit := UnitOf(range[|range| - 1]);
      match ParseInt(range[..|range| - 1])
      case None => Failure(NumberFormat)
      case Some(amount) =>
        match Minus(today, amount, unit)
        case None => Failure(DateTimeOutOfRange)
        case Some(start) => Success(start)
  }

  /** The start is `today` moved back by the amount: before today for a positive amount, today for
    * zero, and after today for a negative one (parseInt accepts a leading '-'). */
  lemma RangeStartRelativeToToday(range: string, today: Date)
    requires ValidDate(today)
    requires RangeToStartDate(range, today).Success?
    ensures |range| > 0 && ParseInt(range[..|range| - 1]).Some?
    ensures var n, start := ParseInt(range[..|range| - 1]).value, RangeToStartDate(range, today).value;
      && start == Plus(today, -n, UnitOf(range[|range| - 1]))
      && (n > 0 ==> IsBefore(start, today))
      && (n == 0 ==> start == today)
      && (n < 0 ==> IsBefore(today, start))
  {
    var n := ParseInt(range[..|range| - 1]).value;
    PlusOrder(today, -n, UnitOf(range[|range| - 1]));
  }

  /** A range written as an amount followed by a unit code reads back as that amount and unit. */
  lemma RangeOfAmountAndUnit(n: int, code: char, today: Date)
    requires IntMin <= n <= IntMax && ValidDate(today)
    ensures RangeToStartDate(IntToString(n) + [code], today)
      == if Minus(today, n, UnitOf(code)).Some? then Success(Minus(today, n, UnitOf(code)).value)
         else Failure(DateTimeOutOfRange)
  {
    var range := IntToString(n) + [code];
    assert range[..|range| - 1] == IntToString(n);
    ParseIntOfIntToString(n);
  }

  /** An unrecognised unit letter is read as days: "1z" means the same as "1d". */
  lemma UnknownUnitMeansDays(amount: string, code: char, today: Date)
    requires code != 'm' && code != 'y' && ValidDate(today)
    ensures RangeToStartDate(amount + [code], today) == RangeToStartDate(amount + ['d'], today)
  {
    assert (amount + [code])[..|amount|] == amount;
    assert (amount + ['d'])[..|amount|] == amount;
  }

  /** The three branches of getHistoricalPrices; whether a range is served from the store or
    * fetched is decided afterwards, on the range path. */
  datatype Path = NoResult | SingleDate(date: string) | DateRange(range: string)

  /** The branch getHistoricalPrices takes; `date` None is a null date. A date, when present,
    * wins over any range. */
  function Route(symbol: string, range: string, date: Option<string>): (p: Path)
    ensures p == NoResult <==> symbol == [] || (range == "date" && date.None?)
    ensures p.SingleDate? <==> symbol != [] && date.Some?
    ensures p.SingleDate? ==> p.date == date.value
    ensures p.DateRange? ==> p.range == range && range != "date"
  {
    if symbol == [] then NoResult
    else if range == "date" then (if date.None? then NoResult else SingleDate(date.value))
    else if date.Some? then SingleDate(date.value)
    else DateRange(range)
  }

  /** With a date present, the range does not matter. */
  lemma DateTakesPrecedence(symbol: string, range1: string, range2: string, date: string)
    ensures Route(symbol, range1, Some(date)) == Route(symbol, range2, Some(date))
  {
  }

  /** A range starting at `start` is answered from the store when the watermark is set and
    * `start` is not before it. */
  predicate ServedFromStore(watermark: Option<Date>, start: Date) {
    watermark.Some? && !IsBefore(start, watermark.value)
  }

  /** The watermark after a range request starting at `start`: the earlier of the two. */
  function NextWatermark(watermark: Option<Date>, start: Date): (w: Option<Date>)
    ensures w.Some? && (w.value == start || w == watermark)
    ensures !IsBefore(start, w.value)
    ensures watermark.Some? ==> !IsBefore(watermark.value, w.value)
  {
    if ServedFromStore(watermark, start) then watermark else Some(start)
  }

  /** The watermark after a run of range requests from the cleared state. */
  function WatermarkAfter(starts: seq<Date>): Option<Date> {
    if starts == [] then None
    else NextWatermark(WatermarkAfter(starts[..|starts| - 1]), starts[|starts| - 1])
  }

  /** The watermark is the earliest start requested so far, and unset before the first request. */
  lemma {:induction false} WatermarkIsEarliestStart(starts: seq<Date>)
    ensures WatermarkAfter(starts).None? <==> starts == []
    ensures starts != [] ==> WatermarkAfter(starts).value in starts
    ensures starts != [] ==>
      forall j | 0 <= j < |starts| :: !IsBefore(starts[j], WatermarkAfter(starts).value)
  {
    if starts != [] {
      var init := starts[..|starts| - 1];
      WatermarkIsEarliestStart(init);
      assert forall j | 0 <= j < |init| :: starts[j] == init[j];
    }
  }

  /** A range request is served from the store exactly when some earlier range request, for any
    * symbol, started on or before it. */
  lemma ServedFromStoreIffCovered(starts: seq<Date>, start: Date)
    ensures ServedFromStore(WatermarkAfter(starts), start)
        <==> exists j | 0 <= j < |starts| :: !IsBefore(start, starts[j])
  {
    WatermarkIsEarliestStart(starts);
    if ServedFromStore(WatermarkAfter(starts), start) {
      var w := WatermarkAfter(starts).value;
      var j :| 0 <= j < |starts| && starts[j] == w;
      assert !IsBefore(start, starts[j]);
    }
  }

  /** Further requests never move the watermark later, and never unset it. */
  lemma {:induction false} WatermarkNeverLater(starts: seq<Date>, more: seq<Date>)
    requires WatermarkAfter(starts).Some?
    ensures WatermarkAfter(starts + more).Some?
    ensures !IsBefore(WatermarkAfter(starts).value, WatermarkAfter(starts + more).value)
    decreases |more|
  {
    if more != [] {
      var init := more[..|more| - 1];
      assert (starts + more)[..|starts + more| - 1] == starts + init;
      WatermarkNeverLater(starts, init);
    } else {
      assert starts + more == starts;
    }
  }

  class IexService {
    const client: IexClient
    const store: PriceStore
    /** The API token; None when the credentials file could not be read. */
    const key: Option<string>
    /** earliestRequestedRangeStart: None is null. */
    var earliestRequestedRangeStart: Option<Date>
    /** The start dates of the range requests since construction or the last reset, in order. */
    ghost var rangeStarts: seq<Date>

    ghost predicate Valid()
      reads this, client
    {
      client.Valid() && earliestRequestedRangeStart == WatermarkAfter(rangeStarts)
    }

    constructor (client: IexClient, store: PriceStore, key: Option<string>)
      requires client.Valid()
      ensures Valid()
      ensures this.client == client && this.store == store && this.key == key
      ensures earliestRequestedRangeStart == None && rangeStarts == []
    {
      this.client := client;
      this.store := store;
      this.key := key;
      earliestRequestedRangeStart := None;
      rangeStarts := [];
    }

    /** The upstream client was not called. */
    twostate predicate NoUpstreamCall()
      reads client
    {
      client.calls == old(client.calls) && client.log == old(client.log)
    }

    /** The watermark and the request history are as they were. */
    twostate predicate WatermarkUnchanged()
      reads this
    {
      earliestRequestedRangeStart == old(earliestRequestedRangeStart) && rangeStarts == old(rangeStarts)
    }

    /** What the single-date path (getHistoricalPriceForDate) does: look the formatted date up in
      * the store; on a hit return the stored rows without an upstream call; on a miss fetch the
      * day (passing the date as given), save exactly the fetched rows and return them. */
    twostate predicate DateLookup(symbol: string, date: string, new r: Result<seq<HistoricalPrice>, Failure>)
      reads this, client, store
    {
      var searchDate := FormatDate(date);
      && WatermarkUnchanged()
      && (searchDate.Failure? ==>
            r == Failure(searchDate.error) && NoUpstreamCall() && store.rows == old(store.rows))
      && (searchDate.Success? && old(store.ExistsBySymbolAndDate(symbol, searchDate.value)) ==>
            && r == Success(old(store.FindBySymbolAndDate(symbol, searchDate.value)))
            && NoUpstreamCall()
            && store.rows == old(store.rows))
      && (searchDate.Success? && !old(store.ExistsBySymbolAndDate(symbol, searchDate.value)) ==>
            && client.log == old(client.log) + [HistoricalPriceForDate(symbol, date, true, key)]
            && r == Reply(client.upstream.forDate(old(client.calls), symbol, date, true, key))
            && store.rows == old(store.rows) + (if r.Success? then r.value else []))
    }

    /** What the range path (getHistoricalPricesForRange) does: with the watermark set and the
      * start not before it, return the stored rows of the symbol dated from the start on, without
      * an upstream call; otherwise move the watermark to the start first, then fetch the range,
      * save exactly the fetched rows and return them. */
    twostate predicate RangeLookup(symbol: string, range: string, today: Date, new r: Result<seq<HistoricalPrice>, Failure>)
      requires ValidDate(today)
      reads this, client, store
    {
      var start := RangeToStartDate(range, today);
      && (start.Failure? ==>
            r == Failure(start.error) && NoUpstreamCall() && store.rows == old(store.rows) && WatermarkUnchanged())
      && (start.Success? ==> rangeStarts == old(rangeStarts) + [start.value])
      && (start.Success? && ServedFromStore(old(earliestRequestedRangeStart), start.value) ==>
            && r == Success(old(store.FindBySymbolAndDateGreaterThanEqual(symbol, IsoString(start.value))))
            && NoUpstreamCall()
            && store.rows == old(store.rows)
            && earliestRequestedRangeStart == old(earliestRequestedRangeStart))
      && (start.Success? && !ServedFromStore(old(earliestRequestedRangeStart), start.value) ==>
            && earliestRequestedRangeStart == Some(start.value)
            && client.log == old(client.log) + [HistoricalPriceForRange(symbol, range, key)]
            && r == Reply(client.upstream.forRange(old(client.calls), symbol, range, key))
            && store.rows == old(store.rows) + (if r.Success? then r.value else []))
    }

    /** getAllSymbols: one upstream call, its answer returned unchanged. */
    method GetAllSymbols() returns (r: Result<seq<IexSymbol>, Failure>)
      requires Valid()
      modifies client
      ensures Valid()
      ensures client.log == old(client.log) + [AllSymbols(key)]
      ensures r == Reply(client.upstream.allSymbols(old(client.calls), key))
    {
      r := client.GetAllSymbols(key);
    }

    /** getLastTradedPriceForSymbols: a null or empty list is answered empty without an upstream
      * call; otherwise all symbols go, in order, in one batched call. */
    method GetLastTradedPriceForSymbols(symbols: Option<seq<string>>) returns (r: Result<seq<LastTradedPrice>, Failure>)
      requires Valid()
      modifies client
      ensures Valid()
      ensures symbols.None? || symbols.value == [] ==> r == Success([]) && NoUpstreamCall()
      ensures symbols.Some? && symbols.value != [] ==>
        && client.log == old(client.log) + [LastTradedPrices(symbols.value, key)]
        && r == Reply(client.upstream.lastTraded(old(client.calls), symbols.value, key))
    {
      if symbols.None? || symbols.value == [] {
        r := Success([]);
      } else {
        r := client.GetLastTradedPriceForSymbols(symbols.value, key);
      }
    }

    /** getHistoricalPriceForDate */
    method GetHistoricalPriceForDate(symbol: string, date: string) returns (r: Result<seq<HistoricalPrice>, Failure>)
      requires Valid()
      modifies client, store
      ensures Valid()
      ensures DateLookup(symbol, date, r)
    {
      var searchDate := FormatDate(date);
      if searchDate.Failure? {
        return Failure(searchDate.error);
      }
      if store.ExistsBySymbolAndDate(symbol, searchDate.value) {
        r := Success(store.FindBySymbolAndDate(symbol, searchDate.value));
      } else {
        var prices := client.GetHistoricalPriceForDate(symbol, date, true, key);
        if prices.Failure? {
          return prices;
        }
        var saved := store.SaveAll(prices.value);
        r := prices;
      }
    }

    /** getHistoricalPricesForRange, with the clock reading `today` passed in. */
    method GetHistoricalPricesForRange(symbol: string, range: string, today: Date)
      returns (r: Result<seq<HistoricalPrice>, Failure>)
      requires Valid() && ValidDate(today)
      modifies this, client, store
      ensures Valid()
      ensures RangeLookup(symbol, range, today, r)
    {
      var start := RangeToStartDate(range, today);
      if start.Failure? {
        return Failure(start.error);
      }
      var rangeStartDate := start.value;
      rangeStarts := rangeStarts + [rangeStartDate];
      assert rangeStarts[..|rangeStarts| - 1] == old(rangeStarts);
      if earliestRequestedRangeStart.Some? && !IsBefore(rangeStartDate, earliestRequestedRangeStart.value) {
        r := Success(store.FindBySymbolAndDateGreaterThanEqual(symbol, IsoString(rangeStartDate)));
      } else {
        earliestRequestedRangeStart := Some(rangeStartDate);
        var prices := client.GetHistoricalPriceForRange(symbol, range, key);
        if prices.Failure? {
          return prices;
        }
        var saved := store.SaveAll(prices.value);
        r := prices;
      }
    }

    /** getHistoricalPrices: the decision procedure. */
    method GetHistoricalPrices(symbol: string, range: string, date: Option<string>, today: Date)
      returns (r: Result<seq<HistoricalPrice>, Failure>)
      requires Valid() && ValidDate(today)
      modifies this, client, store
      ensures Valid()
      ensures Route(symbol, range, date) == NoResult ==>
        r == Success([]) && NoUpstreamCall() && store.rows == old(store.rows) && WatermarkUnchanged()
      ensures Route(symbol, range, date).SingleDate? ==> DateLookup(symbol, date.value, r)
      ensures Route(symbol, range, date).DateRange? ==> RangeLookup(symbol, range, today, r)
      ensures old(earliestRequestedRangeStart).Some? ==>
        && earliestRequestedRangeStart.Some?
        && !IsBefore(old(earliestRequestedRangeStart).value, earliestRequestedRangeStart.value)
    {
      if symbol == [] {
        return Success([]);
      }
      if range == "date" {
        if date.None? {
          r := Success([]);
        } else {
          r := GetHistoricalPriceForDate(symbol, date.value);
        }
      } else {
        if date.Some? {
          r := GetHistoricalPriceForDate(symbol, date.value);
        } else {
          r := GetHistoricalPricesForRange(symbol, range, today);
        }
      }
    }

    /** resetService: the watermark is cleared and the store emptied. */
    method ResetService()
      requires Valid()
      modifies this, store
      ensures Valid()
      ensures earliestRequestedRangeStart == None && rangeStarts == []
      ensures store.rows == []
      ensures forall symbol, date :: !store.ExistsBySymbolAndDate(symbol, date)
    {
      earliestRequestedRangeStart := None;
      rangeStarts := [];
      store.DeleteAll();
    }
  }

  /** An upstream answer for a day: some rows, each carrying the symbol and the store's date key. */
  predicate AnswersWithKey(answer: Option<seq<HistoricalPrice>>, symbol: string, key: string) {
    answer.Some? && answer.value != [] && forall i | 0 <= i < |answer.value| :: HasKey(answer.value[i], symbol, key)
  }

  /** After a single-date request for a key whose miss upstream answers with rows carrying that
    * key, the store holds the key and its lookup is exactly the answer given. */
  lemma FetchedDayIsFound(rows0: seq<HistoricalPrice>, rows1: seq<HistoricalPrice>, r: Result<seq<HistoricalPrice>, Failure>,
                          answer: Option<seq<HistoricalPrice>>, symbol: string, key: string)
    requires AnswersWithKey(answer, symbol, key)
    requires Matching(rows0, symbol, key) != [] ==> r == Success(Matching(rows0, symbol, key)) && rows1 == rows0
    requires Matching(rows0, symbol, key) == [] ==> r == Reply(answer) && rows1 == rows0 + answer.value
    ensures r.Success? && r.value != [] && r.value == Matching(rows1, symbol, key)
  {
    if Matching(rows0, symbol, key) == [] {
      SavedKeyIsFound(rows0, answer.value, symbol, key);
    }
  }

  /** The same day asked for twice on the single-date path: when upstream answers the first miss
    * with rows that carry the requested symbol and the formatted date, the two requests together
    * make at most the one call and save at most the one answer the first request needs, so the
    * second is a store hit that returns the same rows as the first. */
  method SameDateTwice(service: IexService, symbol: string, date: string)
    returns (first: Result<seq<HistoricalPrice>, Failure>, second: Result<seq<HistoricalPrice>, Failure>)
    requires service.Valid() && |date| >= 6
    requires AnswersWithKey(service.client.upstream.forDate(service.client.calls, symbol, date, true, service.key),
                            symbol, FormatDate(date).value)
    modifies service.client, service.store
    ensures service.Valid()
    ensures first.Success? && second == first
    ensures service.client.log == old(service.client.log)
      + (if old(service.store.ExistsBySymbolAndDate(symbol, FormatDate(date).value)) then []
         else [HistoricalPriceForDate(symbol, date, true, service.key)])
    ensures service.store.rows == old(service.store.rows)
      + (if old(service.store.ExistsBySymbolAndDate(symbol, FormatDate(date).value)) then []
         else old(service.client.upstream.forDate(service.client.calls, symbol, date, true, service.key)).value)
  {
    ghost var key := FormatDate(date).value;
    ghost var rows0 := service.store.rows;
    ghost var answer := service.client.upstream.forDate(service.client.calls, symbol, date, true, service.key);
    first := service.GetHistoricalPriceForDate(symbol, date);
    FetchedDayIsFound(rows0, service.store.rows, first, answer, symbol, key);
    second := service.GetHistoricalPriceForDate(symbol, date);
  }
}
