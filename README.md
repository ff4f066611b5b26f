# Historical-price caching policy of the IEX starter service

This project models the part of the Spring service that answers historical-price requests for a
stock symbol. The service either answers empty, looks one day up, serves a range from its
price store, or fetches a range from the remote IEX API. The model also covers the store it
writes to, and the controller step that stamps the requested symbol on every returned row.

Modules:

- `Wrappers`: Option and Result.
- `Domain`: the price records, plus the exceptions the core can raise, written as failure values.
- `Text`: the Java library text functions the service depends on: `Integer.parseInt`, `Integer.toString` and `String.compareTo`.
- `Calendar`: the part of `java.time.LocalDate` the service uses:
  - Gregorian dates and `isBefore`;
  - `minus` in days, months and years, with the clamp to the last day of the month;
  - the supported year range;
  - the ISO text that `toString` produces.
- `Client`: the remote API as an oracle. Its answers depend on the request and on how many calls came before. It keeps a ghost log of calls, so that "no upstream call" can be stated.
- `Repository`: the price store as a class over a sequence of rows. Every new entity gets its own generated id, so (symbol, date) is not unique.
- `Service`:
  - the pure helpers `formatDate` and `rangeToStartDateHelper`;
  - the routing decision;
  - the watermark `earliestRequestedRangeStart` and its history;
  - the `IexService` class with its state-changing methods.
- `Controller`: `insertSymbol` on an array, and the historical-prices endpoint.

Java exceptions become `Failure` values, with the same exception in the same place:

| Failure | Java exception |
|---|---|
| `StringIndexOutOfBounds` | `substring` out of range |
| `NumberFormat` | `parseInt` |
| `DateTimeOutOfRange` | `LocalDate` leaves its supported years |
| `UpstreamError` | a failed remote call |

The clock reading `LocalDate.now()` is the parameter `today`.

## Model

| member | source | states |
|---|---|---|
| `Text.ParseInt` | src/main/java/org/galatea/starter/service/IexService.java:132 | succeeds exactly when the text is an optional sign followed by at least one digit and nothing else, and its value fits an `int`; the value is the digits read in decimal, negated after `-`, and is negative exactly after `-` with a non-zero value; every other input is a NumberFormatException |
| `Text.ParseIntCases` | src/main/java/org/galatea/starter/service/IexService.java:132 | `1x`, `-` and the empty text are rejected; `+5` is 5, `007` is 7 and `-12` is -12 |
| `Text.ParseIntOfIntToString` | src/main/java/org/galatea/starter/service/IexService.java:132 | every `int`, written in decimal, is parsed back to itself, negative values included |
| `Text.LexLessEq` | src/main/java/org/galatea/starter/service/IexService.java:159 | the store's `date >= start` on text as `String.compareTo`: holds exactly when the start is a prefix of the date, or has the smaller char at the first index where they differ |
| `Text.DecimalValueOfFixed` | src/main/java/org/galatea/starter/service/IexService.java:160 | a zero-padded numeral reads back as the number it was written from |
| `Text.FixedOrder` | src/main/java/org/galatea/starter/service/IexService.java:159-160 | zero-padded numerals of equal width are equal exactly when the numbers are, and compare as text exactly as the numbers compare |
| `Calendar.IsBeforeStrictTotalOrder` | src/main/java/org/galatea/starter/service/IexService.java:157 | `isBefore` is a strict total order: irreflexive, asymmetric, transitive, and of two different dates one is before the other |
| `Calendar.PlusDays` | src/main/java/org/galatea/starter/service/IexService.java:133 | `plusDays`, the days case of `minus`: the result is a valid date, strictly later for a positive count and strictly earlier for a negative one |
| `Calendar.PlusMonths` | src/main/java/org/galatea/starter/service/IexService.java:133 | moving by months changes the month count by exactly `n` and keeps the day of the month, clamped to the last day of the month reached |
| `Calendar.PlusYears` | src/main/java/org/galatea/starter/service/IexService.java:133 | moving by years keeps the month and keeps the day, clamped, so 29 February goes to 28 February outside leap years |
| `Calendar.Minus` | src/main/java/org/galatea/starter/service/IexService.java:133 | `today.minus(n, unit)` is `today` plus `-n` units, a valid date in the supported years, and fails exactly when that date would leave them |
| `Calendar.PlusDaysAdditive` | src/main/java/org/galatea/starter/service/IexService.java:133 | adding `a` days then `b` days is adding `a + b` days |
| `Calendar.PlusDaysInverse` | src/main/java/org/galatea/starter/service/IexService.java:133 | subtracting `n` days undoes adding them |
| `Calendar.PlusOrder` | src/main/java/org/galatea/starter/service/IexService.java:133 | for days, months and years alike: zero units is the same date, a positive amount is strictly later, and a negative one strictly earlier |
| `Calendar.IsoString` | src/main/java/org/galatea/starter/service/IexService.java:160 | `LocalDate.toString` of a date with a year from 0 to 9999 is ten characters `uuuu-MM-dd`, dashes at positions 4 and 7, and its three digit fields read back as the year, month and day |
| `Calendar.YearStringFixedWidth` | src/main/java/org/galatea/starter/service/IexService.java:159-160 | `toString` writes a year from 0 to 9999 as exactly four digits |
| `Calendar.IsoStringFixedWidth` | src/main/java/org/galatea/starter/service/IexService.java:159-160 | for years 0 to 9999, `toString` writes the fields zero-padded to widths 4, 2 and 2 |
| `Calendar.IsoStringOrder` | src/main/java/org/galatea/starter/service/IexService.java:159-160 | for years 0 to 9999, the text order of `toString` agrees with date order, and the text is equal exactly when the dates are; the store's `date >= start` query relies on this |
| `Client.Reply` | src/main/java/org/galatea/starter/service/IexService.java:111 | a failed remote exchange surfaces as an upstream failure; a successful one returns the answer unchanged |
| `Client.IexClient.GetAllSymbols` | src/main/java/org/galatea/starter/service/IexService.java:63 | one call is logged with the token, and the oracle's answer at that point in time is returned |
| `Client.IexClient.GetLastTradedPriceForSymbols` | src/main/java/org/galatea/starter/service/IexService.java:77-78 | one batched call with all symbols, in order, is logged, and its answer is returned |
| `Client.IexClient.GetHistoricalPriceForDate` | src/main/java/org/galatea/starter/service/IexService.java:111 | one call with symbol, date, chartByDay and token is logged, and its answer is returned |
| `Client.IexClient.GetHistoricalPriceForRange` | src/main/java/org/galatea/starter/service/IexService.java:164 | one call with symbol, range and token is logged, and its answer is returned |
| `Repository.Matching` | src/main/java/org/galatea/starter/domain/rpsy/IIexHistoricalPriceRpsy.java:16 | the result holds exactly the rows with both the symbol and the date |
| `Repository.OnOrAfter` | src/main/java/org/galatea/starter/service/IexService.java:159-160 | the result holds exactly the rows of the symbol whose date text compares at or after the given text |
| `Repository.MatchingAppend` | src/main/java/org/galatea/starter/domain/rpsy/IIexHistoricalPriceRpsy.java:16 | a lookup over appended rows is the old matches followed by the new ones |
| `Repository.OnOrAfterAppend` | src/main/java/org/galatea/starter/service/IexService.java:159-160 | the range query over appended rows is the old answer followed by the new rows' answer |
| `Repository.MatchingAllKeyed` | src/main/java/org/galatea/starter/domain/rpsy/IIexHistoricalPriceRpsy.java:16 | rows that all carry the key are all found, in order |
| `Repository.SavedKeyIsFound` | src/main/java/org/galatea/starter/service/IexService.java:111-112 | after saving fetched rows that carry the key, the lookup finds the earlier matches followed by exactly the fetched rows |
| `Repository.SavingAgainDuplicates` | src/main/java/org/galatea/starter/domain/rpsy/IIexHistoricalPriceRpsy.java:10 | saving a new entity adds exactly one more match for its key, so saving a new entity whose key is already stored leaves at least two |
| `Repository.RefetchedRangeDuplicates` | src/main/java/org/galatea/starter/service/IexService.java:164-166 | saving a fetched range that overlaps days already stored for the same symbol makes the range query return such a row at least twice |
| `Repository.PriceStore.constructor` | src/main/java/org/galatea/starter/domain/rpsy/IIexHistoricalPriceRpsy.java:10 | a new store is empty |
| `Repository.PriceStore.FindBySymbolAndDate` | src/main/java/org/galatea/starter/domain/rpsy/IIexHistoricalPriceRpsy.java:13-16 | returns every stored row with that symbol and date, and no other |
| `Repository.PriceStore.ExistsBySymbolAndDate` | src/main/java/org/galatea/starter/domain/rpsy/IIexHistoricalPriceRpsy.java:18-25 | true exactly when the lookup of the same key is non-empty |
| `Repository.PriceStore.FindBySymbolAndDateGreaterThanEqual` | src/main/java/org/galatea/starter/service/IexService.java:159-160 | returns every stored row of the symbol whose date text compares at or after the given text, and no other |
| `Repository.PriceStore.Save` | src/main/java/org/galatea/starter/domain/rpsy/IIexHistoricalPriceRpsy.java:40-42 | the row is appended, nothing is removed, and its key is then present |
| `Repository.PriceStore.SaveAll` | src/main/java/org/galatea/starter/domain/rpsy/IIexHistoricalPriceRpsy.java:10 | the rows are appended after the existing ones; each saved row is findable by its own key; every lookup is the old lookup followed by the saved rows' matches |
| `Repository.PriceStore.DeleteAll` | src/main/java/org/galatea/starter/domain/rpsy/IIexHistoricalPriceRpsy.java:10 | the store is empty, and no key exists |
| `Service.FormatDate` | src/main/java/org/galatea/starter/service/IexService.java:89-91 | fails with a StringIndexOutOfBoundsException exactly when the text is shorter than 6; otherwise the result is 2 longer, has dashes at positions 4 and 7, and gives back the input when they are removed |
| `Service.FormatDateOfBasicDate` | src/main/java/org/galatea/starter/service/IexService.java:89-91 | for a real date with a year of at most four digits, the basic form YYYYMMDD becomes exactly the `toString` text of that date, which is the store key |
| `Service.FormatDateDoesNotValidate` | src/main/java/org/galatea/starter/service/IexService.java:89-91 | `20201332` passes unchanged in shape, as `2020-13-32` |
| `Service.UnitOf` | src/main/java/org/galatea/starter/service/IexService.java:120-130 | suffix `m` means months and `y` means years; every other suffix means days |
| `Service.RangeToStartDate` | src/main/java/org/galatea/starter/service/IexService.java:118-134 | an empty range is a StringIndexOutOfBoundsException; a prefix parseInt rejects is a NumberFormatException; a success is a valid date within the supported years |
| `Service.RangeStartRelativeToToday` | src/main/java/org/galatea/starter/service/IexService.java:132-133 | the start is `today` moved back by the parsed amount in the suffix's unit: before today for a positive amount, today for zero, after today for a negative one |
| `Service.RangeOfAmountAndUnit` | src/main/java/org/galatea/starter/service/IexService.java:121-133 | a range written as an `int` followed by a unit letter starts at `today` minus that amount in that unit, or fails only when that date is outside the supported years |
| `Service.UnknownUnitMeansDays` | src/main/java/org/galatea/starter/service/IexService.java:123-130 | any suffix other than `m` and `y` gives the same result as `d` |
| `Service.Route` | src/main/java/org/galatea/starter/service/IexService.java:183-209 | empty answer exactly for an empty symbol, or for range `date` with a null date; the single-date path exactly for a non-empty symbol with a date; the range path otherwise |
| `Service.DateTakesPrecedence` | src/main/java/org/galatea/starter/service/IexService.java:193-206 | with a date present, the range string does not change the outcome |
| `Service.NextWatermark` | src/main/java/org/galatea/starter/service/IexService.java:156-162 | the new watermark is either the start or the old watermark, is not after the start, and is not after the old watermark |
| `Service.WatermarkIsEarliestStart` | src/main/java/org/galatea/starter/service/IexService.java:156-162 | the watermark is unset exactly before the first range request, and is otherwise the earliest start requested since the last reset |
| `Service.ServedFromStoreIffCovered` | src/main/java/org/galatea/starter/service/IexService.java:156-157 | a range is served from the store exactly when an earlier range request, for any symbol, started on or before it |
| `Service.WatermarkNeverLater` | src/main/java/org/galatea/starter/service/IexService.java:156-162 | later requests never move the watermark later and never unset it |
| `Service.IexService.constructor` | src/main/java/org/galatea/starter/service/IexService.java:30-38 | the watermark starts unset, with no range requested yet |
| `Service.IexService.GetAllSymbols` | src/main/java/org/galatea/starter/service/IexService.java:62-64 | one upstream call with the key, whose answer is returned |
| `Service.IexService.GetLastTradedPriceForSymbols` | src/main/java/org/galatea/starter/service/IexService.java:73-80 | a null or empty list answers empty with no upstream call; a non-empty list makes exactly one batched call with all symbols in order and returns its answer |
| `Service.IexService.GetHistoricalPriceForDate` | src/main/java/org/galatea/starter/service/IexService.java:98-116 | on a store hit, returns the stored rows with no upstream call and the store unchanged; on a miss, makes one call, saves exactly the fetched rows and returns them; the watermark is untouched; a short date fails before anything happens |
| `Service.IexService.GetHistoricalPricesForRange` | src/main/java/org/galatea/starter/service/IexService.java:151-170 | with the watermark set and the start not before it, returns the stored rows of the symbol from the start on, with no call and nothing changed; otherwise sets the watermark to the start, makes one call, saves exactly the fetched rows and returns them; the watermark stays the earliest start requested |
| `Service.IexService.GetHistoricalPrices` | src/main/java/org/galatea/starter/service/IexService.java:183-210 | each routing outcome behaves as above; the empty answers touch neither client, store nor watermark; the watermark never moves later and, once set, stays set |
| `Service.IexService.ResetService` | src/main/java/org/galatea/starter/service/IexService.java:216-219 | the watermark is unset, the store is empty, and no key exists |
| `Service.SameDateTwice` | src/main/java/org/galatea/starter/service/IexService.java:102-115 | when the upstream answers a miss with rows carrying the key: the first request makes no call and leaves the store as it was if the key is stored, and otherwise logs exactly one date call and appends exactly the upstream answer; the call log and rows after both requests are exactly these, so asking for the same day again is a store hit that makes no upstream call and leaves the store as the first request left it; both requests return the same rows |
| `Service.FetchedDayIsFound` | src/main/java/org/galatea/starter/service/IexService.java:105-115 | after the single-date path for a key whose miss upstream answers with rows carrying that key, the answer is non-empty and is exactly the store's lookup of the key |
| `Controller.WithSymbol` | src/main/java/org/galatea/starter/entrypoint/IexRestController.java:83-85 | same length and order; every row carries the symbol; date, open, low, close, high and volume are untouched |
| `Controller.WithSymbolIdempotent` | src/main/java/org/galatea/starter/entrypoint/IexRestController.java:83-85 | inserting the symbol twice is inserting it once |
| `Controller.WithSymbolUnchangedIff` | src/main/java/org/galatea/starter/entrypoint/IexRestController.java:83-85 | the rows are left as they are exactly when every row already carries the symbol (so an empty list comes back empty) |
| `Controller.IexRestController.constructor` | src/main/java/org/galatea/starter/entrypoint/IexRestController.java:26-27 | the controller holds the given service |
| `Controller.IexRestController.InsertSymbol` | src/main/java/org/galatea/starter/entrypoint/IexRestController.java:81-87 | the same array is returned, and its contents become the old rows with the symbol set |
| `Controller.IexRestController.GetHistoricalPrices` | src/main/java/org/galatea/starter/entrypoint/IexRestController.java:63-72 | the service's single-date answer with the symbol inserted in every row, so every returned row carries the requested symbol; an empty symbol answers empty with no call, leaving the store and the watermark as they were; with a non-empty symbol, a date shorter than 6 (the default `""` included) fails with a StringIndexOutOfBoundsException |

## Left out

- `setKey`: it reads a credentials file. The API key is a constructor parameter, and None stands for the null it yields on failure.
- Logging, the Lombok and Spring annotations, and the cache annotations on the store are left out. They are framework wiring.
- HTTP routing, request-parameter binding and JSON serialisation are left out, and so are the controller's other two endpoints, which only delegate to the service.
- The remote API is an oracle. The Feign client's declared methods in `IexClient.java` are not part of this model, because their names and parameters do not match the calls the service makes.
- Prices are opaque `Decimal` values. `BigDecimal` arithmetic is never used by the core.
- Concurrency is left out. The watermark is read and then written without synchronisation, and the model assumes a single sequential caller.
- Null symbols and ranges are left out: the controller requires both parameters, and the service never tests them for null. The two nulls the core does test for are `Option`s: the symbol list of `getLastTradedPriceForSymbols` (IexService.java:74) and the date (IexService.java:194, 201).
- `Text.ParseInt` accepts ASCII digits only. Java's `parseInt` also accepts other Unicode decimal digits.
- Strings are sequences of Unicode scalar values, not of UTF-16 code units. A character outside the Basic Multilingual Plane is one element here and two `char`s in Java. So `Service.FormatDate`, the last-character read in `Service.RangeToStartDate` and the order `Text.LexLessEq` can differ from Java's `substring`, `length` and `compareTo` on such text.
- The store's `>=` on dates is modelled as Java `String.compareTo`. A database collation that orders differently is not modelled.
- Persistence failures of the store are left out.
- Rows carry no id. Saving an entity that is already persisted, which `CrudRepository.save` turns into an update of that row, is not modelled: the core only saves freshly fetched rows (IexService.java:112, 166), and each of those is inserted as a new row.
- `Controller.IexRestController.InsertSymbol`: the rows are values in an array. The Java objects are updated in place, and those same objects may also be held by the store. That aliasing is not modelled.
- `IexSymbol` keeps only its ticker. The class is not among the source files of this model, and the core only passes it through.

## Notes on the source

These inconsistencies are modelled as the code is written, and are not corrected:

- The controller calls `getHistoricalPricesForSymbol` (IexRestController.java:67), but the service only defines `getHistoricalPrices` (IexService.java:183). The model connects the endpoint to `getHistoricalPrices`.
- The controller's `date` parameter defaults to `""` (IexRestController.java:66), while the service tests for `null` (IexService.java:194, 201).
  - So every request with a non-empty symbol that reaches the service through the endpoint takes the single-date path; an empty symbol still answers empty first (IexService.java:188-191).
  - A request without a date therefore fails in `formatDate`.
  - `Controller.IexRestController.GetHistoricalPrices` states this.
- `formatDate` validates nothing (`Service.FormatDateDoesNotValidate`). An error status for the date `20201332` cannot come from the service's logic.
- The watermark is shared by all symbols. After a range request for one symbol, a later range request for another symbol whose start is not before the watermark is served from the store (`Service.ServedFromStoreIffCovered`), even if nothing was ever fetched for that symbol.
- The watermark is moved before the upstream call (IexService.java:162-164). A failed call still moves it.
- The range path saves whatever it fetches (IexService.java:164-166). A range fetched because its start is earlier than the watermark can overlap days already stored for the same symbol (the watermark is shared by all symbols, so for another symbol nothing may be stored yet); such days are stored again and the range query then returns them twice (`Repository.RefetchedRangeDuplicates`).
- `findBySymbolAndDateGreaterThanEqual` is not declared in `IIexHistoricalPriceRpsy.java`. It is modelled as the derived query its name describes.
