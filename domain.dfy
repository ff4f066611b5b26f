/** The records the service passes around (IexHistoricalPrice, IexLastTradedPrice) and the
  * exceptions its core can raise. */
module Domain {

  /** A java.math.BigDecimal: an unscaled integer and a scale. Prices are only carried, never computed. */
  datatype Decimal = Decimal(unscaled: int, scale: int)

  /** One day of OHLCV data for a symbol; `date` is the canonical YYYY-MM-DD text the store keys on. */
  datatype HistoricalPrice = HistoricalPrice(
    symbol: string,
    date: string,
    open: Decimal,
    low: Decimal,
    close: Decimal,
    high: Decimal,
    volume: int)

  /** The last trade of a symbol; never persisted. */
  datatype LastTradedPrice = LastTradedPrice(symbol: string, price: Decimal, size: int, time: int)

  /** A tradable instrument as the symbol listing returns it (only its ticker is modelled). */
  datatype IexSymbol = IexSymbol(symbol: string)

  /** The exceptions that can leave the core. */
  datatype Failure =
    | StringIndexOutOfBounds  // String.substring outside the string
    | NumberFormat            // Integer.parseInt rejects its argument
    | DateTimeOutOfRange      // LocalDate arithmetic leaves the supported years
    | UpstreamError           // the remote API call failed (transport or HTTP status)
}
