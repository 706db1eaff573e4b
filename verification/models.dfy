/**
  The snapshot and plan records the meta-exchange works on. They mirror the
  plain data classes of the core (orders, order books, balances, exchange
  snapshots, execution orders and requests) and carry no logic of their own.
  C# `decimal` quantities are modelled as exact `real`s.
 */
module Models {

  /** Side of an order or of a request. */
  datatype OrderType = Buy | Sell

  /** A resting order: its side tag, size in BTC and limit price in EUR. */
  datatype Order = Order(side: OrderType, amount: real, price: real)

  /** The book stores every order inside a one-field wrapper. */
  datatype OrderWrapper = OrderWrapper(order: Order)

  /** Two lists of wrapped orders; nothing forces the tags to match the list. */
  datatype OrderBook = OrderBook(bids: seq<OrderWrapper>, asks: seq<OrderWrapper>)

  /** Balances of one exchange: `crypto` is the BTC balance (serialised as
      "Crypto"), `euro` the EUR balance (serialised as "Euro"). */
  datatype AvailableFunds = AvailableFunds(crypto: real, euro: real)

  datatype ExchangeData = ExchangeData(id: string, funds: AvailableFunds, book: OrderBook)

  /** One entry of the caller's exchange list: the pair (Name, Data). */
  datatype NamedExchange = NamedExchange(name: string, data: ExchangeData)

  /** One fill of the execution plan. */
  datatype ExecutionOrder = ExecutionOrder(exchange: string, amount: real, price: real)

  datatype OrderRequest = OrderRequest(side: OrderType, amount: real)

  /** The exceptions the core throws, as values. */
  datatype Error =
    | AmountNotPositive                                      // ArgumentException "Amount must be positive."
    | NoExchanges                                            // ArgumentException "No exchanges provided."
    | InsufficientLiquidity(side: OrderType, remaining: real) // "Insufficient liquidity to <side> <remaining> BTC ..."

  /** Either the full plan or the error; there is no partial plan. */
  datatype Result<T> = Ok(value: T) | Err(error: Error)

  function Min(a: real, b: real): (m: real)
    ensures m <= a && m <= b
    ensures m == a || m == b
  {
    if a <= b then a else b
  }

  function Max(a: real, b: real): (m: real)
    ensures m >= a && m >= b
    ensures m == a || m == b
  {
    if a >= b then a else b
  }

  /** Sum of the filled amounts of a plan. */
  function Total(fills: seq<ExecutionOrder>): real
  {
    if |fills| == 0 then 0.0 else Total(fills[..|fills| - 1]) + fills[|fills| - 1].amount
  }
}
