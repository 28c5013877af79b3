/** The records the market service works on: catalog rows, the options a
    plugin registers an item with, the three shapes a fulfilment callback may
    answer with, purchase results and the calls the service makes on the
    points ledger. */
module MarketTypes {
  import opened Wrappers

  /** A row's stock as the runtime holds it. The declared type is a number,
      and `undefined` or `null` there means "unlimited". `NaN` is what the
      decrement operator makes of `undefined`. */
  datatype Stock = Count(n: int) | Undefined | Null | NaN

  datatype Status = Available | Unavailable

  /** An image field as the runtime holds it: a URL string, `undefined`
      (the option was omitted) or `null`. */
  datatype Image = Url(url: string) | UnsetImage | NullImage

  /** One catalog row. */
  datatype MarketItem = MarketItem(
    id: int,
    name: string,
    description: string,
    price: int,
    stock: Stock,
    status: Status,
    registered: bool,
    pluginName: string,
    image: Image,
    tags: Option<seq<string>>)

  /** The identity of a plugin-supplied purchase callback. Its behaviour is
      not modelled; a purchase is told what the callback answers. */
  datatype Handler = Handler(key: nat)

  /** What a plugin hands to `registerItem`. The fields the service never
      reads (a caller-chosen id, category, metadata) are omitted. */
  datatype RegisterOptions = RegisterOptions(
    name: string,
    description: string,
    price: Option<int>,
    image: Image,
    tags: Option<seq<string>>,
    stock: Option<int>,
    onPurchase: Option<Handler>)

  /** How an awaited call settled: with a value, or by rejecting. */
  datatype Settled<+T> = Resolved(value: T) | Rejected

  /** The value a purchase callback resolves to, one constructor per branch
      of the service's run-time type test on it. */
  datatype CallbackResult =
    | Bool(b: bool)
    | Str(s: string)
    | Feedback(code: int, msg: string)

  /** The `{code, msg}` answer of the ledger's `reduce`. */
  datatype LedgerReply = LedgerReply(code: int, msg: string)

  /** A call the service makes on the points ledger that changes a balance. */
  datatype LedgerCall =
    | Reduce(user: string, tx: string, amount: int)
    | Rollback(user: string, tx: string)

  datatype PurchaseResult = PurchaseResult(
    success: bool,
    message: string,
    transactionId: Option<string>,
    item: Option<MarketItem>)

  /** The service's state: the catalog rows in store order and the in-memory
      map from item id to purchase callback. A key may be bound to `None`:
      registering without `onPurchase` stores `undefined` under the id. */
  datatype MarketState = MarketState(
    catalog: seq<MarketItem>,
    callbacks: map<int, Option<Handler>>)

  /** The callback `registeredCallbacks.get(id)` yields, if any. */
  function CallbackFor(callbacks: map<int, Option<Handler>>, id: int): (h: Option<Handler>)
    ensures h.Some? <==> id in callbacks && callbacks[id].Some?
    ensures h.Some? ==> callbacks[id] == h
  {
    if id in callbacks then callbacks[id] else None
  }

  /** The loose comparison `stock == 0`: neither absent marker nor NaN is
      loosely equal to zero, so only a counted stock of zero is sold out. */
  predicate SoldOut(s: Stock) {
    s.Count? && s.n == 0
  }

  /** The guard in front of the decrement, as written: no value differs from
      both `undefined` and `null`, so it never fails. */
  predicate DecrementGuard(s: Stock) {
    s != Undefined || s != Null
  }

  /** `stock--`: `null` converts to 0 and `undefined` to NaN before the
      subtraction, and NaN minus one is NaN. */
  function Decrement(s: Stock): (r: Stock)
    ensures r.Count? <==> s.Count? || s.Null?
    ensures s.Count? ==> r.n == s.n - 1
    ensures s.Null? ==> r.n == -1
    ensures s.Undefined? || s.NaN? ==> r == NaN
  {
    match s
    case Count(n) => Count(n - 1)
    case Null => Count(-1)
    case Undefined => NaN
    case NaN => NaN
  }

  lemma DecrementGuardAlwaysHolds(s: Stock)
    ensures DecrementGuard(s)
  {
  }
}
