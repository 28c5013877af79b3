/** The purchase protocol of the market service: look the item up, check its
    stock, take a transaction id from the points ledger, find the item's
    callback, deduct the price, run the callback and roll the deduction back
    if the callback reports failure.

    The ledger and the callback are outside the model. Their answers come in
    as inputs: `ledger` holds the transaction id the ledger issues and its
    reply to the deduction, and `fulfil` says how each callback settles for
    this purchase: with an answer, or by rejecting. The service does not catch
    a rejection: it propagates to the caller, and the purchase has no result. The balance-changing calls the service makes on
    the ledger are returned, in order, as `ledgerCalls`. */
module Purchase {
  import opened Wrappers
  import opened MarketTypes
  import opened Catalog

  const NotFoundMessage: string := "商品不存在"
  const SoldOutMessage: string := "商品已售罄"
  const CallbackMissingMessage: string := "商品回调函数未注册"
  const FulfilmentFailedMessage: string := "购买失败"
  const SuccessMessage: string := "购买成功"

  /** The ledger's answers during one purchase. */
  datatype LedgerReplies = LedgerReplies(transactionId: string, deduction: LedgerReply)

  /** A deduction reply the service treats as success: a code in [200, 300). */
  predicate Accepted(code: int) {
    !(code < 200 || code >= 300)
  }

  /** A callback's answer read as delivered, or refused with a message. */
  datatype Verdict = Delivered | Refused(message: string)

  /** The run-time type dispatch on a callback's answer. */
  function Interpret(r: CallbackResult): (v: Verdict)
    ensures v.Delivered? <==> r == Bool(true) || (r.Feedback? && r.code == 0)
  {
    match r
    case Bool(b) => if b then Delivered else Refused(FulfilmentFailedMessage)
    case Str(msg) => Refused(msg)
    case Feedback(code, msg) => if code != 0 then Refused(msg) else Delivered
  }

  /** A purchase's result (`None` when it rejects), the state afterwards and
      the ledger calls made. */
  datatype PurchaseOutcome = PurchaseOutcome(
    result: Option<PurchaseResult>,
    state: MarketState,
    ledgerCalls: seq<LedgerCall>)

  /** The ledger calls of one purchase are bracketed: nothing; a lone
      rollback; or a deduction, possibly followed by its rollback. All carry
      the buyer and the one transaction id. */
  predicate Bracketed(calls: seq<LedgerCall>, user: string, tx: string) {
    || calls == []
    || calls == [Rollback(user, tx)]
    || (&& 1 <= |calls| <= 2
        && calls[0].Reduce? && calls[0].user == user && calls[0].tx == tx
        && (|calls| == 2 ==> calls[1] == Rollback(user, tx)))
  }

  /** `purchaseItem(userId, itemId, session)`. */
  function PurchaseItem(
    s: MarketState, userId: string, itemId: int,
    ledger: LedgerReplies, fulfil: Handler -> Settled<CallbackResult>): (o: PurchaseOutcome)
    // the catalog and the callback map are not written
    ensures o.state == s
    ensures Bracketed(o.ledgerCalls, userId, ledger.transactionId)
    // a purchase rejects only after a deduction, which nothing then rolls back
    ensures o.result.None? ==> |o.ledgerCalls| == 1 && o.ledgerCalls[0].Reduce?
    // the ledger is touched exactly when a row was found and it was not sold out,
    // and exactly then the result carries that row
    ensures o.result.Some? ==> (o.ledgerCalls == [] <==> o.result.value.item.None?)
    ensures o.result.Some? && o.result.value.item.Some? ==> o.result.value.item.value.id == itemId
    // a transaction id is handed back only on success, and it is the ledger's
    ensures o.result.Some? ==> (o.result.value.transactionId.Some? <==> o.result.value.success)
    ensures o.result.Some? && o.result.value.success ==>
              && o.result.value.message == SuccessMessage
              && o.result.value.transactionId == Some(ledger.transactionId)
              && o.result.value.item.Some?
              && o.ledgerCalls == [Reduce(userId, ledger.transactionId, o.result.value.item.value.price)]
  {
    match FindById(s.catalog, itemId)
    case None =>
      PurchaseOutcome(Some(PurchaseResult(false, NotFoundMessage, None, None)), s, [])
    case Some(item) =>
      if SoldOut(item.stock) then
        PurchaseOutcome(Some(PurchaseResult(false, SoldOutMessage, None, None)), s, [])
      else
        var tx := ledger.transactionId;
        match CallbackFor(s.callbacks, itemId)
        case None =>
          PurchaseOutcome(
            Some(PurchaseResult(false, CallbackMissingMessage, None, Some(item))), s, [Rollback(userId, tx)])
        case Some(h) =>
          var reduce := Reduce(userId, tx, item.price);
          if !Accepted(ledger.deduction.code) then
            PurchaseOutcome(
              Some(PurchaseResult(false, ledger.deduction.msg, None, Some(item))), s, [reduce])
          else
            match fulfil(h)
            case Rejected =>
              // nothing catches the rejection: no rollback, no result
              PurchaseOutcome(None, s, [reduce])
            case Resolved(answer) =>
              match Interpret(answer)
              case Refused(msg) =>
                PurchaseOutcome(
                  Some(PurchaseResult(false, msg, None, Some(item))), s, [reduce, Rollback(userId, tx)])
              case Delivered =>
                // the guard is always true, so the snapshot is always decremented
                var sold := if DecrementGuard(item.stock) then item.(stock := Decrement(item.stock)) else item;
                PurchaseOutcome(Some(PurchaseResult(true, SuccessMessage, Some(tx), Some(sold))), s, [reduce])
  }

  /** An unknown id fails with "item does not exist", calls no ledger
      operation, and does not depend on the callbacks, the ledger or any
      callback's answer. */
  lemma PurchaseUnknownItem(
    s: MarketState, userId: string, itemId: int,
    ledger: LedgerReplies, fulfil: Handler -> Settled<CallbackResult>,
    otherCallbacks: map<int, Option<Handler>>, otherLedger: LedgerReplies,
    otherFulfil: Handler -> Settled<CallbackResult>)
    requires itemId !in Ids(s.catalog)
    ensures var o := PurchaseItem(s, userId, itemId, ledger, fulfil);
            && o.result == Some(PurchaseResult(false, NotFoundMessage, None, None))
            && o.ledgerCalls == []
            && PurchaseItem(s.(callbacks := otherCallbacks), userId, itemId, otherLedger, otherFulfil).result
               == o.result
  {
  }

  /** A counted stock of zero fails with "sold out" before any ledger call,
      independently of callbacks, ledger and callback answers. */
  lemma PurchaseSoldOut(
    s: MarketState, userId: string, itemId: int,
    ledger: LedgerReplies, fulfil: Handler -> Settled<CallbackResult>,
    otherCallbacks: map<int, Option<Handler>>, otherLedger: LedgerReplies,
    otherFulfil: Handler -> Settled<CallbackResult>)
    requires FindById(s.catalog, itemId).Some?
    requires FindById(s.catalog, itemId).value.stock == Count(0)
    ensures var o := PurchaseItem(s, userId, itemId, ledger, fulfil);
            && o.result == Some(PurchaseResult(false, SoldOutMessage, None, None))
            && o.ledgerCalls == []
            && PurchaseItem(s.(callbacks := otherCallbacks), userId, itemId, otherLedger, otherFulfil).result
               == o.result
  {
  }

  /** An absent (unlimited) or any non-zero stock is never sold out: the
      purchase goes on to the ledger and reports on the row it found. */
  lemma PurchaseNotSoldOut(
    s: MarketState, userId: string, itemId: int,
    ledger: LedgerReplies, fulfil: Handler -> Settled<CallbackResult>)
    requires FindById(s.catalog, itemId).Some?
    requires FindById(s.catalog, itemId).value.stock != Count(0)
    ensures var o := PurchaseItem(s, userId, itemId, ledger, fulfil);
            && o.result != Some(PurchaseResult(false, SoldOutMessage, None, None))
            && (o.result.Some? ==> o.result.value.item.Some?)
            && (o.result.Some? && !o.result.value.success ==> o.result.value.item == FindById(s.catalog, itemId))
            && o.ledgerCalls != []
  {
  }

  /** Without a callback the ledger sees exactly one rollback of the fresh
      transaction and no deduction; the deduction reply and the callbacks'
      answers play no part. */
  lemma PurchaseWithoutCallback(
    s: MarketState, userId: string, itemId: int,
    ledger: LedgerReplies, fulfil: Handler -> Settled<CallbackResult>,
    otherDeduction: LedgerReply, otherFulfil: Handler -> Settled<CallbackResult>)
    requires FindById(s.catalog, itemId).Some?
    requires !SoldOut(FindById(s.catalog, itemId).value.stock)
    requires CallbackFor(s.callbacks, itemId).None?
    ensures var o := PurchaseItem(s, userId, itemId, ledger, fulfil);
            && o.ledgerCalls == [Rollback(userId, ledger.transactionId)]
            && o.result == Some(PurchaseResult(false, CallbackMissingMessage, None, FindById(s.catalog, itemId)))
            && PurchaseItem(s, userId, itemId, ledger.(deduction := otherDeduction), otherFulfil) == o
  {
  }

  /** A deduction the ledger refuses ends the purchase with the ledger's
      message: one deduction call of the item's price, no rollback, and the
      callback is never run. */
  lemma PurchaseDeductionRefused(
    s: MarketState, userId: string, itemId: int,
    ledger: LedgerReplies, fulfil: Handler -> Settled<CallbackResult>, otherFulfil: Handler -> Settled<CallbackResult>)
    requires FindById(s.catalog, itemId).Some?
    requires !SoldOut(FindById(s.catalog, itemId).value.stock)
    requires CallbackFor(s.callbacks, itemId).Some?
    requires ledger.deduction.code < 200 || ledger.deduction.code >= 300
    ensures var item := FindById(s.catalog, itemId).value;
            var o := PurchaseItem(s, userId, itemId, ledger, fulfil);
            && o.ledgerCalls == [Reduce(userId, ledger.transactionId, item.price)]
            && o.result == Some(PurchaseResult(false, ledger.deduction.msg, None, Some(item)))
            && PurchaseItem(s, userId, itemId, ledger, otherFulfil) == o
  {
  }

  /** A callback that rejects after an accepted deduction leaves the purchase
      without a result: the deduction stands, since no rollback follows. */
  lemma PurchaseFulfilmentRejected(
    s: MarketState, userId: string, itemId: int,
    ledger: LedgerReplies, fulfil: Handler -> Settled<CallbackResult>)
    requires FindById(s.catalog, itemId).Some?
    requires !SoldOut(FindById(s.catalog, itemId).value.stock)
    requires CallbackFor(s.callbacks, itemId).Some?
    requires 200 <= ledger.deduction.code < 300
    requires fulfil(CallbackFor(s.callbacks, itemId).value) == Rejected
    ensures var item := FindById(s.catalog, itemId).value;
            var o := PurchaseItem(s, userId, itemId, ledger, fulfil);
            && o.result.None?
            && o.ledgerCalls == [Reduce(userId, ledger.transactionId, item.price)]
            && Held(o.ledgerCalls, ledger.transactionId, true) == item.price
  {
    var o := PurchaseItem(s, userId, itemId, ledger, fulfil);
    assert o.ledgerCalls[..0] == [];
  }

  /** The message of a refused callback answer: the generic one for `false`,
      the string itself, or the feedback's message. */
  function RefusalMessage(r: CallbackResult): string {
    match r
    case Bool(_) => FulfilmentFailedMessage
    case Str(msg) => msg
    case Feedback(_, msg) => msg
  }

  /** A callback that answers `false`, any string, or feedback with a
      non-zero code after an accepted deduction causes exactly one rollback,
      of the same transaction the deduction used. */
  lemma PurchaseFulfilmentFailed(
    s: MarketState, userId: string, itemId: int,
    ledger: LedgerReplies, fulfil: Handler -> Settled<CallbackResult>)
    requires FindById(s.catalog, itemId).Some?
    requires !SoldOut(FindById(s.catalog, itemId).value.stock)
    requires CallbackFor(s.callbacks, itemId).Some?
    requires 200 <= ledger.deduction.code < 300
    requires var r := fulfil(CallbackFor(s.callbacks, itemId).value);
             r.Resolved? && (r.value == Bool(false) || r.value.Str? || (r.value.Feedback? && r.value.code != 0))
    ensures var item := FindById(s.catalog, itemId).value;
            var r := fulfil(CallbackFor(s.callbacks, itemId).value).value;
            var o := PurchaseItem(s, userId, itemId, ledger, fulfil);
            && o.ledgerCalls == [Reduce(userId, ledger.transactionId, item.price), Rollback(userId, ledger.transactionId)]
            && o.result == Some(PurchaseResult(false, RefusalMessage(r), None, Some(item)))
  {
  }

  /** A delivered purchase: success message, the ledger's transaction id,
      one deduction of the item's price, no rollback, and a snapshot of the
      item with its stock decremented. */
  lemma PurchaseSucceeded(
    s: MarketState, userId: string, itemId: int,
    ledger: LedgerReplies, fulfil: Handler -> Settled<CallbackResult>)
    requires FindById(s.catalog, itemId).Some?
    requires !SoldOut(FindById(s.catalog, itemId).value.stock)
    requires CallbackFor(s.callbacks, itemId).Some?
    requires 200 <= ledger.deduction.code < 300
    requires var r := fulfil(CallbackFor(s.callbacks, itemId).value);
             r == Resolved(Bool(true)) || (r.Resolved? && r.value.Feedback? && r.value.code == 0)
    ensures var item := FindById(s.catalog, itemId).value;
            var o := PurchaseItem(s, userId, itemId, ledger, fulfil);
            && o.ledgerCalls == [Reduce(userId, ledger.transactionId, item.price)]
            && o.result.Some?
            && o.result.value.success
            && o.result.value.message == SuccessMessage
            && o.result.value.transactionId == Some(ledger.transactionId)
            && o.result.value.item == Some(item.(stock := Decrement(item.stock)))
            && (item.stock.Count? ==> o.result.value.item.value.stock == Count(item.stock.n - 1))
            && o.state == s
  {
  }

  /** The stages a purchase passes, stated over its inputs: the item is
      found and not sold out (a transaction id is then issued). */
  predicate TransactionIssued(s: MarketState, itemId: int) {
    FindById(s.catalog, itemId).Some? && !SoldOut(FindById(s.catalog, itemId).value.stock)
  }

  /** ... and the ledger accepted the deduction of its price. */
  predicate Deducted(s: MarketState, itemId: int, ledger: LedgerReplies) {
    TransactionIssued(s, itemId) && CallbackFor(s.callbacks, itemId).Some? && Accepted(ledger.deduction.code)
  }

  /** ... and the item's callback settled with an answer, ... */
  predicate Answered(s: MarketState, itemId: int, ledger: LedgerReplies, fulfil: Handler -> Settled<CallbackResult>) {
    Deducted(s, itemId, ledger) && fulfil(CallbackFor(s.callbacks, itemId).value).Resolved?
  }

  /** ... reporting delivery. */
  predicate Fulfilled(s: MarketState, itemId: int, ledger: LedgerReplies, fulfil: Handler -> Settled<CallbackResult>) {
    Answered(s, itemId, ledger, fulfil) && Interpret(fulfil(CallbackFor(s.callbacks, itemId).value).value).Delivered?
  }

  /** The rollback discipline: a rollback happens if and only if a
      transaction id was issued and either no callback was registered or the
      deduction went through and the callback then answered with a failure;
      the purchase has no result exactly when the callback rejected after the
      deduction; and it succeeds exactly when the callback delivered. */
  lemma RollbackExactlyWhen(
    s: MarketState, userId: string, itemId: int,
    ledger: LedgerReplies, fulfil: Handler -> Settled<CallbackResult>)
    ensures var o := PurchaseItem(s, userId, itemId, ledger, fulfil);
            (Rollback(userId, ledger.transactionId) in o.ledgerCalls
             <==> TransactionIssued(s, itemId)
                  && (CallbackFor(s.callbacks, itemId).None?
                      || (Answered(s, itemId, ledger, fulfil) && !Fulfilled(s, itemId, ledger, fulfil))))
    ensures PurchaseItem(s, userId, itemId, ledger, fulfil).result.None?
            <==> Deducted(s, itemId, ledger) && !Answered(s, itemId, ledger, fulfil)
    ensures var r := PurchaseItem(s, userId, itemId, ledger, fulfil).result;
            r.Some? && r.value.success <==> Fulfilled(s, itemId, ledger, fulfil)
  {
  }

  /** The points the ledger holds from the user under transaction `tx` after
      the calls `calls`, given whether it accepts deductions: an accepted
      deduction adds its amount, a rollback returns everything held. */
  function Held(calls: seq<LedgerCall>, tx: string, accepts: bool): int {
    if |calls| == 0 then 0
    else
      var before := Held(calls[..|calls| - 1], tx, accepts);
      match calls[|calls| - 1]
      case Reduce(_, t, amount) => if t == tx && accepts then before + amount else before
      case Rollback(_, t) => if t == tx then 0 else before
  }

  /** Points are conserved by every purchase that returns: afterwards the
      ledger holds the item's price if the purchase succeeded, and nothing
      otherwise. A purchase that rejects leaves the price held. */
  lemma PointsConserved(
    s: MarketState, userId: string, itemId: int,
    ledger: LedgerReplies, fulfil: Handler -> Settled<CallbackResult>)
    ensures var o := PurchaseItem(s, userId, itemId, ledger, fulfil);
            o.result.Some? ==>
            Held(o.ledgerCalls, ledger.transactionId, Accepted(ledger.deduction.code))
            == if o.result.value.success then o.result.value.item.value.price else 0
    ensures var o := PurchaseItem(s, userId, itemId, ledger, fulfil);
            o.result.None? ==>
            Held(o.ledgerCalls, ledger.transactionId, Accepted(ledger.deduction.code))
            == FindById(s.catalog, itemId).value.price
  {
    var o := PurchaseItem(s, userId, itemId, ledger, fulfil);
    var tx := ledger.transactionId;
    var ok := Accepted(ledger.deduction.code);
    var calls := o.ledgerCalls;
    if |calls| == 2 {
      assert calls[..1] == [calls[0]];
      assert [calls[0]][..0] == [];
    } else if |calls| == 1 {
      assert calls[..0] == [];
    }
  }

  /** The purchase writes nothing back, so the stock is never consumed: a
      purchase of the last unit can be repeated, and succeeds again. */
  lemma LastUnitSellsTwice(item: MarketItem, h: Handler, userId: string, ledger: LedgerReplies)
    requires item.stock == Count(1)
    requires 200 <= ledger.deduction.code < 300
    ensures var s := MarketState([item], map[item.id := Some(h)]);
            var first := PurchaseItem(s, userId, item.id, ledger, _ => Resolved(Bool(true)));
            var second := PurchaseItem(first.state, userId, item.id, ledger, _ => Resolved(Bool(true)));
            && first.result.Some? && first.result.value.success
            && second.result.Some? && second.result.value.success
            && first.result.value.item.value.stock == Count(0)
            && second.result.value.item.value.stock == Count(0)
  {
    var s := MarketState([item], map[item.id := Some(h)]);
    assert FindById(s.catalog, item.id) == Some(item);
  }

  /** A successful purchase of an item with unlimited (`undefined`) stock
      returns a snapshot whose stock is NaN, and with `null` stock one whose
      stock is -1: the guard in front of the decrement does not skip them. */
  lemma UnlimitedSnapshotDecremented(
    s: MarketState, userId: string, itemId: int,
    ledger: LedgerReplies, fulfil: Handler -> Settled<CallbackResult>)
    requires Fulfilled(s, itemId, ledger, fulfil)
    ensures var o := PurchaseItem(s, userId, itemId, ledger, fulfil);
            var stock := FindById(s.catalog, itemId).value.stock;
            && (stock == Undefined ==> o.result.value.item.value.stock == NaN)
            && (stock == Null ==> o.result.value.item.value.stock == Count(-1))
  {
  }
}
