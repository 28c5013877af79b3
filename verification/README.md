# PointmintMarket market service — a Dafny model

This project models `MarketService`, the core of a points marketplace for a
chat bot. External plugins register items with a purchase callback. Users
spend points from a points ledger to buy those items.

The service holds two pieces of state:

- the catalog of `MarketItem` rows;
- the in-memory map from item id to purchase callback.

It has two parts:

- **Purchase protocol** (`purchaseItem`). It looks the item up, checks the
  stock, asks the ledger for a transaction id, finds the item's callback,
  deducts the price, runs the callback, and rolls the deduction back if the
  callback reports failure.
- **Registration lifecycle**. `registerItem` creates a row, or merges into the
  row that already has the same `(name, pluginName)`. `unregisterItem` and
  `unregisterItems` mark rows unregistered and keep them. `deleteItemById`
  removes the row.

Every operation is a pure function from a `MarketState` (catalog + callback
map) to the next state.

- **Ledger and callback answers are inputs.** A purchase takes:
  - `ledger`: the transaction id the ledger issues and its `{code, msg}`
    reply to the deduction;
  - `fulfil`: how each callback settles for this purchase: it resolves to an
    answer, or it rejects.
- **Ledger calls are returned.** A purchase also returns the balance-changing
  calls it made on the ledger (`Reduce`, `Rollback`), in order.

This makes "rollback happens exactly when …", "no ledger call when …" and
"points are conserved" statements about one function.

Files:

- `wrappers.dfy`: `Option`.
- `types.dfy`: rows, options, callback answers, results, ledger calls, state,
  and the runtime's stock semantics.
- `catalog.dfy`: lookups, id allocation, row-wise updates.
- `registry.dfy`: the registration operations.
- `purchase.dfy`: the purchase protocol and its properties.
- `lifecycle.dfy`: the state invariant and properties that relate several
  operations.

Modelling choices that follow the code:

- **Stock.** A row's stock is `Count(n) | Undefined | Null | NaN`.
  - The sold-out test `item.stock == 0` is true only for `Count(0)`. An
    absent stock (unlimited) and a negative stock are never sold out.
  - The guard `item.stock !== undefined || item.stock !== null` is always
    true. So the returned snapshot is always decremented:
    - `Count(n)` becomes `Count(n-1)`;
    - `null` becomes `-1`;
    - `undefined` becomes `NaN`.
  - The model mirrors this (`UnlimitedSnapshotDecremented`).
- **Purchases write nothing back.** The decrement applies only to the item in
  the result. The catalog's stock never changes on a purchase. The system's
  design documentation says a purchase decrements the stock, and that only one
  of two buyers of the last unit succeeds. The code does neither, and the model
  follows the code: `LastUnitSellsTwice` shows the last unit selling twice.
- **A rejecting callback is not caught.** If the callback rejects after an
  accepted deduction, the rejection propagates out of `purchaseItem`. Nothing
  rolls the deduction back. The model gives such a purchase no result, a
  single `Reduce`, and the price still held (`PurchaseFulfilmentRejected`).
- **A missing callback still causes a rollback.** The service asks the ledger
  for a transaction id before it looks for the callback. If there is no
  callback, it rolls back a transaction that deducted nothing.
- **Callback map values are optional.** `onPurchase` is optional, and
  `Map.set(id, undefined)` leaves the id in the map with no callback. The map
  is therefore `map<int, Option<Handler>>`, and such an entry reads as "no
  callback".
- **Image on re-registration.** An image is a URL string, `undefined` or
  `null`.
  - A new row stores `options.image` unchanged.
  - A merge stores `options.image || null`, so an omitted or empty image
    becomes `null`.
  - So registering twice is idempotent when the image is a non-empty URL or
    `null`, and not when it is omitted or empty (`RegisterIdempotent`,
    `RegisterFalsyImageNotIdempotent`).
- **`registered` does not affect purchases.** The flag does not gate a
  purchase. After `unregisterItem`, buying fails only because the callback is
  gone (`PurchaseAfterUnregister`).
- **Store writes are by id.** Unregistering marks every row with the id; a
  merge rewrites the row it found. Ids are the primary key, so there is at
  most one row per id. The invariant `Valid` (unique ids and keys, callbacks only for
  registered rows) is preserved by every registration step.
- **New ids come from the store.** `registerItem` takes the id the store
  allocated as a parameter. The invariant needs it to be fresh, which the
  allocation policy `NextId` (largest id + 1, or 1 for an empty table)
  guarantees (`RegisterWithNextIdPreservesValid`).

## Model

| member | source | states |
|---|---|---|
| MarketTypes.CallbackFor | src/services.ts:85-86 | an item has a callback exactly when its id is in the map bound to a present callback |
| MarketTypes.Decrement | src/services.ts:116 | `stock--` gives a number exactly for a counted or null stock: counted stock drops by one, null becomes -1, undefined and NaN give NaN |
| MarketTypes.DecrementGuardAlwaysHolds | src/services.ts:115 | the guard in front of the decrement holds for every stock value |
| Catalog.FirstIndex | src/services.ts:38 | the scan returns the first row the predicate accepts, or none exactly when no row is accepted |
| Catalog.FindById | src/services.ts:74-75 | the lookup finds a row exactly when the id is in the catalog, and the row it finds carries that id |
| Catalog.IndexOfKey | src/services.ts:37-39 | the existing-item search returns the first row with that `(name, pluginName)`, or none exactly when no row has it |
| Catalog.NextId | src/services.ts:48 | the allocated id is larger than every id in the catalog, so it is fresh, and it is 1 for an empty table |
| Catalog.RemoveIdIds | src/services.ts:153 | deleting the rows with an id removes exactly that id from the set of ids |
| Catalog.RemoveWherePreservesUniqueness | src/services.ts:153 | deleting rows keeps ids and registration keys unique |
| Registry.ImageOrNull | src/services.ts:41 | a merged image is non-null exactly when the option is a non-empty URL, and then it is that URL; an omitted, null or empty image becomes null |
| Registry.NewRow | src/services.ts:50-61 | a new row has the allocated id, the key, stock 0, status unavailable, registered, price = option or 0, and copies description, tags and image |
| Registry.RegisterItem | src/services.ts:27-69 | afterwards the key names a registered row bound to the new callback; a merge keeps the row count and ids and changes only that row's image and flag; otherwise exactly one row is appended |
| Registry.UnregisterItem | src/services.ts:122-131 | the id's callback is removed and no other entry changes; rows with that id become unregistered, others stay; an absent id leaves the catalog unchanged |
| Registry.UnregisterItems | src/services.ts:134-147 | exactly the plugin's rows become unregistered and lose their callbacks; a plugin owning nothing leaves the state unchanged |
| Registry.DeleteItemById | src/services.ts:150-154 | the callback and every row with the id are removed, all other rows and entries stay |
| Purchase.Interpret | src/services.ts:97-114 | a callback answer counts as delivered exactly for `true` or feedback with code 0 |
| Purchase.PurchaseItem | src/services.ts:72-119 | no state is written; ledger calls are bracketed (nothing, a lone rollback, or a deduction then possibly its rollback) under one user and transaction; a purchase without a result (a rejection) made exactly one deduction and no rollback; otherwise the ledger is touched exactly when an item is reported, and success alone carries the transaction id and exactly one deduction of the item's price |
| Purchase.PurchaseUnknownItem | src/services.ts:74-77 | an unknown id gives "商品不存在" with no ledger call, whatever the callbacks, ledger or callback answers |
| Purchase.PurchaseSoldOut | src/services.ts:79-81 | a stock of exactly 0 gives "商品已售罄" with no ledger call, whatever the callbacks, ledger or callback answers |
| Purchase.PurchaseNotSoldOut | src/services.ts:79-81 | an absent (unlimited), negative or positive stock is not sold out: the ledger is called and the row is reported |
| Purchase.PurchaseWithoutCallback | src/services.ts:83-89 | with no callback the only ledger call is one rollback of the issued transaction; the result is "商品回调函数未注册" and ignores the deduction reply and callback answers |
| Purchase.PurchaseDeductionRefused | src/services.ts:91-95 | a reply code outside [200,300) fails with the ledger's message after one deduction of the price, with no rollback and no callback run |
| Purchase.PurchaseFulfilmentFailed | src/services.ts:96-114 | after an accepted deduction, `false`, a string or non-zero feedback gives one deduction then one rollback of the same transaction, with message "购买失败", the string, or the feedback message |
| Purchase.PurchaseFulfilmentRejected | src/services.ts:91-97 | after an accepted deduction, a callback that rejects leaves the purchase without a result, with one deduction of the price, no rollback, and the price still held |
| Purchase.PurchaseSucceeded | src/services.ts:115-118 | a delivered purchase returns "购买成功" with the transaction id used for the single deduction of the price, no rollback, a decremented snapshot and an unchanged state |
| Purchase.RollbackExactlyWhen | src/services.ts:83-114 | a rollback happens if and only if a transaction was issued and either no callback exists or the deduction was accepted and the callback answered with a failure; the purchase has no result exactly when the deduction was accepted and the callback rejected; success holds exactly when the callback delivered |
| Purchase.PointsConserved | src/services.ts:83-118 | after any purchase that returns, the ledger holds the item's price from the user if it succeeded, and nothing otherwise; after one that rejects it still holds the price |
| Purchase.LastUnitSellsTwice | src/services.ts:79-118 | with a stock of 1, a purchase succeeds and the same purchase on the resulting state succeeds again |
| Purchase.UnlimitedSnapshotDecremented | src/services.ts:115-117 | a successful purchase of an undefined-stock item reports stock NaN, and of a null-stock item stock -1 |
| Lifecycle.StartValid | src/services.ts:24 | at start-up the callback map is empty; with any store contents of unique ids and keys, this state satisfies the invariant |
| Lifecycle.RegisterMergePreservesValid | src/services.ts:37-45 | merging a re-registration keeps the invariant |
| Lifecycle.RegisterAppendPreservesValid | src/services.ts:47-64 | appending a first registration under a fresh id keeps the invariant |
| Lifecycle.RegisterPreservesValid | src/services.ts:27-69 | `registerItem` with a fresh allocated id keeps the invariant |
| Lifecycle.RegisterWithNextIdPreservesValid | src/services.ts:27-69 | `registerItem` with the id the store's allocation policy hands out keeps the invariant, with no freshness assumption |
| Lifecycle.UnregisterItemPreservesValid | src/services.ts:122-131 | `unregisterItem` keeps the invariant |
| Lifecycle.UnregisterItemsPreservesValid | src/services.ts:134-147 | `unregisterItems` keeps the invariant |
| Lifecycle.DeleteItemByIdPreservesValid | src/services.ts:150-154 | `deleteItemById` keeps the invariant |
| Lifecycle.RegisterTwiceKeepsOneRow | src/services.ts:36-45 | a second registration of the same key keeps the row count, ids and the row's position, and binds the row's id to the second callback |
| Lifecycle.RegisterIdempotent | src/services.ts:36-64 | registering the same options twice equals registering once when the image is a non-empty URL or null |
| Lifecycle.RegisterFalsyImageNotIdempotent | src/services.ts:41-59 | with an omitted or empty image the first registration stores it as given and a second one changes it to null, so the states differ |
| Lifecycle.PurchaseAfterFirstRegistration | src/services.ts:47-81 | buying a freshly registered item with a fresh id is refused as sold out with no ledger call |
| Lifecycle.PurchaseAfterDelete | src/services.ts:150-154 | after deletion a purchase of the id reports "商品不存在" with no ledger call |
| Lifecycle.PurchaseAfterUnregister | src/services.ts:122-131 | after unregistration a purchase of a row that is not sold out makes only one rollback and reports a missing callback on the now-unregistered row |

## Left out

- The registration lock (src/services.ts:29-35, 68) is a busy-wait that
  serialises concurrent calls. The model runs every operation to completion
  one at a time, so the lock is a no-op.
- Per-item stock locking and stock under concurrent purchases: the code has
  neither.
- The store (src/database.ts) is not part of this model. Its methods are
  replaced by sequence operations on the catalog, and the writes the service
  does not await (src/services.ts:63, 130, 145, 153) are taken as completed.
- The store's fallback to id 1 on an error is outside the model.
  `RegisterItem` accepts any allocated id. Only the invariant lemmas require
  it to be fresh.
- The points ledger's accounting and the callbacks' bodies are foreign calls.
  Their answers are inputs. `Held` is an abstraction of the ledger:
  - a deduction the ledger accepts is held under its transaction;
  - a rollback returns what that transaction holds.
- Purchase.PurchaseItem: a ledger call that rejects (`generateTransactionId`,
  `reduce`, `rollback`) is not modelled. The ledger is a foreign service, and
  its calls are taken to settle with a value. Only the callback's rejection is
  modelled.
- Purchase.RollbackExactlyWhen: like `PurchaseItem`, it covers every way a
  callback settles but assumes every ledger call settles with a value.
- Purchase.PointsConserved: like `PurchaseItem`, it assumes every ledger call
  settles with a value. A rejecting `rollback` would leave the price held
  after a failed purchase.
- `getUserName` is not modelled. The session object is replaced by the
  callback oracle.
- Logging calls are omitted.
- JavaScript number semantics beyond stock are not modelled. Price and reply
  codes are integers, and a NaN or fractional price or code is outside the
  model.
- Registration options the service never reads (`id`, `category`,
  `metadata`) are omitted. `options.stock` is carried but ignored: the source
  always creates rows with stock 0.
- The chat commands (src/command.ts), configuration schema (src/config.ts),
  plugin wiring (src/index.ts), console stub and client page are outside the
  service core.
- Admin catalog edits and swaps are not methods of `MarketService`
  (src/services.ts).
