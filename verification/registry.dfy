/** The registration side of the market service: plugins register items with
    a purchase callback, unregister them (the row stays, marked unregistered)
    or delete them outright. Each operation is a pure step from one service
    state to the next; the store writes it issues are taken as completed, and
    the registration lock is a no-op because steps run one at a time. */
module Registry {
  import opened Wrappers
  import opened MarketTypes
  import opened Catalog

  /** `options.image || null`: a non-empty URL stays, anything falsy (an
      omitted image, `null`, the empty string) becomes null. */
  function ImageOrNull(image: Image): (r: Image)
    ensures r != NullImage <==> image.Url? && image.url != ""
    ensures r != NullImage ==> r == image
  {
    if image.Url? && image.url != "" then image else NullImage
  }

  /** `options.price || 0`. */
  function PriceOrZero(price: Option<int>): int {
    price.GetOr(0)
  }

  /** The row a first registration creates. */
  function NewRow(pluginName: string, options: RegisterOptions, newId: int): (r: MarketItem)
    ensures r.id == newId && HasKey(r, options.name, pluginName)
    ensures r.stock == Count(0) && r.status == Unavailable && r.registered
    ensures r.price == (if options.price.Some? then options.price.value else 0)
    ensures r.description == options.description && r.tags == options.tags && r.image == options.image
  {
    MarketItem(
      id := newId,
      name := options.name,
      description := options.description,
      price := PriceOrZero(options.price),
      stock := Count(0),
      status := Unavailable,
      registered := true,
      pluginName := pluginName,
      image := options.image,
      tags := options.tags)
  }

  /** `registerItem(pluginName, options)`. `newId` is what the store's id
      allocator answers; it is consulted only when no row has the key
      `(options.name, pluginName)`. */
  function RegisterItem(s: MarketState, pluginName: string, options: RegisterOptions, newId: int): (s': MarketState)
    // whatever branch is taken, the key now names a registered row bound to the new callback
    ensures var k := IndexOfKey(s'.catalog, options.name, pluginName);
            && k.Some?
            && s'.catalog[k.value].registered
            && s'.catalog[k.value].id in s'.callbacks
            && s'.callbacks[s'.catalog[k.value].id] == options.onPurchase
    // re-registration merges into the existing row: same rows, same ids
    ensures IndexOfKey(s.catalog, options.name, pluginName).Some? ==>
            var i := IndexOfKey(s.catalog, options.name, pluginName).value;
            && |s'.catalog| == |s.catalog|
            && IndexOfKey(s'.catalog, options.name, pluginName) == Some(i)
            && s'.catalog[i] == s.catalog[i].(image := ImageOrNull(options.image), registered := true)
            && (forall j :: 0 <= j < |s.catalog| && j != i ==> s'.catalog[j] == s.catalog[j])
            && s'.callbacks == s.callbacks[s.catalog[i].id := options.onPurchase]
    // a first registration appends exactly one row under the allocated id
    ensures IndexOfKey(s.catalog, options.name, pluginName).None? ==>
            && |s'.catalog| == |s.catalog| + 1
            && s'.catalog[..|s.catalog|] == s.catalog
            && s'.catalog[|s.catalog|] == NewRow(pluginName, options, newId)
            && s'.callbacks == s.callbacks[newId := options.onPurchase]
  {
    match IndexOfKey(s.catalog, options.name, pluginName)
    case Some(i) =>
      var merged := s.catalog[i].(image := ImageOrNull(options.image), registered := true);
      var c := s.catalog[i := merged];
      assert HasKey(c[i], options.name, pluginName);
      MarketState(c, s.callbacks[merged.id := options.onPurchase])
    case None =>
      var c := s.catalog + [NewRow(pluginName, options, newId)];
      assert forall j :: 0 <= j < |s.catalog| ==> c[j] == s.catalog[j];
      assert HasKey(c[|s.catalog|], options.name, pluginName);
      MarketState(c, s.callbacks[newId := options.onPurchase])
  }

  /** `unregisterItem(id)`: the callback goes; the row, if any, stays but is
      marked unregistered. */
  function UnregisterItem(s: MarketState, id: int): (s': MarketState)
    ensures s'.callbacks.Keys == s.callbacks.Keys - {id}
    ensures forall k :: k in s'.callbacks ==> s'.callbacks[k] == s.callbacks[k]
    ensures |s'.catalog| == |s.catalog|
    ensures forall i :: 0 <= i < |s.catalog| && s.catalog[i].id == id ==>
              s'.catalog[i] == s.catalog[i].(registered := false)
    ensures forall i :: 0 <= i < |s.catalog| && s.catalog[i].id != id ==> s'.catalog[i] == s.catalog[i]
    ensures id !in Ids(s.catalog) ==> s'.catalog == s.catalog
  {
    MarketState(MarkUnregistered(s.catalog, WithId(id)), s.callbacks - {id})
  }

  /** The ids of the rows a plugin owns. */
  function OwnedIds(c: seq<MarketItem>, pluginName: string): set<int> {
    set i | 0 <= i < |c| && c[i].pluginName == pluginName :: c[i].id
  }

  /** `unregisterItems(pluginName)`: every row the plugin owns loses its
      callback and is marked unregistered; other rows are untouched. */
  function UnregisterItems(s: MarketState, pluginName: string): (s': MarketState)
    ensures s'.callbacks.Keys == s.callbacks.Keys - OwnedIds(s.catalog, pluginName)
    ensures forall k :: k in s'.callbacks ==> s'.callbacks[k] == s.callbacks[k]
    ensures |s'.catalog| == |s.catalog|
    ensures forall i :: 0 <= i < |s.catalog| && s.catalog[i].pluginName == pluginName ==>
              s'.catalog[i] == s.catalog[i].(registered := false)
    ensures forall i :: 0 <= i < |s.catalog| && s.catalog[i].pluginName != pluginName ==>
              s'.catalog[i] == s.catalog[i]
    ensures OwnedIds(s.catalog, pluginName) == {} ==> s' == s
  {
    var owned := OwnedIds(s.catalog, pluginName);
    var c := MarkUnregistered(s.catalog, OwnedBy(pluginName));
    assert forall i :: 0 <= i < |s.catalog| && s.catalog[i].pluginName == pluginName ==>
      s.catalog[i].id in owned;
    assert owned == {} ==> c == s.catalog;
    MarketState(c, s.callbacks - owned)
  }

  /** `deleteItemById(id)`: the callback and the row both go. */
  function DeleteItemById(s: MarketState, id: int): (s': MarketState)
    ensures s'.callbacks.Keys == s.callbacks.Keys - {id}
    ensures forall k :: k in s'.callbacks ==> s'.callbacks[k] == s.callbacks[k]
    ensures Ids(s'.catalog) == Ids(s.catalog) - {id}
    ensures forall x :: x in s'.catalog <==> x in s.catalog && x.id != id
  {
    RemoveIdIds(s.catalog, id);
    MarketState(RemoveWhere(s.catalog, WithId(id)), s.callbacks - {id})
  }
}
