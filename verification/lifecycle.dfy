/** Properties that relate the operations of the market service to each
    other: the state invariant every registration step keeps, idempotent
    re-registration, and what a purchase sees after a registration step. */
module Lifecycle {
  import opened Wrappers
  import opened MarketTypes
  import opened Catalog
  import opened Registry
  import opened Purchase

  /** The service's state invariant: ids and registration keys are unique,
      every callback belongs to a row, and a row with a callback entry is
      marked registered. */
  predicate Valid(s: MarketState) {
    && UniqueIds(s.catalog)
    && UniqueKeys(s.catalog)
    && (forall k :: k in s.callbacks ==> k in Ids(s.catalog))
    && (forall i :: 0 <= i < |s.catalog| && s.catalog[i].id in s.callbacks ==> s.catalog[i].registered)
  }

  /** The state at process start: the callback map is empty and the store
      holds whatever rows it held before, with unique ids and keys. */
  lemma StartValid(c: seq<MarketItem>)
    requires UniqueIds(c) && UniqueKeys(c)
    ensures Valid(MarketState(c, map[]))
  {
  }

  /** Re-registration rewrites one row's image and flag, and binds its id. */
  lemma RegisterMergePreservesValid(s: MarketState, pluginName: string, options: RegisterOptions, newId: int)
    requires Valid(s)
    requires IndexOfKey(s.catalog, options.name, pluginName).Some?
    ensures Valid(RegisterItem(s, pluginName, options, newId))
  {
    var s' := RegisterItem(s, pluginName, options, newId);
    var c := s.catalog;
    var c' := s'.catalog;
    var i := IndexOfKey(c, options.name, pluginName).value;
    assert forall j :: 0 <= j < |c| ==> c'[j].id == c[j].id && HasKey(c'[j], c[j].name, c[j].pluginName);
    assert Ids(c') == Ids(c) by {
      forall k | k in Ids(c) ensures k in Ids(c') {
        var j :| 0 <= j < |c| && c[j].id == k;
        assert c'[j].id == k;
      }
    }
    assert c[i].id in Ids(c);
    forall j | 0 <= j < |c'| && c'[j].id in s'.callbacks ensures c'[j].registered {
      if j != i {
        assert c'[j] == c[j];
        assert c[j].id != c[i].id;
      }
    }
  }

  /** A first registration appends a row under a fresh id and binds it. */
  lemma RegisterAppendPreservesValid(s: MarketState, pluginName: string, options: RegisterOptions, newId: int)
    requires Valid(s)
    requires IndexOfKey(s.catalog, options.name, pluginName).None?
    requires newId !in Ids(s.catalog)
    ensures Valid(RegisterItem(s, pluginName, options, newId))
  {
    var s' := RegisterItem(s, pluginName, options, newId);
    var c := s.catalog;
    var c' := s'.catalog;
    assert Ids(c') == Ids(c) + {newId} by {
      forall k | k in Ids(c) ensures k in Ids(c') {
        var j :| 0 <= j < |c| && c[j].id == k;
        assert c'[j] == c[j];
      }
      assert c'[|c|].id == newId;
    }
    forall i, j | 0 <= i < j < |c'| ensures c'[i].id != c'[j].id {
      if j == |c| {
        assert c'[i] == c[i];
        assert c[i].id in Ids(c);
      } else {
        assert c'[i] == c[i] && c'[j] == c[j];
      }
    }
    forall i, j | 0 <= i < j < |c'| ensures !HasKey(c'[j], c'[i].name, c'[i].pluginName) {
      if j == |c| {
        assert c'[i] == c[i];
      } else {
        assert c'[i] == c[i] && c'[j] == c[j];
      }
    }
    forall i | 0 <= i < |c'| && c'[i].id in s'.callbacks ensures c'[i].registered {
      if i < |c| {
        assert c'[i] == c[i];
        assert c[i].id in Ids(c);
      }
    }
  }

  /** `registerItem` keeps the invariant when the allocated id is fresh (as
      `NextId` guarantees). */
  lemma RegisterPreservesValid(s: MarketState, pluginName: string, options: RegisterOptions, newId: int)
    requires Valid(s)
    requires newId !in Ids(s.catalog)
    ensures Valid(RegisterItem(s, pluginName, options, newId))
  {
    if IndexOfKey(s.catalog, options.name, pluginName).Some? {
      RegisterMergePreservesValid(s, pluginName, options, newId);
    } else {
      RegisterAppendPreservesValid(s, pluginName, options, newId);
    }
  }

  /** With the store's allocation policy the id is always fresh, so
      `registerItem` keeps the invariant unconditionally. */
  lemma RegisterWithNextIdPreservesValid(s: MarketState, pluginName: string, options: RegisterOptions)
    requires Valid(s)
    ensures Valid(RegisterItem(s, pluginName, options, NextId(s.catalog)))
  {
    RegisterPreservesValid(s, pluginName, options, NextId(s.catalog));
  }

  lemma UnregisterItemPreservesValid(s: MarketState, id: int)
    requires Valid(s)
    ensures Valid(UnregisterItem(s, id))
  {
    var c := s.catalog;
    var c' := UnregisterItem(s, id).catalog;
    assert forall j :: 0 <= j < |c| ==> c'[j].id == c[j].id && HasKey(c'[j], c[j].name, c[j].pluginName);
    assert Ids(c') == Ids(c) by {
      forall k | k in Ids(c) ensures k in Ids(c') {
        var j :| 0 <= j < |c| && c[j].id == k;
        assert c'[j].id == k;
      }
    }
  }

  lemma UnregisterItemsPreservesValid(s: MarketState, pluginName: string)
    requires Valid(s)
    ensures Valid(UnregisterItems(s, pluginName))
  {
    var c := s.catalog;
    var s' := UnregisterItems(s, pluginName);
    var c' := s'.catalog;
    assert forall j :: 0 <= j < |c| ==> c'[j].id == c[j].id && HasKey(c'[j], c[j].name, c[j].pluginName);
    assert Ids(c') == Ids(c) by {
      forall k | k in Ids(c) ensures k in Ids(c') {
        var j :| 0 <= j < |c| && c[j].id == k;
        assert c'[j].id == k;
      }
    }
    assert forall i :: 0 <= i < |c| && c[i].pluginName == pluginName ==> c[i].id in OwnedIds(c, pluginName);
  }

  lemma DeleteItemByIdPreservesValid(s: MarketState, id: int)
    requires Valid(s)
    ensures Valid(DeleteItemById(s, id))
  {
    var s' := DeleteItemById(s, id);
    RemoveWherePreservesUniqueness(s.catalog, WithId(id));
    forall i | 0 <= i < |s'.catalog| && s'.catalog[i].id in s'.callbacks ensures s'.catalog[i].registered {
      assert s'.catalog[i] in s'.catalog;
      var j :| 0 <= j < |s.catalog| && s.catalog[j] == s'.catalog[i];
    }
  }

  /** Registering the same `(name, pluginName)` twice leaves one row: the
      second registration keeps the row count, the ids and the row's index,
      and binds the row's id to the second callback. */
  lemma RegisterTwiceKeepsOneRow(
    s: MarketState, pluginName: string, first: RegisterOptions, second: RegisterOptions, id1: int, id2: int)
    requires first.name == second.name
    ensures var s1 := RegisterItem(s, pluginName, first, id1);
            var s2 := RegisterItem(s1, pluginName, second, id2);
            var k := IndexOfKey(s1.catalog, first.name, pluginName);
            && k.Some?
            && |s2.catalog| == |s1.catalog|
            && IndexOfKey(s2.catalog, second.name, pluginName) == k
            && s2.catalog[k.value].id == s1.catalog[k.value].id
            && (forall j :: 0 <= j < |s1.catalog| ==> s2.catalog[j].id == s1.catalog[j].id)
            && s2.callbacks[s1.catalog[k.value].id] == second.onPurchase
  {
  }

  /** Registering the same options twice is the same as registering once,
      when the image is a non-empty URL or `null`: the first registration
      stores the image as given, a re-registration stores
      `options.image || null`. */
  lemma RegisterIdempotent(s: MarketState, pluginName: string, options: RegisterOptions, id1: int, id2: int)
    requires options.image == NullImage || (options.image.Url? && options.image.url != "")
    ensures var s1 := RegisterItem(s, pluginName, options, id1);
            RegisterItem(s1, pluginName, options, id2) == s1
  {
    var s1 := RegisterItem(s, pluginName, options, id1);
    var i := IndexOfKey(s1.catalog, options.name, pluginName).value;
    assert ImageOrNull(options.image) == options.image;
    assert s1.catalog[i := s1.catalog[i].(image := ImageOrNull(options.image), registered := true)] == s1.catalog;
  }

  /** The exceptions: an omitted or empty image survives a first
      registration and becomes null on the next one. */
  lemma RegisterFalsyImageNotIdempotent(pluginName: string, options: RegisterOptions, id: int)
    requires options.image == UnsetImage || options.image == Url("")
    ensures var s1 := RegisterItem(MarketState([], map[]), pluginName, options, id);
            var s2 := RegisterItem(s1, pluginName, options, id);
            && s1.catalog[0].image == options.image
            && s2.catalog[0].image == NullImage
            && s2 != s1
  {
    var s1 := RegisterItem(MarketState([], map[]), pluginName, options, id);
    assert IndexOfKey(s1.catalog, options.name, pluginName) == Some(0);
  }

  /** A freshly registered item starts with stock 0, so buying it is refused
      as sold out before the ledger is touched, provided the allocated id
      was fresh. */
  lemma PurchaseAfterFirstRegistration(
    s: MarketState, pluginName: string, options: RegisterOptions, newId: int,
    userId: string, ledger: LedgerReplies, fulfil: Handler -> Settled<CallbackResult>)
    requires IndexOfKey(s.catalog, options.name, pluginName).None?
    requires newId !in Ids(s.catalog)
    ensures var o := PurchaseItem(RegisterItem(s, pluginName, options, newId), userId, newId, ledger, fulfil);
            && o.result == Some(PurchaseResult(false, SoldOutMessage, None, None))
            && o.ledgerCalls == []
  {
    var c' := RegisterItem(s, pluginName, options, newId).catalog;
    assert FindById(c', newId) == Some(c'[|s.catalog|]) by {
      assert forall j :: 0 <= j < |s.catalog| ==> c'[j] == s.catalog[j] && c'[j].id != newId;
      assert c'[|s.catalog|].id == newId;
      var k := FirstIndex(c', WithId(newId));
      assert k == Some(|s.catalog|);
    }
  }

  /** After `deleteItemById(id)` a purchase of `id` finds nothing and makes
      no ledger call. */
  lemma PurchaseAfterDelete(
    s: MarketState, id: int, userId: string, ledger: LedgerReplies, fulfil: Handler -> Settled<CallbackResult>)
    ensures var o := PurchaseItem(DeleteItemById(s, id), userId, id, ledger, fulfil);
            && o.result == Some(PurchaseResult(false, NotFoundMessage, None, None))
            && o.ledgerCalls == []
  {
  }

  /** Marking rows unregistered does not move the first row with an id. */
  lemma FindAfterMarkUnregistered(c: seq<MarketItem>, sel: MarketItem -> bool, id: int)
    ensures var r := FindById(MarkUnregistered(c, sel), id);
            && r.Some? == FindById(c, id).Some?
            && (r.Some? ==> var f := FindById(c, id).value;
                            r.value == if sel(f) then f.(registered := false) else f)
  {
    var c' := MarkUnregistered(c, sel);
    FirstIndexAgrees(c, WithId(id), c', WithId(id));
  }

  /** After `unregisterItem(id)` the row is still there, but a purchase of it
      (if not sold out) finds no callback: the ledger sees one rollback and
      nothing else. The `registered` flag itself does not gate purchases. */
  lemma PurchaseAfterUnregister(
    s: MarketState, id: int, userId: string, ledger: LedgerReplies, fulfil: Handler -> Settled<CallbackResult>)
    requires FindById(s.catalog, id).Some?
    requires !SoldOut(FindById(s.catalog, id).value.stock)
    ensures var o := PurchaseItem(UnregisterItem(s, id), userId, id, ledger, fulfil);
            && o.ledgerCalls == [Rollback(userId, ledger.transactionId)]
            && o.result == Some(PurchaseResult(false, CallbackMissingMessage, None,
                                               Some(FindById(s.catalog, id).value.(registered := false))))
  {
    FindAfterMarkUnregistered(s.catalog, WithId(id), id);
  }
}
