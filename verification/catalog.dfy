/** Queries and row-wise updates over the catalog, a sequence of rows in store
    order. Store writes address rows by id; these functions apply them to
    every row a selector picks, which is the store's effect whenever ids are
    unique (they are the table's primary key). */
module Catalog {
  import opened Wrappers
  import opened MarketTypes

  function Ids(c: seq<MarketItem>): set<int> {
    set i | 0 <= i < |c| :: c[i].id
  }

  /** No two rows share an id. */
  predicate UniqueIds(c: seq<MarketItem>) {
    forall i, j :: 0 <= i < j < |c| ==> c[i].id != c[j].id
  }

  /** A row belongs to the registration key `(name, pluginName)`. */
  predicate HasKey(r: MarketItem, name: string, pluginName: string) {
    r.name == name && r.pluginName == pluginName
  }

  /** At most one row per registration key. */
  predicate UniqueKeys(c: seq<MarketItem>) {
    forall i, j :: 0 <= i < j < |c| ==> !HasKey(c[j], c[i].name, c[i].pluginName)
  }

  /** Selectors: the rows carrying an id, owned by a plugin, or registered
      under a key. */
  function WithId(id: int): MarketItem -> bool {
    (x: MarketItem) => x.id == id
  }

  function OwnedBy(pluginName: string): MarketItem -> bool {
    (x: MarketItem) => x.pluginName == pluginName
  }

  /** The index of the first row `p` accepts, the way `Array.find` scans. */
  function FirstIndex(c: seq<MarketItem>, p: MarketItem -> bool): (r: Option<nat>)
    ensures r.None? <==> forall i :: 0 <= i < |c| ==> !p(c[i])
    ensures r.Some? ==> r.value < |c| && p(c[r.value])
    ensures r.Some? ==> forall i :: 0 <= i < r.value ==> !p(c[i])
  {
    if |c| == 0 then None
    else if p(c[0]) then Some(0)
    else match FirstIndex(c[1..], p)
      case None => None
      case Some(k) => Some(k + 1)
  }

  /** Two scans that agree on every row's verdict stop at the same row. */
  lemma {:induction false} FirstIndexAgrees(
    c: seq<MarketItem>, p: MarketItem -> bool, d: seq<MarketItem>, q: MarketItem -> bool)
    requires |c| == |d|
    requires forall i :: 0 <= i < |c| ==> p(c[i]) == q(d[i])
    ensures FirstIndex(c, p) == FirstIndex(d, q)
  {
    if |c| > 0 && !p(c[0]) {
      assert forall i :: 0 <= i < |c| - 1 ==> c[1..][i] == c[i + 1] && d[1..][i] == d[i + 1];
      FirstIndexAgrees(c[1..], p, d[1..], q);
    }
  }

  /** The row `getMarketItemById` yields: the first with that id. */
  function FindById(c: seq<MarketItem>, id: int): (r: Option<MarketItem>)
    ensures r.None? <==> id !in Ids(c)
    ensures r.Some? ==> r.value in c && r.value.id == id
  {
    match FirstIndex(c, WithId(id))
    case None => None
    case Some(i) => Some(c[i])
  }

  /** The index of the row registered under `(name, pluginName)`, if any. */
  function IndexOfKey(c: seq<MarketItem>, name: string, pluginName: string): (r: Option<nat>)
    ensures r.None? <==> forall i :: 0 <= i < |c| ==> !HasKey(c[i], name, pluginName)
    ensures r.Some? ==> r.value < |c| && HasKey(c[r.value], name, pluginName)
    ensures r.Some? ==> forall i :: 0 <= i < r.value ==> !HasKey(c[i], name, pluginName)
  {
    FirstIndex(c, (x: MarketItem) => HasKey(x, name, pluginName))
  }

  /** The largest id in a non-empty catalog. */
  function MaxId(c: seq<MarketItem>): (m: int)
    requires |c| > 0
    ensures m in Ids(c)
    ensures forall i :: 0 <= i < |c| ==> c[i].id <= m
  {
    if |c| == 1 then c[0].id
    else
      var rest := MaxId(c[1..]);
      assert c[1..][0] == c[1];
      if c[0].id >= rest then c[0].id else rest
  }

  /** The id the store hands to a new row: one past the largest id, or 1 for
      an empty table. */
  function NextId(c: seq<MarketItem>): (id: int)
    ensures id !in Ids(c)
    ensures forall i :: 0 <= i < |c| ==> c[i].id < id
    ensures |c| == 0 ==> id == 1
  {
    if |c| == 0 then 1 else MaxId(c) + 1
  }

  /** Every row `sel` picks gets `registered = false`; the others stay. */
  function MarkUnregistered(c: seq<MarketItem>, sel: MarketItem -> bool): (r: seq<MarketItem>)
    ensures |r| == |c|
    ensures forall i :: 0 <= i < |c| && sel(c[i]) ==> r[i] == c[i].(registered := false)
    ensures forall i :: 0 <= i < |c| && !sel(c[i]) ==> r[i] == c[i]
  {
    if |c| == 0 then []
    else [if sel(c[0]) then c[0].(registered := false) else c[0]] + MarkUnregistered(c[1..], sel)
  }

  /** The catalog without the rows `sel` picks, in the same order. */
  function RemoveWhere(c: seq<MarketItem>, sel: MarketItem -> bool): (r: seq<MarketItem>)
    ensures |r| <= |c|
    ensures forall x :: x in r <==> x in c && !sel(x)
  {
    if |c| == 0 then []
    else if sel(c[0]) then RemoveWhere(c[1..], sel)
    else [c[0]] + RemoveWhere(c[1..], sel)
  }

  /** Removing the rows that carry an id removes exactly that id. */
  lemma {:induction false} RemoveIdIds(c: seq<MarketItem>, id: int)
    ensures Ids(RemoveWhere(c, WithId(id))) == Ids(c) - {id}
  {
    var r := RemoveWhere(c, WithId(id));
    forall k | k in Ids(c) - {id}
      ensures k in Ids(r)
    {
      var i :| 0 <= i < |c| && c[i].id == k;
      assert c[i] in c;
      assert c[i] in r;
      var j :| 0 <= j < |r| && r[j] == c[i];
    }
    forall k | k in Ids(r)
      ensures k in Ids(c) - {id}
    {
      var j :| 0 <= j < |r| && r[j].id == k;
      assert r[j] in r;
    }
  }

  /** Removing rows keeps ids and registration keys unique. */
  lemma {:induction false} RemoveWherePreservesUniqueness(c: seq<MarketItem>, sel: MarketItem -> bool)
    requires UniqueIds(c) && UniqueKeys(c)
    ensures UniqueIds(RemoveWhere(c, sel)) && UniqueKeys(RemoveWhere(c, sel))
  {
    if |c| > 0 {
      var tail := c[1..];
      assert UniqueIds(tail) && UniqueKeys(tail) by {
        forall i, j | 0 <= i < j < |tail| ensures tail[i].id != tail[j].id {
          assert tail[i] == c[i + 1] && tail[j] == c[j + 1];
        }
        forall i, j | 0 <= i < j < |tail|
          ensures !HasKey(tail[j], tail[i].name, tail[i].pluginName)
        {
          assert tail[i] == c[i + 1] && tail[j] == c[j + 1];
        }
      }
      RemoveWherePreservesUniqueness(tail, sel);
      var rest := RemoveWhere(tail, sel);
      if !sel(c[0]) {
        var r := [c[0]] + rest;
        forall j | 0 <= j < |rest|
          ensures rest[j].id != c[0].id && !HasKey(rest[j], c[0].name, c[0].pluginName)
        {
          assert rest[j] in rest;
          assert rest[j] in tail;
          var k :| 0 <= k < |tail| && tail[k] == rest[j];
          assert tail[k] == c[k + 1];
        }
        forall i, j | 0 <= i < j < |r| ensures r[i].id != r[j].id {
          if i > 0 { assert r[i] == rest[i - 1] && r[j] == rest[j - 1]; }
          else { assert r[j] == rest[j - 1]; }
        }
        forall i, j | 0 <= i < j < |r|
          ensures !HasKey(r[j], r[i].name, r[i].pluginName)
        {
          if i > 0 { assert r[i] == rest[i - 1] && r[j] == rest[j - 1]; }
          else { assert r[j] == rest[j - 1]; }
        }
      }
    }
  }
}
