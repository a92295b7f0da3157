/** The UTXO cache stack of src/coins.cpp: write-back caches with DIRTY and FRESH flags,
    stacked over a coin database (src/txdb.cpp), behave like a stack of plain maps.

    The asset branches of the source are not modelled (its `assetsCache` is null). */
module Coins {
  import opened Basics

  datatype OutPoint = OutPoint(hash: nat, n: nat)

  /** `memory` is the heap space the allocator gave the script and `unspendable` the verdict of
      the script classifier; both depend on code outside this model. */
  datatype Script = Script(bytes: seq<nat>, memory: nat, unspendable: bool)

  datatype Coin = Coin(value: int, script: Script, coinbase: bool, height: nat) {
    predicate IsSpent() {
      value == -1
    }
  }

  /** What Coin::Clear leaves behind. */
  const EMPTY_COIN := Coin(-1, Script([], 0, false), false, 0)

  datatype Entry = Entry(coin: Coin, isDirty: bool, isFresh: bool)

  type CoinMap = map<OutPoint, Coin>
  type CacheMap = map<OutPoint, Entry>

  //////////////////////////////////////////////////////////////////////////////
  // What one layer means over the view below it
  //////////////////////////////////////////////////////////////////////////////

  /** The unspent coins seen through `cache` over a view showing `below`. */
  ghost function Overlay(below: CoinMap, cache: CacheMap): CoinMap {
    map o | o in below.Keys + cache.Keys && (o in cache ==> !cache[o].coin.IsSpent())
      :: if o in cache then cache[o].coin else below[o]
  }

  /** The flag contract of CCoinsCacheEntry: an entry that is not DIRTY agrees with the view
      below, and a FRESH one is absent from it. */
  ghost predicate EntryOk(below: CoinMap, o: OutPoint, e: Entry) {
    && (e.isFresh ==> o !in below)
    && (!e.isDirty ==> if e.coin.IsSpent() then o !in below else o in below && below[o] == e.coin)
  }

  ghost predicate LayerOk(below: CoinMap, cache: CacheMap) {
    forall o <- cache :: EntryOk(below, o, cache[o])
  }

  lemma OverlayEmpty(below: CoinMap)
    ensures Overlay(below, map[]) == below
  {
  }

  ghost predicate Unspent(coins: CoinMap) {
    forall o <- coins :: !coins[o].IsSpent()
  }

  ghost function Usage(cache: CacheMap): nat {
    if cache == map[] then 0
    else
      var o :| o in cache;
      cache[o].coin.script.memory + Usage(cache - {o})
  }

  lemma {:induction false} UsageSplit(cache: CacheMap, o: OutPoint)
    requires o in cache
    ensures Usage(cache) == cache[o].coin.script.memory + Usage(cache - {o})
    decreases |cache|
  {
    var p :| p in cache && Usage(cache) == cache[p].coin.script.memory + Usage(cache - {p});
    if p != o {
      UsageSplit(cache - {p}, o);
      UsageSplit(cache - {o}, p);
      assert cache - {p} - {o} == cache - {o} - {p};
    }
  }

  lemma UsageUpdate(cache: CacheMap, o: OutPoint, e: Entry)
    ensures Usage(cache[o := e]) == Usage(cache - {o}) + e.coin.script.memory
  {
    UsageSplit(cache[o := e], o);
    assert cache[o := e] - {o} == cache - {o};
  }

  lemma UsageReplaced(cache: CacheMap, o: OutPoint, e: Entry)
    ensures Usage(cache[o := e])
            == Usage(cache) - (if o in cache then cache[o].coin.script.memory else 0) + e.coin.script.memory
  {
    UsageUpdate(cache, o, e);
    if o in cache { UsageSplit(cache, o); } else { UsageWithout(cache, o); }
  }

  lemma UsageWithout(cache: CacheMap, o: OutPoint)
    requires o !in cache
    ensures Usage(cache - {o}) == Usage(cache)
  {
    assert cache - {o} == cache;
  }

  //////////////////////////////////////////////////////////////////////////////
  // The transitions of one layer
  //////////////////////////////////////////////////////////////////////////////

  lemma FetchedOk(below: CoinMap, cache: CacheMap, o: OutPoint, e: Entry)
    requires LayerOk(below, cache) && o !in cache
    requires EntryOk(below, o, e) && !e.isDirty
    ensures LayerOk(below, cache[o := e])
    ensures Overlay(below, cache[o := e]) == Overlay(below, cache)
    ensures Usage(cache[o := e]) == Usage(cache) + e.coin.script.memory
  {
    UsageUpdate(cache, o, e);
    UsageWithout(cache, o);
    forall p <- cache ensures EntryOk(below, p, cache[o := e][p]) {
      assert EntryOk(below, p, cache[p]);
    }
    assert Overlay(below, cache[o := e]) == Overlay(below, cache);
  }

  lemma UncachedOk(below: CoinMap, cache: CacheMap, o: OutPoint)
    requires LayerOk(below, cache)
    requires o in cache && !cache[o].isDirty
    ensures LayerOk(below, cache - {o})
    ensures Overlay(below, cache - {o}) == Overlay(below, cache)
    ensures Usage(cache - {o}) == Usage(cache) - cache[o].coin.script.memory
  {
    assert cache == (cache - {o})[o := cache[o]];
    assert EntryOk(below, o, cache[o]);
    forall p <- cache - {o} ensures EntryOk(below, p, (cache - {o})[p]) {
      assert EntryOk(below, p, cache[p]);
    }
    FetchedOk(below, cache - {o}, o, cache[o]);
  }

  /** The entry AddCoin stores when it does not throw. */
  function AddedEntry(cache: CacheMap, o: OutPoint, coin: Coin, overwrite: bool): Entry {
    var was := if o in cache then cache[o] else Entry(EMPTY_COIN, false, false);
    Entry(coin, true, was.isFresh || (!overwrite && !was.isDirty))
  }

  /** Exactly when AddCoin keeps the flag contract: the caller may promise "no overwrite" for an
      outpoint this cache does not hold only if the view below has no unspent coin there. */
  lemma AddCoinExact(below: CoinMap, cache: CacheMap, o: OutPoint, coin: Coin, overwrite: bool)
    requires LayerOk(below, cache)
    requires !coin.IsSpent()
    requires !overwrite && o in cache ==> cache[o].coin.IsSpent()
    ensures LayerOk(below, cache[o := AddedEntry(cache, o, coin, overwrite)])
            <==> (overwrite || o in cache || o !in below)
    ensures Overlay(below, cache[o := AddedEntry(cache, o, coin, overwrite)])
            == Overlay(below, cache)[o := coin]
  {
    var e := AddedEntry(cache, o, coin, overwrite);
    var cache' := cache[o := e];
    assert forall p <- cache' :: p != o ==> EntryOk(below, p, cache'[p]);
    assert LayerOk(below, cache') <==> EntryOk(below, o, e) by {
      assert cache'[o] == e;
    }
    if o in cache { assert EntryOk(below, o, cache[o]); }
    assert Overlay(below, cache') == Overlay(below, cache)[o := coin];
  }

  /** What SpendCoin leaves of a cached entry. */
  function AfterSpend(cache: CacheMap, o: OutPoint): CacheMap
    requires o in cache
  {
    if cache[o].isFresh then cache - {o}
    else cache[o := Entry(EMPTY_COIN, true, false)]
  }

  lemma AfterSpendOk(below: CoinMap, cache: CacheMap, o: OutPoint)
    requires LayerOk(below, cache) && o in cache
    ensures LayerOk(below, AfterSpend(cache, o))
    ensures Overlay(below, AfterSpend(cache, o)) == Overlay(below, cache) - {o}
  {
    assert EntryOk(below, o, cache[o]);
    var cache' := AfterSpend(cache, o);
    forall p <- cache' ensures EntryOk(below, p, cache'[p]) {
      if p != o { assert p in cache && EntryOk(below, p, cache[p]); }
    }
    assert Overlay(below, cache') == Overlay(below, cache) - {o};
  }

  lemma AfterSpendUsage(cache: CacheMap, o: OutPoint)
    requires o in cache
    ensures Usage(AfterSpend(cache, o)) == Usage(cache) - cache[o].coin.script.memory
  {
    UsageSplit(cache, o);
    UsageReplaced(cache, o, Entry(EMPTY_COIN, true, false));
  }

  /** One turn of the loop in CCoinsViewCache::BatchWrite: the child's entry `e` for `o` is merged
      into the parent's `cache`. None is the "FRESH flag misapplied" exception. */
  function Merge(cache: CacheMap, o: OutPoint, e: Entry): Option<CacheMap> {
    if !e.isDirty then Some(cache)
    else if o !in cache then
      if e.isFresh && e.coin.IsSpent() then Some(cache)
      else Some(cache[o := Entry(e.coin, true, e.isFresh)])
    else if e.isFresh && !cache[o].coin.IsSpent() then None
    else if cache[o].isFresh && e.coin.IsSpent() then Some(cache - {o})
    else Some(cache[o := Entry(e.coin, true, cache[o].isFresh)])
  }

  /** A view that showed `shown`, after it took over `e`. */
  function Shown(shown: CoinMap, o: OutPoint, e: Entry): CoinMap {
    if e.coin.IsSpent() then shown - {o} else shown[o := e.coin]
  }

  /** A child entry that honours its flag contract over what the parent shows is merged without
      the exception, keeps the parent's own contract over the grandparent, and changes what the
      parent shows at `o` to what the child showed there. The FRESH contract of the child is about
      the parent's view, that of the result about the grandparent's. */
  lemma MergeOk(below: CoinMap, cache: CacheMap, o: OutPoint, e: Entry)
    requires LayerOk(below, cache)
    requires EntryOk(Overlay(below, cache), o, e)
    ensures Merge(cache, o, e).Some?
    ensures LayerOk(below, Merge(cache, o, e).value)
    ensures Overlay(below, Merge(cache, o, e).value) == Shown(Overlay(below, cache), o, e)
  {
    MergeLayer(below, cache, o, e);
    var cache' := Merge(cache, o, e).value;
    var target := Shown(Overlay(below, cache), o, e);
    assert Overlay(below, cache').Keys == target.Keys;
    assert Overlay(below, cache') == target;
  }

  lemma MergeLayer(below: CoinMap, cache: CacheMap, o: OutPoint, e: Entry)
    requires LayerOk(below, cache)
    requires EntryOk(Overlay(below, cache), o, e)
    ensures Merge(cache, o, e).Some?
    ensures LayerOk(below, Merge(cache, o, e).value)
  {
    if o in cache { assert EntryOk(below, o, cache[o]); }
    var cache' := Merge(cache, o, e).value;
    forall p <- cache' ensures EntryOk(below, p, cache'[p]) {
      if p != o { assert p in cache && EntryOk(below, p, cache[p]); }
    }
  }

  /** One turn of the loop in CCoinsViewDB::BatchWrite. */
  function Stored(store: CoinMap, o: OutPoint, e: Entry): CoinMap {
    if !e.isDirty then store
    else if e.coin.IsSpent() then store - {o}
    else store[o := e.coin]
  }

  lemma StoredOk(store: CoinMap, coins: CacheMap, o: OutPoint)
    requires Unspent(store) && LayerOk(store, coins) && o in coins
    ensures Unspent(Stored(store, o, coins[o])) && LayerOk(Stored(store, o, coins[o]), coins - {o})
    ensures Overlay(Stored(store, o, coins[o]), coins - {o}) == Overlay(store, coins)
  {
    var store', rest := Stored(store, o, coins[o]), coins - {o};
    assert EntryOk(store, o, coins[o]);
    forall p <- rest ensures EntryOk(store', p, rest[p]) {
      assert EntryOk(store, p, coins[p]);
    }
    assert Overlay(store', rest) == Overlay(store, coins);
  }

  /** Merging `o` leaves the child's other entries, and what the two show together, as they were. */
  lemma MergeRest(shown: CoinMap, coins: CacheMap, o: OutPoint)
    requires LayerOk(shown, coins) && o in coins
    ensures LayerOk(Shown(shown, o, coins[o]), coins - {o})
    ensures Overlay(Shown(shown, o, coins[o]), coins - {o}) == Overlay(shown, coins)
  {
    var shown' := Shown(shown, o, coins[o]);
    var rest := coins - {o};
    forall p <- rest ensures EntryOk(shown', p, rest[p]) {
      assert EntryOk(shown, p, coins[p]);
    }
    assert Overlay(shown', rest) == Overlay(shown, coins);
  }

  /** How the loop of BatchWrite changes cachedCoinsUsage. */
  function MergeDelta(cache: CacheMap, o: OutPoint, e: Entry): int
    requires Merge(cache, o, e).Some?
  {
    if !e.isDirty then 0
    else if o !in cache then if e.isFresh && e.coin.IsSpent() then 0 else e.coin.script.memory
    else if cache[o].isFresh && e.coin.IsSpent() then 0 - cache[o].coin.script.memory
    else e.coin.script.memory - cache[o].coin.script.memory
  }

  lemma MergeUsage(cache: CacheMap, o: OutPoint, e: Entry)
    requires Merge(cache, o, e).Some?
    ensures Usage(Merge(cache, o, e).value) == Usage(cache) + MergeDelta(cache, o, e)
  {
    if o in cache {
      UsageSplit(cache, o);
      UsageUpdate(cache, o, Entry(e.coin, true, cache[o].isFresh));
    } else {
      UsageWithout(cache, o);
      UsageUpdate(cache, o, Entry(e.coin, true, e.isFresh));
    }
  }

  //////////////////////////////////////////////////////////////////////////////
  // The reference: a stack of plain maps, the top one first
  //////////////////////////////////////////////////////////////////////////////

  /** Coins are added and spent through the top cache; the other operations may be applied to any
      cache of the stack, `level` counting from the top. */
  datatype Op =
    | Get(level: nat, o: OutPoint)
    | Uncache(level: nat, o: OutPoint)
    | Flush(level: nat)
    | Add(o: OutPoint, coin: Coin, overwrite: bool)
    | Spend(o: OutPoint)

  /** What callers owe: the cache exists, and "no overwrite" is said only of absent coins. */
  ghost predicate Legal(views: seq<CoinMap>, op: Op) {
    && |views| >= 2
    && match op
       case Add(o, coin, overwrite) => !coin.IsSpent() && (!overwrite ==> o !in views[0])
       case Spend(_) => true
       case _ => op.level + 1 < |views|
  }

  ghost function Apply(views: seq<CoinMap>, op: Op): seq<CoinMap>
    requires Legal(views, op)
  {
    match op
    case Get(_, _) => views
    case Uncache(_, _) => views
    case Flush(level) => views[level + 1 := views[level]]
    case Add(o, coin, _) => if coin.script.unspendable then views else views[0 := views[0][o := coin]]
    case Spend(o) => views[0 := views[0] - {o}]
  }

  ghost function Answer(views: seq<CoinMap>, op: Op): Option<Coin>
    requires Legal(views, op)
  {
    match op
    case Get(level, o) => if o in views[level] then Some(views[level][o]) else None
    case Spend(o) => if o in views[0] then Some(views[0][o]) else None
    case _ => None
  }

  ghost predicate LegalRun(views: seq<CoinMap>, ops: seq<Op>)
    decreases |ops|
  {
    ops != [] ==> Legal(views, ops[0]) && LegalRun(Apply(views, ops[0]), ops[1..])
  }

  ghost function ApplyAll(views: seq<CoinMap>, ops: seq<Op>): seq<CoinMap>
    requires LegalRun(views, ops)
    decreases |ops|
  {
    if ops == [] then views else ApplyAll(Apply(views, ops[0]), ops[1..])
  }

  ghost function Answers(views: seq<CoinMap>, ops: seq<Op>): seq<Option<Coin>>
    requires LegalRun(views, ops)
    decreases |ops|
  {
    if ops == [] then [] else [Answer(views, ops[0])] + Answers(Apply(views, ops[0]), ops[1..])
  }

  //////////////////////////////////////////////////////////////////////////////
  // The views
  //////////////////////////////////////////////////////////////////////////////

  class CoinsViewDB {
    var store: CoinMap

    constructor ()
      ensures store == map[]
    {
      store := map[];
    }

    /** CCoinsViewDB::BatchWrite: dirty entries are erased or written, in any order. */
    method BatchWrite(coins: CacheMap)
      requires Unspent(store) && LayerOk(store, coins)
      modifies this
      ensures Unspent(store) && store == Overlay(old(store), coins)
    {
      ghost var target := Overlay(store, coins);
      var rest := coins;
      while rest != map[]
        invariant Unspent(store) && LayerOk(store, rest)
        invariant Overlay(store, rest) == target
        decreases rest.Keys
      {
        var o :| o in rest;
        StoredOk(store, rest, o);
        store := Stored(store, o, rest[o]);
        rest := rest - {o};
      }
      assert Overlay(store, map[]) == store;
    }
  }

  datatype View = Database(db: CoinsViewDB) | Cache(cache: CoinsViewCache)

  class CoinsViewCache {
    const base: View
    var cacheCoins: CacheMap
    var cachedCoinsUsage: int

    /** The objects of the stack from this cache down to the database. */
    ghost const Repr: set<object>
    ghost const Depth: nat

    ghost predicate Stacked()
      decreases Depth
    {
      && this in Repr
      && match base
         case Database(db) => db in Repr && Repr == {this, db}
         case Cache(cache) =>
           && cache.Depth < Depth
           && this !in cache.Repr
           && Repr == {this} + cache.Repr
           && cache.Stacked()
    }

    /** The unspent coins shown by every view of the stack, this one first, the database last. */
    ghost function Views(): (views: seq<CoinMap>)
      requires Stacked()
      reads Repr
      ensures |views| >= 2
      decreases Depth
    {
      var below := ViewsBelow();
      [Overlay(below[0], cacheCoins)] + below
    }

    ghost function ViewsBelow(): (views: seq<CoinMap>)
      requires Stacked()
      reads if base.Cache? then base.cache.Repr else {base.db}
      ensures |views| >= 1
      decreases Depth, 0
    {
      match base
      case Database(db) => [db.store]
      case Cache(cache) => cache.Views()
    }

    ghost function Visible(): CoinMap
      requires Stacked()
      reads Repr
    {
      Views()[0]
    }

    /** Every layer honours its flags over the view below it and accounts for its memory. */
    ghost predicate Valid()
      reads Repr
      decreases Depth
    {
      && Stacked()
      && LayerOk(ViewsBelow()[0], cacheCoins)
      && cachedCoinsUsage == Usage(cacheCoins)
      && match base
         case Database(db) => Unspent(db.store)
         case Cache(cache) => cache.Valid()
    }

    constructor (base: View)
      requires base.Cache? ==> base.cache.Valid()
      requires base.Database? ==> Unspent(base.db.store)
      ensures Valid() && this.base == base && cacheCoins == map[]
      ensures fresh(Repr - if base.Cache? then base.cache.Repr else {base.db})
      ensures Views()[1..] == (if base.Cache? then base.cache.Views() else [base.db.store])
      ensures Views()[0] == Views()[1]
    {
      this.base := base;
      cacheCoins := map[];
      cachedCoinsUsage := 0;
      Repr := {this} + match base case Cache(c) => c.Repr case Database(db) => {db};
      Depth := if base.Cache? then base.cache.Depth + 1 else 0;
      new;
      assert Overlay(ViewsBelow()[0], cacheCoins) == ViewsBelow()[0];
    }

    /** Installs a new cache content; nothing below changes. */
    method Replace(cache: CacheMap, usage: int)
      requires Valid()
      requires LayerOk(ViewsBelow()[0], cache) && usage == Usage(cache)
      modifies this
      ensures Valid() && cacheCoins == cache
      ensures ViewsBelow() == old(ViewsBelow())
      ensures Views() == old(Views())[0 := Overlay(old(ViewsBelow())[0], cache)]
    {
      cacheCoins := cache;
      cachedCoinsUsage := usage;
    }

    /** Loads `o` into this cache (and those below) if any view has it; nothing visible changes. */
    method FetchCoin(o: OutPoint) returns (found: bool)
      requires Valid()
      modifies Repr
      ensures Valid() && Views() == old(Views())
      ensures found <==> o in cacheCoins
      ensures !found ==> o !in Visible()
      ensures found && o !in Visible() ==> o in old(cacheCoins)
      ensures found && o !in old(cacheCoins) ==> !cacheCoins[o].isFresh
      ensures old(cacheCoins) == if o in old(cacheCoins) then cacheCoins else cacheCoins - {o}
      decreases Depth, 1
    {
      if o in cacheCoins {
        return true;
      }
      ghost var cache0, below := cacheCoins, ViewsBelow();
      var coin := BaseGetCoin(o);
      assert ViewsBelow() == below && cacheCoins == cache0;
      if coin == None {
        assert cacheCoins - {o} == cacheCoins;
        return false;
      }
      // The base only returns unspent coins, so the flag set for a spent one is never set.
      var e := Entry(coin.value, false, coin.value.IsSpent());
      FetchedOk(below[0], cacheCoins, o, e);
      Replace(cacheCoins[o := e], cachedCoinsUsage + e.coin.script.memory);
      assert cacheCoins - {o} == cache0;
      found := true;
    }

    /** base->GetCoin: what the view below shows at `o`. */
    method BaseGetCoin(o: OutPoint) returns (coin: Option<Coin>)
      requires Valid()
      modifies if base.Cache? then base.cache.Repr else {}
      ensures Valid() && ViewsBelow() == old(ViewsBelow())
      ensures cacheCoins == old(cacheCoins) && cachedCoinsUsage == old(cachedCoinsUsage)
      ensures coin == if o in ViewsBelow()[0] then Some(ViewsBelow()[0][o]) else None
      ensures coin.Some? ==> !coin.value.IsSpent()
      decreases Depth, 0
    {
      match base
      case Database(db) =>
        coin := if o in db.store then Some(db.store[o]) else None;
      case Cache(cache) =>
        coin := cache.GetCoin(o);
    }

    method GetCoin(o: OutPoint) returns (coin: Option<Coin>)
      requires Valid()
      modifies Repr
      ensures Valid() && Views() == old(Views())
      ensures coin == if o in Visible() then Some(Visible()[o]) else None
      ensures coin.Some? ==> !coin.value.IsSpent()
      decreases Depth, 2
    {
      var found := FetchCoin(o);
      coin := if found && !cacheCoins[o].coin.IsSpent() then Some(cacheCoins[o].coin) else None;
    }

    method HaveCoin(o: OutPoint) returns (have: bool)
      requires Valid()
      modifies Repr
      ensures Valid() && Views() == old(Views())
      ensures have <==> o in Visible()
    {
      var coin := GetCoin(o);
      have := coin.Some?;
    }

    /** `overwrite` says that an unspent version may exist. A caller that promises otherwise for an
        outpoint this cache does not hold must be right; for one it holds, the source throws. */
    method AddCoin(o: OutPoint, coin: Coin, overwrite: bool) returns (thrown: bool)
      requires Valid()
      requires !coin.IsSpent()
      requires !overwrite && o !in cacheCoins ==> o !in Visible()
      modifies this
      ensures Stacked() && (!thrown ==> Valid())
      ensures thrown <==> !coin.script.unspendable && !overwrite && o in old(cacheCoins) && o in old(Visible())
      ensures Views() == if thrown || coin.script.unspendable then old(Views())
                         else old(Views())[0 := old(Visible())[o := coin]]
    {
      if coin.script.unspendable {
        return false;
      }
      var replaced := if o in cacheCoins then cacheCoins[o].coin.script.memory else 0;
      if !overwrite && o in cacheCoins && !cacheCoins[o].coin.IsSpent() {
        cachedCoinsUsage := cachedCoinsUsage - replaced;
        return true;
      }
      AddCoinExact(ViewsBelow()[0], cacheCoins, o, coin, overwrite);
      var e := AddedEntry(cacheCoins, o, coin, overwrite);
      UsageReplaced(cacheCoins, o, e);
      Replace(cacheCoins[o := e], cachedCoinsUsage - replaced + coin.script.memory);
      thrown := false;
    }

    /** A visible coin is removed and handed out. Nothing visible changes when there is none, and
        then the result is still true if a spent entry is cached. An entry stays unless it was fresh. */
    method SpendCoin(o: OutPoint) returns (spent: bool, moved: Coin)
      requires Valid()
      modifies Repr
      ensures Valid() && Views() == old(Views())[0 := old(Visible()) - {o}]
      ensures o in old(Visible()) ==> spent && moved == old(Visible())[o]
      ensures o in old(Visible()) <==> !moved.IsSpent()
      ensures spent <==> o in old(Visible()) || o in old(cacheCoins)
      ensures o in cacheCoins <==> spent && !(o in old(cacheCoins) && old(cacheCoins)[o].isFresh)
    {
      ghost var was := cacheCoins;
      spent := FetchCoin(o);
      if !spent {
        assert Visible() - {o} == Visible();
        return false, EMPTY_COIN;
      }
      moved := cacheCoins[o].coin;
      AfterSpendOk(ViewsBelow()[0], cacheCoins, o);
      AfterSpendUsage(cacheCoins, o);
      Replace(AfterSpend(cacheCoins, o), cachedCoinsUsage - moved.script.memory);
    }

    /** Spending twice: the second time nothing is handed out and no view changes, but the result is true
        exactly if the first spending left an entry behind. */
    method SpendTwice(o: OutPoint) returns (first: bool, second: bool, moved: Coin)
      requires Valid() && o in Visible()
      modifies Repr
      ensures Valid() && Views() == old(Views())[0 := old(Visible()) - {o}]
      ensures first && moved.IsSpent()
      ensures second <==> !(o in old(cacheCoins) && old(cacheCoins)[o].isFresh)
    {
      first, moved := SpendCoin(o);
      ghost var views := Views();
      second, moved := SpendCoin(o);
      assert Views() == views by {
        assert views[0] - {o} == views[0];
      }
    }

    method Uncache(o: OutPoint)
      requires Valid()
      modifies this
      ensures Valid() && Views() == old(Views())
      ensures cacheCoins == if o in old(cacheCoins) && !old(cacheCoins)[o].isDirty && !old(cacheCoins)[o].isFresh
                            then old(cacheCoins) - {o} else old(cacheCoins)
    {
      if o in cacheCoins && !cacheCoins[o].isDirty && !cacheCoins[o].isFresh {
        UncachedOk(ViewsBelow()[0], cacheCoins, o);
        Replace(cacheCoins - {o}, cachedCoinsUsage - cacheCoins[o].coin.script.memory);
      }
    }

    /** The body of the loop in BatchWrite. */
    method MergeEntry(o: OutPoint, e: Entry) returns (thrown: bool)
      requires Valid() && EntryOk(Visible(), o, e)
      modifies this
      ensures !thrown && Valid() && ViewsBelow() == old(ViewsBelow())
      ensures Visible() == Shown(old(Visible()), o, e)
    {
      MergeOk(ViewsBelow()[0], cacheCoins, o, e);
      MergeUsage(cacheCoins, o, e);
      var merged := Merge(cacheCoins, o, e);
      thrown := merged.None?;
      if !thrown {
        Replace(merged.value, cachedCoinsUsage + MergeDelta(cacheCoins, o, e));
      }
    }

    /** Merges a child's cache, in any order; the "FRESH flag misapplied" exception cannot occur. */
    method BatchWrite(coins: CacheMap) returns (thrown: bool)
      requires Valid() && LayerOk(Visible(), coins)
      modifies this
      ensures !thrown && Valid()
      ensures Views() == old(Views())[0 := Overlay(old(Visible()), coins)]
    {
      ghost var below, shown := ViewsBelow(), Visible();
      ghost var target := Overlay(shown, coins);
      var rest := coins;
      thrown := false;
      while rest != map[] && !thrown
        invariant !thrown && Valid() && ViewsBelow() == below && Visible() == shown
        invariant LayerOk(shown, rest) && Overlay(shown, rest) == target
        decreases rest.Keys
      {
        var o :| o in rest;
        MergeRest(shown, rest, o);
        thrown := MergeEntry(o, rest[o]);
        shown := Shown(shown, o, rest[o]);
        rest := rest - {o};
      }
      OverlayEmpty(shown);
    }

    /** Pushes this cache's changes to the view below, which then shows what this one shows. */
    method Flush() returns (thrown: bool)
      requires Valid()
      modifies Repr
      ensures !thrown && Valid() && cacheCoins == map[]
      ensures Views() == old(Views())[1 := old(Visible())]
    {
      hide Overlay, Unspent;
      ghost var views := Views();
      match base {
        case Database(db) =>
          db.BatchWrite(cacheCoins);
          thrown := false;
        case Cache(cache) =>
          thrown := cache.BatchWrite(cacheCoins);
      }
      cacheCoins := map[];
      cachedCoinsUsage := 0;
      OverlayEmpty(ViewsBelow()[0]);
      assert ViewsBelow() == views[1..][0 := views[0]];
    }

    /** One operation on any level acts, and answers, as on the stack of plain maps. */
    method Perform(op: Op) returns (answer: Option<Coin>)
      requires Valid() && Legal(Views(), op)
      modifies Repr
      ensures Valid() && Views() == Apply(old(Views()), op)
      ensures answer == Answer(old(Views()), op)
      decreases Depth, 1
    {
      hide LayerOk, Overlay, Usage, Unspent;
      if op.Add? || op.Spend? || op.level == 0 {
        answer := PerformTop(op);
      } else {
        answer := PerformBelow(op.(level := op.level - 1));
      }
    }

    method PerformTop(op: Op) returns (answer: Option<Coin>)
      requires Valid() && Legal(Views(), op)
      requires op.Add? || op.Spend? || op.level == 0
      modifies Repr
      ensures Valid() && Views() == Apply(old(Views()), op)
      ensures answer == Answer(old(Views()), op)
      decreases Depth, 0
    {
      hide LayerOk, Overlay, Usage, Unspent;
      answer := None;
      match op {
        case Add(o, coin, overwrite) =>
          var thrown := AddCoin(o, coin, overwrite);
        case Spend(o) =>
          var spent, moved := SpendCoin(o);
          answer := if moved.IsSpent() then None else Some(moved);
        case Get(_, o) => answer := GetCoin(o);
        case Uncache(_, o) => Uncache(o);
        case Flush(_) => var thrown := Flush();
      }
    }

    method PerformBelow(op: Op) returns (answer: Option<Coin>)
      requires Valid() && base.Cache? && Legal(ViewsBelow(), op)
      requires op.Get? || op.Uncache? || op.Flush?
      modifies Repr
      ensures Valid() && Views() == [old(Visible())] + Apply(old(ViewsBelow()), op)
      ensures answer == Answer(old(ViewsBelow()), op)
      decreases Depth, 0
    {
      answer := base.cache.Perform(op);
    }

    /** Every run of operations on a stack of caches of any depth acts, and answers, as the same
        run on plain maps. */
    method Run(ops: seq<Op>) returns (answers: seq<Option<Coin>>)
      requires Valid() && LegalRun(Views(), ops)
      modifies Repr
      ensures Valid() && Views() == ApplyAll(old(Views()), ops)
      ensures answers == Answers(old(Views()), ops)
    {
      answers := [];
      ghost var views := Views();
      for i := 0 to |ops|
        invariant Valid() && LegalRun(Views(), ops[i..])
        invariant ApplyAll(Views(), ops[i..]) == ApplyAll(views, ops)
        invariant answers + Answers(Views(), ops[i..]) == Answers(views, ops)
      {
        assert ops[i..][1..] == ops[i + 1..];
        var answer := Perform(ops[i]);
        answers := answers + [answer];
      }
    }
  }
}
