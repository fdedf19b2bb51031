/** The layered UTXO cache: write-back caches over a coin database must look like
    one plain map of unspent coins per layer. */
module Coins {
  import opened Wrappers

  // ----- Values -------------------------------------------------------------

  type Script = seq<bv8>

  const OP_RETURN: bv8 := 0x6a
  const MAX_SCRIPT_SIZE := 129000

  datatype OutPoint = OutPoint(hash: nat, n: nat)

  datatype TxOut = TxOut(value: int, script: Script)

  datatype Coin = Coin(out: TxOut, coinBase: bool, coinStake: bool, height: nat) {
    predicate IsSpent() { out.value == -1 }

    predicate IsUnspendable() {
      (|out.script| > 0 && out.script[0] == OP_RETURN) || |out.script| > MAX_SCRIPT_SIZE
    }
  }

  /** What `Coin::Clear` and the default constructor leave behind. */
  const EMPTY_COIN := Coin(TxOut(-1, []), false, false, 0)

  datatype CacheEntry = CacheEntry(coin: Coin, isDirty: bool, isFresh: bool)

  type CoinMap = map<OutPoint, Coin>
  type CacheMap = map<OutPoint, CacheEntry>

  // ----- The plain-map reading of one layer ---------------------------------

  /** `view` is what a cache shows on top of a layer that shows `below`. */
  ghost predicate IsOverlay(view: CoinMap, below: CoinMap, cache: CacheMap) {
    && (forall o :: o in view <==> if o in cache then !cache[o].coin.IsSpent() else o in below)
    && (forall o :: o in view ==> view[o] == if o in cache then cache[o].coin else below[o])
  }

  lemma OverlayExists(below: CoinMap, cache: CacheMap)
    ensures exists view :: IsOverlay(view, below, cache)
  {
    var view := map o | o in below.Keys + cache.Keys && (o in cache ==> !cache[o].coin.IsSpent())
      :: if o in cache then cache[o].coin else below[o];
    assert IsOverlay(view, below, cache);
  }

  ghost function Overlay(below: CoinMap, cache: CacheMap): CoinMap {
    OverlayExists(below, cache);
    var view :| IsOverlay(view, below, cache);
    view
  }

  /** The unspent coins of a map that may also hold spent ones. */
  ghost predicate IsUnspent(view: CoinMap, m: CoinMap) {
    && (forall o :: o in view <==> o in m && !m[o].IsSpent())
    && (forall o :: o in view ==> view[o] == m[o])
  }

  lemma UnspentExists(m: CoinMap)
    ensures exists view :: IsUnspent(view, m)
  {
    var view := map o | o in m && !m[o].IsSpent() :: m[o];
    assert IsUnspent(view, m);
  }

  ghost function Unspent(m: CoinMap): CoinMap {
    UnspentExists(m);
    var view :| IsUnspent(view, m);
    view
  }

  /** A clean entry agrees with the layer below; a FRESH entry is invisible there. */
  ghost predicate EntryOk(below: CoinMap, o: OutPoint, e: CacheEntry) {
    && (!e.isDirty && !e.coin.IsSpent() ==> o in below && below[o] == e.coin)
    && (!e.isDirty && e.coin.IsSpent() ==> o !in below)
    && (e.isFresh ==> o !in below)
  }

  ghost predicate Consistent(below: CoinMap, cache: CacheMap) {
    forall o :: o in cache ==> EntryOk(below, o, cache[o])
  }

  /** Effect of writing one coin into a plain map of unspent coins. */
  function Put(view: CoinMap, o: OutPoint, coin: Coin): CoinMap {
    if coin.IsSpent() then view - {o} else view[o := coin]
  }

  /** What one round of a batch write does to the map the receiver shows. */
  function Absorb(view: CoinMap, o: OutPoint, e: CacheEntry): CoinMap {
    if e.isDirty then Put(view, o, e.coin) else view
  }

  /** Moving one entry from the writing cache into the receiver leaves what the
      two of them show together as it was. */
  lemma AbsorbKeepsOverlay(view: CoinMap, rest: CacheMap, o: OutPoint)
    requires Consistent(view, rest) && o in rest
    ensures Consistent(Absorb(view, o, rest[o]), rest - {o})
    ensures Overlay(Absorb(view, o, rest[o]), rest - {o}) == Overlay(view, rest)
  {
  }

  /** Caching a coin read from below changes nothing that is visible. */
  lemma FetchKeepsOverlay(below: CoinMap, cache: CacheMap, o: OutPoint, coin: Coin)
    requires Consistent(below, cache) && o !in cache
    requires if coin.IsSpent() then o !in below else o in below && below[o] == coin
    ensures Consistent(below, cache[o := CacheEntry(coin, false, coin.IsSpent())])
    ensures Overlay(below, cache[o := CacheEntry(coin, false, coin.IsSpent())]) == Overlay(below, cache)
  {
  }

  /** Writing a dirty entry writes that coin into the visible map. */
  lemma DirtyEntryPuts(below: CoinMap, cache: CacheMap, o: OutPoint, e: CacheEntry)
    requires e.isDirty
    ensures Consistent(below, cache) && (e.isFresh ==> o !in below) ==> Consistent(below, cache[o := e])
    ensures Overlay(below, cache[o := e]) == Put(Overlay(below, cache), o, e.coin)
  {
  }

  /** Dropping an entry the layer below does not show hides the outpoint. */
  lemma ErasePuts(below: CoinMap, cache: CacheMap, o: OutPoint)
    requires Consistent(below, cache) && o !in below
    ensures Consistent(below, cache - {o})
    ensures Overlay(below, cache - {o}) == Overlay(below, cache) - {o}
  {
  }

  /** Dropping a clean entry changes nothing that is visible. */
  lemma EraseCleanKeepsOverlay(below: CoinMap, cache: CacheMap, o: OutPoint)
    requires Consistent(below, cache) && o in cache && !cache[o].isDirty
    ensures Consistent(below, cache - {o})
    ensures Overlay(below, cache - {o}) == Overlay(below, cache)
  {
  }

  lemma OverlayNothing(view: CoinMap)
    ensures Overlay(view, map[]) == view && Consistent(view, map[])
  {
  }

  /** The entry `AddCoin` leaves behind when it does not throw. */
  function AddedEntry(cache: CacheMap, o: OutPoint, coin: Coin, possibleOverwrite: bool): CacheEntry {
    var entry := if o in cache then cache[o] else CacheEntry(EMPTY_COIN, false, false);
    CacheEntry(coin, true, entry.isFresh || (!possibleOverwrite && !entry.isDirty))
  }

  /** `AddCoin` keeps the flags truthful exactly when the caller allows overwriting,
      or the layer below shows nothing, or the spend is already recorded here. */
  lemma AddCoinSafeExactly(below: CoinMap, cache: CacheMap, o: OutPoint, coin: Coin, possibleOverwrite: bool)
    requires Consistent(below, cache) && !coin.IsSpent()
    requires possibleOverwrite || o !in cache || cache[o].coin.IsSpent()  // no throw
    ensures Consistent(below, cache[o := AddedEntry(cache, o, coin, possibleOverwrite)])
            <==> possibleOverwrite || o !in below || (o in cache && cache[o].isDirty)
  {
    var e := AddedEntry(cache, o, coin, possibleOverwrite);
    var cache' := cache[o := e];
    assert o in cache ==> EntryOk(below, o, cache[o]);
    assert Consistent(below, cache') ==> EntryOk(below, o, cache'[o]);
    if e.isFresh ==> o !in below {
      DirtyEntryPuts(below, cache, o, e);
    }
  }

  // ----- Memory accounting ---------------------------------------------------

  /** Sum of the script memory of all cached coins. */
  ghost function TotalUsage(cache: CacheMap, usage: Script -> nat): nat
    decreases |cache|
  {
    if cache == map[] then 0
    else
      var o :| o in cache;
      usage(cache[o].coin.out.script) + TotalUsage(cache - {o}, usage)
  }

  lemma {:induction false} UsageWithout(cache: CacheMap, usage: Script -> nat, o: OutPoint)
    requires o in cache
    ensures TotalUsage(cache, usage) == usage(cache[o].coin.out.script) + TotalUsage(cache - {o}, usage)
    decreases |cache|
  {
    var p :| p in cache &&
             TotalUsage(cache, usage) == usage(cache[p].coin.out.script) + TotalUsage(cache - {p}, usage);
    if p != o {
      UsageWithout(cache - {p}, usage, o);
      UsageWithout(cache - {o}, usage, p);
      assert cache - {p} - {o} == cache - {o} - {p};
    }
  }

  lemma UsageWith(cache: CacheMap, usage: Script -> nat, o: OutPoint, e: CacheEntry)
    ensures TotalUsage(cache[o := e], usage) == usage(e.coin.out.script) + TotalUsage(cache - {o}, usage)
  {
    UsageWithout(cache[o := e], usage, o);
    assert cache[o := e] - {o} == cache - {o};
  }

  // ----- Batches ----------------------------------------------------------------

  /** The dirty entries of a map written over stored coins, but for those still to come. */
  ghost predicate IsApplied(after: CoinMap, before: CoinMap, mapCoins: CacheMap, rest: CacheMap) {
    forall o ::
      if o in mapCoins && o !in rest && mapCoins[o].isDirty then
        (o in after <==> !mapCoins[o].coin.IsSpent()) && (o in after ==> after[o] == mapCoins[o].coin)
      else
        (o in after <==> o in before) && (o in after ==> after[o] == before[o])
  }

  lemma AppliedIsOverlay(after: CoinMap, before: CoinMap, mapCoins: CacheMap)
    requires IsApplied(after, before, mapCoins, map[]) && Consistent(Unspent(before), mapCoins)
    ensures Unspent(after) == Overlay(Unspent(before), mapCoins)
  {
    var view, below := Unspent(after), Unspent(before);
    forall o ensures o in view <==> if o in mapCoins then !mapCoins[o].coin.IsSpent() else o in below
             ensures o in view ==> view[o] == if o in mapCoins then mapCoins[o].coin else below[o]
    {
      if o in mapCoins { assert EntryOk(below, o, mapCoins[o]); }
    }
    assert view == Overlay(below, mapCoins);
  }

  /** An entry that claims to be unknown here, where its coin is cached unspent. */
  predicate Misapplied(cache: CacheMap, o: OutPoint, e: CacheEntry) {
    e.isDirty && e.isFresh && o in cache && !cache[o].coin.IsSpent()
  }

  /** A cache after it took in one entry of a child. */
  function Merged(cache: CacheMap, o: OutPoint, e: CacheEntry): CacheMap {
    if !e.isDirty then cache
    else if o !in cache then
      if e.isFresh && e.coin.IsSpent() then cache else cache[o := CacheEntry(e.coin, true, e.isFresh)]
    else if cache[o].isFresh && e.coin.IsSpent() then cache - {o}
    else cache[o := CacheEntry(e.coin, true, cache[o].isFresh)]
  }

  ghost predicate SameAt(cache: CacheMap, cache': CacheMap, o: OutPoint) {
    (o in cache <==> o in cache') && (o in cache ==> cache[o] == cache'[o])
  }

  /** Every entry of a map was taken in, but for those still to come. */
  ghost predicate IsMerged(after: CacheMap, before: CacheMap, mapCoins: CacheMap, rest: CacheMap) {
    forall o ::
      if o in mapCoins && o !in rest then
        !Misapplied(before, o, mapCoins[o]) && SameAt(after, Merged(before, o, mapCoins[o]), o)
      else SameAt(after, before, o)
  }

  lemma MergeNext(after: CacheMap, before: CacheMap, mapCoins: CacheMap, rest: CacheMap, o: OutPoint)
    requires IsMerged(after, before, mapCoins, rest) && o in rest && o in mapCoins
    ensures Misapplied(after, o, mapCoins[o]) <==> Misapplied(before, o, mapCoins[o])
    ensures !Misapplied(before, o, mapCoins[o]) ==>
              IsMerged(Merged(after, o, mapCoins[o]), before, mapCoins, rest - {o})
  {
    assert SameAt(after, before, o);
    if !Misapplied(before, o, mapCoins[o]) {
      var next := Merged(after, o, mapCoins[o]);
      forall p ensures if p in mapCoins && p !in rest - {o}
                       then !Misapplied(before, p, mapCoins[p]) && SameAt(next, Merged(before, p, mapCoins[p]), p)
                       else SameAt(next, before, p)
      {
        assert p != o ==> SameAt(next, after, p);
      }
    }
  }

  // ----- The database at the bottom -----------------------------------------

  /** The root view: a plain store of coins, written only by whole batches. */
  class CoinsViewDB {
    var coins: CoinMap

    ghost function View(): CoinMap
      reads this
    {
      Unspent(coins)
    }

    constructor (initial: CoinMap)
      ensures coins == initial
    {
      coins := initial;
    }

    /** Applies the dirty entries of any map and drops the rest; if the map is that of a child cache with
        truthful flags, the database then shows what the child showed. */
    method BatchWrite(mapCoins: CacheMap)
      modifies this
      ensures IsApplied(coins, old(coins), mapCoins, map[])
      ensures Consistent(old(View()), mapCoins) ==> View() == Overlay(old(View()), mapCoins)
    {
      var rest := mapCoins;
      while rest != map[]
        invariant rest.Keys <= mapCoins.Keys && forall o :: o in rest ==> rest[o] == mapCoins[o]
        invariant IsApplied(coins, old(coins), mapCoins, rest)
        decreases |rest|
      {
        var o :| o in rest;
        var e := rest[o];
        if e.isDirty {
          if e.coin.IsSpent() {
            coins := coins - {o};
          } else {
            coins := coins[o := e.coin];
          }
        }
        rest := rest - {o};
      }
      if Consistent(old(View()), mapCoins) {
        AppliedIsOverlay(coins, old(coins), mapCoins);
      }
    }
  }

  // ----- One cache layer ------------------------------------------------------

  /** A cache over another cache, or over the database when `base` is null. */
  class CoinsViewCache {
    const base: CoinsViewCache?
    const db: CoinsViewDB
    const usage: Script -> nat  // memory held by a script
    var cacheCoins: CacheMap
    var cachedCoinsUsage: int

    ghost const depth: nat
    ghost const repr: set<object>

    /** The shape of the stack below this layer; it never changes. */
    ghost predicate Linked()
      decreases depth
    {
      && db in repr && this in repr && usage([]) == 0
      && (base == null ==> depth == 0 && repr == {db, this})
      && (base != null ==>
            && depth == base.depth + 1
            && base in repr && repr == base.repr + {this} && this !in base.repr
            && base.db == db && base.Linked())
    }

    /** The maps shown by the database and by every layer below this one. */
    ghost function Lower(): (vs: seq<CoinMap>)
      requires Linked()
      reads repr
      ensures |vs| == depth + 1
      decreases depth, 0
    {
      if base == null then [db.View()] else base.Lower() + [base.View()]
    }

    ghost function BaseView(): CoinMap
      requires Linked()
      reads repr
      decreases depth, 1
    {
      Lower()[depth]
    }

    /** The map this layer shows. */
    ghost function View(): CoinMap
      requires Linked()
      reads repr
      decreases depth, 2
    {
      Overlay(BaseView(), cacheCoins)
    }

    ghost predicate Valid()
      reads repr
      decreases depth
    {
      && Linked()
      && Consistent(BaseView(), cacheCoins)
      && cachedCoinsUsage == TotalUsage(cacheCoins, usage)
      && (base != null ==> base.Valid())
    }

    /** What holds of this cache whatever its flags say. */
    ghost predicate Accounted()
      reads repr
    {
      && Linked()
      && cachedCoinsUsage == TotalUsage(cacheCoins, usage)
      && (base != null ==> base.Valid())
    }

    /** A new empty cache over the database. */
    constructor OverDB(db: CoinsViewDB, usage: Script -> nat)
      requires usage([]) == 0
      ensures Valid() && fresh(this) && base == null && this.db == db
      ensures Lower() == [db.View()] && View() == db.View()
    {
      base := null;
      this.db := db;
      this.usage := usage;
      cacheCoins := map[];
      cachedCoinsUsage := 0;
      depth := 0;
      repr := {db, this};
      new;
      assert Overlay(db.View(), map[]) == db.View();
    }

    /** A new empty cache over another cache: shows exactly what that one shows. */
    constructor Over(below: CoinsViewCache)
      requires below.Valid()
      ensures Valid() && fresh(this) && base == below
      ensures Lower() == old(below.Lower() + [below.View()]) && View() == old(below.View())
      ensures unchanged(below.repr)
    {
      base := below;
      db := below.db;
      usage := below.usage;
      cacheCoins := map[];
      cachedCoinsUsage := 0;
      depth := below.depth + 1;
      repr := below.repr + {this};
      new;
      assert Overlay(below.View(), map[]) == below.View();
    }

    /** Assigns both fields. The layers below are not affected. */
    method Replace(cache: CacheMap, coinsUsage: int)
      requires Linked() && (base != null ==> base.Valid())
      modifies this
      ensures cacheCoins == cache && cachedCoinsUsage == coinsUsage
      ensures Lower() == old(Lower()) && View() == Overlay(old(BaseView()), cache)
      ensures base != null ==> base.Valid()
    {
      cacheCoins := cache;
      cachedCoinsUsage := coinsUsage;
    }

    /** Looks the outpoint up, filling this cache and every cache below from the
        database on the way. */
    method FetchCoin(o: OutPoint) returns (found: bool)
      requires Valid()
      modifies repr
      ensures Valid() && Lower() == old(Lower()) && View() == old(View())
      ensures found <==> o in cacheCoins
      ensures o in View() ==> found
      decreases depth, 1
    {
      if o in cacheCoins {
        return true;
      }
      var tmp := GetFromBase(o);
      if tmp.None? {
        return false;
      }
      var entry := CacheEntry(tmp.value, false, tmp.value.IsSpent());
      FetchKeepsOverlay(BaseView(), cacheCoins, o, tmp.value);
      UsageWith(cacheCoins, usage, o, entry);
      assert cacheCoins - {o} == cacheCoins;
      Replace(cacheCoins[o := entry], cachedCoinsUsage + usage(tmp.value.out.script));
      return true;
    }

    /** `base->GetCoin`; only the database can hand out a spent coin. */
    method GetFromBase(o: OutPoint) returns (r: Option<Coin>)
      requires Valid()
      modifies repr - {this}
      ensures Valid() && Lower() == old(Lower()) && View() == old(View())
      ensures o in BaseView() ==> r == Some(BaseView()[o])
      ensures r.Some? ==> (r.value.IsSpent() <==> o !in BaseView())
      decreases depth, 0
    {
      if base == null {
        assert BaseView() == db.View();
        r := if o in db.coins then Some(db.coins[o]) else None;
      } else {
        assert BaseView() == base.View();
        r := base.GetCoin(o);
        assert Lower() == old(Lower()) && BaseView() == base.View();
      }
    }

    /** Returns exactly the coin this layer shows. */
    method GetCoin(o: OutPoint) returns (r: Option<Coin>)
      requires Valid()
      modifies repr
      ensures Valid() && Lower() == old(Lower()) && View() == old(View())
      ensures r == if o in View() then Some(View()[o]) else None
      ensures r.Some? ==> !r.value.IsSpent()
      decreases depth, 2
    {
      var found := FetchCoin(o);
      if found && !cacheCoins[o].coin.IsSpent() {
        r := Some(cacheCoins[o].coin);
      } else {
        r := None;
      }
    }

    /** Adds a coin. `ok` is false exactly when the program throws "Adding new coin
        that replaces non-pruned entry"; the visible map is then unchanged but the
        memory counter has already lost the old coin's share. */
    method AddCoin(o: OutPoint, coin: Coin, possibleOverwrite: bool) returns (ok: bool)
      requires Valid() && !coin.IsSpent()
      modifies this
      ensures ok <==> coin.IsUnspendable() || possibleOverwrite
                      || old(o !in cacheCoins || cacheCoins[o].coin.IsSpent())
      ensures !ok ==> cacheCoins == old(cacheCoins)
                      && cachedCoinsUsage == old(cachedCoinsUsage - usage(cacheCoins[o].coin.out.script))
      ensures Lower() == old(Lower())
      ensures View() == if coin.IsUnspendable() || !ok then old(View()) else old(View())[o := coin]
      ensures coin.IsUnspendable() || possibleOverwrite || old(o !in View()) ==> ok && Valid()
    {
      if coin.IsUnspendable() {
        return true;
      }
      var entry := if o in cacheCoins then cacheCoins[o] else CacheEntry(EMPTY_COIN, false, false);
      var coinsUsage := cachedCoinsUsage - usage(entry.coin.out.script);
      if !possibleOverwrite && !entry.coin.IsSpent() {
        Replace(cacheCoins, coinsUsage);
        return false;
      }
      StoreDirty(o, AddedEntry(cacheCoins, o, coin, possibleOverwrite));
      return true;
    }

    /** Overwrites or inserts a dirty entry and keeps the memory counter exact. */
    method StoreDirty(o: OutPoint, entry: CacheEntry)
      requires Accounted() && entry.isDirty
      modifies this
      ensures Accounted() && cacheCoins == old(cacheCoins)[o := entry]
      ensures Lower() == old(Lower()) && View() == Put(old(View()), o, entry.coin)
      ensures old(Valid()) && (entry.isFresh ==> o !in old(BaseView())) ==> Valid()
    {
      var coinsUsage := cachedCoinsUsage + usage(entry.coin.out.script);
      if o in cacheCoins {
        UsageWithout(cacheCoins, usage, o);
        coinsUsage := coinsUsage - usage(cacheCoins[o].coin.out.script);
      } else {
        assert cacheCoins - {o} == cacheCoins;
      }
      UsageWith(cacheCoins, usage, o, entry);
      DirtyEntryPuts(BaseView(), cacheCoins, o, entry);
      Replace(cacheCoins[o := entry], coinsUsage);
    }

    /** Spends a coin and hands it out. True whenever the coin was visible, but
        also on an already spent entry that is still cached. */
    method SpendCoin(o: OutPoint) returns (r: bool, moveout: Coin)
      requires Valid()
      modifies repr
      ensures Valid()
      ensures Lower() == old(Lower()) && View() == old(View()) - {o}
      ensures old(o in View()) ==> r && moveout == old(View()[o])
      ensures old(o !in View()) && r ==> moveout.IsSpent()
    {
      var found := FetchCoin(o);
      if !found {
        assert View() - {o} == View();
        return false, EMPTY_COIN;
      }
      var entry := cacheCoins[o];
      assert EntryOk(BaseView(), o, entry);
      if entry.isFresh {
        EraseEntry(o);
      } else {
        StoreDirty(o, CacheEntry(EMPTY_COIN, true, false));
      }
      return true, entry.coin;
    }

    /** Forgets an unmodified entry; nothing visible changes. */
    method Uncache(o: OutPoint)
      requires Valid()
      modifies this
      ensures Valid() && Lower() == old(Lower()) && View() == old(View())
      ensures cacheCoins == old(if o in cacheCoins && !cacheCoins[o].isDirty && !cacheCoins[o].isFresh
                                then cacheCoins - {o} else cacheCoins)
    {
      if o in cacheCoins && !cacheCoins[o].isDirty && !cacheCoins[o].isFresh {
        EraseCleanKeepsOverlay(BaseView(), cacheCoins, o);
        UsageWithout(cacheCoins, usage, o);
        Replace(cacheCoins - {o}, cachedCoinsUsage - usage(cacheCoins[o].coin.out.script));
      }
    }

    /** Erases an entry and keeps the memory counter exact. */
    method EraseEntry(o: OutPoint)
      requires Accounted() && o in cacheCoins
      modifies this
      ensures Accounted() && cacheCoins == old(cacheCoins) - {o} && Lower() == old(Lower())
      ensures old(Valid()) && o !in old(BaseView()) ==> Valid() && View() == old(View()) - {o}
    {
      if Valid() && o !in BaseView() {
        ErasePuts(BaseView(), cacheCoins, o);
      }
      UsageWithout(cacheCoins, usage, o);
      Replace(cacheCoins - {o}, cachedCoinsUsage - usage(cacheCoins[o].coin.out.script));
    }

    /** One round of a batch write. `ok` is false exactly when the program throws
        "FRESH flag misapplied"; nothing has changed then. */
    method WriteEntry(o: OutPoint, e: CacheEntry) returns (ok: bool)
      requires Accounted()
      modifies this
      ensures ok <==> !Misapplied(old(cacheCoins), o, e)
      ensures Accounted() && Lower() == old(Lower())
      ensures cacheCoins == if ok then Merged(old(cacheCoins), o, e) else old(cacheCoins)
      ensures old(Valid()) && EntryOk(old(View()), o, e) ==> ok && Valid() && View() == Absorb(old(View()), o, e)
    {
      if !e.isDirty {
        return true;
      }
      if o !in cacheCoins {
        if e.isFresh && e.coin.IsSpent() {
          assert o !in View() ==> View() - {o} == View();
        } else {
          StoreDirty(o, CacheEntry(e.coin, true, e.isFresh));
        }
        return true;
      }
      var ours := cacheCoins[o];
      if e.isFresh && !ours.coin.IsSpent() {
        return false;
      }
      assert Valid() ==> EntryOk(BaseView(), o, ours);
      if ours.isFresh && e.coin.IsSpent() {
        EraseEntry(o);
      } else {
        StoreDirty(o, CacheEntry(e.coin, true, ours.isFresh));
      }
      return true;
    }

    /** Takes in any map, entry by entry, until one is misapplied. If the map is that of a child with
        truthful flags, none is, and afterwards this cache shows what the child showed. */
    method BatchWrite(mapCoins: CacheMap) returns (ok: bool)
      requires Accounted()
      modifies this
      ensures ok <==> forall o :: o in mapCoins ==> !Misapplied(old(cacheCoins), o, mapCoins[o])
      ensures Accounted() && Lower() == old(Lower())
      ensures ok ==> IsMerged(cacheCoins, old(cacheCoins), mapCoins, map[])
      ensures !ok ==> exists rest :: rest != map[] && IsMerged(cacheCoins, old(cacheCoins), mapCoins, rest)
      ensures old(Valid()) && Consistent(old(View()), mapCoins) ==>
                ok && Valid() && View() == Overlay(old(View()), mapCoins)
    {
      var rest := mapCoins;
      ghost var truthful := Valid() && Consistent(View(), mapCoins);
      while rest != map[]
        invariant Accounted() && Lower() == old(Lower())
        invariant rest.Keys <= mapCoins.Keys && forall o :: o in rest ==> rest[o] == mapCoins[o]
        invariant IsMerged(cacheCoins, old(cacheCoins), mapCoins, rest)
        invariant truthful ==> Valid() && Consistent(View(), rest)
        invariant truthful ==> Overlay(View(), rest) == old(Overlay(View(), mapCoins))
        decreases |rest|
      {
        var o :| o in rest;
        MergeNext(cacheCoins, old(cacheCoins), mapCoins, rest, o);
        if truthful {
          AbsorbKeepsOverlay(View(), rest, o);
          assert EntryOk(View(), o, rest[o]);
        }
        ok := WriteEntry(o, rest[o]);
        if !ok {
          return;
        }
        rest := rest - {o};
      }
      if truthful {
        OverlayNothing(View());
      }
      ok := true;
    }

    /** Pushes all modifications down. Every layer below the parent is untouched,
        and the parent then shows exactly what this cache shows. */
    method Flush() returns (ok: bool)
      requires Valid()
      modifies repr
      ensures ok && Valid() && cacheCoins == map[]
      ensures Lower() == old(Lower())[depth := old(View())] && View() == old(View())
    {
      hide IsOverlay, Consistent;
      ghost var view := View();
      ok := WriteToBase();
      OverlayNothing(view);
      Replace(map[], 0);
    }

    method WriteToBase() returns (ok: bool)
      requires Valid()
      modifies repr - {this}
      ensures ok && Linked() && (base != null ==> base.Valid())
      ensures Lower() == old(Lower())[depth := old(View())]
    {
      hide IsOverlay, IsMerged, IsApplied, Misapplied;
      if base == null {
        assert BaseView() == db.View();
        db.BatchWrite(cacheCoins);
        ok := true;
      } else {
        assert BaseView() == base.View();
        ok := base.BatchWrite(cacheCoins);
      }
    }

    /** Reads through the layer `level` steps below this one. */
    method GetCoinAt(level: nat, o: OutPoint) returns (r: Option<Coin>)
      requires Valid() && level <= depth
      modifies repr
      ensures Valid() && Lower() == old(Lower()) && View() == old(View())
      ensures var seen := (Lower() + [View()])[depth + 1 - level];
              r == if o in seen then Some(seen[o]) else None
      decreases level
    {
      if level == 0 {
        r := GetCoin(o);
      } else {
        assert Lower() == base.Lower() + [base.View()];
        r := base.GetCoinAt(level - 1, o);
        assert Lower() == old(Lower());
      }
    }

    /** Uncaches in the layer `level` steps below this one. */
    method UncacheAt(level: nat, o: OutPoint)
      requires Valid() && level <= depth
      modifies repr
      ensures Valid() && Lower() == old(Lower()) && View() == old(View())
      decreases level
    {
      if level == 0 {
        Uncache(o);
      } else {
        assert Lower() == base.Lower() + [base.View()];
        base.UncacheAt(level - 1, o);
        assert Lower() == old(Lower());
      }
    }
  }

  // ----- Whole transactions ---------------------------------------------------

  /** The plain map after adding outputs `from..` of a transaction. */
  function WithOutputs(view: CoinMap, txid: nat, outs: seq<TxOut>, coinBase: bool, coinStake: bool,
                       height: nat, from: nat): CoinMap
    requires from <= |outs|
    decreases |outs| - from
  {
    if from == |outs| then view
    else
      var coin := Coin(outs[from], coinBase, coinStake, height);
      var view' := if coin.IsUnspendable() then view else view[OutPoint(txid, from) := coin];
      WithOutputs(view', txid, outs, coinBase, coinStake, height, from + 1)
  }

  /** Adds all outputs of a transaction. With `check` the cache itself finds out
      which additions overwrite, so the caller need promise nothing. */
  method AddCoins(cache: CoinsViewCache, txid: nat, outs: seq<TxOut>, coinBase: bool, coinStake: bool,
                  height: nat, check: bool) returns (ok: bool)
    requires cache.Valid()
    requires forall i :: 0 <= i < |outs| ==> outs[i].value != -1
    requires check || coinBase || forall i: nat :: i < |outs| ==> OutPoint(txid, i) !in cache.View()
    modifies cache.repr
    ensures ok && cache.Valid() && cache.Lower() == old(cache.Lower())
    ensures cache.View() == WithOutputs(old(cache.View()), txid, outs, coinBase, coinStake, height, 0)
  {
    ok := true;
    for i := 0 to |outs|
      invariant ok && cache.Valid() && cache.Lower() == old(cache.Lower())
      invariant WithOutputs(cache.View(), txid, outs, coinBase, coinStake, height, i)
                == WithOutputs(old(cache.View()), txid, outs, coinBase, coinStake, height, 0)
      invariant check || coinBase || forall j: nat :: i <= j < |outs| ==> OutPoint(txid, j) !in cache.View()
    {
      var o := OutPoint(txid, i);
      var overwrite := coinBase;
      if check {
        var have := cache.GetCoin(o);
        overwrite := have.Some?;
      }
      ok := cache.AddCoin(o, Coin(outs[i], coinBase, coinStake, height), overwrite);
    }
  }

  // ----- Whole runs -------------------------------------------------------------

  datatype Op =
    | Read(level: nat, o: OutPoint)
    | Forget(level: nat, o: OutPoint)
    | Add(o: OutPoint, coin: Coin, possibleOverwrite: bool)
    | Spend(o: OutPoint)
    | Push
    | Flush
    | Drop

  /** The specification: a stack of plain maps, the database at index 0. */
  function Step(views: seq<CoinMap>, op: Op): (r: seq<CoinMap>)
    requires |views| >= 2
    ensures |r| >= 2
  {
    var top := |views| - 1;
    match op
    case Read(_, _) => views
    case Forget(_, _) => views
    case Add(o, coin, _) => if coin.IsUnspendable() then views else views[top := views[top][o := coin]]
    case Spend(o) => views[top := views[top] - {o}]
    case Push => views + [views[top]]
    case Flush => views[top - 1 := views[top]]
    case Drop => if |views| > 2 then views[..top] else views
  }

  function Steps(views: seq<CoinMap>, ops: seq<Op>): (r: seq<CoinMap>)
    requires |views| >= 2
    ensures |r| >= 2
    decreases |ops|
  {
    if ops == [] then views else Steps(Step(views, ops[0]), ops[1..])
  }

  /** What the program asks of a caller: existing layers only, unspent coins only,
      and no overwrite of a visible coin without announcing it. */
  predicate Legal(views: seq<CoinMap>, op: Op)
    requires |views| >= 2
  {
    match op
    case Read(level, _) => level <= |views| - 2
    case Forget(level, _) => level <= |views| - 2
    case Add(o, coin, overwrite) => !coin.IsSpent() && (overwrite || o !in views[|views| - 1])
    case _ => true
  }

  predicate LegalRun(views: seq<CoinMap>, ops: seq<Op>)
    requires |views| >= 2
    decreases |ops|
  {
    ops != [] ==> Legal(views, ops[0]) && LegalRun(Step(views, ops[0]), ops[1..])
  }

  /** One operation on the real stack does to every layer's map what the
      specification says, and never throws. */
  method Perform(top: CoinsViewCache, op: Op) returns (top': CoinsViewCache)
    requires top.Valid() && Legal(top.Lower() + [top.View()], op)
    modifies top.repr
    ensures top'.Valid() && top'.db == top.db && fresh(top'.repr - top.repr)
    ensures top'.Lower() + [top'.View()] == Step(old(top.Lower() + [top.View()]), op)
  {
    top' := top;
    var ok := true;
    if op.Read? {
      var _ := top.GetCoinAt(op.level, op.o);
    } else if op.Forget? {
      top.UncacheAt(op.level, op.o);
    } else if op.Add? {
      ok := top.AddCoin(op.o, op.coin, op.possibleOverwrite);
    } else if op.Spend? {
      var _, _ := top.SpendCoin(op.o);
    } else if op.Push? {
      top' := new CoinsViewCache.Over(top);
    } else if op.Flush? {
      ok := top.Flush();
    } else if top.base != null {
      top' := top.base;
    }
    assert ok;
  }

  /** Every legal run of a stack of any depth, from an empty cache over the
      database, shows at every layer exactly the plain-map specification. */
  method Run(db: CoinsViewDB, usage: Script -> nat, ops: seq<Op>) returns (top: CoinsViewCache)
    requires usage([]) == 0
    requires LegalRun([db.View(), db.View()], ops)
    modifies db
    ensures top.Valid()
    ensures top.Lower() + [top.View()] == Steps(old([db.View(), db.View()]), ops)
  {
    top := new CoinsViewCache.OverDB(db, usage);
    assert ops[0..] == ops && top.Lower() + [top.View()] == [db.View(), db.View()];
    for i := 0 to |ops|
      invariant top.Valid() && top.db == db && fresh(top.repr - {db})
      invariant LegalRun(top.Lower() + [top.View()], ops[i..])
      invariant Steps(top.Lower() + [top.View()], ops[i..]) == Steps(old([db.View(), db.View()]), ops)
    {
      assert ops[i..][1..] == ops[i + 1..];
      top := Perform(top, ops[i]);
    }
  }

  predicate IsLocal(op: Op) {
    op.Read? || op.Forget? || op.Add? || op.Spend?
  }

  /** Working in a scratch layer and flushing it is the same as working directly:
      the reason the caches may be stacked at all. */
  lemma {:induction false} ScratchLayerTransparent(views: seq<CoinMap>, ops: seq<Op>)
    requires |views| >= 2 && forall op :: op in ops ==> IsLocal(op)
    ensures Steps(Step(views, Push), ops + [Flush, Drop]) == Steps(views, ops)
  {
    assert views[|views| - 1 := views[|views| - 1]] == views;
    ScratchLayer(views, views[|views| - 1], ops);
  }

  lemma {:induction false} ScratchLayer(views: seq<CoinMap>, scratch: CoinMap, ops: seq<Op>)
    requires |views| >= 2 && forall op :: op in ops ==> IsLocal(op)
    ensures Steps(views + [scratch], ops + [Flush, Drop])
            == Steps(views[|views| - 1 := scratch], ops)
    decreases |ops|
  {
    var top := |views| - 1;
    var stack := views + [scratch];
    if ops == [] {
      var flushed := Step(stack, Flush);
      assert Steps(stack, [Flush, Drop]) == Step(flushed, Drop) by {
        assert [Flush, Drop][1..] == [Drop];
        assert Steps(flushed, [Drop]) == Step(flushed, Drop);
      }
      assert flushed[..|flushed| - 1] == views[top := scratch];
      assert ops + [Flush, Drop] == [Flush, Drop];
    } else {
      var op, rest := ops[0], ops[1..];
      assert (ops + [Flush, Drop])[1..] == rest + [Flush, Drop];
      var scratch' := match op
        case Add(o, coin, _) => if coin.IsUnspendable() then scratch else scratch[o := coin]
        case Spend(o) => scratch - {o}
        case _ => scratch;
      assert IsLocal(op);
      assert stack[|stack| - 1 := scratch'] == views + [scratch'] && stack == stack[|stack| - 1 := scratch];
      assert Step(stack, op) == views + [scratch'];
      assert Step(views[top := scratch], op) == views[top := scratch'];
      ScratchLayer(views, scratch', rest);
    }
  }
}
