/**
  The UTXO cache stack: layered write-back caches with DIRTY and FRESH flags over
  one backing store (src/coins.h, src/coins.cpp).

  What a cache *means* is a plain map from outpoints to unspent coins: the map of the
  layer beneath it, overlaid with its own entries.  The first half of the module is
  about these values; the second half holds the mutable classes, each method of which
  is proved against the overlay.
*/
module Coins {

  type Hash = nat
  const NULL_HASH: Hash := 0

  datatype OutPoint = OutPoint(txid: Hash, n: nat)

  datatype TxOut = TxOut(nValue: int, scriptPubKey: seq<bv8>)

  const OP_RETURN: bv8 := 0x6a
  const MAX_SCRIPT_SIZE := 10000

  predicate IsUnspendable(script: seq<bv8>) {
    (|script| > 0 && script[0] == OP_RETURN) || |script| > MAX_SCRIPT_SIZE
  }

  /** What can never be spent: scripts that begin with the opcode for returning, and those of more than 10000 bytes. */
  lemma UnspendableIff(script: seq<bv8>)
    ensures IsUnspendable(script) <==> [0x6a] <= script || |script| >= 10001
  {
  }

  datatype Coin = Coin(out: TxOut, fCoinBase: bool, fCoinStake: bool, nHeight: nat, nTime: nat) {
    predicate IsSpent() {
      out.nValue == -1
    }
  }

  /** A default-constructed coin, which is also what `Coin::Clear` leaves behind. */
  const EMPTY_COIN := Coin(TxOut(-1, []), false, false, 0, 0)

  datatype CacheEntry = CacheEntry(coin: Coin, isDirty: bool, isFresh: bool)

  type CoinsMap = map<OutPoint, CacheEntry>
  type Utxo = map<OutPoint, Coin>

  // ---------- Meaning and invariant of one layer ----------

  /** The five flag combinations that src/coins.h documents as valid. */
  ghost predicate LegalState(e: CacheEntry) {
    var spent := e.coin.IsSpent();
    || (!spent && e.isFresh && e.isDirty)
    || (!spent && !e.isFresh && e.isDirty)
    || (!spent && !e.isFresh && !e.isDirty)
    || (spent && e.isFresh && !e.isDirty)
    || (spent && !e.isFresh && e.isDirty)
  }

  /** What the flags of entry `e` for `o` promise about the map `below` of the parent layer. */
  ghost predicate EntryOk(e: CacheEntry, o: OutPoint, below: Utxo) {
    && LegalState(e)
    && (e.isFresh ==> o !in below)
    && (!e.isDirty ==> if e.coin.IsSpent() then o !in below else o in below && below[o] == e.coin)
  }

  ghost predicate CacheOk(m: CoinsMap, below: Utxo) {
    forall o :: o in m ==> EntryOk(m[o], o, below)
  }

  /** The unspent coins of a raw table that may also hold empty entries. */
  ghost function Unspent(coins: map<OutPoint, Coin>): Utxo {
    map o | o in coins && !coins[o].IsSpent() :: coins[o]
  }

  ghost predicate Visible(m: CoinsMap, below: Utxo, o: OutPoint) {
    if o in m then !m[o].coin.IsSpent() else o in below
  }

  /** The map a cache shows: its own entries hide those of the layer below. */
  ghost function Overlay(m: CoinsMap, below: Utxo): Utxo {
    map o | o in m.Keys + below.Keys && Visible(m, below, o) :: if o in m then m[o].coin else below[o]
  }

  // ---------- Single-entry updates ----------

  /** Entry that `FetchCoin` installs for a coin obtained from the parent. */
  function Fetched(coin: Coin): CacheEntry {
    CacheEntry(coin, false, coin.IsSpent())
  }

  /** Entry that `AddCoin` leaves, given the old entry of the outpoint if there was one. */
  function Added(m: CoinsMap, o: OutPoint, coin: Coin, overwrite: bool): CacheEntry {
    var prior := if o in m then m[o] else CacheEntry(EMPTY_COIN, false, false);
    CacheEntry(coin, true, prior.isFresh || (!overwrite && !prior.isDirty))
  }

  /** Map that `SpendCoin` leaves when `o` is in the cache. */
  function Spent(m: CoinsMap, o: OutPoint): CoinsMap
    requires o in m
  {
    if m[o].isFresh then m - {o} else m[o := CacheEntry(EMPTY_COIN, true, false)]
  }

  /** Map that one dirty child entry leaves in its parent (`BatchWrite`). */
  function Merged(m: CoinsMap, o: OutPoint, child: CacheEntry): CoinsMap {
    if o !in m then
      if child.isFresh && child.coin.IsSpent() then m
      else m[o := CacheEntry(child.coin, true, child.isFresh)]
    else if m[o].isFresh && child.coin.IsSpent() then m - {o}
    else m[o := CacheEntry(child.coin, true, m[o].isFresh)]
  }

  ghost predicate SameAt(m: CoinsMap, m': CoinsMap, o: OutPoint) {
    (o in m <==> o in m') && (o in m ==> m[o] == m'[o])
  }

  /** One entry of the parent after a batch: merged with the child's where that is dirty, and else as it was. */
  ghost predicate MergedAt(m: CoinsMap, child: CoinsMap, m': CoinsMap, o: OutPoint) {
    SameAt(m', if o in child && child[o].isDirty then Merged(m, o, child[o]) else m, o)
  }

  /** In the middle of a batch: the entries still to come are untouched, the others are merged. */
  ghost predicate PartMerged(m: CoinsMap, child: CoinsMap, rest: CoinsMap, m': CoinsMap) {
    && (forall o :: o in rest ==> o in child && rest[o] == child[o] && SameAt(m', m, o))
    && (forall o :: o !in rest ==> MergedAt(m, child, m', o))
  }

  lemma MergeStep(m: CoinsMap, child: CoinsMap, rest: CoinsMap, m': CoinsMap, o: OutPoint)
    requires PartMerged(m, child, rest, m') && o in rest
    ensures PartMerged(m, child, rest - {o}, if rest[o].isDirty then Merged(m', o, rest[o]) else m')
  {
  }

  lemma MergeEnds(m: CoinsMap, child: CoinsMap, m': CoinsMap)
    ensures PartMerged(m, child, child, m) && (PartMerged(m, child, map[], m') ==> forall o :: MergedAt(m, child, m', o))
  {
  }

  lemma OverlayPut(m: CoinsMap, below: Utxo, o: OutPoint, e: CacheEntry)
    requires CacheOk(m, below) && EntryOk(e, o, below)
    ensures CacheOk(m[o := e], below)
    ensures Overlay(m[o := e], below) ==
            if e.coin.IsSpent() then Overlay(m, below) - {o} else Overlay(m, below)[o := e.coin]
  {
  }

  lemma OverlayDrop(m: CoinsMap, below: Utxo, o: OutPoint)
    requires CacheOk(m, below)
    ensures CacheOk(m - {o}, below)
    ensures Overlay(m - {o}, below) ==
            if o in below then Overlay(m, below)[o := below[o]] else Overlay(m, below) - {o}
  {
  }

  lemma FetchKeepsView(m: CoinsMap, below: Utxo, o: OutPoint, coin: Coin)
    requires CacheOk(m, below) && o !in m
    requires if coin.IsSpent() then o !in below else o in below && below[o] == coin
    ensures CacheOk(m[o := Fetched(coin)], below)
    ensures Overlay(m[o := Fetched(coin)], below) == Overlay(m, below)
  {
    OverlayPut(m, below, o, Fetched(coin));
  }

  lemma UncacheKeepsView(m: CoinsMap, below: Utxo, o: OutPoint)
    requires CacheOk(m, below) && o in m && !m[o].isDirty && !m[o].isFresh
    ensures CacheOk(m - {o}, below)
    ensures Overlay(m - {o}, below) == Overlay(m, below)
  {
  }

  /** Adding acts as one map update, provided that a coin is only ever hidden knowingly. */
  lemma AddIsUpdate(m: CoinsMap, below: Utxo, o: OutPoint, coin: Coin, overwrite: bool)
    requires CacheOk(m, below) && !coin.IsSpent()
    requires !overwrite ==> o !in Overlay(m, below)
    ensures !overwrite && o in m ==> m[o].coin.IsSpent()
    ensures CacheOk(m[o := Added(m, o, coin, overwrite)], below)
    ensures Overlay(m[o := Added(m, o, coin, overwrite)], below) == Overlay(m, below)[o := coin]
  {
    if o in m { assert EntryOk(m[o], o, below); }
    OverlayPut(m, below, o, Added(m, o, coin, overwrite));
  }

  lemma SpendIsRemoval(m: CoinsMap, below: Utxo, o: OutPoint)
    requires CacheOk(m, below) && o in m
    ensures CacheOk(Spent(m, o), below)
    ensures Overlay(Spent(m, o), below) == Overlay(m, below) - {o}
  {
    assert EntryOk(m[o], o, below);
    if m[o].isFresh {
      OverlayDrop(m, below, o);
    } else {
      OverlayPut(m, below, o, CacheEntry(EMPTY_COIN, true, false));
    }
  }

  lemma CachedShows(m: CoinsMap, below: Utxo, o: OutPoint)
    requires o in m
    ensures if o in Overlay(m, below) then Overlay(m, below)[o] == m[o].coin else m[o].coin.IsSpent()
  {
  }

  // ---------- Writing a child back into its parent ----------

  /** The map a child entry asks its parent to show. */
  ghost function Pushed(view: Utxo, o: OutPoint, child: CacheEntry): Utxo {
    if child.coin.IsSpent() then view - {o} else view[o := child.coin]
  }

  /**
    One step of `BatchWrite`: merging a dirty child entry keeps the parent's own promises to
    the grandparent, and changes the parent's map at that outpoint alone.  The FRESH flag of the
    child is never misapplied, so the `logic_error` of src/coins.cpp:198 cannot be thrown.
  */
  lemma MergeIsPush(m: CoinsMap, below: Utxo, o: OutPoint, child: CacheEntry)
    requires CacheOk(m, below) && child.isDirty && EntryOk(child, o, Overlay(m, below))
    ensures !(o in m && child.isFresh && !m[o].coin.IsSpent())
    ensures CacheOk(Merged(m, o, child), below)
    ensures Overlay(Merged(m, o, child), below) == Pushed(Overlay(m, below), o, child)
  {
    if o !in m {
      assert o in below <==> o in Overlay(m, below);
      OverlayPut(m, below, o, CacheEntry(child.coin, true, child.isFresh));
    } else {
      assert EntryOk(m[o], o, below);
      assert m[o].coin.IsSpent() <==> o !in Overlay(m, below);
      if m[o].isFresh && child.coin.IsSpent() {
        OverlayDrop(m, below, o);
      } else {
        OverlayPut(m, below, o, CacheEntry(child.coin, true, m[o].isFresh));
      }
    }
  }

  /** Moving a dirty entry from child to parent does not change what the child shows. */
  lemma PushKeepsChildView(rest: CoinsMap, view: Utxo, o: OutPoint)
    requires o in rest && CacheOk(rest, view)
    ensures CacheOk(rest - {o}, Pushed(view, o, rest[o]))
    ensures Overlay(rest - {o}, Pushed(view, o, rest[o])) == Overlay(rest, view)
  {
    forall p | p in rest - {o}
      ensures EntryOk((rest - {o})[p], p, Pushed(view, o, rest[o]))
    {
      assert EntryOk(rest[p], p, view);
    }
  }

  /** A clean entry agrees with the parent, so `BatchWrite` may skip it. */
  lemma SkipKeepsChildView(rest: CoinsMap, view: Utxo, o: OutPoint)
    requires o in rest && CacheOk(rest, view) && !rest[o].isDirty
    ensures CacheOk(rest - {o}, view)
    ensures Overlay(rest - {o}, view) == Overlay(rest, view)
  {
    assert EntryOk(rest[o], o, view);
  }

  /** Writing a dirty entry to the store, whether a spent coin is erased or kept as an empty entry. */
  lemma StoreWriteIsPush(coins: map<OutPoint, Coin>, o: OutPoint, child: CacheEntry)
    ensures Unspent(coins[o := child.coin]) == Pushed(Unspent(coins), o, child)
    ensures child.coin.IsSpent() ==> Unspent(coins - {o}) == Pushed(Unspent(coins), o, child)
  {
  }

  lemma EmptyOverlay(view: Utxo)
    ensures Overlay(map[], view) == view
  {
  }

  // ---------- The backing store ----------

  /**
    The view at the bottom of a stack.  It may keep an empty entry for a spent coin, and may
    then answer a lookup either way; the database (src/txdb.cpp:60-62, 82-144) never does, the
    map used by the simulation test (src/test/coins_tests.cpp:34-73) does.
  */
  class CoinsStore {
    var coins: map<OutPoint, Coin>
    var bestBlock: Hash

    ghost function View(): Utxo
      reads this
    {
      Unspent(coins)
    }

    method GetCoin(o: OutPoint) returns (found: bool, coin: Coin)
      ensures if found && !coin.IsSpent() then o in View() && View()[o] == coin else o !in View()
    {
      found, coin := o in coins, EMPTY_COIN;
      if found {
        coin := coins[o];
        if coin.IsSpent() {
          found := *;
        }
      }
    }

    method WriteEntry(o: OutPoint, child: CacheEntry)
      modifies `coins
      ensures View() == Pushed(old(View()), o, child)
    {
      StoreWriteIsPush(coins, o, child);
      var erase: bool := *;
      coins := if child.coin.IsSpent() && erase then coins - {o} else coins[o := child.coin];
    }

    method BatchWrite(mapCoins: CoinsMap, hash: Hash)
      requires CacheOk(mapCoins, View())
      modifies this
      ensures View() == Overlay(mapCoins, old(View()))
      ensures bestBlock == if hash == NULL_HASH then old(bestBlock) else hash
    {
      var rest := mapCoins;
      ghost var view := View();
      while rest != map[]
        invariant view == View() && CacheOk(rest, view)
        invariant Overlay(rest, view) == Overlay(mapCoins, old(View()))
        invariant bestBlock == old(bestBlock)
        decreases |rest|
      {
        var o :| o in rest;
        if rest[o].isDirty {
          PushKeepsChildView(rest, view, o);
          WriteEntry(o, rest[o]);
          view := Pushed(view, o, rest[o]);
        } else {
          SkipKeepsChildView(rest, view, o);
        }
        rest := rest - {o};
      }
      EmptyOverlay(view);
      if hash != NULL_HASH {
        bestBlock := hash;
      }
    }
  }

  // ---------- A cache over a cache or over the store ----------

  datatype Base = Store(db: CoinsStore) | Cache(parent: CoinsViewCache)

  class CoinsViewCache {
    const base: Base
    var cacheCoins: CoinsMap
    var hashBlock: Hash
    ghost const Repr: set<object>

    /** The layers form a finite chain that ends in a store. */
    ghost predicate Linked()
      decreases Repr
    {
      && this in Repr
      && match base
         case Store(db) => Repr == {this, db}
         case Cache(c) => c in Repr && this !in c.Repr && Repr == {this} + c.Repr && c.Linked()
    }

    ghost function BaseView(): Utxo
      requires Linked()
      reads this, Repr
      decreases Repr, 0
    {
      match base
      case Store(db) => db.View()
      case Cache(c) => c.View()
    }

    /** The map this cache stands for. */
    ghost function View(): Utxo
      requires Linked()
      reads this, Repr
      decreases Repr, 1
    {
      Overlay(cacheCoins, BaseView())
    }

    /** Every layer keeps its promises to the layer below. */
    ghost predicate Valid()
      reads this, Repr
      decreases Repr
    {
      && Linked()
      && CacheOk(cacheCoins, BaseView())
      && (base.Cache? ==> base.parent.Valid())
    }

    ghost function BaseBest(): Hash
      requires Linked()
      reads this, Repr
      decreases Repr, 0
    {
      match base
      case Store(db) => db.bestBlock
      case Cache(c) => c.Best()
    }

    /** The block whose state this cache stands for. */
    ghost function Best(): Hash
      requires Linked()
      reads this, Repr
      decreases Repr, 1
    {
      if hashBlock == NULL_HASH then BaseBest() else hashBlock
    }

    constructor (baseIn: Base)
      requires baseIn.Cache? ==> baseIn.parent.Valid()
      ensures Valid() && base == baseIn
      ensures Repr == {this} + (match baseIn case Store(db) => {db} case Cache(c) => c.Repr)
      ensures View() == match baseIn case Store(db) => db.View() case Cache(c) => c.View()
      ensures Best() == match baseIn case Store(db) => db.bestBlock case Cache(c) => c.Best()
      ensures cacheCoins == map[] && hashBlock == NULL_HASH
    {
      base := baseIn;
      cacheCoins := map[];
      hashBlock := NULL_HASH;
      Repr := {this} + (match baseIn case Store(db) => {db} case Cache(c) => c.Repr);
      new;
      EmptyOverlay(BaseView());
    }

    /** The lookup in the layer below; it may fill caches further down. */
    method GetBaseCoin(o: OutPoint) returns (found: bool, coin: Coin)
      requires Valid()
      modifies Repr - {this}
      ensures Valid() && View() == old(View()) && BaseView() == old(BaseView())
      ensures Best() == old(Best()) && BaseBest() == old(BaseBest())
      ensures if found && !coin.IsSpent() then o in BaseView() && BaseView()[o] == coin else o !in BaseView()
      ensures base.Cache? ==> (found <==> o in BaseView())
      decreases Repr, 0
    {
      match base {
        case Store(db) => found, coin := db.GetCoin(o);
        case Cache(c) => found, coin := c.GetCoin(o);
      }
    }

    /** Whether `o` is cached after pulling it in from below if need be. */
    method FetchCoin(o: OutPoint) returns (present: bool)
      requires Valid()
      modifies Repr
      ensures Valid()
      ensures View() == old(View()) && BaseView() == old(BaseView())
      ensures Best() == old(Best()) && BaseBest() == old(BaseBest())
      ensures hashBlock == old(hashBlock)
      ensures present == (o in cacheCoins)
      ensures o in old(cacheCoins) || o in old(View()) ==> present
      ensures base.Cache? && present ==> o in old(cacheCoins) || o in old(View())
      ensures if o in old(cacheCoins) || !present then cacheCoins == old(cacheCoins)
              else cacheCoins == old(cacheCoins)[o := cacheCoins[o]] && cacheCoins[o] == Fetched(cacheCoins[o].coin)
      decreases Repr, 1
    {
      if o in cacheCoins {
        return true;
      }
      var found, coin := GetBaseCoin(o);
      if !found {
        return false;
      }
      FetchKeepsView(cacheCoins, BaseView(), o, coin);
      cacheCoins := cacheCoins[o := Fetched(coin)];
      return true;
    }

    method GetCoin(o: OutPoint) returns (found: bool, coin: Coin)
      requires Valid()
      modifies Repr
      ensures Valid()
      ensures View() == old(View()) && Best() == old(Best())
      ensures found <==> o in View()
      ensures if found && !coin.IsSpent() then o in View() && View()[o] == coin else o !in View()
      decreases Repr, 2
    {
      found := FetchCoin(o);
      coin := EMPTY_COIN;
      if found {
        coin := cacheCoins[o].coin;
        found := !coin.IsSpent();
      }
    }

    method HaveCoin(o: OutPoint) returns (have: bool)
      requires Valid()
      modifies Repr
      ensures Valid()
      ensures View() == old(View()) && Best() == old(Best())
      ensures have <==> o in View()
      ensures have ==> o in cacheCoins
    {
      var present := FetchCoin(o);
      have := present && !cacheCoins[o].coin.IsSpent();
    }

    method AccessCoin(o: OutPoint) returns (coin: Coin)
      requires Valid()
      modifies Repr
      ensures Valid()
      ensures View() == old(View()) && Best() == old(Best())
      ensures if o in View() then o in cacheCoins && coin == View()[o] else coin.IsSpent()
    {
      var present := FetchCoin(o);
      coin := if present then cacheCoins[o].coin else EMPTY_COIN;
    }

    /**
      Without `possibleOverwrite` the caller vouches that the whole stack shows no coin at `o`;
      the `logic_error` of src/coins.cpp:78 is then unreachable.
    */
    method AddCoin(o: OutPoint, coin: Coin, possibleOverwrite: bool)
      requires Valid() && !coin.IsSpent()
      requires !possibleOverwrite ==> o !in View()
      modifies `cacheCoins
      ensures Valid()
      ensures View() == if IsUnspendable(coin.out.scriptPubKey) then old(View()) else old(View())[o := coin]
      ensures BaseView() == old(BaseView()) && Best() == old(Best())
      ensures cacheCoins == if IsUnspendable(coin.out.scriptPubKey) then old(cacheCoins)
                            else old(cacheCoins)[o := Added(old(cacheCoins), o, coin, possibleOverwrite)]
    {
      if IsUnspendable(coin.out.scriptPubKey) {
        return;
      }
      AddIsUpdate(cacheCoins, BaseView(), o, coin, possibleOverwrite);
      var entry := if o in cacheCoins then cacheCoins[o] else CacheEntry(EMPTY_COIN, false, false);
      var markFresh := false;
      if !possibleOverwrite {
        assert entry.coin.IsSpent();
        markFresh := !entry.isDirty;
      }
      cacheCoins := cacheCoins[o := CacheEntry(coin, true, entry.isFresh || markFresh)];
    }

    /** `moved` is the coin handed out; it is spent when there was nothing to spend. */
    method SpendCoin(o: OutPoint) returns (ok: bool, moved: Coin)
      requires Valid()
      modifies Repr
      ensures Valid()
      ensures View() == old(View()) - {o}
      ensures BaseView() == old(BaseView()) && Best() == old(Best())
      ensures o in old(cacheCoins) || o in old(View()) ==> ok
      ensures base.Cache? && ok ==> o in old(cacheCoins) || o in old(View())
      ensures if o in old(View()) then moved == old(View())[o] else moved.IsSpent()
      ensures cacheCoins == if o in old(cacheCoins) then Spent(old(cacheCoins), o)
                            else if o in old(View()) then old(cacheCoins)[o := CacheEntry(EMPTY_COIN, true, false)]
                            else old(cacheCoins)
    {
      hide Overlay, CacheOk;
      ok := FetchCoin(o);
      moved := EMPTY_COIN;
      if ok {
        SpendIsRemoval(cacheCoins, BaseView(), o);
        CachedShows(cacheCoins, BaseView(), o);
        moved := cacheCoins[o].coin;
        if cacheCoins[o].isFresh {
          cacheCoins := cacheCoins - {o};
          assert o !in old(cacheCoins) ==> cacheCoins == old(cacheCoins);
        } else {
          cacheCoins := cacheCoins[o := CacheEntry(EMPTY_COIN, true, false)];
        }
      }
    }

    method Uncache(o: OutPoint)
      requires Valid()
      modifies `cacheCoins
      ensures Valid() && View() == old(View())
      ensures BaseView() == old(BaseView()) && Best() == old(Best())
      ensures cacheCoins.Keys == old(cacheCoins).Keys - {o} || cacheCoins == old(cacheCoins)
      ensures o in cacheCoins ==> cacheCoins[o].isDirty || cacheCoins[o].isFresh
      ensures forall x :: x in cacheCoins ==> cacheCoins[x] == old(cacheCoins)[x]
    {
      if o in cacheCoins && !cacheCoins[o].isDirty && !cacheCoins[o].isFresh {
        UncacheKeepsView(cacheCoins, BaseView(), o);
        cacheCoins := cacheCoins - {o};
      }
    }

    method GetBestBlock() returns (hash: Hash)
      requires Valid()
      modifies Repr
      ensures Valid()
      ensures View() == old(View()) && Best() == old(Best()) && hash == Best() == hashBlock
      decreases Repr
    {
      if hashBlock == NULL_HASH {
        var below;
        match base {
          case Store(db) => below := db.bestBlock;
          case Cache(c) => below := c.GetBestBlock();
        }
        hashBlock := below;
      }
      hash := hashBlock;
    }

    method SetBestBlock(hash: Hash)
      requires Valid()
      modifies `hashBlock
      ensures Valid() && View() == old(View()) && hashBlock == hash
      ensures BaseView() == old(BaseView()) && BaseBest() == old(BaseBest())
    {
      hashBlock := hash;
    }

    /** One dirty child entry in the loop of `BatchWrite`. */
    method MergeEntry(o: OutPoint, child: CacheEntry)
      requires Valid() && child.isDirty && EntryOk(child, o, View())
      modifies `cacheCoins
      ensures Valid() && View() == Pushed(old(View()), o, child) && cacheCoins == Merged(old(cacheCoins), o, child)
      ensures BaseView() == old(BaseView()) && BaseBest() == old(BaseBest())
    {
      MergeIsPush(cacheCoins, BaseView(), o, child);
      if o !in cacheCoins {
        if !(child.isFresh && child.coin.IsSpent()) {
          cacheCoins := cacheCoins[o := CacheEntry(child.coin, true, child.isFresh)];
        }
      } else {
        assert !(child.isFresh && !cacheCoins[o].coin.IsSpent());
        if cacheCoins[o].isFresh && child.coin.IsSpent() {
          cacheCoins := cacheCoins - {o};
        } else {
          cacheCoins := cacheCoins[o := CacheEntry(child.coin, true, cacheCoins[o].isFresh)];
        }
      }
    }

    /** Absorb the entries of a child: this cache comes to show what the child showed. */
    method BatchWrite(mapCoins: CoinsMap, hash: Hash)
      requires Valid() && CacheOk(mapCoins, View())
      modifies `cacheCoins, `hashBlock
      ensures Valid() && View() == Overlay(mapCoins, old(View()))
      ensures BaseView() == old(BaseView()) && BaseBest() == old(BaseBest()) && hashBlock == hash
      ensures forall o :: MergedAt(old(cacheCoins), mapCoins, cacheCoins, o)
    {
      hide PartMerged, MergedAt, Merged, Overlay, Pushed, EntryOk;
      var rest := mapCoins;
      MergeEnds(cacheCoins, mapCoins, cacheCoins);
      while rest != map[]
        invariant PartMerged(old(cacheCoins), mapCoins, rest, cacheCoins)
        invariant Valid() && CacheOk(rest, View())
        invariant BaseView() == old(BaseView()) && BaseBest() == old(BaseBest())
        invariant Overlay(rest, View()) == Overlay(mapCoins, old(View()))
        decreases |rest|
      {
        var o :| o in rest;
        MergeStep(old(cacheCoins), mapCoins, rest, cacheCoins, o);
        if rest[o].isDirty {
          PushKeepsChildView(rest, View(), o);
          MergeEntry(o, rest[o]);
        } else {
          SkipKeepsChildView(rest, View(), o);
        }
        rest := rest - {o};
      }
      EmptyOverlay(View());
      MergeEnds(old(cacheCoins), mapCoins, cacheCoins);
      SetBestBlock(hash);
    }

    /**
      Push everything down: the layer below comes to show exactly what this one shows, and this
      one shows it still.  The best block survives iff this cache knew it itself, or the layer
      below did not shadow the one underneath: a null `hashBlock` is written through.
    */
    method Flush()
      requires Valid()
      modifies Repr
      ensures Valid()
      ensures View() == old(View()) == BaseView()
      ensures cacheCoins == map[] && hashBlock == old(hashBlock)
      ensures Best() == old(Best()) <==>
              (old(hashBlock) != NULL_HASH || base.Store? || old(base.parent.Best()) == old(base.parent.BaseBest()))
    {
      match base {
        case Store(db) => db.BatchWrite(cacheCoins, hashBlock);
        case Cache(c) =>
          c.BatchWrite(cacheCoins, hashBlock);
          assert c.Best() == if hashBlock == NULL_HASH then old(c.BaseBest()) else hashBlock;
      }
      label pushed:
      cacheCoins := map[];
      assert BaseBest() == old@pushed(BaseBest());
      EmptyOverlay(BaseView());
    }
  }

  // ---------- Adding the outputs of a transaction ----------

  datatype Transaction = Transaction(txid: Hash, vout: seq<TxOut>, isCoinBase: bool, isCoinStake: bool, nTime: nat)

  function OutputCoin(tx: Transaction, i: nat, height: nat): Coin
    requires i < |tx.vout|
  {
    Coin(tx.vout[i], tx.isCoinBase, tx.isCoinStake, height, tx.nTime)
  }

  /** The map after the first `k` outputs of `tx` have entered the UTXO set `view`. */
  ghost function WithOutputs(view: Utxo, tx: Transaction, height: nat, k: nat): Utxo
    requires k <= |tx.vout|
  {
    if k == 0 then view
    else
      var before := WithOutputs(view, tx, height, k - 1);
      if IsUnspendable(tx.vout[k - 1].scriptPubKey) then before
      else before[OutPoint(tx.txid, k - 1) := OutputCoin(tx, k - 1, height)]
  }

  /** The coin is that output, with the height and the time and kind of the transaction. */
  ghost predicate Records(coin: Coin, tx: Transaction, i: nat, height: nat)
    requires i < |tx.vout|
  {
    && coin.out == tx.vout[i] && coin.nHeight == height && coin.nTime == tx.nTime
    && coin.fCoinBase == tx.isCoinBase && coin.fCoinStake == tx.isCoinStake
  }

  /** Exactly the spendable outputs among the first `k` enter; everything else stays. */
  lemma {:induction false} WithOutputsAt(view: Utxo, tx: Transaction, height: nat, k: nat, o: OutPoint)
    requires k <= |tx.vout|
    ensures var after := WithOutputs(view, tx, height, k);
            if o.txid == tx.txid && o.n < k && !IsUnspendable(tx.vout[o.n].scriptPubKey)
            then o in after && Records(after[o], tx, o.n, height)
            else (o in after <==> o in view) && (o in view ==> after[o] == view[o])
  {
    if k > 0 {
      WithOutputsAt(view, tx, height, k - 1, o);
    }
  }

  /**
    With `check` the overwrite flag is worked out by a lookup, so nothing is asked of the caller;
    without it, overwriting is presumed for coinbase transactions only.
  */
  method AddCoins(cache: CoinsViewCache, tx: Transaction, height: nat, check: bool)
    requires cache.Valid()
    requires forall i :: 0 <= i < |tx.vout| ==> tx.vout[i].nValue != -1
    requires !check && !tx.isCoinBase ==> forall o :: o in cache.View() && o.txid == tx.txid ==> o.n >= |tx.vout|
    modifies cache.Repr
    ensures cache.Valid()
    ensures cache.View() == WithOutputs(old(cache.View()), tx, height, |tx.vout|)
    ensures cache.Best() == old(cache.Best())
    ensures forall i :: 0 <= i < |tx.vout| && !IsUnspendable(tx.vout[i].scriptPubKey) ==>
              var o := OutPoint(tx.txid, i); o in cache.View() && Records(cache.View()[o], tx, i, height)
  {
    for i := 0 to |tx.vout|
      invariant cache.Valid()
      invariant cache.View() == WithOutputs(old(cache.View()), tx, height, i)
      invariant cache.Best() == old(cache.Best())
    {
      var o := OutPoint(tx.txid, i);
      WithOutputsAt(old(cache.View()), tx, height, i, o);
      var overwrite := tx.isCoinBase;
      if check {
        overwrite := cache.HaveCoin(o);
      }
      cache.AddCoin(o, OutputCoin(tx, i, height), overwrite);
    }
    forall i | 0 <= i < |tx.vout| && !IsUnspendable(tx.vout[i].scriptPubKey)
      ensures var o := OutPoint(tx.txid, i); o in cache.View() && Records(cache.View()[o], tx, i, height)
    {
      WithOutputsAt(old(cache.View()), tx, height, |tx.vout|, OutPoint(tx.txid, i));
    }
  }

  // ---------- Whole runs over a stack of any depth ----------

  /** `stack[0]` sits on the store, every other cache on the one before it. */
  ghost predicate Stacked(stack: seq<CoinsViewCache>, db: CoinsStore) {
    && |stack| > 0
    && stack[0].base == Store(db)
    && (forall i :: 0 < i < |stack| ==> stack[i].base == Cache(stack[i - 1]))
    && (forall i :: 0 <= i < |stack| ==> stack[i].Linked())
  }

  /** A valid top layer has valid layers beneath it, and contains their footprints. */
  lemma {:induction false} LayersBelow(stack: seq<CoinsViewCache>, db: CoinsStore, i: nat, j: nat)
    requires Stacked(stack, db) && i <= j < |stack|
    ensures stack[i].Repr <= stack[j].Repr
    ensures stack[j].Valid() ==> stack[i].Valid()
  {
    if i < j {
      LayersBelow(stack, db, i, j - 1);
    }
  }

  /** The entries of the caches above layer `k` fit the maps `views`. */
  ghost predicate FitsAbove(stack: seq<CoinsViewCache>, k: nat, views: seq<Utxo>)
    requires k < |stack| == |views|
    reads stack
  {
    forall i :: k < i < |stack| ==>
      CacheOk(stack[i].cacheCoins, views[i - 1]) && views[i] == Overlay(stack[i].cacheCoins, views[i - 1])
  }

  /** The maps that the layers of a valid stack show, and why layer `k` can be worked on alone. */
  lemma LayerViews(stack: seq<CoinsViewCache>, db: CoinsStore, k: nat) returns (views: seq<Utxo>)
    requires Stacked(stack, db) && k < |stack| && stack[|stack| - 1].Valid()
    ensures |views| == |stack| && FitsAbove(stack, k, views)
    ensures stack[k].Valid() && views[k] == stack[k].View()
    ensures views[|stack| - 1] == stack[|stack| - 1].View()
    ensures stack[k].Repr <= stack[|stack| - 1].Repr
    ensures forall i :: k < i < |stack| ==> stack[i] !in stack[k].Repr
  {
    forall i | 0 <= i < |stack|
      ensures stack[i].Valid()
      ensures k < i ==> stack[i] !in stack[k].Repr
    {
      LayersBelow(stack, db, i, |stack| - 1);
      if k < i { LayersBelow(stack, db, k, i - 1); }
    }
    LayersBelow(stack, db, k, |stack| - 1);
    views := [];
    for i := 0 to |stack|
      invariant |views| == i && forall j :: 0 <= j < i ==> views[j] == stack[j].View()
    {
      views := views + [stack[i].View()];
    }
  }

  /**
    Steps below the top of a stack do not show at the top, as long as the layer `k` they
    worked on still stands for the same map.
  */
  lemma {:induction false} LowerStepsAreHidden(
      stack: seq<CoinsViewCache>, db: CoinsStore, k: nat, views: seq<Utxo>, i: nat)
    requires Stacked(stack, db) && k <= i < |stack| == |views| && FitsAbove(stack, k, views)
    requires stack[k].Valid() && stack[k].View() == views[k]
    ensures stack[i].Valid() && stack[i].View() == views[i]
  {
    if k < i {
      LowerStepsAreHidden(stack, db, k, views, i - 1);
    }
  }

  datatype Op =
    | Read(o: OutPoint)
    | Add(o: OutPoint, coin: Coin, overwrite: bool)
    | AddTx(tx: Transaction, height: nat, check: bool)
    | Spend(o: OutPoint)
    | Uncache(layer: nat, o: OutPoint)
    | Flush(layer: nat)
    | Push
    | Pop

  /** What a caller must respect, told in terms of the one map and the number of layers. */
  ghost predicate LegalOp(op: Op, view: Utxo, depth: nat) {
    match op
    case Add(o, coin, overwrite) => !coin.IsSpent() && (!overwrite ==> o !in view)
    case AddTx(tx, _, check) =>
      && (forall i :: 0 <= i < |tx.vout| ==> tx.vout[i].nValue != -1)
      && (!check && !tx.isCoinBase ==> forall o :: o in view && o.txid == tx.txid ==> o.n >= |tx.vout|)
    case Uncache(layer, _) => layer < depth
    case Flush(layer) => layer < depth
    case Pop => depth > 1
    case _ => true
  }

  /** The same step on one plain map. */
  ghost function ApplyOp(op: Op, view: Utxo): Utxo {
    match op
    case Add(o, coin, _) => if IsUnspendable(coin.out.scriptPubKey) then view else view[o := coin]
    case AddTx(tx, height, _) => WithOutputs(view, tx, height, |tx.vout|)
    case Spend(o) => view - {o}
    case _ => view
  }

  function DepthAfter(op: Op, depth: nat): nat {
    if op.Push? then depth + 1 else if op.Pop? && depth > 0 then depth - 1 else depth
  }

  function FinalDepth(ops: seq<Op>, depth: nat): nat {
    if ops == [] then depth else FinalDepth(ops[1..], DepthAfter(ops[0], depth))
  }

  ghost predicate LegalRun(ops: seq<Op>, view: Utxo, depth: nat) {
    ops == [] ||
    (LegalOp(ops[0], view, depth) && LegalRun(ops[1..], ApplyOp(ops[0], view), DepthAfter(ops[0], depth)))
  }

  ghost function Replay(ops: seq<Op>, view: Utxo): Utxo {
    if ops == [] then view else Replay(ops[1..], ApplyOp(ops[0], view))
  }

  function Top(stack: seq<CoinsViewCache>): CoinsViewCache
    requires |stack| > 0
  {
    stack[|stack| - 1]
  }

  /** A read-only or view-preserving step on an arbitrary layer. */
  method LayerStep(stack: seq<CoinsViewCache>, db: CoinsStore, op: Op)
    requires Stacked(stack, db) && Top(stack).Valid()
    requires (op.Uncache? || op.Flush?) && op.layer < |stack|
    modifies Top(stack).Repr
    ensures Top(stack).Valid() && Top(stack).View() == old(Top(stack).View())
    ensures var m := stack[op.layer].cacheCoins;
            if op.Flush? then m == map[] else op.o in m ==> m[op.o].isDirty || m[op.o].isFresh
  {
    var k, top := op.layer, |stack| - 1;
    ghost var views := LayerViews(stack, db, k);
    if op.Uncache? {
      stack[k].Uncache(op.o);
    } else {
      stack[k].Flush();
    }
    LowerStepsAreHidden(stack, db, k, views, top);
  }

  method Step(stack: seq<CoinsViewCache>, db: CoinsStore, op: Op) returns (after: seq<CoinsViewCache>)
    requires Stacked(stack, db) && Top(stack).Valid()
    requires LegalOp(op, Top(stack).View(), |stack|)
    modifies Top(stack).Repr
    ensures Stacked(after, db) && Top(after).Valid() && |after| == DepthAfter(op, |stack|)
    ensures Top(after).View() == ApplyOp(op, old(Top(stack).View()))
    ensures fresh(Top(after).Repr - Top(stack).Repr)
  {
    after := stack;
    var top := Top(stack);
    match op {
      case Read(o) => var _ := top.AccessCoin(o);
      case Add(o, coin, overwrite) => top.AddCoin(o, coin, overwrite);
      case AddTx(tx, height, check) => AddCoins(top, tx, height, check);
      case Spend(o) => var _, _ := top.SpendCoin(o);
      case Uncache(_, _) => LayerStep(stack, db, op);
      case Flush(_) => LayerStep(stack, db, op);
      case Push =>
        var cache := new CoinsViewCache(Cache(top));
        after := stack + [cache];
      case Pop =>
        top.Flush();
        LayersBelow(stack, db, |stack| - 2, |stack| - 1);
        after := stack[..|stack| - 1];
    }
  }

  /**
    Any legal run over a stack of caches, however deep it grows, acts on the visible coins
    exactly as on one plain map: the simulation of src/test/coins_tests.cpp:118-264.
  */
  method Simulate(db: CoinsStore, ops: seq<Op>) returns (stack: seq<CoinsViewCache>)
    requires LegalRun(ops, db.View(), 1)
    modifies db
    ensures Stacked(stack, db) && Top(stack).Valid()
    ensures Top(stack).View() == Replay(ops, old(db.View())) && |stack| == FinalDepth(ops, 1)
  {
    var bottom := new CoinsViewCache(Store(db));
    stack := [bottom];
    for k := 0 to |ops|
      invariant Stacked(stack, db) && Top(stack).Valid()
      invariant fresh(Top(stack).Repr - {db})
      invariant LegalRun(ops[k..], Top(stack).View(), |stack|)
      invariant Replay(ops[k..], Top(stack).View()) == Replay(ops, old(db.View()))
      invariant FinalDepth(ops[k..], |stack|) == FinalDepth(ops, 1)
    {
      assert ops[k..][1..] == ops[k + 1..];
      stack := Step(stack, db, ops[k]);
    }
  }
}