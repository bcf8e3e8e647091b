/**
  The tables of the address manager as values (src/addrman.h, src/addrman.cpp), the
  invariant that `CAddrMan::Check_` writes down, and the elementary updates that every
  operation of the manager is made of.

  An operation passes through states in which one or two entries are in no table; they
  are said to be in limbo, and the invariant makes allowance for them.
*/
module AddrBook {

  const NEW_BUCKET_COUNT := 1024
  const TRIED_BUCKET_COUNT := 256
  const BUCKET_SIZE := 64
  const NEW_BUCKETS_PER_ADDRESS := 8

  type NetAddr = seq<bv8>

  type Key = nat

  type NewBucket = b: nat | b < NEW_BUCKET_COUNT
  type TriedBucket = b: nat | b < TRIED_BUCKET_COUNT
  type Position = p: nat | p < BUCKET_SIZE

  datatype Service = Service(ip: NetAddr, port: nat)

  datatype Address = Address(service: Service, nTime: int, nServices: bv64)

  datatype AddrInfo = AddrInfo(
    address: Address, source: NetAddr, nLastTry: int, nLastCountAttempt: int, nLastSuccess: int,
    nAttempts: int, nRefCount: int, fInTried: bool, nRandomPos: int)
  {
    function Ip(): NetAddr { address.service.ip }
  }

  /** The keyed hash functions that spread addresses over buckets, for one asmap. */
  datatype Hashing = Hashing(
    triedBucket: (Key, Service) -> TriedBucket,
    newBucket: (Key, NetAddr, NetAddr) -> NewBucket,
    position: (Key, bool, nat, Service) -> Position)

  /** A bucket and a position in it. */
  datatype Slot = Slot(bucket: nat, pos: nat)

  type Table = map<Slot, int>

  datatype Book = Book(
    info: map<int, AddrInfo>, addr: map<NetAddr, int>, random: seq<int>,
    newTab: Table, triedTab: Table, nIdCount: int, nNew: int, nTried: int)

  datatype Params = Params(hashing: Hashing, key: Key) {
    function TriedSlot(info: AddrInfo): Slot {
      var bucket := hashing.triedBucket(key, info.address.service);
      Slot(bucket, hashing.position(key, false, bucket, info.address.service))
    }

    function NewSlot(info: AddrInfo, bucket: nat): Slot {
      Slot(bucket, hashing.position(key, true, bucket, info.address.service))
    }

    /** The slot an entry gets for one of the sources it was heard from. */
    function SlotFor(info: AddrInfo, source: NetAddr): Slot {
      NewSlot(info, hashing.newBucket(key, info.Ip(), source))
    }
  }

  // ---------- The invariant ----------

  /** `mapInfo` and `mapAddr` are inverse to each other, and no identifier is ahead of the counter. */
  ghost predicate AddrOk(b: Book) {
    && (forall id :: id in b.info ==> 0 <= id < b.nIdCount)
    && (forall id :: id in b.info ==> b.info[id].Ip() in b.addr && b.addr[b.info[id].Ip()] == id)
    && (forall a :: a in b.addr ==> b.addr[a] in b.info && b.info[b.addr[a]].Ip() == a)
  }

  /** `vRandom` lists every identifier once, at the position its entry records. */
  ghost predicate RandomOk(b: Book) {
    && (forall id :: id in b.info ==> 0 <= b.info[id].nRandomPos < |b.random| && b.random[b.info[id].nRandomPos] == id)
    && (forall i :: 0 <= i < |b.random| ==> b.random[i] in b.info && b.info[b.random[i]].nRandomPos == i)
  }

  /** Every tried entry sits in exactly one tried slot, its own. */
  ghost predicate TriedOk(b: Book, p: Params) {
    && (forall s :: s in b.triedTab ==>
          b.triedTab[s] in b.info && b.info[b.triedTab[s]].fInTried && p.TriedSlot(b.info[b.triedTab[s]]) == s)
    && (forall id :: id in b.info && b.info[id].fInTried ==>
          p.TriedSlot(b.info[id]) in b.triedTab && b.triedTab[p.TriedSlot(b.info[id])] == id)
  }

  /** A new slot holds an entry that is not tried, at the entry's own position of that bucket. */
  ghost predicate NewOk(b: Book, p: Params) {
    forall s :: s in b.newTab ==>
      && s.bucket < NEW_BUCKET_COUNT
      && b.newTab[s] in b.info && !b.info[b.newTab[s]].fInTried && p.NewSlot(b.info[b.newTab[s]], s.bucket) == s
  }

  /** The new slots that refer to an identifier. */
  function SlotsOf(tab: Table, id: int): set<Slot> {
    set s | s in tab && tab[s] == id
  }

  lemma {:induction false} SubsetSize(s: set<Slot>, t: set<Slot>)
    requires s <= t
    ensures |s| <= |t|
  {
    if s != {} {
      var x :| x in s;
      SubsetSize(s - {x}, t - {x});
    }
  }

  /** Reference counts are exact, and from 1 to 8 for new entries outside limbo. */
  ghost predicate RefsOk(b: Book, limbo: set<int>) {
    forall id :: id in b.info ==>
      && b.info[id].nRefCount == |SlotsOf(b.newTab, id)|
      && b.info[id].nRefCount <= NEW_BUCKETS_PER_ADDRESS
      && (!b.info[id].fInTried && id !in limbo ==> b.info[id].nRefCount >= 1)
  }

  function TriedIds(info: map<int, AddrInfo>): set<int> {
    set id | id in info && info[id].fInTried
  }

  function NewIds(info: map<int, AddrInfo>): set<int> {
    set id | id in info && !info[id].fInTried
  }

  /** The counters, `nNew` being `behind` by some entries that are being moved. */
  ghost predicate CountsOk(b: Book, behind: int) {
    b.nTried == |TriedIds(b.info)| && b.nNew + behind == |NewIds(b.info)|
  }

  ghost predicate EntryStatsOk(info: AddrInfo) {
    info.nLastTry >= 0 && info.nLastSuccess >= 0 && (info.fInTried ==> info.nLastSuccess > 0)
  }

  ghost predicate StatsOk(b: Book) {
    forall id :: id in b.info ==> EntryStatsOk(b.info[id])
  }

  ghost predicate InvBut(b: Book, p: Params, limbo: set<int>, behind: int) {
    && AddrOk(b) && RandomOk(b) && TriedOk(b, p) && NewOk(b, p)
    && RefsOk(b, limbo) && CountsOk(b, behind) && StatsOk(b)
  }

  /** What `Check_` checks (src/addrman.cpp:463-539). */
  ghost predicate Inv(b: Book, p: Params) {
    InvBut(b, p, {}, 0)
  }

  // ---------- What the tables can hold ----------

  function Row(n: nat, m: nat): (r: set<Slot>)
    ensures forall s :: s in r <==> s.bucket == n && s.pos < m
  {
    if m == 0 then {} else Row(n, m - 1) + {Slot(n, m - 1)}
  }

  /** The slots of the first `n` buckets. */
  function Grid(n: nat): (r: set<Slot>)
    ensures forall s :: s in r <==> s.bucket < n && s.pos < BUCKET_SIZE
  {
    if n == 0 then {} else Grid(n - 1) + Row(n - 1, BUCKET_SIZE)
  }

  lemma {:induction false} RowSize(n: nat, m: nat)
    ensures |Row(n, m)| == m
  {
    if m > 0 {
      RowSize(n, m - 1);
    }
  }

  lemma GridStep(n: nat)
    ensures Grid(0) == {} && |Grid(n + 1)| == |Grid(n)| + |Row(n, BUCKET_SIZE)|
  {
    hide Row;
    var g, r := Grid(n), Row(n, BUCKET_SIZE);
    assert g !! r;
    assert |g + r| == |g| + |r|;
  }

  lemma {:induction false} GridSize(n: nat)
    ensures |Grid(n)| == 64 * n
  {
    hide Row, Grid;
    if n == 0 {
      GridStep(0);
    } else {
      GridSize(n - 1);
      RowSize(n - 1, BUCKET_SIZE);
      GridStep(n - 1);
    }
  }

  /** Identifiers that are all in a table are not more than its slots. */
  lemma {:induction false} NoMoreThanSlots(tab: Table, slots: set<Slot>, ids: set<int>)
    requires forall id :: id in ids ==> exists s :: s in slots && s in tab && tab[s] == id
    ensures |ids| <= |slots|
  {
    if slots == {} {
      assert forall id :: id !in ids;
    } else {
      var s :| s in slots;
      var rest := if s in tab then ids - {tab[s]} else ids;
      NoMoreThanSlots(tab, slots - {s}, rest);
    }
  }

  /** A table that fits the array bounds its identifiers. */
  lemma Bounded(tab: Table, ids: set<int>, n: nat)
    requires forall s :: s in tab ==> s.bucket < n && s.pos < BUCKET_SIZE
    requires forall id :: id in ids ==> exists s :: s in tab && tab[s] == id
    ensures |ids| <= 64 * n
  {
    GridSize(n);
    NoMoreThanSlots(tab, Grid(n), ids);
  }

  /** `vRandom` has as many places as there are entries. */
  lemma RandomSize(b: Book)
    requires RandomOk(b)
    ensures |b.random| == |b.info|
  {
    RandomPrefix(b, |b.random|);
    assert (set i | 0 <= i < |b.random| :: b.random[i]) == b.info.Keys by {
      forall id | id in b.info ensures id in set i | 0 <= i < |b.random| :: b.random[i] {
        assert b.random[b.info[id].nRandomPos] == id;
      }
    }
    assert |b.info.Keys| == |b.info|;
  }

  lemma {:induction false} RandomPrefix(b: Book, k: nat)
    requires RandomOk(b) && k <= |b.random|
    ensures |set i | 0 <= i < k :: b.random[i]| == k
  {
    if k > 0 {
      RandomPrefix(b, k - 1);
      var before := set i | 0 <= i < k - 1 :: b.random[i];
      assert (set i | 0 <= i < k :: b.random[i]) == before + {b.random[k - 1]};
      forall i | 0 <= i < k - 1 ensures b.random[i] != b.random[k - 1] {
        assert b.info[b.random[i]].nRandomPos == i && b.info[b.random[k - 1]].nRandomPos == k - 1;
      }
    }
  }

  lemma TriedBound(b: Book, p: Params)
    requires TriedOk(b, p)
    ensures |TriedIds(b.info)| <= 16384
  {
    forall id | id in TriedIds(b.info) ensures exists s :: s in b.triedTab && b.triedTab[s] == id {
      assert p.TriedSlot(b.info[id]) in b.triedTab;
    }
    Bounded(b.triedTab, TriedIds(b.info), TRIED_BUCKET_COUNT);
  }

  lemma NewBound(b: Book, p: Params)
    requires NewOk(b, p) && RefsOk(b, {})
    ensures |NewIds(b.info)| <= 65536
  {
    forall id | id in NewIds(b.info) ensures exists s :: s in b.newTab && b.newTab[s] == id {
      var s :| s in SlotsOf(b.newTab, id);
    }
    Bounded(b.newTab, NewIds(b.info), NEW_BUCKET_COUNT);
  }

  lemma TriedOrNew(info: map<int, AddrInfo>)
    ensures |info| == |TriedIds(info)| + |NewIds(info)|
  {
    assert TriedIds(info) + NewIds(info) == info.Keys && TriedIds(info) !! NewIds(info);
  }

  /** No manager knows more than 16384 tried and 65536 new addresses, and none of them is in more than eight buckets. */
  lemma Capacity(b: Book, p: Params)
    requires Inv(b, p)
    ensures b.nTried <= 16384 && b.nNew <= 65536 && |b.random| <= 81920
    ensures forall id :: id in b.info ==> |SlotsOf(b.newTab, id)| <= 8
  {
    hide AddrOk, RandomOk, TriedOk, NewOk, StatsOk, TriedIds, NewIds, SlotsOf;
    TriedBound(b, p);
    NewBound(b, p);
    RandomSize(b);
    TriedOrNew(b.info);
  }

  // ---------- Entries whose place does not change ----------

  /** The two entries agree on everything that decides where an entry belongs. */
  predicate SamePlace(x: AddrInfo, y: AddrInfo) {
    x.address.service == y.address.service && x.fInTried == y.fInTried && x.nRefCount == y.nRefCount
  }

  ghost predicate SameEntries(m: map<int, AddrInfo>, m': map<int, AddrInfo>) {
    && (forall id :: id in m ==> id in m' && SamePlace(m[id], m'[id]))
    && (forall id :: id in m' ==> id in m)
  }

  /** Same entries in the same places; only statistics and random positions may differ. */
  ghost predicate Alike(b: Book, c: Book) {
    && c.addr == b.addr && c.newTab == b.newTab && c.triedTab == b.triedTab
    && c.nIdCount == b.nIdCount && c.nNew == b.nNew && c.nTried == b.nTried
    && SameEntries(b.info, c.info)
  }

  lemma AlikeIds(b: Book, c: Book)
    requires Alike(b, c)
    ensures TriedIds(c.info) == TriedIds(b.info) && NewIds(c.info) == NewIds(b.info)
  {
    SameIds(b.info, c.info);
  }

  lemma SameIds(m: map<int, AddrInfo>, m': map<int, AddrInfo>)
    requires SameEntries(m, m')
    ensures TriedIds(m') == TriedIds(m) && NewIds(m') == NewIds(m)
  {
    forall id ensures (id in TriedIds(m) <==> id in TriedIds(m')) && (id in NewIds(m) <==> id in NewIds(m')) {}
  }

  lemma AlikeKeepsAddr(b: Book, c: Book)
    requires Alike(b, c) && AddrOk(b)
    ensures AddrOk(c)
  {
    forall a | a in c.addr
      ensures c.addr[a] in c.info && c.info[c.addr[a]].Ip() == a
    {
      var id := b.addr[a];
      assert id in b.info && SamePlace(b.info[id], c.info[id]);
    }
  }

  lemma AlikeKeepsTables(b: Book, c: Book, p: Params)
    requires Alike(b, c) && TriedOk(b, p) && NewOk(b, p)
    ensures TriedOk(c, p) && NewOk(c, p)
  {
    forall s | s in c.triedTab
      ensures c.triedTab[s] in c.info && c.info[c.triedTab[s]].fInTried && p.TriedSlot(c.info[c.triedTab[s]]) == s
    {
      var id := b.triedTab[s];
      assert id in b.info && SamePlace(b.info[id], c.info[id]);
    }
    forall s | s in c.newTab
      ensures s.bucket < NEW_BUCKET_COUNT
      ensures c.newTab[s] in c.info && !c.info[c.newTab[s]].fInTried && p.NewSlot(c.info[c.newTab[s]], s.bucket) == s
    {
      var id := b.newTab[s];
      assert id in b.info && SamePlace(b.info[id], c.info[id]);
    }
  }

  lemma AlikeKeeps(b: Book, c: Book, p: Params, limbo: set<int>, behind: int)
    requires Alike(b, c)
    requires AddrOk(b) && TriedOk(b, p) && NewOk(b, p) && RefsOk(b, limbo) && CountsOk(b, behind)
    ensures AddrOk(c) && TriedOk(c, p) && NewOk(c, p) && RefsOk(c, limbo) && CountsOk(c, behind)
  {
    AlikeIds(b, c);
    AlikeKeepsAddr(b, c);
    AlikeKeepsTables(b, c, p);
    hide AddrOk, TriedOk, NewOk;
  }

  /** Replace one entry by one that belongs in the same places. */
  function Touch(b: Book, id: int, entry: AddrInfo): Book {
    b.(info := b.info[id := entry])
  }

  lemma TouchKeeps(b: Book, p: Params, limbo: set<int>, behind: int, id: int, entry: AddrInfo)
    requires InvBut(b, p, limbo, behind) && id in b.info
    requires SamePlace(b.info[id], entry) && entry.nRandomPos == b.info[id].nRandomPos && EntryStatsOk(entry)
    ensures InvBut(Touch(b, id, entry), p, limbo, behind)
  {
    hide AddrOk, TriedOk, NewOk, RefsOk, CountsOk, EntryStatsOk;
    AlikeKeeps(b, Touch(b, id, entry), p, limbo, behind);
  }

  // ---------- vRandom ----------

  function Swapped(b: Book, i: nat, j: nat): Book
    requires i < |b.random| && j < |b.random| && b.random[i] in b.info && b.random[j] in b.info
  {
    var id1, id2 := b.random[i], b.random[j];
    var info1 := b.info[id1 := b.info[id1].(nRandomPos := j)];
    if i == j then b
    else b.(info := info1[id2 := info1[id2].(nRandomPos := i)], random := b.random[i := id2][j := id1])
  }

  lemma SwapKeeps(b: Book, p: Params, limbo: set<int>, behind: int, i: nat, j: nat)
    requires InvBut(b, p, limbo, behind) && i < |b.random| && j < |b.random|
    ensures InvBut(Swapped(b, i, j), p, limbo, behind)
  {
    hide AddrOk, TriedOk, NewOk, RefsOk, CountsOk;
    AlikeKeeps(b, Swapped(b, i, j), p, limbo, behind);
  }

  // ---------- Creating and deleting ----------

  function NewEntry(address: Address, source: NetAddr, pos: int): AddrInfo {
    AddrInfo(address, source, 0, 0, 0, 0, 0, false, pos)
  }

  function Created(b: Book, address: Address, source: NetAddr): Book {
    b.(info := b.info[b.nIdCount := NewEntry(address, source, |b.random|)],
       addr := b.addr[address.service.ip := b.nIdCount],
       random := b.random + [b.nIdCount],
       nIdCount := b.nIdCount + 1)
  }

  /** The two parts of the invariant: how entries are found, and where they are placed. */
  ghost predicate Indexed(b: Book) {
    AddrOk(b) && RandomOk(b) && StatsOk(b)
  }

  ghost predicate Housed(b: Book, p: Params, limbo: set<int>, behind: int) {
    TriedOk(b, p) && NewOk(b, p) && RefsOk(b, limbo) && CountsOk(b, behind)
  }

  lemma CreateKeepsIndexed(b: Book, address: Address, source: NetAddr)
    requires Indexed(b) && address.service.ip !in b.addr && b.nIdCount >= 0
    ensures Indexed(Created(b, address, source))
  {
  }

  lemma CreateKeepsTables(b: Book, p: Params, address: Address, source: NetAddr)
    requires TriedOk(b, p) && NewOk(b, p) && b.nIdCount !in b.info
    ensures TriedOk(Created(b, address, source), p) && NewOk(Created(b, address, source), p)
  {
  }

  lemma CreateKeepsHoused(b: Book, p: Params, limbo: set<int>, behind: int, address: Address, source: NetAddr)
    requires Housed(b, p, limbo, behind) && b.nIdCount !in b.info
    ensures Housed(Created(b, address, source), p, limbo + {b.nIdCount}, behind + 1)
  {
    var c := Created(b, address, source);
    CreateKeepsTables(b, p, address, source);
    assert SlotsOf(c.newTab, b.nIdCount) == {};
    hide TriedOk, NewOk;
    assert TriedIds(c.info) == TriedIds(b.info);
    assert NewIds(c.info) == NewIds(b.info) + {b.nIdCount};
  }

  lemma CreateKeeps(b: Book, p: Params, limbo: set<int>, behind: int, address: Address, source: NetAddr)
    requires InvBut(b, p, limbo, behind) && address.service.ip !in b.addr && b.nIdCount >= 0
    ensures InvBut(Created(b, address, source), p, limbo + {b.nIdCount}, behind + 1)
  {
    CreateKeepsIndexed(b, address, source);
    assert b.nIdCount !in b.info;
    CreateKeepsHoused(b, p, limbo, behind, address, source);
  }

  /** The last entry of `vRandom`, a new one, leaves the maps. */
  function Popped(b: Book, id: int): Book
    requires |b.random| > 0 && id in b.info
  {
    b.(info := b.info - {id}, addr := b.addr - {b.info[id].Ip()}, random := b.random[..|b.random| - 1], nNew := b.nNew - 1)
  }

  function Deleted(b: Book, id: int): Book
    requires RandomOk(b) && id in b.info
  {
    Popped(Swapped(b, b.info[id].nRandomPos, |b.random| - 1), id)
  }

  lemma PopKeepsIndexed(b: Book, id: int)
    requires Indexed(b) && id in b.info && b.info[id].nRandomPos == |b.random| - 1
    ensures Indexed(Popped(b, id))
  {
  }

  lemma PopKeepsHoused(b: Book, p: Params, limbo: set<int>, behind: int, id: int)
    requires Housed(b, p, limbo, behind) && |b.random| > 0
    requires id in b.info && !b.info[id].fInTried && b.info[id].nRefCount == 0
    ensures Housed(Popped(b, id), p, limbo - {id}, behind)
  {
    var c := Popped(b, id);
    assert TriedIds(c.info) == TriedIds(b.info);
    assert NewIds(c.info) == NewIds(b.info) - {id};
    NoSlots(b, limbo, id);
  }

  /** `Delete` removes an entry that no table refers to (src/addrman.cpp:163-177). */
  lemma DeleteKeeps(b: Book, p: Params, limbo: set<int>, behind: int, id: int)
    requires InvBut(b, p, limbo, behind) && id in b.info && !b.info[id].fInTried && b.info[id].nRefCount == 0
    ensures InvBut(Deleted(b, id), p, limbo - {id}, behind)
    ensures Deleted(b, id).info.Keys == b.info.Keys - {id}
  {
    var pos, last := b.info[id].nRandomPos, |b.random| - 1;
    var c := Swapped(b, pos, last);
    SwapKeeps(b, p, limbo, behind, pos, last);
    SwapMovesLast(b, id);
    hide Swapped, AddrOk, RandomOk, TriedOk, NewOk, RefsOk, CountsOk, StatsOk;
    PopKeepsIndexed(c, id);
    PopKeepsHoused(c, p, limbo, behind, id);
  }

  lemma SwapMovesLast(b: Book, id: int)
    requires RandomOk(b) && id in b.info
    ensures var c := Swapped(b, b.info[id].nRandomPos, |b.random| - 1);
            && c.info.Keys == b.info.Keys && id in c.info && c.info[id] == b.info[id].(nRandomPos := |b.random| - 1)
            && |c.random| == |b.random| && c.nNew == b.nNew
  {
  }

  // ---------- References from the new table ----------

  lemma ReplaceKeepsIndexed(b: Book, c: Book, id: int, entry: AddrInfo)
    requires Indexed(b) && id in b.info && c.info == b.info[id := entry]
    requires c.addr == b.addr && c.random == b.random && c.nIdCount == b.nIdCount
    requires entry.Ip() == b.info[id].Ip() && entry.nRandomPos == b.info[id].nRandomPos && EntryStatsOk(entry)
    ensures Indexed(c)
  {
  }

  /** Empty a slot of the new table. */
  function RefRemoved(b: Book, s: Slot): Book
    requires s in b.newTab && b.newTab[s] in b.info
  {
    var id := b.newTab[s];
    b.(info := b.info[id := b.info[id].(nRefCount := b.info[id].nRefCount - 1)], newTab := b.newTab - {s})
  }

  /** Fill an empty slot of the new table. */
  function RefAdded(b: Book, s: Slot, id: int): Book
    requires id in b.info
  {
    b.(info := b.info[id := b.info[id].(nRefCount := b.info[id].nRefCount + 1)], newTab := b.newTab[s := id])
  }

  lemma RemoveRefSlots(tab: Table, s: Slot, id: int)
    requires s in tab
    ensures SlotsOf(tab - {s}, id) == SlotsOf(tab, id) - (if tab[s] == id then {s} else {})
    ensures |SlotsOf(tab - {s}, id)| == |SlotsOf(tab, id)| - (if tab[s] == id then 1 else 0)
  {
    assert SlotsOf(tab - {s}, id) == SlotsOf(tab, id) - (if tab[s] == id then {s} else {});
    if tab[s] == id { assert s in SlotsOf(tab, id); }
  }

  lemma AddRefSlots(tab: Table, s: Slot, id: int, other: int)
    requires s !in tab
    ensures SlotsOf(tab[s := id], other) == SlotsOf(tab, other) + (if other == id then {s} else {})
    ensures |SlotsOf(tab[s := id], other)| == |SlotsOf(tab, other)| + (if other == id then 1 else 0)
  {
    assert SlotsOf(tab[s := id], other) == SlotsOf(tab, other) + (if other == id then {s} else {});
  }

  /** Changing reference counts alone keeps the two populations. */
  lemma RecountKeepsCounts(b: Book, c: Book, id: int, n: int, behind: int)
    requires CountsOk(b, behind) && id in b.info && c.info == b.info[id := b.info[id].(nRefCount := n)]
    requires c.nNew == b.nNew && c.nTried == b.nTried
    ensures CountsOk(c, behind)
  {
    assert TriedIds(c.info) == TriedIds(b.info) && NewIds(c.info) == NewIds(b.info);
  }

  lemma RemoveRefKeepsRefs(b: Book, limbo: set<int>, s: Slot)
    requires RefsOk(b, limbo) && s in b.newTab && b.newTab[s] in b.info
    ensures RefsOk(RefRemoved(b, s), limbo + {b.newTab[s]})
  {
    forall id | id in b.info
      ensures |SlotsOf(b.newTab - {s}, id)| == |SlotsOf(b.newTab, id)| - (if b.newTab[s] == id then 1 else 0)
    {
      RemoveRefSlots(b.newTab, s, id);
    }
  }

  lemma RemoveRefKeepsTables(b: Book, p: Params, s: Slot)
    requires TriedOk(b, p) && NewOk(b, p) && s in b.newTab
    ensures TriedOk(RefRemoved(b, s), p) && NewOk(RefRemoved(b, s), p)
  {
  }

  lemma RemoveRefKeepsHoused(b: Book, p: Params, limbo: set<int>, behind: int, s: Slot)
    requires Housed(b, p, limbo, behind) && s in b.newTab
    ensures Housed(RefRemoved(b, s), p, limbo + {b.newTab[s]}, behind)
  {
    var id := b.newTab[s];
    RemoveRefKeepsTables(b, p, s);
    RemoveRefKeepsRefs(b, limbo, s);
    RecountKeepsCounts(b, RefRemoved(b, s), id, b.info[id].nRefCount - 1, behind);
  }

  /** Emptying a slot lowers one reference count and puts that entry in limbo. */
  lemma RemoveRefKeeps(b: Book, p: Params, limbo: set<int>, behind: int, s: Slot)
    requires InvBut(b, p, limbo, behind) && s in b.newTab
    ensures InvBut(RefRemoved(b, s), p, limbo + {b.newTab[s]}, behind)
    ensures b.info[b.newTab[s]].nRefCount >= 1
  {
    var id := b.newTab[s];
    assert s in SlotsOf(b.newTab, id);
    ReplaceKeepsIndexed(b, RefRemoved(b, s), id, b.info[id].(nRefCount := b.info[id].nRefCount - 1));
    RemoveRefKeepsHoused(b, p, limbo, behind, s);
  }

  lemma AddRefKeepsRefs(b: Book, limbo: set<int>, s: Slot, id: int)
    requires RefsOk(b, limbo) && s !in b.newTab && id in b.info && b.info[id].nRefCount < NEW_BUCKETS_PER_ADDRESS
    ensures RefsOk(RefAdded(b, s, id), limbo - {id})
  {
    forall other | other in b.info
      ensures |SlotsOf(b.newTab[s := id], other)| == |SlotsOf(b.newTab, other)| + (if other == id then 1 else 0)
    {
      AddRefSlots(b.newTab, s, id, other);
    }
  }

  lemma AddRefKeepsTables(b: Book, p: Params, s: Slot, id: int)
    requires TriedOk(b, p) && NewOk(b, p) && s !in b.newTab && s.bucket < NEW_BUCKET_COUNT
    requires id in b.info && !b.info[id].fInTried && p.NewSlot(b.info[id], s.bucket) == s
    ensures TriedOk(RefAdded(b, s, id), p) && NewOk(RefAdded(b, s, id), p)
  {
  }

  lemma AddRefKeepsHoused(b: Book, p: Params, limbo: set<int>, behind: int, s: Slot, id: int)
    requires Housed(b, p, limbo, behind) && s !in b.newTab && s.bucket < NEW_BUCKET_COUNT
    requires id in b.info && !b.info[id].fInTried && p.NewSlot(b.info[id], s.bucket) == s
    requires b.info[id].nRefCount < NEW_BUCKETS_PER_ADDRESS
    ensures Housed(RefAdded(b, s, id), p, limbo - {id}, behind)
  {
    AddRefKeepsTables(b, p, s, id);
    AddRefKeepsRefs(b, limbo, s, id);
    RecountKeepsCounts(b, RefAdded(b, s, id), id, b.info[id].nRefCount + 1, behind);
  }

  /** Filling a slot of its own takes an entry out of limbo. */
  lemma AddRefKeeps(b: Book, p: Params, limbo: set<int>, behind: int, s: Slot, id: int)
    requires InvBut(b, p, limbo, behind) && s !in b.newTab && s.bucket < NEW_BUCKET_COUNT
    requires id in b.info && !b.info[id].fInTried && p.NewSlot(b.info[id], s.bucket) == s
    requires b.info[id].nRefCount < NEW_BUCKETS_PER_ADDRESS
    ensures InvBut(RefAdded(b, s, id), p, limbo - {id}, behind)
  {
    ReplaceKeepsIndexed(b, RefAdded(b, s, id), id, b.info[id].(nRefCount := b.info[id].nRefCount + 1));
    AddRefKeepsHoused(b, p, limbo, behind, s, id);
  }

  // ---------- In and out of the tried table ----------

  /** Take an entry out of the tried table; it is then in no table and not counted. */
  function Evicted(b: Book, s: Slot): Book
    requires s in b.triedTab && b.triedTab[s] in b.info
  {
    var id := b.triedTab[s];
    b.(info := b.info[id := b.info[id].(fInTried := false)], triedTab := b.triedTab - {s}, nTried := b.nTried - 1)
  }

  function Entered(b: Book, p: Params, id: int): Book
    requires id in b.info
  {
    b.(info := b.info[id := b.info[id].(fInTried := true)],
       triedTab := b.triedTab[p.TriedSlot(b.info[id]) := id], nTried := b.nTried + 1)
  }

  /** Moving one entry between the populations. */
  lemma PopulationsMove(m: map<int, AddrInfo>, id: int, tried: bool)
    requires id in m && m[id].fInTried != tried
    ensures var m' := m[id := m[id].(fInTried := tried)];
            var step := if tried then 1 else -1;
            |TriedIds(m')| == |TriedIds(m)| + step && |NewIds(m')| == |NewIds(m)| - step
  {
    var m' := m[id := m[id].(fInTried := tried)];
    var more, less := if tried then m' else m, if tried then m else m';
    assert TriedIds(more) == TriedIds(less) + {id};
    OneMore(TriedIds(less), TriedIds(more), id);
    assert NewIds(less) == NewIds(more) + {id};
    OneMore(NewIds(more), NewIds(less), id);
  }

  lemma OneMore(few: set<int>, many: set<int>, id: int)
    requires id !in few && many == few + {id}
    ensures |many| == |few| + 1
  {
  }

  lemma EvictKeepsTables(b: Book, p: Params, s: Slot)
    requires TriedOk(b, p) && NewOk(b, p) && s in b.triedTab
    ensures TriedOk(Evicted(b, s), p) && NewOk(Evicted(b, s), p)
  {
  }

  lemma EvictKeepsHoused(b: Book, p: Params, limbo: set<int>, behind: int, s: Slot)
    requires Housed(b, p, limbo, behind) && s in b.triedTab
    ensures Housed(Evicted(b, s), p, limbo + {b.triedTab[s]}, behind + 1)
  {
    EvictKeepsTables(b, p, s);
    PopulationsMove(b.info, b.triedTab[s], false);
    hide NewOk, TriedIds, NewIds;
  }

  lemma EvictKeeps(b: Book, p: Params, limbo: set<int>, behind: int, s: Slot)
    requires InvBut(b, p, limbo, behind) && s in b.triedTab
    ensures InvBut(Evicted(b, s), p, limbo + {b.triedTab[s]}, behind + 1)
    ensures b.info[b.triedTab[s]].nRefCount == 0
  {
    var id := b.triedTab[s];
    ReplaceKeepsIndexed(b, Evicted(b, s), id, b.info[id].(fInTried := false));
    EvictKeepsHoused(b, p, limbo, behind, s);
    assert SlotsOf(b.newTab, id) == {};
  }

  lemma NoSlots(b: Book, limbo: set<int>, id: int)
    requires RefsOk(b, limbo) && id in b.info && b.info[id].nRefCount == 0
    ensures forall s :: s in b.newTab ==> b.newTab[s] != id
  {
    forall s | s in b.newTab ensures b.newTab[s] != id {
      assert s !in SlotsOf(b.newTab, id);
    }
  }

  lemma EnterKeepsTables(b: Book, p: Params, id: int)
    requires TriedOk(b, p) && NewOk(b, p) && id in b.info && !b.info[id].fInTried
    requires p.TriedSlot(b.info[id]) !in b.triedTab && forall s :: s in b.newTab ==> b.newTab[s] != id
    ensures TriedOk(Entered(b, p, id), p) && NewOk(Entered(b, p, id), p)
  {
  }

  lemma EnterKeepsHoused(b: Book, p: Params, limbo: set<int>, behind: int, id: int)
    requires Housed(b, p, limbo, behind)
    requires id in b.info && !b.info[id].fInTried && b.info[id].nRefCount == 0
    requires p.TriedSlot(b.info[id]) !in b.triedTab
    ensures Housed(Entered(b, p, id), p, limbo - {id}, behind - 1)
  {
    NoSlots(b, limbo, id);
    EnterKeepsTables(b, p, id);
    PopulationsMove(b.info, id, true);
    hide TriedOk, NewOk, TriedIds, NewIds;
  }

  /** An entry without references may enter its own tried slot when that is empty. */
  lemma EnterKeeps(b: Book, p: Params, limbo: set<int>, behind: int, id: int)
    requires InvBut(b, p, limbo, behind)
    requires id in b.info && !b.info[id].fInTried && b.info[id].nRefCount == 0 && b.info[id].nLastSuccess > 0
    requires p.TriedSlot(b.info[id]) !in b.triedTab
    ensures InvBut(Entered(b, p, id), p, limbo - {id}, behind - 1)
  {
    ReplaceKeepsIndexed(b, Entered(b, p, id), id, b.info[id].(fInTried := true));
    EnterKeepsHoused(b, p, limbo, behind, id);
  }

  // ---------- Clearing a slot of the new table ----------

  /** `ClearNew`: an entry that loses its last reference is deleted (src/addrman.cpp:179-194). */
  function Cleared(b: Book, s: Slot): Book
    requires RandomOk(b) && (s in b.newTab ==> b.newTab[s] in b.info)
  {
    if s !in b.newTab then b
    else
      var id := b.newTab[s];
      var c := RefRemoved(b, s);
      if c.info[id].nRefCount == 0 then
        assert RandomOk(c);
        Deleted(c, id)
      else c
  }

  /** Entries that survive keep their address and, unless they are `but`, their place. */
  ghost predicate Survive(b: Book, c: Book, but: set<int>) {
    forall id :: id in c.info ==>
      && id in b.info
      && c.info[id] == b.info[id].(nRandomPos := c.info[id].nRandomPos, nRefCount := c.info[id].nRefCount, fInTried := c.info[id].fInTried)
      && (id !in but ==> SamePlace(b.info[id], c.info[id]))
  }

  lemma DeleteEffect(b: Book, id: int)
    requires RandomOk(b) && id in b.info
    ensures var c := Deleted(b, id);
            && c.info.Keys == b.info.Keys - {id} && Survive(b, c, {})
            && c.newTab == b.newTab && c.triedTab == b.triedTab
            && c.nIdCount == b.nIdCount && c.nTried == b.nTried && c.nNew == b.nNew - 1
  {
    SwapMovesLast(b, id);
  }

  lemma ClearKeeps(b: Book, p: Params, limbo: set<int>, behind: int, s: Slot)
    requires InvBut(b, p, limbo, behind) && (s in b.newTab ==> b.newTab[s] !in limbo)
    ensures InvBut(Cleared(b, s), p, limbo, behind)
  {
    if s in b.newTab {
      var id := b.newTab[s];
      var c := RefRemoved(b, s);
      RemoveRefKeeps(b, p, limbo, behind, s);
      if c.info[id].nRefCount == 0 {
        DeleteKeeps(c, p, limbo + {id}, behind, id);
        assert limbo + {id} - {id} == limbo;
      } else {
        assert RefsOk(c, limbo);
      }
    }
  }

  /** Clearing a slot empties it and nothing else; at most its occupant disappears. */
  lemma ClearEffect(b: Book, s: Slot)
    requires RandomOk(b) && (s in b.newTab ==> b.newTab[s] in b.info)
    ensures var c := Cleared(b, s);
            && c.newTab == b.newTab - {s} && c.triedTab == b.triedTab
            && c.nIdCount == b.nIdCount && c.nTried == b.nTried
            && c.info.Keys == b.info.Keys - Gone(b, s)
            && Survive(b, c, if s in b.newTab then {b.newTab[s]} else {})
            && (s in b.newTab && b.newTab[s] in c.info ==>
                  var x, y := b.info[b.newTab[s]], c.info[b.newTab[s]]; y.nRefCount == x.nRefCount - 1 && y.fInTried == x.fInTried)
  {
    if s in b.newTab {
      var id := b.newTab[s];
      var c := RefRemoved(b, s);
      if c.info[id].nRefCount == 0 {
        assert RandomOk(c);
        DeleteEffect(c, id);
        hide Deleted, RandomOk;
        assert b.info.Keys == c.info.Keys;
      }
    }
  }

  /** The entry that clearing a slot deletes, if any. */
  function Gone(b: Book, s: Slot): set<int>
    requires s in b.newTab ==> b.newTab[s] in b.info
  {
    if s in b.newTab && b.info[b.newTab[s]].nRefCount == 1 then {b.newTab[s]} else {}
  }

  // ---------- Moving an entry to the tried table ----------

  /** All references to an entry removed from the new table. */
  function Withdrawn(b: Book, id: int): Book
    requires id in b.info
  {
    b.(info := b.info[id := b.info[id].(nRefCount := 0)], newTab := b.newTab - SlotsOf(b.newTab, id), nNew := b.nNew - 1)
  }

  lemma WithdrawKeeps(b: Book, p: Params, id: int)
    requires Inv(b, p) && id in b.info && !b.info[id].fInTried
    ensures InvBut(Withdrawn(b, id), p, {id}, 1)
  {
    var c := Withdrawn(b, id);
    ReplaceKeepsIndexed(b, c, id, b.info[id].(nRefCount := 0));
    WithdrawKeepsTables(b, p, id);
    WithdrawKeepsRefs(b, id);
    assert TriedIds(c.info) == TriedIds(b.info) && NewIds(c.info) == NewIds(b.info);
  }

  lemma WithdrawKeepsTables(b: Book, p: Params, id: int)
    requires TriedOk(b, p) && NewOk(b, p) && id in b.info && !b.info[id].fInTried
    ensures TriedOk(Withdrawn(b, id), p) && NewOk(Withdrawn(b, id), p)
  {
  }

  lemma WithdrawKeepsRefs(b: Book, id: int)
    requires RefsOk(b, {}) && id in b.info
    ensures RefsOk(Withdrawn(b, id), {id})
  {
    var c := Withdrawn(b, id);
    forall other | other in b.info
      ensures SlotsOf(c.newTab, other) == if other == id then {} else SlotsOf(b.newTab, other)
    {
      assert SlotsOf(c.newTab, other) == if other == id then {} else SlotsOf(b.newTab, other);
    }
  }

  /** The slot of the new table for the source an entry was first heard from. */
  function Home(b: Book, p: Params, id: int): Slot
    requires id in b.info
  {
    p.SlotFor(b.info[id], b.info[id].source)
  }

  /** An evicted tried entry goes back to the new table, into its home slot. */
  ghost function Demoted(b: Book, p: Params, x: int, s: Slot): Book
    requires InvBut(b, p, {x}, 1) && x in b.info && b.info[x].nRefCount == 0 && s in b.triedTab && b.triedTab[s] != x
  {
    var id := b.triedTab[s];
    var c := Cleared(Evicted(b, s), Home(b, p, id));
    DemoteStep(b, p, x, s);
    RefAdded(c, Home(b, p, id), id).(nNew := c.nNew + 1)
  }

  /** After eviction and clearing of the home slot, the evicted entry is there to be referenced again. */
  lemma DemoteStep(b: Book, p: Params, x: int, s: Slot)
    requires InvBut(b, p, {x}, 1) && x in b.info && b.info[x].nRefCount == 0 && s in b.triedTab && b.triedTab[s] != x
    ensures b.triedTab[s] in b.info && RandomOk(Evicted(b, s)) && NewOk(Evicted(b, s), p)
    ensures var id := b.triedTab[s];
            var c := Cleared(Evicted(b, s), Home(b, p, id));
            && InvBut(c, p, {x, id}, 2)
            && id in c.info && c.info[id].nRefCount == 0 && !c.info[id].fInTried
            && c.info[id].address == b.info[id].address
            && x in c.info && SamePlace(c.info[x], b.info[x]) && c.info[x].nLastSuccess == b.info[x].nLastSuccess
            && c.newTab == b.newTab - {Home(b, p, id)} && c.triedTab == b.triedTab - {s} && c.nIdCount == b.nIdCount
  {
    var id := b.triedTab[s];
    var e := Evicted(b, s);
    var home := Home(b, p, id);
    EvictKeeps(b, p, {x}, 1, s);
    assert {x} + {id} == {x, id};
    assert e.info[id].nRefCount == 0 && id !in {x};
    NoSlots(e, {x, id}, x);
    NoSlots(e, {x, id}, id);
    ClearKeeps(e, p, {x, id}, 2, home);
    ClearEffect(e, home);
  }

  lemma DemoteEffect(b: Book, p: Params, x: int, s: Slot)
    requires InvBut(b, p, {x}, 1) && x in b.info && b.info[x].nRefCount == 0 && s in b.triedTab && b.triedTab[s] != x
    ensures var id, d := b.triedTab[s], Demoted(b, p, x, s);
            && x in d.info && SamePlace(d.info[x], b.info[x]) && d.info[x].nLastSuccess == b.info[x].nLastSuccess
            && d.newTab == b.newTab[Home(b, p, id) := id] && d.triedTab == b.triedTab - {s} && d.nIdCount == b.nIdCount
  {
    hide AddrOk, RandomOk, TriedOk, NewOk, RefsOk, CountsOk, StatsOk, Cleared, Evicted;
    DemoteStep(b, p, x, s);
  }

  lemma DemoteKeeps(b: Book, p: Params, x: int, s: Slot)
    requires InvBut(b, p, {x}, 1) && x in b.info && b.info[x].nRefCount == 0 && s in b.triedTab && b.triedTab[s] != x
    ensures InvBut(Demoted(b, p, x, s), p, {x}, 1)
  {
    hide AddrOk, RandomOk, TriedOk, NewOk, RefsOk, CountsOk, StatsOk, Cleared, Evicted;
    DemoteStep(b, p, x, s);
    var id, home := b.triedTab[s], Home(b, p, b.triedTab[s]);
    var c := Cleared(Evicted(b, s), home);
    assert p.NewSlot(c.info[id], home.bucket) == home;
    AddRefKeeps(c, p, {x, id}, 2, home, id);
    assert {x, id} - {id} == {x};
    RecountNew(RefAdded(c, home, id), p, {x}, 2);
  }

  lemma RecountNew(b: Book, p: Params, limbo: set<int>, behind: int)
    requires InvBut(b, p, limbo, behind)
    ensures InvBut(b.(nNew := b.nNew + 1), p, limbo, behind - 1)
  {
  }

  /** The book just before an entry enters the tried table: its slot there is free. */
  ghost function MadeRoom(b: Book, p: Params, id: int): Book
    requires Inv(b, p) && id in b.info && !b.info[id].fInTried
  {
    var w, s := Withdrawn(b, id), p.TriedSlot(b.info[id]);
    WithdrawKeeps(b, p, id);
    if s in w.triedTab then Demoted(w, p, id, s) else w
  }

  /** Making room frees the tried slot; what was there goes back to its home slot. */
  lemma MakeRoomEffect(b: Book, p: Params, id: int)
    requires Inv(b, p) && id in b.info && !b.info[id].fInTried
    ensures var s, d := p.TriedSlot(b.info[id]), MadeRoom(b, p, id);
            && d.triedTab == b.triedTab - {s}
            && d.newTab == (if s in b.triedTab
                            then (b.newTab - SlotsOf(b.newTab, id))[Home(b, p, b.triedTab[s]) := b.triedTab[s]]
                            else b.newTab - SlotsOf(b.newTab, id))
            && d.nIdCount == b.nIdCount
            && id in d.info && SamePlace(d.info[id], b.info[id].(nRefCount := 0))
            && d.info[id].nLastSuccess == b.info[id].nLastSuccess
  {
    var w, s := Withdrawn(b, id), p.TriedSlot(b.info[id]);
    WithdrawKeeps(b, p, id);
    assert s in w.triedTab ==> w.triedTab[s] != id && Home(w, p, w.triedTab[s]) == Home(b, p, b.triedTab[s]);
    hide AddrOk, RandomOk, TriedOk, NewOk, RefsOk, CountsOk, StatsOk, Demoted, SlotsOf;
    if s in w.triedTab {
      DemoteEffect(w, p, id, s);
    }
  }

  lemma MakeRoomKeeps(b: Book, p: Params, id: int)
    requires Inv(b, p) && id in b.info && !b.info[id].fInTried
    ensures InvBut(MadeRoom(b, p, id), p, {id}, 1)
  {
    var w, s := Withdrawn(b, id), p.TriedSlot(b.info[id]);
    WithdrawKeeps(b, p, id);
    if s in w.triedTab {
      DemoteKeeps(w, p, id, s);
    }
  }

  /** `MakeTried` (src/addrman.cpp:196-244). */
  ghost function MadeTried(b: Book, p: Params, id: int): Book
    requires Inv(b, p) && id in b.info && !b.info[id].fInTried
  {
    MakeRoomEffect(b, p, id);
    Entered(MadeRoom(b, p, id), p, id)
  }

  /**
    The entry ends up in its tried slot and nowhere else; the entry that was there, if any, is
    back in the new table at its home slot; no other tried slot changes.
  */
  lemma MakeTriedEffect(b: Book, p: Params, id: int)
    requires Inv(b, p) && id in b.info && !b.info[id].fInTried
    ensures var s, c := p.TriedSlot(b.info[id]), MadeTried(b, p, id);
            && c.triedTab == b.triedTab[s := id]
            && c.newTab == (if s in b.triedTab
                            then (b.newTab - SlotsOf(b.newTab, id))[Home(b, p, b.triedTab[s]) := b.triedTab[s]]
                            else b.newTab - SlotsOf(b.newTab, id))
            && c.nIdCount == b.nIdCount
  {
    hide AddrOk, RandomOk, TriedOk, NewOk, RefsOk, CountsOk, StatsOk, MadeRoom, SlotsOf;
    MakeRoomEffect(b, p, id);
  }

  lemma MakeTriedKeeps(b: Book, p: Params, id: int)
    requires Inv(b, p) && id in b.info && !b.info[id].fInTried && b.info[id].nLastSuccess > 0
    ensures Inv(MadeTried(b, p, id), p)
  {
    hide AddrOk, RandomOk, TriedOk, NewOk, RefsOk, CountsOk, StatsOk, MadeRoom, SlotsOf;
    MakeRoomEffect(b, p, id);
    MakeRoomKeeps(b, p, id);
    EnterKeeps(MadeRoom(b, p, id), p, {id}, 1, id);
    assert {id} - {id} == {};
  }

  // ---------- Who is who ----------

  /** No entry changes its address; identifiers that are not in `b` are newer than it. */
  ghost predicate SameServices(b: Book, c: Book) {
    && b.nIdCount <= c.nIdCount
    && forall id :: id in c.info ==>
         id >= b.nIdCount || (id in b.info && c.info[id].address.service == b.info[id].address.service)
  }

  lemma EvictServices(b: Book, p: Params, s: Slot)
    requires TriedOk(b, p) && s in b.triedTab
    ensures SameServices(b, Evicted(b, s))
  {
  }

  lemma ClearServices(b: Book, p: Params, s: Slot)
    requires RandomOk(b) && NewOk(b, p)
    ensures SameServices(b, Cleared(b, s))
  {
    ClearEffect(b, s);
  }

  lemma DemoteServices(b: Book, p: Params, x: int, s: Slot)
    requires InvBut(b, p, {x}, 1) && x in b.info && b.info[x].nRefCount == 0 && s in b.triedTab && b.triedTab[s] != x
    ensures SameServices(b, Demoted(b, p, x, s))
  {
    hide AddrOk, RandomOk, TriedOk, NewOk, RefsOk, CountsOk, StatsOk, Cleared, Evicted, SlotsOf;
    DemoteStep(b, p, x, s);
    EvictServices(b, p, s);
    ClearServices(Evicted(b, s), p, Home(b, p, b.triedTab[s]));
  }

  lemma MakeTriedServices(b: Book, p: Params, id: int)
    requires Inv(b, p) && id in b.info && !b.info[id].fInTried
    ensures SameServices(b, MadeTried(b, p, id))
  {
    var w, s := Withdrawn(b, id), p.TriedSlot(b.info[id]);
    WithdrawKeeps(b, p, id);
    MakeRoomEffect(b, p, id);
    assert SameServices(b, w);
    if s in w.triedTab {
      assert w.triedTab[s] != id;
      DemoteServices(w, p, id, s);
    }
    hide AddrOk, RandomOk, TriedOk, NewOk, RefsOk, CountsOk, StatsOk, Demoted, SlotsOf;
    assert SameServices(b, MadeRoom(b, p, id));
  }

  // ---------- Collisions waiting to be resolved ----------

  const SET_TRIED_COLLISION_SIZE := 10

  /** An entry that waits for a tried slot waits because that slot is taken. */
  ghost predicate CollisionsOk(b: Book, p: Params, collisions: set<int>) {
    && |collisions| <= 10
    && forall id :: id in collisions ==> id < b.nIdCount && (id in b.info ==> p.TriedSlot(b.info[id]) in b.triedTab)
  }

  /** An occupied tried slot stays occupied, so waiting entries go on waiting for something. */
  lemma CollisionsKept(b: Book, c: Book, p: Params, collisions: set<int>)
    requires CollisionsOk(b, p, collisions) && SameServices(b, c) && b.triedTab.Keys <= c.triedTab.Keys
    ensures CollisionsOk(c, p, collisions)
  {
  }

  // ---------- Adding a reference for a source ----------

  /** Whether the slot can be used: it is free, its occupant is terrible, or has references to spare. */
  predicate Available(b: Book, s: Slot, id: int, terrible: bool)
    requires id in b.info && (s in b.newTab ==> b.newTab[s] in b.info)
  {
    s !in b.newTab || terrible || (b.info[b.newTab[s]].nRefCount > 1 && b.info[id].nRefCount == 0)
  }

  /** The end of `Add_` (src/addrman.cpp:365-385), for the slot that belongs to the given source. */
  function Referred(b: Book, p: Params, id: int, source: NetAddr, terrible: bool): Book
    requires RandomOk(b) && NewOk(b, p) && id in b.info
  {
    var s := p.SlotFor(b.info[id], source);
    if s in b.newTab && b.newTab[s] == id then b
    else if Available(b, s, id, terrible) then
      ClearEffect(b, s);
      RefAdded(Cleared(b, s), s, id)
    else if b.info[id].nRefCount == 0 then Deleted(b, id)
    else b
  }

  lemma LimboShrinks(b: Book, p: Params, id: int, behind: int)
    requires InvBut(b, p, {id}, behind) && (id in b.info ==> b.info[id].nRefCount >= 1)
    ensures InvBut(b, p, {}, behind)
  {
  }

  /** Whatever becomes of the reference, the entry is not left in limbo. */
  lemma ReferKeeps(b: Book, p: Params, id: int, source: NetAddr, terrible: bool)
    requires InvBut(b, p, {id}, 0) && id in b.info && !b.info[id].fInTried
    requires b.info[id].nRefCount < NEW_BUCKETS_PER_ADDRESS
    ensures Inv(Referred(b, p, id, source, terrible), p)
  {
    var s := p.SlotFor(b.info[id], source);
    if s in b.newTab && b.newTab[s] == id {
      assert s in SlotsOf(b.newTab, id);
      LimboShrinks(b, p, id, 0);
    } else if Available(b, s, id, terrible) {
      var c := Cleared(b, s);
      ClearKeeps(b, p, {id}, 0, s);
      ClearEffect(b, s);
      assert SamePlace(b.info[id], c.info[id]);
      hide AddrOk, RandomOk, TriedOk, NewOk, RefsOk, CountsOk, StatsOk, Cleared;
      AddRefKeeps(c, p, {id}, 0, s, id);
      assert {id} - {id} == {};
    } else if b.info[id].nRefCount == 0 {
      DeleteKeeps(b, p, {id}, 0, id);
      assert {id} - {id} == {};
    } else {
      LimboShrinks(b, p, id, 0);
    }
  }

  /** Entries other than `id` stay as they are, but for the one that has to leave its slot, if any. */
  ghost predicate OthersKept(b: Book, c: Book, id: int, displaced: set<int>) {
    forall x :: x in b.info && x != id ==>
      if x in displaced && b.info[x].nRefCount == 1 then x !in c.info
      else
        && x in c.info
        && c.info[x] == b.info[x].(nRandomPos := c.info[x].nRandomPos, nRefCount := b.info[x].nRefCount - if x in displaced then 1 else 0)
  }

  /** The entry that makes room for a reference to `id`. */
  function Displaced(b: Book, id: int, s: Slot, taken: bool): set<int> {
    if taken && s in b.newTab && b.newTab[s] != id then {b.newTab[s]} else {}
  }

  /** The only new slot it touches is that of the source; the entry stays known iff it has a reference. */
  lemma ReferEffect(b: Book, p: Params, id: int, source: NetAddr, terrible: bool)
    requires RandomOk(b) && NewOk(b, p) && id in b.info
    ensures var s, c := p.SlotFor(b.info[id], source), Referred(b, p, id, source, terrible);
            var placed := (s in b.newTab && b.newTab[s] == id) || Available(b, s, id, terrible);
            && c.triedTab == b.triedTab && c.nIdCount == b.nIdCount && SameServices(b, c)
            && c.newTab == (if placed then b.newTab[s := id] else b.newTab)
            && (id in c.info <==> placed || b.info[id].nRefCount != 0)
            && (id in c.info ==>
                  c.info[id] == b.info[id].(nRandomPos := c.info[id].nRandomPos,
                                            nRefCount := b.info[id].nRefCount + |SlotsOf(c.newTab, id)| - |SlotsOf(b.newTab, id)|))
            && OthersKept(b, c, id, Displaced(b, id, s, placed))
  {
    var s, c := p.SlotFor(b.info[id], source), Referred(b, p, id, source, terrible);
    if s in b.newTab && b.newTab[s] == id {
      assert b.newTab[s := id] == b.newTab;
    } else if Available(b, s, id, terrible) {
      TakeEffect(b, s, id);
      assert (b.newTab - {s})[s := id] == b.newTab[s := id];
      NewRef(b.newTab, s, id);
    } else if b.info[id].nRefCount == 0 {
      DeleteEffect(b, id);
    }
  }

  lemma NewRef(tab: Table, s: Slot, id: int)
    requires s !in tab || tab[s] != id
    ensures |SlotsOf(tab[s := id], id)| == |SlotsOf(tab, id)| + 1
  {
    assert SlotsOf(tab[s := id], id) == SlotsOf(tab, id) + {s};
  }

  lemma TakeEffect(b: Book, s: Slot, id: int)
    requires RandomOk(b) && id in b.info && (s in b.newTab ==> b.newTab[s] in b.info && b.newTab[s] != id)
    ensures id in Cleared(b, s).info
    ensures var c := RefAdded(Cleared(b, s), s, id);
            && c.triedTab == b.triedTab && c.nIdCount == b.nIdCount && SameServices(b, c) && c.newTab == (b.newTab - {s})[s := id]
            && c.info[id] == b.info[id].(nRandomPos := c.info[id].nRandomPos, nRefCount := b.info[id].nRefCount + 1)
            && OthersKept(b, c, id, Displaced(b, id, s, true))
  {
    hide RandomOk, Cleared;
    ClearEffect(b, s);
    var d := Cleared(b, s);
    assert id in d.info.Keys && SamePlace(b.info[id], d.info[id]);
    forall x | x in b.info && x != id && x !in Gone(b, s)
      ensures x in d.info && d.info[x] == b.info[x].(nRandomPos := d.info[x].nRandomPos,
                nRefCount := b.info[x].nRefCount - if x in Displaced(b, id, s, true) then 1 else 0)
    {
      assert x in d.info.Keys;
    }
  }
}
