/**
  The file of known peers (src/addrman.h:233-462): what the address manager writes of its
  tables, and the tables it builds from what it reads, as values.
*/
module AddrFile {

  import opened AddrBook
  import opened AddrShelf

  /** What is written of an entry. */
  datatype Stored = Stored(address: Address, source: NetAddr, nLastSuccess: int, nAttempts: int)
  {
    function Ip(): NetAddr { address.service.ip }
  }

  /** The file: the key, the entries of both tables, for each bucket the entries in it, and the asmap's checksum. */
  datatype Peers = Peers(key: Key, newEntries: seq<Stored>, triedEntries: seq<Stored>, buckets: seq<seq<int>>, checksum: nat)
  {
    function All(): seq<Stored> { newEntries + triedEntries }
  }

  function Recorded(info: AddrInfo): Stored {
    Stored(info.address, info.source, info.nLastSuccess, info.nAttempts)
  }

  function Restored(s: Stored, pos: int): AddrInfo {
    AddrInfo(s.address, s.source, 0, 0, s.nLastSuccess, s.nAttempts, 0, false, pos)
  }

  /** Reading an entry back gives what was written, in no table and with no try noted. */
  lemma RestoredRecorded(info: AddrInfo, s: Stored, pos: int)
    ensures Recorded(Restored(s, pos)) == s
    ensures Restored(Recorded(info), pos) ==
            info.(nLastTry := 0, nLastCountAttempt := 0, nRefCount := 0, fInTried := false, nRandomPos := pos)
    ensures Restored(s, pos).Ip() == s.Ip()
  {
  }

  // ---------- Reading entries ----------

  const BLANK := Book(map[], map[], [], map[], map[], 0, 0, 0)

  /** One more entry, in no table yet. */
  function Listed(b: Book, s: Stored): Book {
    b.(info := b.info[b.nIdCount := Restored(s, |b.random|)], addr := b.addr[s.Ip() := b.nIdCount],
       random := b.random + [b.nIdCount], nIdCount := b.nIdCount + 1)
  }

  lemma ListKeeps(b: Book, p: Params, limbo: set<int>, behind: int, s: Stored)
    requires Shelved(b, p, limbo, behind) && b.nIdCount >= 0
    ensures Shelved(Listed(b, s), p, limbo + {b.nIdCount}, behind + 1)
  {
    hide RandomOk, TriedOk, NewOk, RefsOk, CountsOk;
    var c, id := Created(b, s.address, s.source), b.nIdCount;
    CreateKeepsHoused(b, p, limbo, behind, s.address, s.source);
    AlikeKeepsHoused(c, Listed(b, s), p, limbo + {id}, behind + 1);
    ListNumbered(b, s);
  }

  lemma ListNumbered(b: Book, s: Stored)
    requires Numbered(b) && b.nIdCount >= 0
    ensures Numbered(Listed(b, s))
  {
  }

  /** The first `n` entries of the new table. */
  function NewListed(f: Peers, n: nat): (b: Book)
    requires n <= |f.newEntries|
    ensures b.nIdCount == n && b.nTried == 0
  {
    if n == 0 then BLANK else Listed(NewListed(f, n - 1), f.newEntries[n - 1])
  }

  /** An entry goes to its tried slot, or is lost where that is taken. */
  function TriedRead(b: Book, p: Params, s: Stored): Book {
    if p.TriedSlot(Restored(s, 0)) in b.triedTab then b else Entered(Listed(b, s), p, b.nIdCount)
  }

  /** All entries of the new table and the first `n` of the tried table. */
  function TriedListed(f: Peers, p: Params, n: nat): Book
    requires n <= |f.triedEntries|
  {
    if n == 0 then NewListed(f, |f.newEntries|).(nNew := |f.newEntries|)
    else TriedRead(TriedListed(f, p, n - 1), p, f.triedEntries[n - 1])
  }

  /** The tried slot of a tried entry of the file. */
  function Home(f: Peers, p: Params, n: nat): Slot
    requires n < |f.triedEntries|
  {
    p.TriedSlot(Restored(f.triedEntries[n], 0))
  }

  /** No earlier tried entry has the same slot, so that the entry is not lost. */
  ghost predicate Kept(f: Peers, p: Params, n: nat)
    requires n < |f.triedEntries|
  {
    forall m :: 0 <= m < n ==> Home(f, p, m) != Home(f, p, n)
  }

  ghost predicate Stays(f: Peers, p: Params, i: nat)
    requires i < |f.All()|
  {
    i < |f.newEntries| || Kept(f, p, i - |f.newEntries|)
  }

  function Ids(n: nat): (r: set<int>)
    ensures forall i :: i in r <==> 0 <= i < n
  {
    if n == 0 then {} else Ids(n - 1) + {n - 1}
  }

  lemma BlankKeeps(p: Params)
    ensures Shelved(BLANK, p, Ids(0), 0)
  {
    assert TriedIds(BLANK.info) == {} && NewIds(BLANK.info) == {};
  }

  lemma {:induction false} NewListedKeeps(f: Peers, p: Params, n: nat)
    requires n <= |f.newEntries|
    ensures Shelved(NewListed(f, n), p, Ids(n), n) && LastNamed(NewListed(f, n))
  {
    hide Housed, RandomOk, LastNamed;
    if n == 0 {
      BlankKeeps(p);
      NothingNamed(BLANK);
    } else {
      NewListedKeeps(f, p, n - 1);
      var b, s := NewListed(f, n - 1), f.newEntries[n - 1];
      ListKeeps(b, p, Ids(n - 1), n - 1, s);
      LastNamedStep(b, Listed(b, s), Restored(s, |b.random|));
      assert Ids(n - 1) + {n - 1} == Ids(n);
    }
  }

  lemma NothingNamed(b: Book)
    requires b.info == map[] && b.addr == map[]
    ensures LastNamed(b)
  {
  }

  lemma TriedReadKeeps(b: Book, p: Params, limbo: set<int>, s: Stored)
    requires Shelved(b, p, limbo, 0) && LastNamed(b) && b.nIdCount >= 0 && b.nIdCount !in limbo
    ensures Shelved(TriedRead(b, p, s), p, limbo, 0) && LastNamed(TriedRead(b, p, s))
    ensures var c := TriedRead(b, p, s); c.nIdCount >= b.nIdCount && c.newTab == b.newTab
  {
    hide Housed, RandomOk, LastNamed;
    if p.TriedSlot(Restored(s, 0)) !in b.triedTab {
      var c, id := Listed(b, s), b.nIdCount;
      ListKeeps(b, p, limbo, 0, s);
      EnterShelved(c, p, limbo + {id}, 1, id);
      LastNamedStep(b, c, Restored(s, |b.random|));
      LastNamedSame(c, Entered(c, p, id));
      assert limbo + {id} - {id} == limbo;
    }
  }

  lemma {:induction false} TriedListedKeeps(f: Peers, p: Params, n: nat)
    requires n <= |f.triedEntries|
    ensures var b := TriedListed(f, p, n);
            && Shelved(b, p, Ids(|f.newEntries|), 0) && LastNamed(b)
            && b.nIdCount >= |f.newEntries| && b.newTab == map[]
  {
    hide Housed, Shelved, LastNamed, TriedRead;
    var k := |f.newEntries|;
    if n == 0 {
      NewListedKeeps(f, p, k);
      NothingPlaced(f, k);
      RecountShelved(NewListed(f, k), p, Ids(k), k);
      LastNamedSame(NewListed(f, k), TriedListed(f, p, 0));
    } else {
      TriedListedKeeps(f, p, n - 1);
      TriedReadKeeps(TriedListed(f, p, n - 1), p, Ids(k), f.triedEntries[n - 1]);
    }
  }

  /** The slots taken are those of the entries read so far, so the next entry finds its own free exactly if it is kept. */
  lemma {:induction false} SlotsTaken(f: Peers, p: Params, n: nat)
    requires n <= |f.triedEntries|
    ensures forall s :: s in TriedListed(f, p, n).triedTab <==> exists m :: 0 <= m < n && Home(f, p, m) == s
    ensures n < |f.triedEntries| ==> (Kept(f, p, n) <==> Home(f, p, n) !in TriedListed(f, p, n).triedTab)
  {
    hide Home, TriedRead, NewListed;
    if n == 0 {
      NothingPlaced(f, |f.newEntries|);
    } else {
      SlotsTaken(f, p, n - 1);
      SlotTaken(TriedListed(f, p, n - 1), f, p, n - 1);
    }
  }

  lemma SlotTaken(b: Book, f: Peers, p: Params, n: nat)
    requires n < |f.triedEntries|
    ensures TriedRead(b, p, f.triedEntries[n]).triedTab.Keys == b.triedTab.Keys + {Home(f, p, n)}
  {
  }

  lemma {:induction false} NothingPlaced(f: Peers, n: nat)
    requires n <= |f.newEntries|
    ensures NewListed(f, n).newTab == map[] == NewListed(f, n).triedTab && NewListed(f, n).nNew == 0
  {
    if n > 0 {
      NothingPlaced(f, n - 1);
    }
  }

  // ---------- Reading the buckets ----------

  /** A bucket and the index of an entry in it. */
  datatype Ref = Ref(bucket: nat, index: int)

  /** The references of one bucket that name an entry. */
  function BucketRefs(bucket: nat, indexes: seq<int>, n: nat): (r: seq<Ref>)
    ensures forall i :: 0 <= i < |r| ==> r[i].bucket == bucket && 0 <= r[i].index < n
  {
    if indexes == [] then []
    else
      var k := |indexes| - 1;
      BucketRefs(bucket, indexes[..k], n) + if 0 <= indexes[k] < n then [Ref(bucket, indexes[k])] else []
  }

  /** The references of all buckets, in order. */
  function Refs(buckets: seq<seq<int>>, n: nat): (r: seq<Ref>)
    ensures forall i :: 0 <= i < |r| ==> r[i].bucket < |buckets| && 0 <= r[i].index < n
  {
    if buckets == [] then []
    else
      var k := |buckets| - 1;
      Refs(buckets[..k], n) + BucketRefs(k, buckets[k], n)
  }

  /** Whether bucket positions still mean what they meant when the file was written. */
  predicate Restores(f: Peers, checksum: nat) {
    |f.buckets| == NEW_BUCKET_COUNT && f.checksum == checksum
  }

  /** An entry gets a reference in the bucket named, or in its home bucket, where there is room. */
  function RefRead(b: Book, p: Params, restore: bool, r: Ref): Book
    requires r.index in b.info
  {
    var info := b.info[r.index];
    var s, home := p.NewSlot(info, r.bucket), p.SlotFor(info, info.source);
    if info.nRefCount >= NEW_BUCKETS_PER_ADDRESS then b
    else if restore && s !in b.newTab then RefAdded(b, s, r.index)
    else if home !in b.newTab then RefAdded(b, home, r.index)
    else b
  }

  lemma RefReadKeeps(b: Book, p: Params, limbo: set<int>, restore: bool, r: Ref)
    requires Shelved(b, p, limbo, 0) && r.index in b.info && !b.info[r.index].fInTried
    requires restore ==> r.bucket < NEW_BUCKET_COUNT
    ensures var c := RefRead(b, p, restore, r);
            Shelved(c, p, if c == b then limbo else limbo - {r.index}, 0)
  {
    hide Shelved;
    var info := b.info[r.index];
    var s, home := p.NewSlot(info, r.bucket), p.SlotFor(info, info.source);
    if info.nRefCount < NEW_BUCKETS_PER_ADDRESS {
      if restore && s !in b.newTab {
        AddRefShelved(b, p, limbo, 0, s, r.index);
      } else if home !in b.newTab {
        AddRefShelved(b, p, limbo, 0, home, r.index);
      }
    }
  }

  /** New entries that no slot refers to. */
  function Unreferenced(b: Book): set<int> {
    set id | id in b.info && !b.info[id].fInTried && b.info[id].nRefCount == 0
  }

  /** Entries that no slot refers to are in limbo. */
  ghost predicate NearlyShelved(b: Book, p: Params) {
    Shelved(b, p, Unreferenced(b), 0)
  }

  lemma LimboIsUnreferenced(b: Book, p: Params, limbo: set<int>)
    requires Shelved(b, p, limbo, 0)
    ensures NearlyShelved(b, p)
  {
  }

  lemma RefReadNearly(b: Book, p: Params, restore: bool, r: Ref)
    requires NearlyShelved(b, p) && r.index in b.info && !b.info[r.index].fInTried && (restore ==> r.bucket < NEW_BUCKET_COUNT)
    ensures NearlyShelved(RefRead(b, p, restore, r), p)
  {
    hide Shelved, RefRead, Unreferenced;
    RefReadKeeps(b, p, Unreferenced(b), restore, r);
    var c := RefRead(b, p, restore, r);
    LimboIsUnreferenced(c, p, if c == b then Unreferenced(b) else Unreferenced(b) - {r.index});
  }

  /** The entries the file lists in the new table are there, and new. */
  ghost predicate HasNew(b: Book, n: nat) {
    forall i :: 0 <= i < n ==> i in b.info && !b.info[i].fInTried
  }

  lemma RefReadHasNew(b: Book, p: Params, restore: bool, r: Ref, n: nat)
    requires HasNew(b, n) && r.index in b.info
    ensures HasNew(RefRead(b, p, restore, r), n)
  {
  }

  /** The tables with the first `n` references read. */
  function RefsRead(b: Book, p: Params, restore: bool, refs: seq<Ref>, n: nat): Book
    requires n <= |refs| && forall i :: 0 <= i < |refs| ==> refs[i].index in b.info
    ensures RefsRead(b, p, restore, refs, n).info.Keys == b.info.Keys
  {
    if n == 0 then b else RefRead(RefsRead(b, p, restore, refs, n - 1), p, restore, refs[n - 1])
  }

  lemma {:induction false} RefsReadKeeps(b: Book, p: Params, restore: bool, refs: seq<Ref>, n: nat, k: nat)
    requires n <= |refs| && forall i :: 0 <= i < |refs| ==> 0 <= refs[i].index < k && (restore ==> refs[i].bucket < NEW_BUCKET_COUNT)
    requires NearlyShelved(b, p) && HasNew(b, k)
    ensures NearlyShelved(RefsRead(b, p, restore, refs, n), p) && HasNew(RefsRead(b, p, restore, refs, n), k)
  {
    hide NearlyShelved, RefRead;
    if n > 0 {
      RefsReadKeeps(b, p, restore, refs, n - 1, k);
      var c := RefsRead(b, p, restore, refs, n - 1);
      RefReadNearly(c, p, restore, refs[n - 1]);
      RefReadHasNew(c, p, restore, refs[n - 1], k);
    }
  }

  // ---------- Writing ----------

  /** An order in which the entries may be visited: each of them once. */
  ghost predicate Visits(order: seq<int>, info: map<int, AddrInfo>) {
    && (forall i, j :: 0 <= i < j < |order| ==> order[i] != order[j])
    && (forall i :: 0 <= i < |order| ==> order[i] in info)
    && (forall id :: id in info ==> id in order)
  }

  /** The visited entries of one table, in the order of the visit. */
  function Select(order: seq<int>, info: map<int, AddrInfo>, tried: bool): (r: seq<int>)
    requires forall i :: 0 <= i < |order| ==> order[i] in info
    ensures forall i :: 0 <= i < |r| ==> r[i] in order && r[i] in info && info[r[i]].fInTried == tried
  {
    if order == [] then []
    else
      var k := |order| - 1;
      Select(order[..k], info, tried) + if info[order[k]].fInTried == tried then [order[k]] else []
  }

  lemma {:induction false} SelectDistinct(order: seq<int>, info: map<int, AddrInfo>, tried: bool)
    requires forall i :: 0 <= i < |order| ==> order[i] in info
    requires forall i, j :: 0 <= i < j < |order| ==> order[i] != order[j]
    ensures var r := Select(order, info, tried);
            && (forall i, j :: 0 <= i < j < |r| ==> r[i] != r[j])
            && forall id :: id in order && info[id].fInTried == tried ==> id in r
  {
    if order != [] {
      var k := |order| - 1;
      SelectDistinct(order[..k], info, tried);
      assert order == order[..k] + [order[k]];
      var q := Select(order[..k], info, tried);
      forall i | 0 <= i < |q|
        ensures q[i] != order[k]
      {
        assert q[i] in order[..k];
      }
    }
  }

  /** The occupied slots among the first `n` of a bucket. */
  function BucketSlots(tab: Table, bucket: nat, n: nat): (r: seq<Slot>)
    ensures forall i :: 0 <= i < |r| ==> r[i] in tab && r[i].bucket == bucket && r[i].pos < n
  {
    if n == 0 then []
    else BucketSlots(tab, bucket, n - 1) + if Slot(bucket, n - 1) in tab then [Slot(bucket, n - 1)] else []
  }

  /** The occupied slots of the first `n` buckets, in order. */
  function TableSlots(tab: Table, n: nat): (r: seq<Slot>)
    ensures forall i :: 0 <= i < |r| ==> r[i] in tab && r[i].bucket < n && r[i].pos < BUCKET_SIZE
  {
    if n == 0 then [] else TableSlots(tab, n - 1) + BucketSlots(tab, n - 1, BUCKET_SIZE)
  }

  lemma {:induction false} BucketSlotsAll(tab: Table, bucket: nat, n: nat)
    ensures var r := BucketSlots(tab, bucket, n);
            && (forall i, j :: 0 <= i < j < |r| ==> r[i] != r[j])
            && forall q :: 0 <= q < n && Slot(bucket, q) in tab ==> Slot(bucket, q) in r
  {
    if n > 0 {
      BucketSlotsAll(tab, bucket, n - 1);
    }
  }

  lemma {:induction false} TableSlotsAll(tab: Table, n: nat)
    ensures var r := TableSlots(tab, n);
            && (forall i, j :: 0 <= i < j < |r| ==> r[i] != r[j])
            && forall s :: s in tab && s.bucket < n && s.pos < BUCKET_SIZE ==> s in r
  {
    hide BucketSlots;
    if n > 0 {
      TableSlotsAll(tab, n - 1);
      BucketSlotsAll(tab, n - 1, BUCKET_SIZE);
      forall s | s in tab && s.bucket < n && s.pos < BUCKET_SIZE
        ensures s in TableSlots(tab, n)
      {
        if s.bucket == n - 1 {
          assert Slot(n - 1, s.pos) in tab;
          assert s in BucketSlots(tab, n - 1, BUCKET_SIZE);
        }
      }
    }
  }

  /** Indexes name the entries that slots hold, in the same order. */
  ghost predicate Names(indexes: seq<int>, slots: seq<Slot>, tab: Table, news: seq<int>)
    requires forall i :: 0 <= i < |slots| ==> slots[i] in tab
  {
    |indexes| == |slots| && forall i :: 0 <= i < |slots| ==> 0 <= indexes[i] < |news| && news[indexes[i]] == tab[slots[i]]
  }

  ghost predicate RecordsOf(entries: seq<Stored>, info: map<int, AddrInfo>, ids: seq<int>)
    requires forall i :: 0 <= i < |ids| ==> ids[i] in info
  {
    |entries| == |ids| && forall i :: 0 <= i < |ids| ==> entries[i] == Recorded(info[ids[i]])
  }

  /** The file is what the manager writes of its tables when it visits its entries in this order. */
  ghost predicate Written(b: Book, order: seq<int>, f: Peers)
    requires Visits(order, b.info)
  {
    && RecordsOf(f.newEntries, b.info, Select(order, b.info, false))
    && RecordsOf(f.triedEntries, b.info, Select(order, b.info, true))
    && |f.buckets| == NEW_BUCKET_COUNT
    && forall k :: 0 <= k < NEW_BUCKET_COUNT ==>
         Names(f.buckets[k], BucketSlots(b.newTab, k, BUCKET_SIZE), b.newTab, Select(order, b.info, false))
  }

  // ---------- Reading what was written ----------

  /** References name what slots hold. */
  ghost predicate Refer(refs: seq<Ref>, slots: seq<Slot>, tab: Table, news: seq<int>)
    requires forall i :: 0 <= i < |slots| ==> slots[i] in tab
  {
    && |refs| == |slots|
    && forall i :: 0 <= i < |slots| ==>
         refs[i].bucket == slots[i].bucket && 0 <= refs[i].index < |news| && news[refs[i].index] == tab[slots[i]]
  }

  lemma {:induction false} BucketRefsRefer(bucket: nat, indexes: seq<int>, slots: seq<Slot>, tab: Table, news: seq<int>)
    requires forall i :: 0 <= i < |slots| ==> slots[i] in tab && slots[i].bucket == bucket
    requires Names(indexes, slots, tab, news)
    ensures Refer(BucketRefs(bucket, indexes, |news|), slots, tab, news)
  {
    if indexes != [] {
      var k := |indexes| - 1;
      BucketRefsRefer(bucket, indexes[..k], slots[..k], tab, news);
    }
  }

  lemma {:induction false} RefsRefer(buckets: seq<seq<int>>, tab: Table, news: seq<int>)
    requires forall k :: 0 <= k < |buckets| ==> Names(buckets[k], BucketSlots(tab, k, BUCKET_SIZE), tab, news)
    ensures Refer(Refs(buckets, |news|), TableSlots(tab, |buckets|), tab, news)
  {
    hide BucketSlots, BucketRefs, Names;
    if buckets != [] {
      var k := |buckets| - 1;
      RefsRefer(buckets[..k], tab, news);
      BucketRefsRefer(k, buckets[k], BucketSlots(tab, k, BUCKET_SIZE), tab, news);
    }
  }

  lemma DistinctIps(b: Book, i: int, j: int)
    requires AddrOk(b) && i in b.info && j in b.info && i != j
    ensures b.info[i].Ip() != b.info[j].Ip()
  {
  }

  /** Entry `i` of the new tables is as entry `ids[i]` of the old ones, as far as it is written. */
  ghost predicate SameRecords(c: Book, first: nat, b: Book, ids: seq<int>, n: nat, tried: bool)
    requires n <= |ids| && forall i :: 0 <= i < |ids| ==> ids[i] in b.info
  {
    forall i :: 0 <= i < n ==> SameRecord(c.info, first + i, b.info[ids[i]], tried)
  }

  ghost predicate SameRecord(info: map<int, AddrInfo>, k: int, entry: AddrInfo, tried: bool) {
    k in info && Recorded(info[k]) == Recorded(entry) && info[k].fInTried == tried
  }

  lemma {:induction false} NewListedSame(b: Book, news: seq<int>, f: Peers, n: nat)
    requires (forall i :: 0 <= i < |news| ==> news[i] in b.info) && RecordsOf(f.newEntries, b.info, news) && n <= |news|
    ensures var c := NewListed(f, n); c.info.Keys == Ids(n) && SameRecords(c, 0, b, news, n, false)
  {
    if n > 0 {
      NewListedSame(b, news, f, n - 1);
      assert Ids(n) == Ids(n - 1) + {n - 1};
    }
  }

  /** The table holds exactly the identifiers from `first` on at the first `n` of these slots. */
  ghost predicate Filed(tab: Table, first: nat, slots: seq<Slot>, n: nat)
    requires n <= |slots|
  {
    && (forall i :: 0 <= i < n ==> slots[i] in tab && tab[slots[i]] == first + i)
    && (forall s :: s in tab ==> first <= tab[s] < first + n && slots[tab[s] - first] == s)
  }

  lemma FiledStep(tab: Table, first: nat, slots: seq<Slot>, n: nat)
    requires n < |slots| && Filed(tab, first, slots, n) && forall i, j :: 0 <= i < j < |slots| ==> slots[i] != slots[j]
    ensures slots[n] !in tab && Filed(tab[slots[n] := first + n], first, slots, n + 1)
  {
  }

  /** The tried slots of some entries. */
  function OwnSlots(info: map<int, AddrInfo>, p: Params, ids: seq<int>): (r: seq<Slot>)
    requires forall i :: 0 <= i < |ids| ==> ids[i] in info
    ensures |r| == |ids| && forall i :: 0 <= i < |r| ==> r[i] == p.TriedSlot(info[ids[i]])
  {
    seq(|ids|, i requires 0 <= i < |ids| => p.TriedSlot(info[ids[i]]))
  }

  lemma OwnSlotsDistinct(b: Book, p: Params, ids: seq<int>)
    requires TriedOk(b, p) && forall i :: 0 <= i < |ids| ==> ids[i] in b.info && b.info[ids[i]].fInTried
    requires forall i, j :: 0 <= i < j < |ids| ==> ids[i] != ids[j]
    ensures forall i, j :: 0 <= i < j < |ids| ==> OwnSlots(b.info, p, ids)[i] != OwnSlots(b.info, p, ids)[j]
  {
    hide TriedOk;
    forall i, j | 0 <= i < j < |ids|
      ensures OwnSlots(b.info, p, ids)[i] != OwnSlots(b.info, p, ids)[j]
    {
      TriedOwnSlot(b, p, ids[i]);
      TriedOwnSlot(b, p, ids[j]);
    }
  }

  lemma TriedReadRecords(c: Book, b: Book, p: Params, news: seq<int>, trieds: seq<int>, n: nat, s: Stored)
    requires n < |trieds| && (forall i :: 0 <= i < |news| ==> news[i] in b.info) && (forall i :: 0 <= i < |trieds| ==> trieds[i] in b.info)
    requires s == Recorded(b.info[trieds[n]]) && c.nIdCount == |news| + n && p.TriedSlot(Restored(s, 0)) !in c.triedTab
    requires c.info.Keys == Ids(|news| + n) && SameRecords(c, 0, b, news, |news|, false) && SameRecords(c, |news|, b, trieds, n, true)
    ensures var d := TriedRead(c, p, s);
            && d.info.Keys == Ids(|news| + n + 1) && SameRecords(d, 0, b, news, |news|, false)
            && SameRecords(d, |news|, b, trieds, n + 1, true) && d.nNew == c.nNew && d.nTried == c.nTried + 1
  {
    hide SameRecords, SameRecord, Ids;
    var d, k := TriedRead(c, p, s), |news| + n;
    assert d.info == c.info[k := Restored(s, |c.random|).(fInTried := true)];
    assert Ids(k + 1) == Ids(k) + {k};
    assert d.info.Keys == c.info.Keys + {k};
    RecordsKept(c, d, 0, b, news, |news|, false, k);
    RecordsKept(c, d, |news|, b, trieds, n, true, k);
    RecordsStep(d, |news|, b, trieds, n, true);
  }

  lemma RecordsKept(c: Book, d: Book, first: nat, b: Book, ids: seq<int>, n: nat, tried: bool, k: int)
    requires n <= |ids| && (forall i :: 0 <= i < |ids| ==> ids[i] in b.info) && SameRecords(c, first, b, ids, n, tried)
    requires first + n <= k && forall id :: id in c.info && id < k ==> id in d.info && d.info[id] == c.info[id]
    ensures SameRecords(d, first, b, ids, n, tried)
  {
    forall i | 0 <= i < n
      ensures SameRecord(d.info, first + i, b.info[ids[i]], tried)
    {
      assert SameRecord(c.info, first + i, b.info[ids[i]], tried);
    }
  }

  lemma RecordsStep(d: Book, first: nat, b: Book, ids: seq<int>, n: nat, tried: bool)
    requires n < |ids| && (forall i :: 0 <= i < |ids| ==> ids[i] in b.info) && SameRecords(d, first, b, ids, n, tried)
    requires first + n in d.info && Recorded(d.info[first + n]) == Recorded(b.info[ids[n]]) && d.info[first + n].fInTried == tried
    ensures SameRecords(d, first, b, ids, n + 1, tried)
  {
    assert SameRecord(d.info, first + n, b.info[ids[n]], tried);
  }

  /** After reading the entries: each is as it was written, and the tried table is as it was, up to identifiers. */
  ghost predicate EntriesSame(c: Book, b: Book, p: Params, news: seq<int>, trieds: seq<int>, n: nat)
    requires (forall i :: 0 <= i < |news| ==> news[i] in b.info) && (forall i :: 0 <= i < |trieds| ==> trieds[i] in b.info) && n <= |trieds|
  {
    && c.nIdCount == |news| + n && c.info.Keys == Ids(|news| + n)
    && SameRecords(c, 0, b, news, |news|, false) && SameRecords(c, |news|, b, trieds, n, true)
    && Filed(c.triedTab, |news|, OwnSlots(b.info, p, trieds), n)
    && c.newTab == map[] && c.nNew == |news| && c.nTried == n
  }

  lemma {:induction false} TriedListedSame(b: Book, p: Params, news: seq<int>, trieds: seq<int>, f: Peers, n: nat)
    requires TriedOk(b, p) && (forall i :: 0 <= i < |news| ==> news[i] in b.info)
    requires forall i :: 0 <= i < |trieds| ==> trieds[i] in b.info && b.info[trieds[i]].fInTried
    requires forall i, j :: 0 <= i < j < |trieds| ==> trieds[i] != trieds[j]
    requires RecordsOf(f.newEntries, b.info, news) && RecordsOf(f.triedEntries, b.info, trieds) && n <= |trieds|
    ensures EntriesSame(TriedListed(f, p, n), b, p, news, trieds, n)
  {
    hide TriedOk, RecordsOf, SameRecords, Filed, TriedRead;
    var slots := OwnSlots(b.info, p, trieds);
    RecordLengths(f.newEntries, b.info, news);
    RecordLengths(f.triedEntries, b.info, trieds);
    if n == 0 {
      NewListedSame(b, news, f, |news|);
      NothingPlaced(f, |news|);
      NothingTried(TriedListed(f, p, 0), NewListed(f, |news|), b, news, trieds, slots);
    } else {
      TriedListedSame(b, p, news, trieds, f, n - 1);
      RecordAt(f.triedEntries, b.info, trieds, n - 1);
      EntriesStep(TriedListed(f, p, n - 1), b, p, news, trieds, n - 1, f.triedEntries[n - 1]);
    }
  }

  lemma EntriesStep(c: Book, b: Book, p: Params, news: seq<int>, trieds: seq<int>, n: nat, s: Stored)
    requires TriedOk(b, p) && (forall i :: 0 <= i < |news| ==> news[i] in b.info)
    requires forall i :: 0 <= i < |trieds| ==> trieds[i] in b.info && b.info[trieds[i]].fInTried
    requires forall i, j :: 0 <= i < j < |trieds| ==> trieds[i] != trieds[j]
    requires n < |trieds| && EntriesSame(c, b, p, news, trieds, n) && s == Recorded(b.info[trieds[n]])
    ensures EntriesSame(TriedRead(c, p, s), b, p, news, trieds, n + 1)
  {
    hide TriedOk, SameRecords, Filed;
    var slots := OwnSlots(b.info, p, trieds);
    OwnSlotsDistinct(b, p, trieds);
    FiledStep(c.triedTab, |news|, slots, n);
    assert p.TriedSlot(Restored(s, 0)) == slots[n];
    TriedReadRecords(c, b, p, news, trieds, n, s);
    assert TriedRead(c, p, s).triedTab == c.triedTab[slots[n] := |news| + n];
  }

  lemma RecordLengths(entries: seq<Stored>, info: map<int, AddrInfo>, ids: seq<int>)
    requires (forall i :: 0 <= i < |ids| ==> ids[i] in info) && RecordsOf(entries, info, ids)
    ensures |entries| == |ids|
  {
  }

  lemma RecordAt(entries: seq<Stored>, info: map<int, AddrInfo>, ids: seq<int>, i: nat)
    requires (forall i :: 0 <= i < |ids| ==> ids[i] in info) && RecordsOf(entries, info, ids) && i < |ids|
    ensures |entries| == |ids| && entries[i] == Recorded(info[ids[i]])
  {
  }

  lemma NothingTried(c: Book, d: Book, b: Book, news: seq<int>, trieds: seq<int>, slots: seq<Slot>)
    requires (forall i :: 0 <= i < |news| ==> news[i] in b.info) && (forall i :: 0 <= i < |trieds| ==> trieds[i] in b.info)
    requires c.info == d.info && SameRecords(d, 0, b, news, |news|, false) && c.triedTab == map[]
    ensures SameRecords(c, 0, b, news, |news|, false) && SameRecords(c, |news|, b, trieds, 0, true) && Filed(c.triedTab, |news|, slots, 0)
  {
  }

  // ---------- Reading the references of what was written ----------

  /** The new table holds what the first `n` of these slots held, up to identifiers. */
  ghost predicate RefsSame(c: Book, tab: Table, news: seq<int>, slots: seq<Slot>, n: nat)
    requires n <= |slots| && forall i :: 0 <= i < |slots| ==> slots[i] in tab
  {
    && (forall s :: s in c.newTab ==> s in slots[..n])
    && (forall i :: 0 <= i < n ==>
          slots[i] in c.newTab && 0 <= c.newTab[slots[i]] < |news| && news[c.newTab[slots[i]]] == tab[slots[i]])
  }

  /** The slots that refer to an entry so far are among those that referred to it, and the next is not one of them. */
  lemma RoomForRef(c: Book, b: Book, p: Params, news: seq<int>, slots: seq<Slot>, n: nat, k: int)
    requires Inv(b, p) && n < |slots| && (forall i :: 0 <= i < |slots| ==> slots[i] in b.newTab)
    requires forall i, j :: 0 <= i < j < |slots| ==> slots[i] != slots[j]
    requires RefsSame(c, b.newTab, news, slots, n) && 0 <= k < |news| && news[k] == b.newTab[slots[n]]
    ensures slots[n] !in c.newTab && |SlotsOf(c.newTab, k)| < NEW_BUCKETS_PER_ADDRESS
  {
    hide AddrOk, RandomOk, TriedOk, CountsOk, StatsOk;
    var mine, theirs := SlotsOf(c.newTab, k), SlotsOf(b.newTab, news[k]);
    assert slots[n] !in slots[..n];
    forall s | s in mine
      ensures s in theirs - {slots[n]}
    {
      var i :| 0 <= i < n && slots[..n][i] == s;
      assert slots[i] == s;
    }
    assert slots[n] in theirs;
    SubsetSize(mine, theirs - {slots[n]});
    assert news[k] in b.info;
  }

  /** Only references were added. */
  ghost predicate RefsOnly(c: Book, d: Book) {
    && d == c.(info := d.info, newTab := d.newTab) && d.info.Keys == c.info.Keys
    && forall id :: id in c.info ==> d.info[id].(nRefCount := c.info[id].nRefCount) == c.info[id]
  }

  lemma RefsOnlyStep(c: Book, d: Book, s: Slot, id: int)
    requires RefsOnly(c, d) && id in d.info
    ensures RefsOnly(c, RefAdded(d, s, id))
  {
  }

  lemma RefsSameStep(d: Book, tab: Table, news: seq<int>, slots: seq<Slot>, n: nat, k: int)
    requires n < |slots| && (forall i :: 0 <= i < |slots| ==> slots[i] in tab) && RefsSame(d, tab, news, slots, n)
    requires forall i, j :: 0 <= i < j < |slots| ==> slots[i] != slots[j]
    requires k in d.info && 0 <= k < |news| && news[k] == tab[slots[n]]
    ensures RefsSame(RefAdded(d, slots[n], k), tab, news, slots, n + 1)
  {
    assert slots[..n + 1] == slots[..n] + [slots[n]];
  }

  /** One written reference goes back to the slot it was written from. */
  lemma RefReadSame(d: Book, b: Book, p: Params, news: seq<int>, slots: seq<Slot>, n: nat, r: Ref)
    requires Inv(b, p) && n < |slots| && (forall i :: 0 <= i < |slots| ==> slots[i] in b.newTab)
    requires forall i, j :: 0 <= i < j < |slots| ==> slots[i] != slots[j]
    requires RefsSame(d, b.newTab, news, slots, n) && RefsOk(d, Unreferenced(d))
    requires r.bucket == slots[n].bucket && 0 <= r.index < |news| && news[r.index] == b.newTab[slots[n]]
    requires r.index in d.info && news[r.index] in b.info && d.info[r.index].address == b.info[news[r.index]].address
    ensures RefRead(d, p, true, r) == RefAdded(d, slots[n], r.index)
  {
    hide AddrOk, RandomOk, TriedOk, CountsOk, StatsOk, RefsSame, Unreferenced;
    RoomForRef(d, b, p, news, slots, n, r.index);
    assert p.NewSlot(b.info[b.newTab[slots[n]]], slots[n].bucket) == slots[n];
    assert p.NewSlot(d.info[r.index], r.bucket) == slots[n];
  }

  lemma {:induction false} RefsReadSame(c: Book, b: Book, p: Params, news: seq<int>, slots: seq<Slot>, refs: seq<Ref>, n: nat)
    requires Inv(b, p) && (forall i :: 0 <= i < |slots| ==> slots[i] in b.newTab) && Refer(refs, slots, b.newTab, news)
    requires forall i, j :: 0 <= i < j < |slots| ==> slots[i] != slots[j]
    requires (forall i :: 0 <= i < |news| ==> news[i] in b.info) && SameRecords(c, 0, b, news, |news|, false)
    requires NearlyShelved(c, p) && HasNew(c, |news|) && c.newTab == map[] && n <= |slots|
    requires forall i :: 0 <= i < |refs| ==> refs[i].index in c.info && refs[i].bucket < NEW_BUCKET_COUNT
    ensures var d := RefsRead(c, p, true, refs, n); RefsSame(d, b.newTab, news, slots, n) && RefsOnly(c, d)
  {
    hide Shelved, InvBut, NearlyShelved, HasNew, RefRead, RefsSame, SameRecords, RefsOnly;
    if n == 0 {
      NoRefsYet(c, b.newTab, news, slots);
    } else {
      RefsReadSame(c, b, p, news, slots, refs, n - 1);
      RefsReadKeeps(c, p, true, refs, n - 1, |news|);
      var d, r := RefsRead(c, p, true, refs, n - 1), refs[n - 1];
      NearlyRefs(d, p);
      SameAddress(c, d, b, news, r.index);
      RefReadSame(d, b, p, news, slots, n - 1, r);
      RefsSameStep(d, b.newTab, news, slots, n - 1, r.index);
      RefsOnlyStep(c, d, slots[n - 1], r.index);
    }
  }

  lemma NoRefsYet(c: Book, tab: Table, news: seq<int>, slots: seq<Slot>)
    requires c.newTab == map[] && forall i :: 0 <= i < |slots| ==> slots[i] in tab
    ensures RefsSame(c, tab, news, slots, 0) && RefsOnly(c, c)
  {
  }

  lemma NearlyRefs(d: Book, p: Params)
    requires NearlyShelved(d, p)
    ensures RefsOk(d, Unreferenced(d))
  {
  }

  lemma SameAddress(c: Book, d: Book, b: Book, news: seq<int>, k: int)
    requires (forall i :: 0 <= i < |news| ==> news[i] in b.info) && SameRecords(c, 0, b, news, |news|, false)
    requires RefsOnly(c, d) && 0 <= k < |news|
    ensures k in d.info && d.info[k].address == b.info[news[k]].address
  {
    assert SameRecord(c.info, 0 + k, b.info[news[k]], false);
  }

  // ---------- The round trip ----------

  /** The same slots are filled, with the same entries under their new identifiers. */
  ghost predicate SameTable(t: Table, u: Table, ids: seq<int>) {
    t.Keys == u.Keys && forall s :: s in t ==> 0 <= t[s] < |ids| && ids[t[s]] == u[s]
  }

  /** The tables are the same up to renaming: identifier `i` stands for the i-th of the new entries and then the tried ones. */
  ghost predicate Renamed(c: Book, b: Book, news: seq<int>, trieds: seq<int>)
    requires (forall i :: 0 <= i < |news| ==> news[i] in b.info) && (forall i :: 0 <= i < |trieds| ==> trieds[i] in b.info)
  {
    && c.nNew == |news| && c.nTried == |trieds| && c.info.Keys == Ids(|news| + |trieds|)
    && SameRecords(c, 0, b, news, |news|, false) && SameRecords(c, |news|, b, trieds, |trieds|, true)
    && SameTable(c.newTab, b.newTab, news + trieds) && SameTable(c.triedTab, b.triedTab, news + trieds)
  }

  /** The entries listed in the new table have the first identifiers. */
  lemma {:induction false} NewListedNew(f: Peers, n: nat)
    requires n <= |f.newEntries|
    ensures HasNew(NewListed(f, n), n)
  {
    if n > 0 {
      NewListedNew(f, n - 1);
    }
  }

  lemma {:induction false} TriedListedNew(f: Peers, p: Params, n: nat)
    requires n <= |f.triedEntries|
    ensures var b := TriedListed(f, p, n); HasNew(b, |f.newEntries|) && b.nIdCount >= |f.newEntries|
  {
    if n == 0 {
      NewListedNew(f, |f.newEntries|);
    } else {
      TriedListedNew(f, p, n - 1);
    }
  }

  /** What reading a file gives, before entries without references are dropped. */
  function Loaded(f: Peers, p: Params, checksum: nat): Book {
    var b, refs := TriedListed(f, p, |f.triedEntries|), Refs(f.buckets, |f.newEntries|);
    TriedListedNew(f, p, |f.triedEntries|);
    RefsRead(b, p, Restores(f, checksum), refs, |refs|)
  }

  /** Whatever the file says, every entry read is where it belongs, but for new ones that found no slot. */
  lemma LoadedKeeps(f: Peers, p: Params, checksum: nat)
    ensures var b := Loaded(f, p, checksum); NearlyShelved(b, p) && LastNamed(b) && b.nIdCount >= 0
  {
    hide Shelved, NearlyShelved, HasNew, LastNamed, RefsOnly;
    var b, refs := TriedListed(f, p, |f.triedEntries|), Refs(f.buckets, |f.newEntries|);
    TriedListedNew(f, p, |f.triedEntries|);
    TriedListedKeeps(f, p, |f.triedEntries|);
    LimboIsUnreferenced(b, p, Ids(|f.newEntries|));
    RefsReadKeeps(b, p, Restores(f, checksum), refs, |refs|, |f.newEntries|);
    RefsReadOnly(b, p, Restores(f, checksum), refs, |refs|);
    OnlyNames(b, Loaded(f, p, checksum));
  }

  /** Every reference is in the slot its entry gets for its own source. */
  ghost predicate AtHome(b: Book, p: Params) {
    forall s :: s in b.newTab ==> b.newTab[s] in b.info && s == p.SlotFor(b.info[b.newTab[s]], b.info[b.newTab[s]].source)
  }

  lemma {:induction false} RefsAtHome(b: Book, p: Params, refs: seq<Ref>, n: nat)
    requires n <= |refs| && forall i :: 0 <= i < |refs| ==> refs[i].index in b.info
    requires b.newTab == map[]
    ensures AtHome(RefsRead(b, p, false, refs, n), p)
  {
    if n > 0 {
      RefsAtHome(b, p, refs, n - 1);
    }
  }

  /** A file written with another asmap or another number of buckets: addresses are spread anew, each by its own source. */
  lemma Rebucketed(f: Peers, p: Params, checksum: nat)
    requires f.checksum != checksum || |f.buckets| != 1024
    ensures AtHome(Loaded(f, p, checksum), p)
  {
    hide AtHome, RefRead;
    TriedListedNew(f, p, |f.triedEntries|);
    TriedListedKeeps(f, p, |f.triedEntries|);
    RefsAtHome(TriedListed(f, p, |f.triedEntries|), p, Refs(f.buckets, |f.newEntries|), |Refs(f.buckets, |f.newEntries|)|);
  }

  lemma OnlyNames(b: Book, c: Book)
    requires RefsOnly(b, c) && LastNamed(b)
    ensures LastNamed(c) && c.nIdCount == b.nIdCount
  {
    hide LastNamed;
    forall id | id in b.info ensures c.info[id].Ip() == b.info[id].Ip() {
      assert c.info[id].(nRefCount := b.info[id].nRefCount) == b.info[id];
    }
    LastNamedSame(b, c);
  }

  // ---------- Which files give consistent tables ----------

  /** The entry under an identifier is the one the file gives, in the table the file gives it for. */
  ghost predicate Filled(info: map<int, AddrInfo>, id: int, s: Stored, tried: bool) {
    id in info && Recorded(info[id]) == s && info[id].fInTried == tried
  }

  /** Identifiers from `n` on are of tried entries, and no connection is noted for any. */
  ghost predicate JustRead(b: Book, n: nat) {
    forall id :: id in b.info ==> 0 <= id < b.nIdCount && b.info[id].nLastTry == 0 && (id < n || b.info[id].fInTried)
  }

  /** All entries of the new table and those of the first `n` tried ones that are kept are there. */
  ghost predicate Told(b: Book, f: Peers, p: Params, n: nat)
    requires n <= |f.triedEntries|
  {
    && (forall i :: 0 <= i < |f.newEntries| ==> Filled(b.info, i, f.newEntries[i], false))
    && (forall m :: 0 <= m < n && Kept(f, p, m) ==>
          Home(f, p, m) in b.triedTab && Filled(b.info, b.triedTab[Home(f, p, m)], f.triedEntries[m], true))
    && JustRead(b, |f.newEntries|)
  }

  lemma {:induction false} NewListedTells(f: Peers, n: nat)
    requires n <= |f.newEntries|
    ensures var b := NewListed(f, n);
            (forall i :: 0 <= i < n ==> Filled(b.info, i, f.newEntries[i], false)) && JustRead(b, n)
  {
    if n > 0 {
      NewListedTells(f, n - 1);
    }
  }

  lemma {:induction false} TriedListedTells(f: Peers, p: Params, n: nat)
    requires n <= |f.triedEntries|
    ensures Told(TriedListed(f, p, n), f, p, n)
  {
    hide TriedRead, Kept, Home;
    if n == 0 {
      NewListedTells(f, |f.newEntries|);
    } else {
      TriedListedTells(f, p, n - 1);
      SlotsTaken(f, p, n - 1);
      TriedListedNew(f, p, n - 1);
      TriedReadTells(TriedListed(f, p, n - 1), f, p, n - 1);
    }
  }

  lemma TriedReadTells(b: Book, f: Peers, p: Params, n: nat)
    requires n < |f.triedEntries| && Told(b, f, p, n) && b.nIdCount >= |f.newEntries| && (Kept(f, p, n) <==> Home(f, p, n) !in b.triedTab)
    ensures Told(TriedRead(b, p, f.triedEntries[n]), f, p, n + 1)
  {
    hide Kept;
    var c := TriedRead(b, p, f.triedEntries[n]);
    forall m | 0 <= m < n + 1 && Kept(f, p, m)
      ensures Home(f, p, m) in c.triedTab && Filled(c.info, c.triedTab[Home(f, p, m)], f.triedEntries[m], true)
    {
      if m < n {
        assert Home(f, p, m) in b.triedTab;
      }
    }
  }

  lemma {:induction false} RefsReadOnly(b: Book, p: Params, restore: bool, refs: seq<Ref>, n: nat)
    requires n <= |refs| && forall i :: 0 <= i < |refs| ==> refs[i].index in b.info
    ensures RefsOnly(b, RefsRead(b, p, restore, refs, n))
  {
    hide RefsOnly;
    if n == 0 {
      OnlySame(b);
    } else {
      RefsReadOnly(b, p, restore, refs, n - 1);
      var c, r := RefsRead(b, p, restore, refs, n - 1), refs[n - 1];
      var info := c.info[r.index];
      RefsOnlyStep(b, c, p.NewSlot(info, r.bucket), r.index);
      RefsOnlyStep(b, c, p.SlotFor(info, info.source), r.index);
    }
  }

  lemma OnlySame(b: Book)
    ensures RefsOnly(b, b)
  {
  }

  lemma LoadedTells(f: Peers, p: Params, checksum: nat)
    ensures Told(Loaded(f, p, checksum), f, p, |f.triedEntries|)
  {
    hide Kept, Home, TriedListed, RefRead;
    var b, refs := TriedListed(f, p, |f.triedEntries|), Refs(f.buckets, |f.newEntries|);
    TriedListedNew(f, p, |f.triedEntries|);
    TriedListedTells(f, p, |f.triedEntries|);
    RefsReadOnly(b, p, Restores(f, checksum), refs, |refs|);
  }

  /** The identifier of an entry that is not lost. */
  ghost function IdOf(b: Book, f: Peers, p: Params, i: nat): int
    requires i < |f.All()| && Stays(f, p, i) && Told(b, f, p, |f.triedEntries|)
  {
    if i < |f.newEntries| then i else b.triedTab[Home(f, p, i - |f.newEntries|)]
  }

  lemma IdTells(b: Book, f: Peers, p: Params, i: nat)
    requires i < |f.All()| && Stays(f, p, i) && Told(b, f, p, |f.triedEntries|)
    ensures Filled(b.info, IdOf(b, f, p, i), f.All()[i], i >= |f.newEntries|)
  {
  }

  /** Two entries that are not lost have two identifiers. */
  lemma IdsDiffer(b: Book, f: Peers, p: Params, i: nat, j: nat)
    requires i < j < |f.All()| && Stays(f, p, i) && Stays(f, p, j) && Told(b, f, p, |f.triedEntries|) && TriedOk(b, p)
    ensures IdOf(b, f, p, i) != IdOf(b, f, p, j)
  {
    hide Told;
    IdTells(b, f, p, i);
    IdTells(b, f, p, j);
    if i >= |f.newEntries| {
      var k := |f.newEntries|;
      assert Home(f, p, i - k) != Home(f, p, j - k);
      assert f.All()[i] == f.triedEntries[i - k] && f.All()[j] == f.triedEntries[j - k];
    }
  }

  /** The first entry with a given slot is kept. */
  lemma {:induction false} FirstKept(f: Peers, p: Params, m: nat) returns (k: nat)
    requires m < |f.triedEntries|
    ensures k <= m && Kept(f, p, k) && Home(f, p, k) == Home(f, p, m)
  {
    hide Home;
    k := m;
    if !Kept(f, p, m) {
      var j :| 0 <= j < m && Home(f, p, j) == Home(f, p, m);
      k := FirstKept(f, p, j);
    }
  }

  /** Every identifier is that of an entry of the file. */
  lemma EntryOf(f: Peers, p: Params, checksum: nat, id: int) returns (i: nat)
    requires var b := Loaded(f, p, checksum); id in b.info && TriedOk(b, p) && Told(b, f, p, |f.triedEntries|)
    ensures i < |f.All()| && Stays(f, p, i) && IdOf(Loaded(f, p, checksum), f, p, i) == id
  {
    hide Kept, Home, TriedOk, TriedListed, Filled;
    var b, k := Loaded(f, p, checksum), |f.newEntries|;
    if id < k {
      i := id;
    } else {
      TriedOwnSlot(b, p, id);
      var s := p.TriedSlot(b.info[id]);
      SlotsTaken(f, p, |f.triedEntries|);
      LoadedTried(f, p, checksum);
      var m :| 0 <= m < |f.triedEntries| && Home(f, p, m) == s;
      var first := FirstKept(f, p, m);
      i := k + first;
    }
  }

  lemma LoadedTried(f: Peers, p: Params, checksum: nat)
    ensures Loaded(f, p, checksum).triedTab == TriedListed(f, p, |f.triedEntries|).triedTab
  {
    var b, refs := TriedListed(f, p, |f.triedEntries|), Refs(f.buckets, |f.newEntries|);
    TriedListedNew(f, p, |f.triedEntries|);
    RefsReadOnly(b, p, Restores(f, checksum), refs, |refs|);
  }

  /** Whether reading finds a slot for an entry listed in the new table. */
  predicate Slotted(f: Peers, p: Params, checksum: nat, i: nat) {
    var b := Loaded(f, p, checksum);
    i in b.info && b.info[i].nRefCount != 0
  }

  /** Whether an entry of the file is there when reading is done: not lost, given a slot, and valid. */
  ghost predicate Lasts(f: Peers, p: Params, isValid: NetAddr -> bool, checksum: nat, i: nat)
    requires i < |f.All()|
  {
    Stays(f, p, i) && isValid(f.All()[i].Ip()) && (i < |f.newEntries| ==> Slotted(f, p, checksum, i))
  }

  /**
    Every entry that lasts is the only one with its address among those that are not lost, and its
    statistics are such as the manager keeps.
  */
  ghost predicate Sound(f: Peers, p: Params, isValid: NetAddr -> bool, checksum: nat) {
    && (forall i, j :: 0 <= i < |f.All()| && 0 <= j < |f.All()| && i != j && Lasts(f, p, isValid, checksum, i) && Stays(f, p, j) ==>
          f.All()[i].Ip() != f.All()[j].Ip())
    && (forall i :: 0 <= i < |f.All()| && Lasts(f, p, isValid, checksum, i) ==> PossibleStats(f, i))
  }

  predicate PossibleStats(f: Peers, i: nat)
    requires i < |f.All()|
  {
    f.All()[i].nLastSuccess >= 0 && (i >= |f.newEntries| ==> f.All()[i].nLastSuccess > 0)
  }

  /** The entries that reading leaves. */
  ghost function Survivors(b: Book, isValid: NetAddr -> bool): set<int> {
    set id | id in b.info && id !in Unreferenced(b) && isValid(b.info[id].Ip())
  }

  lemma LastsIff(f: Peers, p: Params, isValid: NetAddr -> bool, checksum: nat, i: nat)
    requires i < |f.All()| && Stays(f, p, i) && Told(Loaded(f, p, checksum), f, p, |f.triedEntries|)
    ensures var b := Loaded(f, p, checksum);
            && IdOf(b, f, p, i) in b.info && b.info[IdOf(b, f, p, i)].Ip() == f.All()[i].Ip()
            && (Lasts(f, p, isValid, checksum, i) <==> IdOf(b, f, p, i) in Survivors(b, isValid))
            && (EntryStatsOk(b.info[IdOf(b, f, p, i)]) <==> PossibleStats(f, i))
  {
    hide Loaded, Kept, Home;
    var b := Loaded(f, p, checksum);
    IdTells(b, f, p, i);
    assert b.info[IdOf(b, f, p, i)].nLastTry == 0;
  }

  /** What is harmless among the entries read can be told from the file. */
  lemma HarmlessIff(f: Peers, p: Params, isValid: NetAddr -> bool, checksum: nat)
    ensures var b := Loaded(f, p, checksum);
            Harmless(b.info, Survivors(b, isValid)) <==> Sound(f, p, isValid, checksum)
  {
    hide Loaded, Told, Kept, Home, Housed, IdOf, Stays, Lasts, Survivors, EntryStatsOk, Shelved, NearlyShelved, PossibleStats, TriedOk;
    var b := Loaded(f, p, checksum);
    LoadedTells(f, p, checksum);
    LoadedKeeps(f, p, checksum);
    ShelvedTried(b, p);
    if Sound(f, p, isValid, checksum) {
      SoundHarmless(f, p, isValid, checksum);
    }
    if Harmless(b.info, Survivors(b, isValid)) {
      HarmlessSound(f, p, isValid, checksum);
    }
  }

  lemma ShelvedTried(b: Book, p: Params)
    requires NearlyShelved(b, p)
    ensures TriedOk(b, p)
  {
  }

  lemma SoundHarmless(f: Peers, p: Params, isValid: NetAddr -> bool, checksum: nat)
    requires var b := Loaded(f, p, checksum); Told(b, f, p, |f.triedEntries|) && TriedOk(b, p)
    requires Sound(f, p, isValid, checksum)
    ensures var b := Loaded(f, p, checksum); Harmless(b.info, Survivors(b, isValid))
  {
    hide Loaded, Told, Kept, Home, IdOf, Stays, Lasts, Survivors, EntryStatsOk, PossibleStats, TriedOk;
    var b := Loaded(f, p, checksum);
    var keep := Survivors(b, isValid);
    forall id, x | id in keep && id in b.info && x in b.info && x != id
      ensures b.info[x].Ip() != b.info[id].Ip()
    {
      var i := EntryOf(f, p, checksum, id);
      var j := EntryOf(f, p, checksum, x);
      LastsIff(f, p, isValid, checksum, i);
      LastsIff(f, p, isValid, checksum, j);
    }
    forall id | id in keep && id in b.info
      ensures EntryStatsOk(b.info[id])
    {
      var i := EntryOf(f, p, checksum, id);
      LastsIff(f, p, isValid, checksum, i);
    }
  }

  lemma HarmlessSound(f: Peers, p: Params, isValid: NetAddr -> bool, checksum: nat)
    requires var b := Loaded(f, p, checksum);
             Told(b, f, p, |f.triedEntries|) && TriedOk(b, p) && Harmless(b.info, Survivors(b, isValid))
    ensures Sound(f, p, isValid, checksum)
  {
    hide Loaded, Told, Kept, Home, IdOf, Stays, Survivors, EntryStatsOk, PossibleStats, TriedOk, Slotted;
    var b := Loaded(f, p, checksum);
    forall i, j | 0 <= i < |f.All()| && 0 <= j < |f.All()| && i != j && Lasts(f, p, isValid, checksum, i) && Stays(f, p, j)
      ensures f.All()[i].Ip() != f.All()[j].Ip()
    {
      LastsIff(f, p, isValid, checksum, i);
      LastsIff(f, p, isValid, checksum, j);
      if i < j {
        IdsDiffer(b, f, p, i, j);
      } else {
        IdsDiffer(b, f, p, j, i);
      }
    }
    forall i | 0 <= i < |f.All()| && Lasts(f, p, isValid, checksum, i)
      ensures PossibleStats(f, i)
    {
      LastsIff(f, p, isValid, checksum, i);
    }
  }

  /**
    A file that names an address twice, in one slot: the second entry finds the slot taken and is
    dropped, and the first one's address with it.
  */
  lemma TwiceNamed(s: Stored, p: Params, isValid: NetAddr -> bool, checksum: nat)
    requires isValid(s.Ip())
    ensures !Sound(Peers(p.key, [s, s], [], [[0], [1]], checksum), p, isValid, checksum)
  {
    hide Slotted, Refs, Kept;
    var f := Peers(p.key, [s, s], [], [[0], [1]], checksum);
    assert f.All() == [s, s];
    OneReferenceEach();
    FirstSlotted(f, p, checksum);
    assert Lasts(f, p, isValid, checksum, 0) && Stays(f, p, 1);
    assert f.All()[0].Ip() == f.All()[1].Ip();
  }

  /** What reading that file leaves: the first entry, and no way to find it. */
  lemma TwiceNamedEnd(s: Stored, p: Params, isValid: NetAddr -> bool, checksum: nat, c: Book)
    requires isValid(s.Ip())
    requires var b := Loaded(Peers(p.key, [s, s], [], [[0], [1]], checksum), p, checksum); Remains(b, c, Survivors(b, isValid))
    ensures 0 in c.info && 1 !in c.info && c.info[0].Ip() == s.Ip() && s.Ip() !in c.addr
  {
    hide Loaded, Restricted;
    var f := Peers(p.key, [s, s], [], [[0], [1]], checksum);
    var b := Loaded(f, p, checksum);
    SecondUnslotted(f, p, checksum, s);
    assert 0 in Survivors(b, isValid) && 1 in b.info.Keys - Survivors(b, isValid);
    assert s.Ip() in Ips(b.info, b.info.Keys - Survivors(b, isValid));
  }

  lemma SecondUnslotted(f: Peers, p: Params, checksum: nat, s: Stored)
    requires f == Peers(p.key, [s, s], [], [[0], [1]], checksum)
    ensures var b := Loaded(f, p, checksum);
            && 0 in b.info && 1 in b.info && !b.info[0].fInTried && !b.info[1].fInTried
            && b.info[0].nRefCount == 1 && b.info[1].nRefCount == 0 && b.info[0].Ip() == b.info[1].Ip() == s.Ip()
  {
    OneReferenceEach();
    TriedListedNew(f, p, 0);
    TriedListedKeeps(f, p, 0);
    TriedListedTells(f, p, 0);
    hide Refs, NewListed, Shelved, Kept, Home, Numbered;
    var b, refs := TriedListed(f, p, 0), [Ref(0, 0), Ref(1, 1)];
    NothingReferred(b, p, Ids(2));
    assert Filled(b.info, 0, f.newEntries[0], false) && Filled(b.info, 1, f.newEntries[1], false);
    TwoReferences(b, p, refs);
    hide RefsRead, RefRead, TriedListed;
    assert Loaded(f, p, checksum) == RefsRead(b, p, false, refs, 2);
  }

  /** Two entries with one home: the second reference finds the slot taken. */
  lemma TwoReferences(b: Book, p: Params, refs: seq<Ref>)
    requires refs == [Ref(0, 0), Ref(1, 1)] && 0 in b.info && 1 in b.info && b.newTab == map[]
    requires b.info[0].address == b.info[1].address && b.info[0].source == b.info[1].source
    requires b.info[0].nRefCount == 0 == b.info[1].nRefCount
    ensures RefsRead(b, p, false, refs, 2) == RefAdded(b, p.SlotFor(b.info[0], b.info[0].source), 0)
  {
    var home := p.SlotFor(b.info[0], b.info[0].source);
    assert RefsRead(b, p, false, refs, 0) == b;
    assert RefsRead(b, p, false, refs, 1) == RefAdded(b, home, 0);
  }

  lemma OneReferenceEach()
    ensures Refs([[0], [1]], 2) == [Ref(0, 0), Ref(1, 1)]
  {
    var buckets := [[0], [1]];
    assert buckets[..1] == [[0]] && [[0]][..0] == [];
    assert BucketRefs(0, [0], 2) == [Ref(0, 0)] && BucketRefs(1, [1], 2) == [Ref(1, 1)];
    assert Refs([[0]], 2) == Refs([], 2) + BucketRefs(0, [0], 2);
  }

  /** The entry that the first reference names gets a slot. */
  lemma FirstSlotted(f: Peers, p: Params, checksum: nat)
    requires var refs := Refs(f.buckets, |f.newEntries|); refs != [] && refs[0].index == 0
    ensures Slotted(f, p, checksum, 0)
  {
    hide RefRead, TriedListed;
    var b, refs := TriedListed(f, p, |f.triedEntries|), Refs(f.buckets, |f.newEntries|);
    TriedListedNew(f, p, |f.triedEntries|);
    TriedListedKeeps(f, p, |f.triedEntries|);
    hide Shelved;
    NothingReferred(b, p, Ids(|f.newEntries|));
    RefsReadGrow(b, p, Restores(f, checksum), refs, |refs|);
  }

  lemma NothingReferred(b: Book, p: Params, limbo: set<int>)
    requires Shelved(b, p, limbo, 0) && b.newTab == map[]
    ensures forall id :: id in b.info ==> b.info[id].nRefCount == 0
  {
    hide Numbered, TriedOk, NewOk, CountsOk;
    forall id | id in b.info ensures b.info[id].nRefCount == 0 {
      assert SlotsOf(b.newTab, id) == {};
    }
  }

  lemma {:induction false} RefsReadGrow(b: Book, p: Params, restore: bool, refs: seq<Ref>, n: nat)
    requires 0 < n <= |refs| && forall i :: 0 <= i < |refs| ==> refs[i].index in b.info
    requires b.newTab == map[] && forall id :: id in b.info ==> b.info[id].nRefCount == 0
    ensures RefsRead(b, p, restore, refs, n).info[refs[0].index].nRefCount >= 1
  {
    if n > 1 {
      RefsReadGrow(b, p, restore, refs, n - 1);
    } else {
      assert RefsRead(b, p, restore, refs, 0) == b;
    }
  }

  /** With no references every new entry is dropped, and nothing is left to be inconsistent. */
  lemma UnreferredSound(f: Peers, p: Params, isValid: NetAddr -> bool, checksum: nat)
    requires f.triedEntries == [] && Refs(f.buckets, |f.newEntries|) == []
    ensures Sound(f, p, isValid, checksum)
  {
    hide TriedListed, Shelved;
    TriedListedKeeps(f, p, 0);
    NothingReferred(TriedListed(f, p, 0), p, Ids(|f.newEntries|));
    assert f.All() == f.newEntries;
    assert forall i :: 0 <= i < |f.All()| ==> !Slotted(f, p, checksum, i);
  }

  /** Every slot of the new table is among those written. */
  lemma AllWritten(b: Book, p: Params, s: Slot)
    requires NewOk(b, p) && s in b.newTab
    ensures s in TableSlots(b.newTab, NEW_BUCKET_COUNT)
  {
    TableSlotsAll(b.newTab, NEW_BUCKET_COUNT);
    assert p.NewSlot(b.info[b.newTab[s]], s.bucket) == s;
  }

  lemma NewTableSame(c: Book, b: Book, p: Params, news: seq<int>, trieds: seq<int>)
    requires NewOk(b, p) && RefsSame(c, b.newTab, news, TableSlots(b.newTab, NEW_BUCKET_COUNT), |TableSlots(b.newTab, NEW_BUCKET_COUNT)|)
    ensures SameTable(c.newTab, b.newTab, news + trieds)
  {
    hide NewOk;
    var slots := TableSlots(b.newTab, NEW_BUCKET_COUNT);
    assert slots[..|slots|] == slots;
    forall s
      ensures s in c.newTab <==> s in b.newTab
      ensures s in c.newTab ==> 0 <= c.newTab[s] < |news| && news[c.newTab[s]] == b.newTab[s]
    {
      if s in b.newTab {
        AllWritten(b, p, s);
        var i :| 0 <= i < |slots| && slots[i] == s;
      }
    }
    assert c.newTab.Keys == b.newTab.Keys;
  }

  lemma TriedTableSame(c: Book, b: Book, p: Params, news: seq<int>, trieds: seq<int>)
    requires TriedOk(b, p) && forall i :: 0 <= i < |trieds| ==> trieds[i] in b.info && b.info[trieds[i]].fInTried
    requires forall id :: id in b.info && b.info[id].fInTried ==> id in trieds
    requires Filed(c.triedTab, |news|, OwnSlots(b.info, p, trieds), |trieds|)
    ensures SameTable(c.triedTab, b.triedTab, news + trieds)
  {
    hide TriedOk, Filed;
    forall s
      ensures s in b.triedTab <==> s in c.triedTab
      ensures s in c.triedTab ==> 0 <= c.triedTab[s] < |news + trieds| && (news + trieds)[c.triedTab[s]] == b.triedTab[s]
    {
      if s in b.triedTab {
        TriedSlotKept(c, b, p, |news|, trieds, s);
      }
      if s in c.triedTab {
        TriedSlotWas(c, b, p, |news|, trieds, s);
      }
    }
    assert c.triedTab.Keys == b.triedTab.Keys;
  }

  lemma TriedSlotKept(c: Book, b: Book, p: Params, first: nat, trieds: seq<int>, s: Slot)
    requires TriedOk(b, p) && forall i :: 0 <= i < |trieds| ==> trieds[i] in b.info
    requires forall id :: id in b.info && b.info[id].fInTried ==> id in trieds
    requires Filed(c.triedTab, first, OwnSlots(b.info, p, trieds), |trieds|) && s in b.triedTab
    ensures s in c.triedTab
  {
    hide TriedOk;
    TriedOccupant(b, p, s);
    var i :| 0 <= i < |trieds| && trieds[i] == b.triedTab[s];
    assert OwnSlots(b.info, p, trieds)[i] == s;
  }

  lemma TriedSlotWas(c: Book, b: Book, p: Params, first: nat, trieds: seq<int>, s: Slot)
    requires TriedOk(b, p) && forall i :: 0 <= i < |trieds| ==> trieds[i] in b.info && b.info[trieds[i]].fInTried
    requires Filed(c.triedTab, first, OwnSlots(b.info, p, trieds), |trieds|) && s in c.triedTab
    ensures s in b.triedTab && first <= c.triedTab[s] < first + |trieds| && trieds[c.triedTab[s] - first] == b.triedTab[s]
  {
    hide TriedOk, Filed, OwnSlots;
    FiledAt(c.triedTab, first, OwnSlots(b.info, p, trieds), |trieds|, s);
    var i := c.triedTab[s] - first;
    TriedOwnSlot(b, p, trieds[i]);
  }

  lemma FiledAt(tab: Table, first: nat, slots: seq<Slot>, n: nat, s: Slot)
    requires n <= |slots| && Filed(tab, first, slots, n) && s in tab
    ensures first <= tab[s] < first + n && slots[tab[s] - first] == s
  {
  }

  lemma TriedOccupant(b: Book, p: Params, s: Slot)
    requires TriedOk(b, p) && s in b.triedTab
    ensures b.triedTab[s] in b.info && b.info[b.triedTab[s]].fInTried && p.TriedSlot(b.info[b.triedTab[s]]) == s
  {
  }

  lemma TriedOwnSlot(b: Book, p: Params, id: int)
    requires TriedOk(b, p) && id in b.info && b.info[id].fInTried
    ensures p.TriedSlot(b.info[id]) in b.triedTab && b.triedTab[p.TriedSlot(b.info[id])] == id
  {
  }

  /** With every slot back in place no entry is without a reference. */
  lemma NothingLost(c: Book, b: Book, p: Params, news: seq<int>, trieds: seq<int>)
    requires Inv(b, p) && NearlyShelved(c, p)
    requires forall i :: 0 <= i < |news| ==> news[i] in b.info && !b.info[news[i]].fInTried
    requires forall i :: 0 <= i < |trieds| ==> trieds[i] in b.info
    requires forall i, j :: 0 <= i < j < |news| ==> news[i] != news[j]
    requires (forall i :: 0 <= i < |trieds| ==> b.info[trieds[i]].fInTried) && Renamed(c, b, news, trieds)
    ensures Unreferenced(c) == {} && Shelved(c, p, {}, 0)
  {
    hide AddrOk, RandomOk, TriedOk, CountsOk, StatsOk;
    forall k | k in c.info && !c.info[k].fInTried
      ensures c.info[k].nRefCount > 0
    {
      TriedLater(c, b, news, trieds, k);
      StillReferred(c, b, p, news, trieds, k);
    }
    assert Unreferenced(c) == {};
  }

  lemma TriedLater(c: Book, b: Book, news: seq<int>, trieds: seq<int>, k: int)
    requires (forall i :: 0 <= i < |news| ==> news[i] in b.info) && (forall i :: 0 <= i < |trieds| ==> trieds[i] in b.info)
    requires Renamed(c, b, news, trieds) && k in c.info
    ensures 0 <= k < |news| + |trieds| && (k >= |news| ==> c.info[k].fInTried)
  {
    assert k in c.info.Keys;
    if k >= |news| {
      assert SameRecord(c.info, |news| + (k - |news|), b.info[trieds[k - |news|]], true);
    }
  }

  lemma StillReferred(c: Book, b: Book, p: Params, news: seq<int>, trieds: seq<int>, k: nat)
    requires RefsOk(b, {}) && RefsOk(c, Unreferenced(c)) && NewOk(b, p) && k < |news| && k in c.info
    requires forall i :: 0 <= i < |news| ==> news[i] in b.info && !b.info[news[i]].fInTried
    requires forall i, j :: 0 <= i < j < |news| ==> news[i] != news[j]
    requires forall i :: 0 <= i < |trieds| ==> trieds[i] in b.info && b.info[trieds[i]].fInTried
    requires SameTable(c.newTab, b.newTab, news + trieds)
    ensures c.info[k].nRefCount > 0
  {
    var theirs, ids := SlotsOf(b.newTab, news[k]), news + trieds;
    assert |theirs| >= 1;
    var s :| s in theirs;
    var i := c.newTab[s];
    assert ids[i] == news[k];
    assert i == k;
    assert s in SlotsOf(c.newTab, k);
  }

  /**
    Reading back what was written, with the same key and asmap: nothing is lost, the tables are
    consistent, and every slot holds the entry it held, under its new identifier.
  */
  lemma RoundTrip(b: Book, p: Params, order: seq<int>, f: Peers, checksum: nat)
    requires Inv(b, p) && Visits(order, b.info) && Written(b, order, f) && f.checksum == checksum
    ensures var c := Loaded(f, p, checksum);
            Unreferenced(c) == {} && Inv(c, p) && Renamed(c, b, Select(order, b.info, false), Select(order, b.info, true))
  {
    hide Shelved, InvBut, NearlyShelved, RecordsOf, SameRecords, Filed, RefsSame, HasNew, Names, BucketSlots, TableSlots, Refs, RefsRead, Select, EntriesSame, SameTable;
    var news, trieds := Select(order, b.info, false), Select(order, b.info, true);
    SelectDistinct(order, b.info, false);
    SelectDistinct(order, b.info, true);
    LoadedKeeps(f, p, checksum);
    RecordLengths(f.newEntries, b.info, news);
    RecordLengths(f.triedEntries, b.info, trieds);
    InvParts(b, p);
    TriedListedSame(b, p, news, trieds, f, |trieds|);
    EntriesNew(TriedListed(f, p, |trieds|), b, p, news, trieds);
    LoadedRefs(b, p, news, f, checksum);
    var c0, c := TriedListed(f, p, |trieds|), Loaded(f, p, checksum);
    LoadedSame(c0, c, b, p, news, trieds);
    NothingLost(c, b, p, news, trieds);
    LoadedTells(f, p, checksum);
    RenamedHarmless(c, b, p, news, trieds, |f.newEntries|);
    HarmlessInv(c, p);
  }

  /** Distinct entries of consistent tables have distinct addresses and possible statistics under any names. */
  lemma RenamedHarmless(c: Book, b: Book, p: Params, news: seq<int>, trieds: seq<int>, n: nat)
    requires Inv(b, p) && JustRead(c, n)
    requires forall i :: 0 <= i < |news| ==> news[i] in b.info && !b.info[news[i]].fInTried
    requires forall i :: 0 <= i < |trieds| ==> trieds[i] in b.info && b.info[trieds[i]].fInTried
    requires forall i, j :: 0 <= i < j < |news| ==> news[i] != news[j]
    requires forall i, j :: 0 <= i < j < |trieds| ==> trieds[i] != trieds[j]
    requires Renamed(c, b, news, trieds)
    ensures Harmless(c.info, c.info.Keys)
  {
    hide AddrOk, RandomOk, TriedOk, NewOk, RefsOk, CountsOk, StatsOk, Renamed;
    forall k, x | k in c.info && x in c.info && x != k
      ensures c.info[x].Ip() != c.info[k].Ip()
    {
      var i := RenamedAs(c, b, news, trieds, k);
      var j := RenamedAs(c, b, news, trieds, x);
      DistinctIps(b, i, j);
    }
    forall k | k in c.info
      ensures EntryStatsOk(c.info[k])
    {
      var i := RenamedAs(c, b, news, trieds, k);
      StatsOf(b, i);
    }
  }

  lemma StatsOf(b: Book, id: int)
    requires StatsOk(b) && id in b.info
    ensures EntryStatsOk(b.info[id])
  {
  }

  /** The old identifier of an entry. */
  lemma RenamedAs(c: Book, b: Book, news: seq<int>, trieds: seq<int>, k: int) returns (id: int)
    requires (forall i :: 0 <= i < |news| ==> news[i] in b.info) && (forall i :: 0 <= i < |trieds| ==> trieds[i] in b.info)
    requires Renamed(c, b, news, trieds) && k in c.info
    ensures 0 <= k < |news| + |trieds| && id == (news + trieds)[k] && id in b.info
    ensures c.info[k].fInTried == (k >= |news|) && Recorded(c.info[k]) == Recorded(b.info[id])
  {
    TriedLater(c, b, news, trieds, k);
    id := (news + trieds)[k];
    if k < |news| {
      assert SameRecord(c.info, 0 + k, b.info[id], false);
    } else {
      assert SameRecord(c.info, |news| + (k - |news|), b.info[id], true);
    }
  }

  lemma HarmlessInv(c: Book, p: Params)
    requires LastNamed(c) && Shelved(c, p, {}, 0) && Harmless(c.info, c.info.Keys)
    ensures Inv(c, p)
  {
    hide RandomOk, AddrOk, RefsOk, CountsOk, StatsOk, Harmless, LastNamed, Inv;
    ShedNothing(c, c.info.Keys);
    ShedAll(c, c, p, c.info.Keys);
    RemainsConsistent(c, c, p, c.info.Keys);
  }

  /** Reading the written references fills the new table as it was. */
  lemma LoadedRefs(b: Book, p: Params, news: seq<int>, f: Peers, checksum: nat)
    requires Inv(b, p) && (forall i :: 0 <= i < |news| ==> news[i] in b.info) && |f.newEntries| == |news|
    requires |f.buckets| == NEW_BUCKET_COUNT && f.checksum == checksum
    requires forall k :: 0 <= k < NEW_BUCKET_COUNT ==> Names(f.buckets[k], BucketSlots(b.newTab, k, BUCKET_SIZE), b.newTab, news)
    requires SameRecords(TriedListed(f, p, |f.triedEntries|), 0, b, news, |news|, false)
    ensures var c0, c := TriedListed(f, p, |f.triedEntries|), Loaded(f, p, checksum);
            var slots := TableSlots(b.newTab, NEW_BUCKET_COUNT);
            RefsOnly(c0, c) && RefsSame(c, b.newTab, news, slots, |slots|)
  {
    hide Shelved, InvBut, NearlyShelved, SameRecords, RefsSame, RefsOnly, HasNew, Names, BucketSlots, TableSlots, Refs, TriedListed;
    var c0, refs, slots := TriedListed(f, p, |f.triedEntries|), Refs(f.buckets, |news|), TableSlots(b.newTab, NEW_BUCKET_COUNT);
    RefsRefer(f.buckets, b.newTab, news);
    TableSlotsAll(b.newTab, NEW_BUCKET_COUNT);
    TriedListedNew(f, p, |f.triedEntries|);
    TriedListedKeeps(f, p, |f.triedEntries|);
    LimboIsUnreferenced(c0, p, Ids(|news|));
    NewIn(c0, |news|);
    RefsReadSame(c0, b, p, news, slots, refs, |slots|);
  }

  lemma NewIn(b: Book, n: nat)
    requires HasNew(b, n)
    ensures forall i :: 0 <= i < n ==> i in b.info
  {
  }

  lemma LoadedSame(c0: Book, c: Book, b: Book, p: Params, news: seq<int>, trieds: seq<int>)
    requires NewOk(b, p) && TriedOk(b, p) && (forall i :: 0 <= i < |news| ==> news[i] in b.info)
    requires forall i :: 0 <= i < |trieds| ==> trieds[i] in b.info && b.info[trieds[i]].fInTried
    requires forall id :: id in b.info && b.info[id].fInTried ==> id in trieds
    requires EntriesSame(c0, b, p, news, trieds, |trieds|) && RefsOnly(c0, c)
    requires var slots := TableSlots(b.newTab, NEW_BUCKET_COUNT); RefsSame(c, b.newTab, news, slots, |slots|)
    ensures Renamed(c, b, news, trieds)
  {
    hide NewOk, TriedOk, SameRecords, Filed, RefsSame, TableSlots, SameTable;
    NewTableSame(c, b, p, news, trieds);
    TriedTableSame(c, b, p, news, trieds);
    RecordsOnly(c0, c, b, news, trieds);
  }

  lemma EntriesNew(c0: Book, b: Book, p: Params, news: seq<int>, trieds: seq<int>)
    requires (forall i :: 0 <= i < |news| ==> news[i] in b.info) && (forall i :: 0 <= i < |trieds| ==> trieds[i] in b.info)
    requires EntriesSame(c0, b, p, news, trieds, |trieds|)
    ensures SameRecords(c0, 0, b, news, |news|, false)
  {
  }

  lemma InvParts(b: Book, p: Params)
    requires Inv(b, p)
    ensures TriedOk(b, p) && NewOk(b, p)
  {
  }

  lemma RecordsOnly(c: Book, d: Book, b: Book, news: seq<int>, trieds: seq<int>)
    requires (forall i :: 0 <= i < |news| ==> news[i] in b.info) && (forall i :: 0 <= i < |trieds| ==> trieds[i] in b.info)
    requires RefsOnly(c, d) && SameRecords(c, 0, b, news, |news|, false) && SameRecords(c, |news|, b, trieds, |trieds|, true)
    ensures SameRecords(d, 0, b, news, |news|, false) && SameRecords(d, |news|, b, trieds, |trieds|, true)
  {
    forall i | 0 <= i < |news|
      ensures SameRecord(d.info, 0 + i, b.info[news[i]], false)
    {
      assert SameRecord(c.info, 0 + i, b.info[news[i]], false);
    }
    forall i | 0 <= i < |trieds|
      ensures SameRecord(d.info, |news| + i, b.info[trieds[i]], true)
    {
      assert SameRecord(c.info, |news| + i, b.info[trieds[i]], true);
    }
  }
}
