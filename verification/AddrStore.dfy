/** Writing the address manager to a file and reading it back (src/addrman.h:233-462). */
module AddrStore {

  import opened AddrBook
  import opened AddrFile
  import opened AddrShelf
  import opened AddrMan

  // ---------- Writing ----------

  /** A new entry is one that some slot refers to. */
  lemma NewIffReferred(b: Book, p: Params, id: int)
    requires Inv(b, p) && id in b.info
    ensures b.info[id].nRefCount != 0 <==> !b.info[id].fInTried
  {
    hide AddrOk, RandomOk, TriedOk, CountsOk, StatsOk;
    if b.info[id].fInTried {
      assert SlotsOf(b.newTab, id) == {};
    }
  }

  lemma SelectStep(order: seq<int>, info: map<int, AddrInfo>, tried: bool, i: nat)
    requires i < |order| && forall j :: 0 <= j < |order| ==> order[j] in info
    ensures Select(order[..i + 1], info, tried)
         == Select(order[..i], info, tried) + if info[order[i]].fInTried == tried then [order[i]] else []
  {
    assert order[..i + 1][..i] == order[..i];
  }

  lemma {:induction false} SelectPrefix(order: seq<int>, info: map<int, AddrInfo>, tried: bool, i: nat)
    requires i <= |order| && forall j :: 0 <= j < |order| ==> order[j] in info
    ensures Select(order[..i], info, tried) <= Select(order, info, tried)
    decreases |order| - i
  {
    if i == |order| {
      assert order[..i] == order;
    } else {
      SelectPrefix(order, info, tried, i + 1);
      SelectStep(order, info, tried, i);
    }
  }

  /** A visit meets as many entries of each kind as there are. */
  lemma SelectCount(order: seq<int>, info: map<int, AddrInfo>, tried: bool)
    requires Visits(order, info)
    ensures |Select(order, info, tried)| == if tried then |TriedIds(info)| else |NewIds(info)|
  {
    hide Select;
    var r := Select(order, info, tried);
    SelectDistinct(order, info, tried);
    var ids := if tried then TriedIds(info) else NewIds(info);
    forall id
      ensures id in ids <==> id in r
    {
    }
    assert ids == set id | id in r;
    DistinctSize(r);
  }

  lemma {:induction false} DistinctSize(s: seq<int>)
    requires forall i, j :: 0 <= i < j < |s| ==> s[i] != s[j]
    ensures |set x | x in s| == |s|
  {
    if s != [] {
      var k := |s| - 1;
      DistinctSize(s[..k]);
      assert (set x | x in s) == (set x | x in s[..k]) + {s[k]};
      assert s[k] !in s[..k];
    }
  }

  /** The numbers given to entries so far: the place of each new one among the new ones. */
  ghost predicate Numbered(unkIds: map<int, int>, news: seq<int>) {
    forall i :: 0 <= i < |news| ==> news[i] in unkIds && unkIds[news[i]] == i
  }

  method WriteNew(m: Manager, order: seq<int>) returns (entries: seq<Stored>, unkIds: map<int, int>)
    requires m.Valid() && Visits(order, m.mapInfo)
    ensures RecordsOf(entries, m.mapInfo, Select(order, m.mapInfo, false)) && Numbered(unkIds, Select(order, m.mapInfo, false))
  {
    hide Inv, CollisionsOk, Select, TableOf;
    ghost var info := m.mapInfo;
    entries, unkIds := [], map[];
    var nIds, i := 0, 0;
    NoneSelected(info, order);
    CountsOf(m.Abs(), m.params);
    SelectCount(order, info, false);
    while i < |order|
      invariant 0 <= i <= |order| && nIds == |Select(order[..i], info, false)|
      invariant RecordsOf(entries, info, Select(order[..i], info, false)) && Numbered(unkIds, Select(order[..i], info, false))
    {
      ghost var done := Select(order[..i], info, false);
      NotYet(order, info, i);
      SelectStep(order, info, false, i);
      SelectPrefix(order, info, false, i + 1);
      unkIds := unkIds[order[i] := nIds];
      NewIffReferred(m.Abs(), m.params, order[i]);
      if m.mapInfo[order[i]].nRefCount != 0 {
        assert nIds != m.nNew;
        entries := entries + [Recorded(m.mapInfo[order[i]])];
        nIds := nIds + 1;
      }
      i := i + 1;
    }
    assert order[..i] == order;
  }

  lemma NoneSelected(info: map<int, AddrInfo>, order: seq<int>)
    ensures Select(order[..0], info, false) == [] == Select(order[..0], info, true)
  {
  }

  lemma CountsOf(b: Book, p: Params)
    requires Inv(b, p)
    ensures b.nNew == |NewIds(b.info)| && b.nTried == |TriedIds(b.info)|
  {
  }

  lemma NotYet(order: seq<int>, info: map<int, AddrInfo>, i: nat)
    requires i < |order| && (forall j :: 0 <= j < |order| ==> order[j] in info)
    requires forall j, k :: 0 <= j < k < |order| ==> order[j] != order[k]
    ensures order[i] !in Select(order[..i], info, false)
  {
    assert order[i] !in order[..i];
  }

  method WriteTried(m: Manager, order: seq<int>) returns (entries: seq<Stored>)
    requires m.Valid() && Visits(order, m.mapInfo)
    ensures RecordsOf(entries, m.mapInfo, Select(order, m.mapInfo, true))
  {
    hide Inv, CollisionsOk, Select, TableOf;
    ghost var info := m.mapInfo;
    entries := [];
    var nIds, i := 0, 0;
    NoneSelected(info, order);
    CountsOf(m.Abs(), m.params);
    SelectCount(order, info, true);
    while i < |order|
      invariant 0 <= i <= |order| && nIds == |Select(order[..i], info, true)|
      invariant RecordsOf(entries, info, Select(order[..i], info, true))
    {
      SelectStep(order, info, true, i);
      SelectPrefix(order, info, true, i + 1);
      if m.mapInfo[order[i]].fInTried {
        assert nIds != m.nTried;
        entries := entries + [Recorded(m.mapInfo[order[i]])];
        nIds := nIds + 1;
      }
      i := i + 1;
    }
    assert order[..i] == order;
  }

  method WriteBucket(m: Manager, bucket: nat, unkIds: map<int, int>, ghost news: seq<int>) returns (indexes: seq<int>)
    requires m.Shaped() && bucket < NEW_BUCKET_COUNT && Numbered(unkIds, news)
    requires forall s :: s in TableOf(m.vvNew) ==> TableOf(m.vvNew)[s] in news
    ensures Names(indexes, BucketSlots(TableOf(m.vvNew), bucket, BUCKET_SIZE), TableOf(m.vvNew), news)
  {
    hide TableOf;
    ghost var tab := TableOf(m.vvNew);
    indexes := [];
    var i := 0;
    while i < BUCKET_SIZE
      invariant 0 <= i <= BUCKET_SIZE && Names(indexes, BucketSlots(tab, bucket, i), tab, news)
    {
      TableAt(m.vvNew, Slot(bucket, i));
      if m.vvNew[bucket, i] != EMPTY {
        ghost var k :| 0 <= k < |news| && news[k] == m.vvNew[bucket, i];
        indexes := indexes + [unkIds[m.vvNew[bucket, i]]];
      }
      i := i + 1;
    }
  }

  lemma NewSlotsSelected(b: Book, p: Params, order: seq<int>)
    requires Inv(b, p) && Visits(order, b.info)
    ensures forall s :: s in b.newTab ==> b.newTab[s] in Select(order, b.info, false)
  {
    hide AddrOk, RandomOk, TriedOk, RefsOk, CountsOk, StatsOk, Select;
    SelectDistinct(order, b.info, false);
    forall s | s in b.newTab
      ensures b.newTab[s] in Select(order, b.info, false)
    {
      assert NewOk(b, p);
      var id := b.newTab[s];
      assert id in b.info && !b.info[id].fInTried;
      assert id in order;
    }
  }

  /** Writes the tables, visiting the entries in the given order. */
  method Serialize(m: Manager, order: seq<int>, checksum: nat) returns (f: Peers)
    requires m.Valid() && Visits(order, m.mapInfo)
    ensures Written(m.Abs(), order, f) && f.key == m.params.key && f.checksum == checksum
  {
    hide Inv, CollisionsOk, Select, TableOf, RecordsOf, Numbered, BucketSlots, Names;
    var newEntries, unkIds := WriteNew(m, order);
    var triedEntries := WriteTried(m, order);
    ghost var news := Select(order, m.mapInfo, false);
    NewSlotsSelected(m.Abs(), m.params, order);
    var buckets: seq<seq<int>> := [];
    var k: nat := 0;
    while k < NEW_BUCKET_COUNT
      invariant k <= NEW_BUCKET_COUNT && |buckets| == k
      invariant forall j :: 0 <= j < k ==> Names(buckets[j], BucketSlots(TableOf(m.vvNew), j, BUCKET_SIZE), TableOf(m.vvNew), news)
    {
      var indexes := WriteBucket(m, k, unkIds, news);
      buckets := buckets + [indexes];
      k := k + 1;
    }
    f := Peers(m.params.key, newEntries, triedEntries, buckets, checksum);
  }

  // ---------- Reading ----------

  /** A manager just constructed. */
  ghost predicate Empty(m: Manager)
    reads m, m.vvNew, m.vvTried
  {
    m.Shaped() && m.Abs() == BLANK && m.mTriedCollisions == {}
  }

  method ReadNew(m: Manager, f: Peers)
    requires Empty(m)
    modifies m`mapInfo, m`mapAddr, m`vRandom, m`nNew, m`nIdCount
    ensures m.Abs() == TriedListed(f, m.params, 0)
  {
    hide TableOf;
    m.nNew := |f.newEntries|;
    var n := 0;
    while n < |f.newEntries|
      invariant 0 <= n <= |f.newEntries| && m.nNew == |f.newEntries|
      invariant m.Abs().(nNew := 0, nIdCount := n) == NewListed(f, n).(nNew := 0)
    {
      var s := f.newEntries[n];
      m.mapInfo := m.mapInfo[n := Restored(s, |m.vRandom|)];
      m.mapAddr := m.mapAddr[s.Ip() := n];
      m.vRandom := m.vRandom + [n];
      n := n + 1;
    }
    m.nIdCount := |f.newEntries|;
  }

  /** Reads one entry of the tried table; it is lost where its slot is taken. */
  method ReadTriedEntry(m: Manager, entry: Stored) returns (lost: bool)
    requires m.Shaped() && m.nIdCount != EMPTY
    modifies m`mapInfo, m`mapAddr, m`vRandom, m`nIdCount, m.vvTried
    ensures m.Abs() == TriedRead(old(m.Abs()), m.params, entry).(nTried := old(m.nTried))
    ensures TriedRead(old(m.Abs()), m.params, entry).nTried == old(m.nTried) + if lost then 0 else 1
  {
    hide TableOf;
    var s := m.params.TriedSlot(Restored(entry, 0));
    TableAt(m.vvTried, s);
    lost := m.vvTried[s.bucket, s.pos] != EMPTY;
    if !lost {
      var id := m.nIdCount;
      m.mapInfo := m.mapInfo[id := Restored(entry, |m.vRandom|).(fInTried := true)];
      m.mapAddr := m.mapAddr[entry.Ip() := id];
      m.vRandom := m.vRandom + [id];
      WriteSlot(m.vvTried, s, id);
      m.nIdCount := id + 1;
      ghost var b := old(m.Abs());
      assert Listed(b, entry).info[id := Restored(entry, |b.random|).(fInTried := true)] == m.mapInfo;
    }
  }

  method ReadTried(m: Manager, f: Peers)
    requires m.Shaped() && m.Abs() == TriedListed(f, m.params, 0)
    modifies m`mapInfo, m`mapAddr, m`vRandom, m`nTried, m`nIdCount, m.vvTried
    ensures m.Abs() == TriedListed(f, m.params, |f.triedEntries|)
  {
    hide TableOf, TriedRead, NewListed;
    ghost var p := m.params;
    m.nTried := |f.triedEntries|;
    var nLost, n := 0, 0;
    while n < |f.triedEntries|
      invariant 0 <= n <= |f.triedEntries| && m.nTried == |f.triedEntries|
      invariant m.Abs().(nTried := n - nLost) == TriedListed(f, p, n)
    {
      IdNotEmpty(f, p, n);
      ReadTwice(m.Abs(), p, f.triedEntries[n], n - nLost);
      var lost := ReadTriedEntry(m, f.triedEntries[n]);
      if lost {
        nLost := nLost + 1;
      }
      n := n + 1;
    }
    m.nTried := m.nTried - nLost;
  }

  /** The counter plays no part in where an entry goes. */
  lemma ReadTwice(b: Book, p: Params, s: Stored, n: int)
    ensures var c := TriedRead(b.(nTried := n), p, s);
            c == TriedRead(b, p, s).(nTried := c.nTried) && c.nTried - n == TriedRead(b, p, s).nTried - b.nTried
  {
  }

  lemma IdNotEmpty(f: Peers, p: Params, n: nat)
    requires n <= |f.triedEntries|
    ensures TriedListed(f, p, n).nIdCount != EMPTY
  {
    TriedListedNew(f, p, n);
  }

  /** The references the file lists, bucket by bucket, as far as they name an entry. */
  method CollectRefs(f: Peers) returns (refs: seq<Ref>)
    ensures refs == Refs(f.buckets, |f.newEntries|)
  {
    hide BucketRefs;
    refs := [];
    var bucket := 0;
    while bucket < |f.buckets|
      invariant 0 <= bucket <= |f.buckets| && refs == Refs(f.buckets[..bucket], |f.newEntries|)
    {
      var more := CollectBucket(bucket, f.buckets[bucket], |f.newEntries|);
      refs := refs + more;
      assert f.buckets[..bucket + 1][..bucket] == f.buckets[..bucket];
      bucket := bucket + 1;
    }
    assert f.buckets[..bucket] == f.buckets;
  }

  method CollectBucket(bucket: nat, indexes: seq<int>, n: nat) returns (refs: seq<Ref>)
    ensures refs == BucketRefs(bucket, indexes, n)
  {
    refs := [];
    var i := 0;
    while i < |indexes|
      invariant 0 <= i <= |indexes| && refs == BucketRefs(bucket, indexes[..i], n)
    {
      assert indexes[..i + 1][..i] == indexes[..i];
      if 0 <= indexes[i] < n {
        refs := refs + [Ref(bucket, indexes[i])];
      }
      i := i + 1;
    }
    assert indexes[..i] == indexes;
  }

  /** Gives an entry one reference, in the bucket named or at home. */
  method ReadRef(m: Manager, restore: bool, r: Ref)
    requires m.Shaped() && r.index in m.mapInfo && r.index >= 0 && (restore ==> r.bucket < NEW_BUCKET_COUNT)
    modifies m`mapInfo, m.vvNew
    ensures m.Abs() == RefRead(old(m.Abs()), m.params, restore, r)
  {
    hide TableOf;
    var info := m.mapInfo[r.index];
    if info.nRefCount >= NEW_BUCKETS_PER_ADDRESS {
      return;
    }
    var s := m.params.NewSlot(info, r.bucket);
    TableAt(m.vvNew, s);
    if restore && m.vvNew[s.bucket, s.pos] == EMPTY {
      WriteSlot(m.vvNew, s, r.index);
      m.mapInfo := m.mapInfo[r.index := info.(nRefCount := info.nRefCount + 1)];
    } else {
      var bucket := m.params.hashing.newBucket(m.params.key, info.Ip(), info.source);
      var home := m.params.NewSlot(info, bucket);
      TableAt(m.vvNew, home);
      if m.vvNew[home.bucket, home.pos] == EMPTY {
        WriteSlot(m.vvNew, home, r.index);
        m.mapInfo := m.mapInfo[r.index := info.(nRefCount := info.nRefCount + 1)];
      }
    }
  }

  method ReadRefs(m: Manager, f: Peers, checksum: nat)
    requires m.Shaped() && m.Abs() == TriedListed(f, m.params, |f.triedEntries|)
    modifies m`mapInfo, m.vvNew
    ensures m.Abs() == Loaded(f, m.params, checksum)
  {
    hide TableOf, RefRead, TriedListed, HasNew;
    ghost var b := m.Abs();
    TriedListedNew(f, m.params, |f.triedEntries|);
    NewIn(b, |f.newEntries|);
    var refs := CollectRefs(f);
    var restore := Restores(f, checksum);
    var i := 0;
    while i < |refs|
      invariant 0 <= i <= |refs| && m.Abs() == RefsRead(b, m.params, restore, refs, i)
    {
      ReadRef(m, restore, refs[i]);
      i := i + 1;
    }
  }

  // ---------- Dropping what has no place ----------

  lemma PruneStep(b: Book, p: Params, id: int, keep: set<int>)
    requires NearlyShelved(b, p) && id in Unreferenced(b) && keep <= b.info.Keys - {id}
    ensures RandomOk(b) && NearlyShelved(Deleted(b, id), p) && Shed(b, Deleted(b, id), keep)
    ensures Deleted(b, id).info.Keys == b.info.Keys - {id}
    ensures Unreferenced(Deleted(b, id)) == Unreferenced(b) - {id}
  {
    hide RandomOk, TriedOk, NewOk, RefsOk, CountsOk, Deleted, Shed;
    DeleteShelved(b, p, Unreferenced(b), 0, id);
    DeleteEffect(b, id);
    DeleteSheds(b, id, keep);
    LimboIsUnreferenced(Deleted(b, id), p, Unreferenced(b) - {id});
    var c := Deleted(b, id);
    forall x ensures x in Unreferenced(c) <==> x in Unreferenced(b) - {id} {
      if x in b.info.Keys - {id} {
        assert x in c.info && SamePlace(b.info[x], c.info[x]);
      } else {
        assert x !in c.info.Keys;
      }
    }
  }

  lemma NothingUnreferenced(b: Book, p: Params)
    requires NearlyShelved(b, p) && Unreferenced(b) == {}
    ensures Shelved(b, p, {}, 0) && NewOk(b, p) && TriedOk(b, p)
  {
  }

  /** Deletes the entries that no slot refers to; all others stay as they are. */
  method Prune(m: Manager)
    requires m.Shaped() && NearlyShelved(m.Abs(), m.params)
    modifies m`mapInfo, m`mapAddr, m`vRandom, m`nNew
    ensures Shelved(m.Abs(), m.params, {}, 0)
    ensures Remains(old(m.Abs()), m.Abs(), old(m.mapInfo).Keys - Unreferenced(old(m.Abs())))
    ensures Unreferenced(old(m.Abs())) == {} ==> m.Abs() == old(m.Abs())
  {
    hide Shelved, NearlyShelved, TableOf, RandomOk, Deleted, Unreferenced, Shed;
    ghost var b0 := m.Abs();
    ghost var keep := m.mapInfo.Keys - Unreferenced(b0);
    ShedNothing(b0, keep);
    UnreferencedIn(b0);
    var ids := m.mapInfo.Keys;
    while ids != {}
      invariant ids <= m.mapInfo.Keys && m.mapInfo.Keys == b0.info.Keys - (Unreferenced(b0) - Unreferenced(m.Abs()))
      invariant NearlyShelved(m.Abs(), m.params) && Shed(b0, m.Abs(), keep)
      invariant Unreferenced(m.Abs()) <= ids && Unreferenced(m.Abs()) <= Unreferenced(b0)
      invariant Unreferenced(b0) == {} ==> m.Abs() == b0
      decreases |ids|
    {
      var id := AnyOf(ids);
      IsUnreferenced(m.Abs(), id);
      if !m.mapInfo[id].fInTried && m.mapInfo[id].nRefCount == 0 {
        ghost var b := m.Abs();
        PruneStep(b, m.params, id, keep);
        ShedMore(b0, b, Deleted(b, id), keep);
        m.Delete(id);
      }
      ids := ids - {id};
    }
    assert Unreferenced(m.Abs()) == {};
    NothingUnreferenced(m.Abs(), m.params);
    ShedAll(b0, m.Abs(), m.params, keep);
  }

  lemma UnreferencedIn(b: Book)
    ensures Unreferenced(b) <= b.info.Keys
  {
  }

  lemma IsUnreferenced(b: Book, id: int)
    requires id in b.info
    ensures id in Unreferenced(b) <==> !b.info[id].fInTried && b.info[id].nRefCount == 0
  {
  }

  /** The entries at slots before (`bucket`, `pos`) are valid. */
  ghost predicate ValidBefore(tab: Table, info: map<int, AddrInfo>, isValid: NetAddr -> bool, bucket: nat, pos: nat) {
    forall s :: s in tab && (s.bucket < bucket || (s.bucket == bucket && s.pos < pos)) ==> tab[s] in info && isValid(info[tab[s]].Ip())
  }

  ghost predicate AllValid(info: map<int, AddrInfo>, isValid: NetAddr -> bool) {
    forall id :: id in info ==> isValid(info[id].Ip())
  }

  /** The entries with valid addresses. */
  ghost function ValidIds(info: map<int, AddrInfo>, isValid: NetAddr -> bool): set<int> {
    set id | id in info && isValid(info[id].Ip())
  }

  lemma ClearValid(b: Book, p: Params, isValid: NetAddr -> bool, bucket: nat, pos: nat)
    requires Shelved(b, p, {}, 0) && ValidBefore(b.newTab, b.info, isValid, bucket, pos) && Slot(bucket, pos) in b.newTab
    ensures b.newTab[Slot(bucket, pos)] in b.info && Shelved(Cleared(b, Slot(bucket, pos)), p, {}, 0)
    ensures var c := Cleared(b, Slot(bucket, pos)); ValidBefore(c.newTab, c.info, isValid, bucket, pos + 1)
  {
    hide RandomOk, TriedOk, RefsOk, CountsOk, Cleared;
    var s := Slot(bucket, pos);
    ClearShelved(b, p, s);
    var c := Cleared(b, s);
    ClearEffect(b, s);
    assert NewOk(c, p);
    forall t | t in c.newTab && (t.bucket < bucket || (t.bucket == bucket && t.pos < pos + 1))
      ensures c.newTab[t] in c.info && isValid(c.info[c.newTab[t]].Ip())
    {
      assert t != s && t == Slot(t.bucket, t.pos);
      assert b.newTab[t] in b.info && isValid(b.info[b.newTab[t]].Ip());
      var id := c.newTab[t];
      assert id == b.newTab[t] && id in c.info;
      assert c.info[id].address == b.info[id].address;
    }
  }

  method RemoveInvalidNew(m: Manager)
    requires m.Shaped() && Shelved(m.Abs(), m.params, {}, 0)
    modifies m`mapInfo, m`mapAddr, m`vRandom, m`nNew, m.vvNew
    ensures Shelved(m.Abs(), m.params, {}, 0) && ValidBefore(m.Abs().newTab, m.mapInfo, m.isValid, NEW_BUCKET_COUNT, 0)
    ensures Shed(old(m.Abs()), m.Abs(), ValidIds(old(m.mapInfo), m.isValid)) && m.Abs().triedTab == old(m.Abs()).triedTab
    ensures AllValid(old(m.mapInfo), m.isValid) ==> m.Abs() == old(m.Abs())
  {
    hide Shelved, TableOf, ValidBefore, AllValid, Cleared, Shed, ValidIds;
    ghost var b0, keep := m.Abs(), ValidIds(m.mapInfo, m.isValid);
    NoneBefore(b0.newTab, m.mapInfo, m.isValid);
    ValidIn(m.mapInfo, m.isValid);
    ShedNothing(b0, keep);
    for bucket := 0 to NEW_BUCKET_COUNT
      invariant Shelved(m.Abs(), m.params, {}, 0) && ValidBefore(m.Abs().newTab, m.mapInfo, m.isValid, bucket, 0)
      invariant Shed(b0, m.Abs(), keep) && m.Abs().triedTab == b0.triedTab && (AllValid(b0.info, m.isValid) ==> m.Abs() == b0)
    {
      for i := 0 to BUCKET_SIZE
        invariant Shelved(m.Abs(), m.params, {}, 0) && ValidBefore(m.Abs().newTab, m.mapInfo, m.isValid, bucket, i)
        invariant Shed(b0, m.Abs(), keep) && m.Abs().triedTab == b0.triedTab && (AllValid(b0.info, m.isValid) ==> m.Abs() == b0)
      {
        ghost var b := m.Abs();
        var s := Slot(bucket, i);
        TableAt(m.vvNew, s);
        SlotFacts(b, m.params, s);
        var id := m.vvNew[bucket, i];
        if id != EMPTY && !m.isValid(m.mapInfo[id].Ip()) {
          ClearValid(b, m.params, m.isValid, bucket, i);
          ClearTables(b, s);
          InvalidGoes(b0, b, m.isValid, id);
          ClearSheds(b, s, keep);
          ShedMore(b0, b, Cleared(b, s), keep);
          m.ClearNew(s);
        } else {
          ValidOneMore(b.newTab, m.mapInfo, m.isValid, bucket, i);
        }
      }
      NextBucket(m.Abs(), m.params, m.isValid, bucket);
    }
  }

  lemma ValidIn(info: map<int, AddrInfo>, isValid: NetAddr -> bool)
    ensures ValidIds(info, isValid) <= info.Keys
  {
  }

  /** An entry with an invalid address is not one to be kept. */
  lemma InvalidGoes(b0: Book, b: Book, isValid: NetAddr -> bool, id: int)
    requires Shed(b0, b, ValidIds(b0.info, isValid)) && id in b.info && !isValid(b.info[id].Ip())
    ensures id !in ValidIds(b0.info, isValid) && ValidIds(b0.info, isValid) <= b.info.Keys
    ensures !AllValid(b0.info, isValid)
  {
    assert b.info[id].address == b0.info[id].address;
  }

  lemma NoneBefore(tab: Table, info: map<int, AddrInfo>, isValid: NetAddr -> bool)
    ensures ValidBefore(tab, info, isValid, 0, 0)
  {
  }

  lemma SlotFacts(b: Book, p: Params, s: Slot)
    requires Shelved(b, p, {}, 0)
    ensures RandomOk(b) && NewOk(b, p) && (s in b.newTab ==> b.newTab[s] in b.info && b.info[b.newTab[s]].nRefCount > 0)
  {
    OccupantCounted(b, {}, s);
  }

  lemma ClearTables(b: Book, s: Slot)
    requires RandomOk(b) && (s in b.newTab ==> b.newTab[s] in b.info)
    ensures Cleared(b, s).triedTab == b.triedTab
  {
    ClearEffect(b, s);
  }

  lemma ValidOneMore(tab: Table, info: map<int, AddrInfo>, isValid: NetAddr -> bool, bucket: nat, pos: nat)
    requires ValidBefore(tab, info, isValid, bucket, pos)
    requires var s := Slot(bucket, pos); s in tab ==> tab[s] in info && isValid(info[tab[s]].Ip())
    ensures ValidBefore(tab, info, isValid, bucket, pos + 1)
  {
  }

  lemma NextBucket(b: Book, p: Params, isValid: NetAddr -> bool, bucket: nat)
    requires Shelved(b, p, {}, 0) && ValidBefore(b.newTab, b.info, isValid, bucket, BUCKET_SIZE)
    ensures ValidBefore(b.newTab, b.info, isValid, bucket + 1, 0)
  {
    hide RandomOk, TriedOk, RefsOk, CountsOk;
    forall s | s in b.newTab
      ensures s.pos < BUCKET_SIZE
    {
      assert p.NewSlot(b.info[b.newTab[s]], s.bucket) == s;
    }
  }

  // ---------- Invalid tried entries ----------

  /** A tried entry taken out of the tables altogether. */
  function TriedRemoved(b: Book, s: Slot): Book
    requires s in b.triedTab && b.triedTab[s] in b.info && RandomOk(Evicted(b, s))
  {
    Deleted(Evicted(b, s), b.triedTab[s]).(nNew := b.nNew)
  }

  lemma TriedRemovedKeeps(b: Book, p: Params, s: Slot)
    requires Shelved(b, p, {}, 0) && s in b.triedTab
    ensures b.triedTab[s] in b.info && RandomOk(Evicted(b, s)) && Shelved(TriedRemoved(b, s), p, {}, 0)
    ensures var c := TriedRemoved(b, s);
            && c.triedTab == b.triedTab - {s} && c.newTab == b.newTab && c.nIdCount == b.nIdCount
            && c.info.Keys == b.info.Keys - {b.triedTab[s]} && Survive(b, c, {b.triedTab[s]})
  {
    hide Shelved, Deleted;
    EvictShelved(b, p, {}, 0, s);
    var e, id := Evicted(b, s), b.triedTab[s];
    ShelvedRandom(e, p, {} + {id}, 1);
    assert {} + {id} == {id} && {id} - {id} == {};
    DeleteShelved(e, p, {id}, 1, id);
    DeleteEffect(e, id);
    RecountShelved(Deleted(e, id), p, {}, 1);
    assert Deleted(e, id).(nNew := Deleted(e, id).nNew + 1) == TriedRemoved(b, s);
  }

  lemma ShelvedRandom(b: Book, p: Params, limbo: set<int>, behind: int)
    requires Shelved(b, p, limbo, behind)
    ensures RandomOk(b)
  {
  }

  lemma TriedRemovedSheds(b: Book, s: Slot, keep: set<int>)
    requires s in b.triedTab && b.triedTab[s] in b.info && RandomOk(Evicted(b, s)) && keep <= b.info.Keys - {b.triedTab[s]}
    ensures Shed(b, TriedRemoved(b, s), keep)
  {
    hide RandomOk, Shed, Deleted;
    var e, id := Evicted(b, s), b.triedTab[s];
    EvictedSheds(b, s, keep);
    DeleteSheds(e, id, keep);
    ShedMore(b, e, Deleted(e, id), keep);
    ShedCounts(b, Deleted(e, id), TriedRemoved(b, s), keep);
  }

  lemma EvictedSheds(b: Book, s: Slot, keep: set<int>)
    requires s in b.triedTab && b.triedTab[s] in b.info && keep <= b.info.Keys - {b.triedTab[s]}
    ensures Shed(b, Evicted(b, s), keep) && Evicted(b, s).info.Keys == b.info.Keys
  {
    var c := Evicted(b, s);
    assert c.info.Keys == b.info.Keys && b.info.Keys - c.info.Keys == {};
    assert Ips(b.info, {}) == {};
  }

  lemma ShedCounts(b: Book, c: Book, d: Book, keep: set<int>)
    requires Shed(b, c, keep) && d == c.(nNew := d.nNew)
    ensures Shed(b, d, keep)
  {
  }

  method RemoveTried(m: Manager, s: Slot)
    requires m.Shaped() && Shelved(m.Abs(), m.params, {}, 0) && s in m.Abs().triedTab
    modifies m`mapInfo, m`mapAddr, m`vRandom, m`nTried, m`mTriedCollisions, m.vvTried
    ensures old(m.Abs()).triedTab[s] in old(m.mapInfo) && RandomOk(Evicted(old(m.Abs()), s))
    ensures m.Abs() == TriedRemoved(old(m.Abs()), s)
    ensures m.mTriedCollisions == old(m.mTriedCollisions) - {old(m.Abs()).triedTab[s]}
  {
    hide TableOf, RandomOk, TriedOk, NewOk, RefsOk, CountsOk, Swapped, TriedRemoved, Evicted;
    ghost var b := m.Abs();
    TableAt(m.vvTried, s);
    TriedRemovedKeeps(b, m.params, s);
    RandomAt(b, b.triedTab[s]);
    RemovedAtOnce(b, s);
    var id := m.vvTried[s.bucket, s.pos];
    WriteSlot(m.vvTried, s, EMPTY);
    m.nTried := m.nTried - 1;
    assert m.Abs() == b.(triedTab := b.triedTab - {s}, nTried := b.nTried - 1);
    m.SwapRandom(m.mapInfo[id].nRandomPos, |m.vRandom| - 1);
    m.vRandom := m.vRandom[..|m.vRandom| - 1];
    m.mapAddr := m.mapAddr - {m.mapInfo[id].Ip()};
    m.mapInfo := m.mapInfo - {id};
    m.mTriedCollisions := m.mTriedCollisions - {id};
  }

  /** Forgetting an entry at once is taking it out of its slot and then deleting it. */
  lemma RemovedAtOnce(b: Book, s: Slot)
    requires s in b.triedTab && b.triedTab[s] in b.info && RandomOk(b) && RandomOk(Evicted(b, s))
    ensures var id, last := b.triedTab[s], |b.random| - 1;
            var pos := b.info[id].nRandomPos;
            var w := Swapped(b.(triedTab := b.triedTab - {s}, nTried := b.nTried - 1), pos, last);
            && |w.random| == |b.random| && id in w.info && w.info[id].Ip() == b.info[id].Ip()
            && w.(info := w.info - {id}, addr := w.addr - {b.info[id].Ip()}, random := w.random[..last]) == TriedRemoved(b, s)
  {
    var id, last := b.triedTab[s], |b.random| - 1;
    var pos := b.info[id].nRandomPos;
    RandomAt(b, id);
    hide RandomOk;
    var w := Swapped(b.(triedTab := b.triedTab - {s}, nTried := b.nTried - 1), pos, last);
    var v := Swapped(Evicted(b, s), pos, last);
    SwapsAlike(b.info, id, b.random[last], pos, last);
    assert w.info - {id} == v.info - {id};
  }

  /** Positions are swapped the same way whether or not the entry still counts as tried. */
  lemma SwapsAlike(info: map<int, AddrInfo>, id: int, other: int, i: int, j: int)
    requires id in info && other in info
    ensures var info' := info[id := info[id].(fInTried := false)];
            var u := info[id := info[id].(nRandomPos := j)];
            var v := info'[id := info'[id].(nRandomPos := j)];
            u[other := u[other].(nRandomPos := i)] - {id} == v[other := v[other].(nRandomPos := i)] - {id}
  {
  }

  lemma RandomAt(b: Book, id: int)
    requires RandomOk(b) && id in b.info
    ensures 0 <= b.info[id].nRandomPos < |b.random| && b.random[b.info[id].nRandomPos] in b.info && b.random[|b.random| - 1] in b.info
  {
  }

  /** Both tables as far as they have been gone through. */
  ghost predicate Cleaned(b: Book, isValid: NetAddr -> bool, bucket: nat, pos: nat) {
    ValidBefore(b.newTab, b.info, isValid, NEW_BUCKET_COUNT, 0) && ValidBefore(b.triedTab, b.info, isValid, bucket, pos)
  }

  lemma RemoveValid(b: Book, p: Params, isValid: NetAddr -> bool, bucket: nat, pos: nat)
    requires Shelved(b, p, {}, 0) && Cleaned(b, isValid, bucket, pos) && Slot(bucket, pos) in b.triedTab
    ensures b.triedTab[Slot(bucket, pos)] in b.info
    ensures RandomOk(Evicted(b, Slot(bucket, pos))) && Cleaned(TriedRemoved(b, Slot(bucket, pos)), isValid, bucket, pos + 1)
  {
    hide RandomOk, RefsOk, CountsOk, TriedRemoved;
    var s := Slot(bucket, pos);
    TriedRemovedKeeps(b, p, s);
    var c := TriedRemoved(b, s);
    assert NewOk(c, p) && TriedOk(c, p);
    StillValid(b.newTab, b.info, c.newTab, c.info, isValid, NEW_BUCKET_COUNT, 0);
    ValidWithout(b, c, s, isValid);
  }

  lemma StillValid(t: Table, info: map<int, AddrInfo>, t': Table, info': map<int, AddrInfo>, isValid: NetAddr -> bool, bucket: nat, pos: nat)
    requires ValidBefore(t, info, isValid, bucket, pos)
    requires forall s :: s in t' ==> s in t && t[s] == t'[s] && t'[s] in info'
    requires forall id :: id in info' ==> id in info && info'[id].address == info[id].address
    ensures ValidBefore(t', info', isValid, bucket, pos)
  {
    forall s | s in t' && (s.bucket < bucket || (s.bucket == bucket && s.pos < pos))
      ensures t'[s] in info' && isValid(info'[t'[s]].Ip())
    {
      var id := t'[s];
      assert id in info' && info'[id].address == info[id].address;
      assert isValid(info[t[s]].Ip());
    }
  }

  lemma ValidWithout(b: Book, c: Book, s: Slot, isValid: NetAddr -> bool)
    requires ValidBefore(b.triedTab, b.info, isValid, s.bucket, s.pos) && c.triedTab == b.triedTab - {s}
    requires forall t :: t in c.triedTab ==> c.triedTab[t] in c.info
    requires forall id :: id in c.info ==> id in b.info && c.info[id].address == b.info[id].address
    ensures ValidBefore(c.triedTab, c.info, isValid, s.bucket, s.pos + 1)
  {
    StillValid(b.triedTab, b.info, c.triedTab, c.info, isValid, s.bucket, s.pos);
    forall t | t in c.triedTab
      ensures !(t.bucket == s.bucket && t.pos == s.pos)
    {
      assert t == Slot(t.bucket, t.pos) && s == Slot(s.bucket, s.pos);
    }
  }

  /** Drops the entries with invalid addresses from both tables; all others stay as they are. */
  method RemoveInvalid(m: Manager)
    requires m.Shaped() && Shelved(m.Abs(), m.params, {}, 0) && m.mTriedCollisions == {}
    modifies m`mapInfo, m`mapAddr, m`vRandom, m`nNew, m`nTried, m`mTriedCollisions, m.vvNew, m.vvTried
    ensures Shelved(m.Abs(), m.params, {}, 0) && m.mTriedCollisions == {}
    ensures Remains(old(m.Abs()), m.Abs(), ValidIds(old(m.mapInfo), m.isValid))
    ensures AllValid(old(m.mapInfo), m.isValid) ==> m.Abs() == old(m.Abs())
  {
    hide Shelved, TableOf, ValidBefore, AllValid, Cleaned, TriedRemoved, Shed, ValidIds;
    ghost var b0, keep := m.Abs(), ValidIds(m.mapInfo, m.isValid);
    RemoveInvalidNew(m);
    CleanedNew(m.Abs(), m.isValid);
    for bucket := 0 to TRIED_BUCKET_COUNT
      invariant Shelved(m.Abs(), m.params, {}, 0) && Cleaned(m.Abs(), m.isValid, bucket, 0) && m.mTriedCollisions == {}
      invariant Shed(b0, m.Abs(), keep) && (AllValid(b0.info, m.isValid) ==> m.Abs() == b0)
    {
      for i := 0 to BUCKET_SIZE
        invariant Shelved(m.Abs(), m.params, {}, 0) && Cleaned(m.Abs(), m.isValid, bucket, i) && m.mTriedCollisions == {}
        invariant Shed(b0, m.Abs(), keep) && (AllValid(b0.info, m.isValid) ==> m.Abs() == b0)
      {
        ghost var b := m.Abs();
        var s := Slot(bucket, i);
        TableAt(m.vvTried, s);
        TriedFacts(b, m.params, s);
        var id := m.vvTried[bucket, i];
        if id == EMPTY || m.isValid(m.mapInfo[id].Ip()) {
          CleanedMore(b, m.isValid, bucket, i);
        } else {
          RemoveValid(b, m.params, m.isValid, bucket, i);
          TriedRemovedKeeps(b, m.params, s);
          InvalidGoes(b0, b, m.isValid, id);
          TriedRemovedSheds(b, s, keep);
          ShedMore(b0, b, TriedRemoved(b, s), keep);
          RemoveTried(m, s);
        }
      }
      CleanedBucket(m.Abs(), m.params, m.isValid, bucket);
    }
    CleanedAll(m.Abs(), m.params, m.isValid);
    OnlyValidLeft(b0, m.Abs(), m.params, m.isValid);
  }

  lemma OnlyValidLeft(b: Book, c: Book, p: Params, isValid: NetAddr -> bool)
    requires Shed(b, c, ValidIds(b.info, isValid)) && AllValid(c.info, isValid) && Shelved(c, p, {}, 0)
    ensures Remains(b, c, ValidIds(b.info, isValid))
  {
    hide RandomOk, RefsOk, CountsOk, TriedOk, NewOk, Remains;
    forall id | id in c.info ensures id in ValidIds(b.info, isValid) {
      assert c.info[id].address == b.info[id].address;
    }
    assert c.info.Keys == ValidIds(b.info, isValid);
    ShedAll(b, c, p, ValidIds(b.info, isValid));
  }

  lemma CleanedNew(b: Book, isValid: NetAddr -> bool)
    requires ValidBefore(b.newTab, b.info, isValid, NEW_BUCKET_COUNT, 0)
    ensures Cleaned(b, isValid, 0, 0)
  {
  }

  lemma TriedFacts(b: Book, p: Params, s: Slot)
    requires Shelved(b, p, {}, 0)
    ensures s in b.triedTab ==> b.triedTab[s] in b.info
  {
  }

  lemma CleanedMore(b: Book, isValid: NetAddr -> bool, bucket: nat, pos: nat)
    requires Cleaned(b, isValid, bucket, pos)
    requires var s := Slot(bucket, pos); s in b.triedTab ==> b.triedTab[s] in b.info && isValid(b.info[b.triedTab[s]].Ip())
    ensures Cleaned(b, isValid, bucket, pos + 1)
  {
    hide ValidBefore;
    ValidOneMore(b.triedTab, b.info, isValid, bucket, pos);
  }

  lemma CleanedBucket(b: Book, p: Params, isValid: NetAddr -> bool, bucket: nat)
    requires Shelved(b, p, {}, 0) && Cleaned(b, isValid, bucket, BUCKET_SIZE)
    ensures Cleaned(b, isValid, bucket + 1, 0)
  {
    hide RandomOk, TriedOk, NewOk, RefsOk, CountsOk;
    forall s | s in b.triedTab
      ensures s.pos < BUCKET_SIZE
    {
      TriedOccupant(b, p, s);
    }
  }

  /** When both tables have been gone through every entry is valid, since every entry is in one of them. */
  lemma CleanedAll(b: Book, p: Params, isValid: NetAddr -> bool)
    requires Shelved(b, p, {}, 0) && Cleaned(b, isValid, TRIED_BUCKET_COUNT, 0)
    ensures AllValid(b.info, isValid)
  {
    hide RandomOk, CountsOk;
    forall id | id in b.info
      ensures isValid(b.info[id].Ip())
    {
      if b.info[id].fInTried {
        hide TriedOk;
        TriedOwnSlot(b, p, id);
      } else {
        assert |SlotsOf(b.newTab, id)| >= 1;
        var s :| s in SlotsOf(b.newTab, id);
        assert s in b.newTab && s.bucket < NEW_BUCKET_COUNT;
      }
    }
  }

  /**
    Reads the tables from a file; refused only where the file claims more entries than there is
    room for.  What is left are the entries with a slot and a valid address, in their slots; the
    manager is consistent exactly if the file is sound.
  */
  method Unserialize(m: Manager, f: Peers, checksum: nat) returns (ok: bool)
    requires Empty(m) && m.params.key == f.key
    modifies m, m.vvNew, m.vvTried
    ensures ok <==> |f.newEntries| <= 65536 && |f.triedEntries| <= 16384
    ensures ok ==> var b := Loaded(f, m.params, checksum); Remains(b, m.Abs(), Survivors(b, m.isValid))
    ensures ok ==> m.nIdCount >= 0 && m.mTriedCollisions == {}
    ensures ok ==> (m.Valid() <==> Sound(f, m.params, m.isValid, checksum))
    ensures ok && Unreferenced(Loaded(f, m.params, checksum)) == {} && AllValid(Loaded(f, m.params, checksum).info, m.isValid) ==>
              m.Abs() == Loaded(f, m.params, checksum)
  {
    hide Inv, TableOf, Sound, Loaded, NearlyShelved, Shelved, AllValid, TriedListed, Remains, Survivors, ValidIds, Unreferenced, LastNamed;
    if |f.newEntries| > NEW_BUCKET_COUNT * BUCKET_SIZE {
      return false;
    }
    if |f.triedEntries| > TRIED_BUCKET_COUNT * BUCKET_SIZE {
      return false;
    }
    ReadNew(m, f);
    ReadTried(m, f);
    ReadRefs(m, f, checksum);
    ghost var b := m.Abs();
    LoadedKeeps(f, m.params, checksum);
    Prune(m);
    ghost var c := m.Abs();
    RemoveInvalid(m);
    Survived(b, c, m.Abs(), m.isValid);
    RemainsConsistent(b, m.Abs(), m.params, Survivors(b, m.isValid));
    HarmlessIff(f, m.params, m.isValid, checksum);
    ok := true;
  }

  lemma Survived(b: Book, c: Book, d: Book, isValid: NetAddr -> bool)
    requires Remains(b, c, b.info.Keys - Unreferenced(b)) && Remains(c, d, ValidIds(c.info, isValid))
    ensures Remains(b, d, Survivors(b, isValid)) && d.nIdCount == b.nIdCount
  {
    hide Unreferenced, Restricted, Ips;
    forall id ensures id in ValidIds(c.info, isValid) <==> id in Survivors(b, isValid) {
      assert id in c.info <==> id in b.info.Keys - Unreferenced(b);
    }
    assert ValidIds(c.info, isValid) == Survivors(b, isValid);
    RemainsMore(b, c, d, b.info.Keys - Unreferenced(b), ValidIds(c.info, isValid));
  }

  // ---------- There is room for what is written ----------

  lemma {:induction false} NoMoreThan(ids: seq<int>, known: set<int>)
    requires (forall i, j :: 0 <= i < j < |ids| ==> ids[i] != ids[j]) && forall i :: 0 <= i < |ids| ==> ids[i] in known
    ensures |ids| <= |known|
  {
    if ids != [] {
      var k := |ids| - 1;
      NoMoreThan(ids[..k], known - {ids[k]});
    }
  }

  lemma WrittenFits(b: Book, p: Params, order: seq<int>, f: Peers)
    requires Inv(b, p) && Visits(order, b.info) && Written(b, order, f)
    ensures |f.newEntries| <= 65536 && |f.triedEntries| <= 16384
  {
    hide AddrOk, RandomOk, TriedOk, NewOk, RefsOk, StatsOk, Select, BucketSlots, Names;
    Capacity(b, p);
    SelectDistinct(order, b.info, false);
    SelectDistinct(order, b.info, true);
    NoMoreThan(Select(order, b.info, false), NewIds(b.info));
    NoMoreThan(Select(order, b.info, true), TriedIds(b.info));
  }

  lemma RenamedValid(c: Book, b: Book, news: seq<int>, trieds: seq<int>, isValid: NetAddr -> bool)
    requires (forall i :: 0 <= i < |news| ==> news[i] in b.info) && (forall i :: 0 <= i < |trieds| ==> trieds[i] in b.info)
    requires Renamed(c, b, news, trieds) && AllValid(b.info, isValid)
    ensures AllValid(c.info, isValid)
  {
    forall k | k in c.info
      ensures isValid(c.info[k].Ip())
    {
      TriedLater(c, b, news, trieds, k);
      var id := if k < |news| then news[k] else trieds[k - |news|];
      if k < |news| {
        assert SameRecord(c.info, 0 + k, b.info[id], false);
      } else {
        assert SameRecord(c.info, |news| + (k - |news|), b.info[id], true);
      }
      assert isValid(b.info[id].Ip()) && Recorded(c.info[k]).address == Recorded(b.info[id]).address;
    }
  }

  /**
    Writing one manager and reading the file into another with the same key and asmap: the file
    is accepted, and the tables are the same up to the names of entries.
  */
  method SaveAndLoad(m: Manager, order: seq<int>, checksum: nat) returns (n: Manager)
    requires m.Valid() && Visits(order, m.mapInfo) && AllValid(m.mapInfo, m.isValid)
    ensures fresh(n) && n.Valid() && Renamed(n.Abs(), m.Abs(), Select(order, m.mapInfo, false), Select(order, m.mapInfo, true))
  {
    hide Inv, TableOf, Select, Sound, Loaded, AllValid, Renamed, Written, Remains, Survivors, Unreferenced;
    ghost var b, p := m.Abs(), m.params;
    ghost var news, trieds := Select(order, b.info, false), Select(order, b.info, true);
    var f := Serialize(m, order, checksum);
    WrittenFits(b, p, order, f);
    RoundTrip(b, p, order, f, checksum);
    SelectDistinct(order, b.info, false);
    SelectDistinct(order, b.info, true);
    RenamedValid(Loaded(f, p, checksum), b, news, trieds, m.isValid);
    n := new Manager(m.params, m.isRoutable, m.isValid, m.netClass);
    var ok := Unserialize(n, f, checksum);
  }
}
