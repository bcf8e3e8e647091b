/** The address manager's own consistency check (src/addrman.cpp:463-539). */
module AddrCheck {

  import opened AddrBook
  import opened AddrMan
  import opened Basics

  // ---------- Entries ----------

  /** An entry by itself is as it should be, and is found by its address and its random position. */
  ghost predicate EntryOk(info: map<int, AddrInfo>, addr: map<NetAddr, int>, random: seq<int>, id: int)
    requires id in info
  {
    var entry := info[id];
    && (if entry.fInTried then entry.nLastSuccess != 0 && entry.nRefCount == 0 else 1 <= entry.nRefCount <= NEW_BUCKETS_PER_ADDRESS)
    && entry.Ip() in addr && addr[entry.Ip()] == id
    && 0 <= entry.nRandomPos < |random| && random[entry.nRandomPos] == id
    && entry.nLastTry >= 0 && entry.nLastSuccess >= 0
  }

  ghost predicate EntriesOk(info: map<int, AddrInfo>, addr: map<NetAddr, int>, random: seq<int>) {
    forall id :: id in info ==> EntryOk(info, addr, random, id)
  }

  /** Looking an address up with the subscript operator makes an entry for it where there is none. */
  function Subscripted(addr: map<NetAddr, int>, ip: NetAddr): map<NetAddr, int> {
    if ip in addr then addr else addr[ip := 0]
  }

  /** The reference counts of new entries. */
  ghost predicate Counts(info: map<int, AddrInfo>, ids: set<int>, mapNew: map<int, int>) {
    && (forall id :: id in mapNew <==> id in info && id in ids && !info[id].fInTried)
    && (forall id :: id in mapNew ==> mapNew[id] == info[id].nRefCount)
  }

  /** The entries visited, sorted into tried ones and new ones with their counts. */
  ghost predicate Sorted(info: map<int, AddrInfo>, ids: set<int>, setTried: set<int>, mapNew: map<int, int>) {
    (forall id :: id in setTried <==> id in info && id in ids && info[id].fInTried) && Counts(info, ids, mapNew)
  }

  lemma SortedStep(info: map<int, AddrInfo>, ids: set<int>, setTried: set<int>, mapNew: map<int, int>, n: int)
    requires Sorted(info, ids, setTried, mapNew) && n in info
    ensures Sorted(info, ids + {n}, if info[n].fInTried then setTried + {n} else setTried,
                   if info[n].fInTried then mapNew else mapNew[n := info[n].nRefCount])
  {
  }

  lemma SortedAll(info: map<int, AddrInfo>, setTried: set<int>, mapNew: map<int, int>)
    requires Sorted(info, info.Keys, setTried, mapNew)
    ensures setTried == TriedIds(info) && Counts(info, info.Keys, mapNew)
  {
    forall id
      ensures id in setTried <==> id in TriedIds(info)
    {
    }
  }

  lemma SortedNone(info: map<int, AddrInfo>)
    ensures Sorted(info, {}, {}, map[])
  {
  }

  method CheckEntry(m: Manager, n: int) returns (err: int)
    requires n in m.mapInfo
    modifies m`mapAddr
    ensures m.mapAddr == old(m.mapAddr) || m.mapAddr == Subscripted(old(m.mapAddr), m.mapInfo[n].Ip())
    ensures err == 0 <==> EntryOk(m.mapInfo, m.mapAddr, m.vRandom, n)
    ensures EntryOk(m.mapInfo, old(m.mapAddr), m.vRandom, n) ==> err == 0 && m.mapAddr == old(m.mapAddr)
  {
    var info := m.mapInfo[n];
    if info.fInTried {
      if info.nLastSuccess == 0 {
        return -1;
      }
      if info.nRefCount != 0 {
        return -2;
      }
    } else {
      if info.nRefCount < 0 || info.nRefCount > NEW_BUCKETS_PER_ADDRESS {
        return -3;
      }
      if info.nRefCount == 0 {
        return -4;
      }
    }
    m.mapAddr := Subscripted(m.mapAddr, info.Ip());
    if m.mapAddr[info.Ip()] != n {
      return -5;
    }
    if info.nRandomPos < 0 || info.nRandomPos >= |m.vRandom| || m.vRandom[info.nRandomPos] != n {
      return -14;
    }
    if info.nLastTry < 0 {
      return -6;
    }
    if info.nLastSuccess < 0 {
      return -8;
    }
    return 0;
  }

  method CheckEntries(m: Manager) returns (err: int, setTried: set<int>, mapNew: map<int, int>)
    modifies m`mapAddr
    ensures err == 0 ==> EntriesOk(m.mapInfo, m.mapAddr, m.vRandom)
    ensures err == 0 ==> setTried == TriedIds(m.mapInfo) && Counts(m.mapInfo, m.mapInfo.Keys, mapNew)
    ensures EntriesOk(m.mapInfo, old(m.mapAddr), m.vRandom) ==> err == 0 && m.mapAddr == old(m.mapAddr)
  {
    hide EntryOk, Sorted, Counts, Subscripted;
    setTried, mapNew := {}, map[];
    var left := m.mapInfo.Keys;
    ghost var done: set<int> := {};
    SortedNone(m.mapInfo);
    while left != {}
      invariant left + done == m.mapInfo.Keys && left !! done
      invariant forall id :: id in done ==> EntryOk(m.mapInfo, m.mapAddr, m.vRandom, id)
      invariant Sorted(m.mapInfo, done, setTried, mapNew)
      invariant EntriesOk(m.mapInfo, old(m.mapAddr), m.vRandom) ==> m.mapAddr == old(m.mapAddr)
      decreases |left|
    {
      var n := AnyOf(left);
      ghost var was := m.mapAddr;
      var info := m.mapInfo[n];
      err := CheckEntry(m, n);
      if err != 0 {
        return;
      }
      EntriesStay(m.mapInfo, was, m.mapAddr, m.vRandom, info.Ip(), done);
      SortedStep(m.mapInfo, done, setTried, mapNew, n);
      if info.fInTried {
        setTried := setTried + {n};
      } else {
        mapNew := mapNew[n := info.nRefCount];
      }
      left, done := left - {n}, done + {n};
    }
    assert done == m.mapInfo.Keys;
    SortedAll(m.mapInfo, setTried, mapNew);
    err := 0;
  }

  lemma EntriesStay(info: map<int, AddrInfo>, addr: map<NetAddr, int>, addr': map<NetAddr, int>, random: seq<int>, ip: NetAddr, ids: set<int>)
    requires addr' == addr || addr' == Subscripted(addr, ip)
    requires forall id :: id in ids ==> id in info && EntryOk(info, addr, random, id)
    ensures forall id :: id in ids ==> EntryOk(info, addr', random, id)
  {
  }

  // ---------- The tried table ----------

  /** Slots gone through before position `i` of bucket `n`. */
  ghost predicate Before(s: Slot, n: nat, i: nat) {
    s.bucket < n || (s.bucket == n && s.pos < i)
  }

  /** The tried slots gone through hold tried entries at their own places. */
  ghost predicate TriedUpTo(b: Book, p: Params, n: nat, i: nat) {
    forall s :: s in b.triedTab && Before(s, n, i) ==>
      b.triedTab[s] in b.info && b.info[b.triedTab[s]].fInTried && p.TriedSlot(b.info[b.triedTab[s]]) == s
  }

  /** The tried entries not met yet. */
  ghost predicate NotMet(b: Book, n: nat, i: nat, rest: set<int>) {
    forall id :: id in rest <==> id in TriedIds(b.info) && Unmet(b, n, i, id)
  }

  ghost predicate Unmet(b: Book, n: nat, i: nat, id: int) {
    forall s :: s in b.triedTab && Before(s, n, i) ==> b.triedTab[s] != id
  }

  lemma TriedStep(b: Book, p: Params, n: nat, i: nat, rest: set<int>)
    requires TriedUpTo(b, p, n, i) && NotMet(b, n, i, rest)
    requires var s := Slot(n, i); s in b.triedTab ==> b.triedTab[s] in rest && b.triedTab[s] in b.info && p.TriedSlot(b.info[b.triedTab[s]]) == s
    ensures TriedUpTo(b, p, n, i + 1)
    ensures var s := Slot(n, i); NotMet(b, n, i + 1, if s in b.triedTab then rest - {b.triedTab[s]} else rest)
  {
    var s := Slot(n, i);
    forall t
      ensures Before(t, n, i + 1) <==> Before(t, n, i) || t == s
    {
      assert t == Slot(t.bucket, t.pos);
    }
    if s in b.triedTab {
      var id := b.triedTab[s];
      assert id in rest;
      assert id in TriedIds(b.info);
    }
  }

  lemma TriedWrap(b: Book, p: Params, n: nat, rest: set<int>)
    requires TriedUpTo(b, p, n, BUCKET_SIZE) && NotMet(b, n, BUCKET_SIZE, rest)
    requires forall s :: s in b.triedTab ==> s.pos < BUCKET_SIZE
    ensures TriedUpTo(b, p, n + 1, 0) && NotMet(b, n + 1, 0, rest)
  {
    forall s | s in b.triedTab
      ensures Before(s, n, BUCKET_SIZE) <==> Before(s, n + 1, 0)
    {
    }
  }

  lemma TriedMeets(b: Book, p: Params, n: nat, i: nat, rest: set<int>)
    requires TriedOk(b, p) && NotMet(b, n, i, rest) && Slot(n, i) in b.triedTab
    ensures var s := Slot(n, i); b.triedTab[s] in rest && p.TriedSlot(b.info[b.triedTab[s]]) == s
  {
    var s := Slot(n, i);
    assert b.triedTab[s] in TriedIds(b.info);
    forall t | t in b.triedTab && Before(t, n, i)
      ensures b.triedTab[t] != b.triedTab[s]
    {
      assert p.TriedSlot(b.info[b.triedTab[t]]) == t && p.TriedSlot(b.info[b.triedTab[s]]) == s;
    }
  }

  lemma NoneMet(b: Book, p: Params)
    ensures TriedUpTo(b, p, 0, 0) && NotMet(b, 0, 0, TriedIds(b.info))
  {
  }

  method CheckTried(m: Manager, setTried: set<int>) returns (err: int, rest: set<int>)
    requires m.Shaped() && setTried == TriedIds(m.mapInfo)
    ensures err == 0 ==> TriedUpTo(m.Abs(), m.params, TRIED_BUCKET_COUNT, 0) && NotMet(m.Abs(), TRIED_BUCKET_COUNT, 0, rest)
    ensures TriedOk(m.Abs(), m.params) ==> err == 0
  {
    hide TableOf, TriedUpTo, NotMet, TriedOk;
    ghost var b := m.Abs();
    rest := setTried;
    NoneMet(b, m.params);
    InTable(m.vvTried);
    for n := 0 to TRIED_BUCKET_COUNT
      invariant TriedUpTo(b, m.params, n, 0) && NotMet(b, n, 0, rest)
    {
      for i := 0 to BUCKET_SIZE
        invariant TriedUpTo(b, m.params, n, i) && NotMet(b, n, i, rest)
      {
        ghost var s := Slot(n, i);
        TableAt(m.vvTried, s);
        if TriedOk(b, m.params) && s in b.triedTab {
          TriedMeets(b, m.params, n, i, rest);
        }
        if m.vvTried[n, i] != EMPTY {
          var id := m.vvTried[n, i];
          if id !in rest {
            return -11, rest;
          }
          RestKnown(b, n, i, rest);
          var info := m.mapInfo[id];
          if m.params.hashing.triedBucket(m.params.key, info.address.service) != n {
            return -17, rest;
          }
          if m.params.hashing.position(m.params.key, false, n, info.address.service) != i {
            return -18, rest;
          }
          TriedStep(b, m.params, n, i, rest);
          rest := rest - {id};
        } else {
          TriedStep(b, m.params, n, i, rest);
        }
      }
      TriedWrap(b, m.params, n, rest);
    }
    err := 0;
  }

  lemma InTable(a: array2<int>)
    ensures forall s :: s in TableOf(a) ==> s.bucket < a.Length0 && s.pos < a.Length1
  {
  }

  lemma RestKnown(b: Book, n: nat, i: nat, rest: set<int>)
    requires NotMet(b, n, i, rest)
    ensures forall id :: id in rest ==> id in b.info
  {
    assert forall id :: id in TriedIds(b.info) ==> id in b.info;
  }

  // ---------- The new table ----------

  /** The new slots gone through hold new entries at their own positions. */
  ghost predicate NewUpTo(b: Book, p: Params, n: nat, i: nat) {
    forall s :: s in b.newTab && Before(s, n, i) ==>
      b.newTab[s] in b.info && !b.info[b.newTab[s]].fInTried && p.NewSlot(b.info[b.newTab[s]], s.bucket) == s
  }

  /** The slots gone through that refer to an entry. */
  function SlotsUpTo(tab: Table, id: int, n: nat, i: nat): set<Slot> {
    set s | s in tab && tab[s] == id && (s.bucket < n || (s.bucket == n && s.pos < i))
  }

  /** What is left of the counts: an entry is dropped when its count is used up. */
  ghost predicate Left(b: Book, mapNew: map<int, int>, n: nat, i: nat, rest: map<int, int>) {
    && (forall id :: id in mapNew ==> |SlotsUpTo(b.newTab, id, n, i)| <= mapNew[id])
    && (forall id :: id in rest <==> id in mapNew && |SlotsUpTo(b.newTab, id, n, i)| < mapNew[id])
    && (forall id :: id in rest ==> rest[id] == mapNew[id] - |SlotsUpTo(b.newTab, id, n, i)|)
  }

  lemma SlotsUpToStep(tab: Table, id: int, n: nat, i: nat)
    ensures var s := Slot(n, i);
            |SlotsUpTo(tab, id, n, i + 1)| == |SlotsUpTo(tab, id, n, i)| + if s in tab && tab[s] == id then 1 else 0
  {
    var s := Slot(n, i);
    var u, v := SlotsUpTo(tab, id, n, i), SlotsUpTo(tab, id, n, i + 1);
    forall t
      ensures t in v <==> t in u || (t == s && s in tab && tab[s] == id)
    {
      assert t == Slot(t.bucket, t.pos);
    }
    assert s !in u;
    if s in tab && tab[s] == id {
      assert v == u + {s};
    } else {
      assert v == u;
    }
  }

  lemma LeftStep(b: Book, mapNew: map<int, int>, n: nat, i: nat, rest: map<int, int>)
    requires Left(b, mapNew, n, i, rest)
    requires var s := Slot(n, i); s in b.newTab ==> b.newTab[s] in rest
    ensures var s := Slot(n, i);
            Left(b, mapNew, n, i + 1,
                 if s !in b.newTab then rest
                 else if rest[b.newTab[s]] == 1 then rest - {b.newTab[s]}
                 else rest[b.newTab[s] := rest[b.newTab[s]] - 1])
  {
    hide SlotsUpTo;
    forall id
      ensures var s := Slot(n, i);
              |SlotsUpTo(b.newTab, id, n, i + 1)| == |SlotsUpTo(b.newTab, id, n, i)| + if s in b.newTab && b.newTab[s] == id then 1 else 0
    {
      SlotsUpToStep(b.newTab, id, n, i);
    }
  }

  lemma NewStep(b: Book, p: Params, n: nat, i: nat)
    requires NewUpTo(b, p, n, i)
    requires var s := Slot(n, i);
             s in b.newTab ==> b.newTab[s] in b.info && !b.info[b.newTab[s]].fInTried && p.NewSlot(b.info[b.newTab[s]], n) == s
    ensures NewUpTo(b, p, n, i + 1)
  {
    forall t
      ensures Before(t, n, i + 1) <==> Before(t, n, i) || t == Slot(n, i)
    {
      assert t == Slot(t.bucket, t.pos);
    }
  }

  lemma NewWrap(b: Book, p: Params, mapNew: map<int, int>, n: nat, rest: map<int, int>)
    requires NewUpTo(b, p, n, BUCKET_SIZE) && Left(b, mapNew, n, BUCKET_SIZE, rest)
    requires forall s :: s in b.newTab ==> s.pos < BUCKET_SIZE
    ensures NewUpTo(b, p, n + 1, 0) && Left(b, mapNew, n + 1, 0, rest)
  {
    forall id
      ensures SlotsUpTo(b.newTab, id, n, BUCKET_SIZE) == SlotsUpTo(b.newTab, id, n + 1, 0)
    {
    }
  }

  lemma NothingLeft(b: Book, p: Params, mapNew: map<int, int>)
    requires forall id :: id in mapNew ==> mapNew[id] > 0
    ensures NewUpTo(b, p, 0, 0) && Left(b, mapNew, 0, 0, mapNew)
  {
    forall id
      ensures SlotsUpTo(b.newTab, id, 0, 0) == {}
    {
    }
  }

  /** In consistent tables the counts last for every slot. */
  lemma CountLasts(b: Book, p: Params, mapNew: map<int, int>, n: nat, i: nat, rest: map<int, int>)
    requires NewOk(b, p) && RefsOk(b, {}) && Counts(b.info, b.info.Keys, mapNew) && Left(b, mapNew, n, i, rest)
    ensures var s := Slot(n, i); s in b.newTab ==> b.newTab[s] in rest && p.NewSlot(b.info[b.newTab[s]], n) == s
  {
    var s := Slot(n, i);
    if s in b.newTab {
      var id := b.newTab[s];
      assert id in b.info && !b.info[id].fInTried && id in mapNew;
      var u, v := SlotsUpTo(b.newTab, id, n, i), SlotsOf(b.newTab, id);
      assert u <= v - {s};
      SubsetSize(u, v - {s});
      assert s in v;
    }
  }

  method CheckNew(m: Manager, mapNew: map<int, int>) returns (err: int, rest: map<int, int>)
    requires m.Shaped() && Counts(m.mapInfo, m.mapInfo.Keys, mapNew) && forall id :: id in mapNew ==> mapNew[id] > 0
    ensures err == 0 ==> NewUpTo(m.Abs(), m.params, NEW_BUCKET_COUNT, 0) && Left(m.Abs(), mapNew, NEW_BUCKET_COUNT, 0, rest)
    ensures NewOk(m.Abs(), m.params) && RefsOk(m.Abs(), {}) ==> err == 0
  {
    hide TableOf, NewUpTo, Left, NewOk, RefsOk, Counts;
    ghost var b := m.Abs();
    rest := mapNew;
    NothingLeft(b, m.params, mapNew);
    InTable(m.vvNew);
    for n := 0 to NEW_BUCKET_COUNT
      invariant NewUpTo(b, m.params, n, 0) && Left(b, mapNew, n, 0, rest)
    {
      for i := 0 to BUCKET_SIZE
        invariant NewUpTo(b, m.params, n, i) && Left(b, mapNew, n, i, rest)
      {
        TableAt(m.vvNew, Slot(n, i));
        if NewOk(b, m.params) && RefsOk(b, {}) {
          CountLasts(b, m.params, mapNew, n, i, rest);
        }
        if m.vvNew[n, i] != EMPTY {
          var id := m.vvNew[n, i];
          if id !in rest {
            return -12, rest;
          }
          LeftKnown(b, mapNew, n, i, rest, id);
          if m.params.hashing.position(m.params.key, true, n, m.mapInfo[id].address.service) != i {
            return -19, rest;
          }
          LeftStep(b, mapNew, n, i, rest);
          NewStep(b, m.params, n, i);
          ghost var was := rest;
          rest := rest[id := rest[id] - 1];
          if rest[id] == 0 {
            rest := rest - {id};
            assert rest == was - {id};
          }
        } else {
          LeftStep(b, mapNew, n, i, rest);
          NewStep(b, m.params, n, i);
        }
      }
      NewWrap(b, m.params, mapNew, n, rest);
    }
    err := 0;
  }

  lemma LeftKnown(b: Book, mapNew: map<int, int>, n: nat, i: nat, rest: map<int, int>, id: int)
    requires Left(b, mapNew, n, i, rest) && Counts(b.info, b.info.Keys, mapNew) && id in rest
    ensures id in b.info && !b.info[id].fInTried
  {
  }

  // ---------- The whole check ----------

  /** What the check does not look at: identifiers below the counter, and no address without an entry. */
  ghost predicate Tidy(b: Book) {
    && (forall id :: id in b.info ==> 0 <= id < b.nIdCount)
    && (forall a :: a in b.addr ==> b.addr[a] in b.info && b.info[b.addr[a]].Ip() == a)
  }

  /** Distinct places among as many: every place is taken. */
  lemma RandomFull(b: Book)
    requires EntriesOk(b.info, b.addr, b.random) && |b.random| == |b.info.Keys|
    ensures RandomOk(b)
  {
    var places := Places(b.info, b.info.Keys);
    PlacesSize(b, b.info.Keys);
    var all := Below(|b.random|);
    assert places <= all;
    SameSize(places, all);
    forall i | 0 <= i < |b.random|
      ensures b.random[i] in b.info && b.info[b.random[i]].nRandomPos == i
    {
      assert i in all;
      var id :| id in b.info && b.info[id].nRandomPos == i;
    }
  }

  ghost function Places(info: map<int, AddrInfo>, ids: set<int>): set<int>
    requires ids <= info.Keys
  {
    set id | id in ids :: info[id].nRandomPos
  }

  lemma {:induction false} PlacesSize(b: Book, ids: set<int>)
    requires EntriesOk(b.info, b.addr, b.random) && ids <= b.info.Keys
    ensures |Places(b.info, ids)| == |ids|
  {
    if ids != {} {
      HasMember(ids);
      var x :| x in ids;
      PlacesSize(b, ids - {x});
      var rest, place := Places(b.info, ids - {x}), b.info[x].nRandomPos;
      assert place !in rest;
      assert Places(b.info, ids) == rest + {place};
    } else {
      assert Places(b.info, ids) == {};
    }
  }

  function Below(n: nat): (r: set<int>)
    ensures |r| == n && forall i :: i in r <==> 0 <= i < n
  {
    if n == 0 then {} else Below(n - 1) + {n - 1}
  }

  lemma {:induction false} SameSize(u: set<int>, v: set<int>)
    requires u <= v && |u| == |v|
    ensures u == v
  {
    if u != {} {
      HasMember(u);
      var x :| x in u;
      SameSize(u - {x}, v - {x});
    }
  }

  lemma Populations(info: map<int, AddrInfo>)
    ensures |info.Keys| == |TriedIds(info)| + |NewIds(info)|
  {
    assert info.Keys == TriedIds(info) + NewIds(info);
    assert TriedIds(info) !! NewIds(info);
  }

  /** Consistent tables pass: entry by entry. */
  lemma InvEntries(b: Book, p: Params)
    requires Inv(b, p)
    ensures EntriesOk(b.info, b.addr, b.random) && |b.random| == b.nTried + b.nNew && Tidy(b)
  {
    forall id | id in b.info
      ensures EntryOk(b.info, b.addr, b.random, id)
    {
      if b.info[id].fInTried {
        assert SlotsOf(b.newTab, id) == {};
      }
      assert EntryStatsOk(b.info[id]);
    }
    Populations(b.info);
    RandomSize(b);
  }

  lemma RandomSize(b: Book)
    requires RandomOk(b)
    ensures |b.random| == |b.info.Keys|
  {
    ListedOnce(b, |b.random|);
    assert b.random[..|b.random|] == b.random;
    forall id
      ensures id in b.random <==> id in b.info
    {
      if id in b.info {
        assert b.random[b.info[id].nRandomPos] == id;
      }
    }
    assert (set x | x in b.random) == b.info.Keys;
  }

  lemma {:induction false} ListedOnce(b: Book, n: nat)
    requires RandomOk(b) && n <= |b.random|
    ensures |set x | x in b.random[..n]| == n
  {
    if n > 0 {
      ListedOnce(b, n - 1);
      var s, x := b.random[..n - 1], b.random[n - 1];
      assert b.random[..n] == s + [x];
      assert x !in s by {
        forall i | 0 <= i < n - 1
          ensures s[i] != x
        {
          assert b.info[b.random[i]].nRandomPos == i && b.info[x].nRandomPos == n - 1;
        }
      }
      assert (set y | y in b.random[..n]) == (set y | y in s) + {x};
    }
  }

  lemma CountsPositive(b: Book, mapNew: map<int, int>)
    requires EntriesOk(b.info, b.addr, b.random) && Counts(b.info, b.info.Keys, mapNew)
    ensures (forall id :: id in mapNew ==> mapNew[id] > 0) && mapNew.Keys == NewIds(b.info)
  {
    forall id | id in mapNew
      ensures mapNew[id] > 0
    {
      assert EntryOk(b.info, b.addr, b.random, id);
    }
    forall id
      ensures id in mapNew.Keys <==> id in NewIds(b.info)
    {
    }
  }

  /** Tables that pass are consistent. */
  lemma Passed(b: Book, p: Params, mapNew: map<int, int>)
    requires EntriesOk(b.info, b.addr, b.random) && Tidy(b) && |b.random| == b.nTried + b.nNew
    requires Counts(b.info, b.info.Keys, mapNew) && |TriedIds(b.info)| == b.nTried && |NewIds(b.info)| == b.nNew
    requires TriedUpTo(b, p, TRIED_BUCKET_COUNT, 0) && NotMet(b, TRIED_BUCKET_COUNT, 0, {})
    requires NewUpTo(b, p, NEW_BUCKET_COUNT, 0) && Left(b, mapNew, NEW_BUCKET_COUNT, 0, map[])
    requires forall s :: s in b.triedTab ==> s.bucket < TRIED_BUCKET_COUNT
    requires forall s :: s in b.newTab ==> s.bucket < NEW_BUCKET_COUNT
    ensures Inv(b, p)
  {
    hide EntryOk, TriedUpTo, NotMet, NewUpTo, Left, Counts;
    Populations(b.info);
    RandomFull(b);
    PassedEntries(b);
    PassedTried(b, p);
    PassedNew(b, p, mapNew);
  }

  lemma PassedEntries(b: Book)
    requires EntriesOk(b.info, b.addr, b.random) && Tidy(b)
    ensures AddrOk(b) && StatsOk(b)
  {
    forall id | id in b.info
      ensures b.info[id].Ip() in b.addr && b.addr[b.info[id].Ip()] == id && EntryStatsOk(b.info[id])
    {
      assert EntryOk(b.info, b.addr, b.random, id);
    }
  }

  lemma PassedTried(b: Book, p: Params)
    requires TriedUpTo(b, p, TRIED_BUCKET_COUNT, 0) && NotMet(b, TRIED_BUCKET_COUNT, 0, {})
    requires forall s :: s in b.triedTab ==> s.bucket < TRIED_BUCKET_COUNT
    ensures TriedOk(b, p)
  {
    forall id | id in b.info && b.info[id].fInTried
      ensures p.TriedSlot(b.info[id]) in b.triedTab && b.triedTab[p.TriedSlot(b.info[id])] == id
    {
      assert id in TriedIds(b.info) && id !in {};
      assert !Unmet(b, TRIED_BUCKET_COUNT, 0, id);
      var s :| s in b.triedTab && Before(s, TRIED_BUCKET_COUNT, 0) && b.triedTab[s] == id;
    }
  }

  lemma PassedNew(b: Book, p: Params, mapNew: map<int, int>)
    requires EntriesOk(b.info, b.addr, b.random) && Counts(b.info, b.info.Keys, mapNew)
    requires NewUpTo(b, p, NEW_BUCKET_COUNT, 0) && Left(b, mapNew, NEW_BUCKET_COUNT, 0, map[])
    requires forall s :: s in b.newTab ==> s.bucket < NEW_BUCKET_COUNT
    ensures NewOk(b, p) && RefsOk(b, {})
  {
    forall id | id in b.info
      ensures b.info[id].nRefCount == |SlotsOf(b.newTab, id)| && b.info[id].nRefCount <= NEW_BUCKETS_PER_ADDRESS
      ensures !b.info[id].fInTried ==> b.info[id].nRefCount >= 1
    {
      assert EntryOk(b.info, b.addr, b.random, id);
      if b.info[id].fInTried {
        assert SlotsOf(b.newTab, id) == {};
      } else {
        assert id in mapNew;
        assert SlotsUpTo(b.newTab, id, NEW_BUCKET_COUNT, 0) == SlotsOf(b.newTab, id);
      }
    }
  }

  /** The exact meaning of a zero: the invariant, as far as the check looks, and a key. */
  method Check(m: Manager) returns (err: int)
    requires m.Shaped()
    modifies m`mapAddr
    ensures Inv(old(m.Abs()), m.params) && m.params.key != 0 ==> err == 0 && m.mapAddr == old(m.mapAddr)
    ensures err == 0 && Tidy(m.Abs()) ==> Inv(m.Abs(), m.params) && m.params.key != 0
  {
    hide TableOf, EntriesOk, TriedUpTo, NotMet, NewUpTo, Left, Counts, InvBut, AddrOk, RandomOk, TriedOk, NewOk, RefsOk, CountsOk, StatsOk;
    ghost var b, p := m.Abs(), m.params;
    if Inv(b, p) {
      InvEntries(b, p);
      InvTables(b, p);
    }
    if |m.vRandom| != m.nTried + m.nNew {
      return -7;
    }
    var setTried, mapNew;
    err, setTried, mapNew := CheckEntries(m);
    if err != 0 {
      return;
    }
    ghost var c := m.Abs();
    CountsPositive(c, mapNew);
    if |setTried| != m.nTried {
      return -9;
    }
    if |mapNew.Keys| != m.nNew {
      return -10;
    }
    var restTried, restNew;
    err, restTried := CheckTried(m, setTried);
    if err != 0 {
      return;
    }
    err, restNew := CheckNew(m, mapNew);
    if err != 0 {
      return;
    }
    InTable(m.vvTried);
    InTable(m.vvNew);
    if Inv(b, p) {
      NoneRemain(b, p, mapNew, restTried, restNew);
    }
    if restTried != {} {
      return -13;
    }
    if restNew != map[] {
      return -15;
    }
    if m.params.key == 0 {
      return -16;
    }
    if Tidy(c) {
      Passed(c, p, mapNew);
    }
    return 0;
  }

  lemma InvTables(b: Book, p: Params)
    requires Inv(b, p)
    ensures TriedOk(b, p) && NewOk(b, p) && RefsOk(b, {}) && |TriedIds(b.info)| == b.nTried && |NewIds(b.info)| == b.nNew
  {
  }

  lemma NoneRemain(b: Book, p: Params, mapNew: map<int, int>, restTried: set<int>, restNew: map<int, int>)
    requires Inv(b, p) && Counts(b.info, b.info.Keys, mapNew)
    requires NotMet(b, TRIED_BUCKET_COUNT, 0, restTried) && Left(b, mapNew, NEW_BUCKET_COUNT, 0, restNew)
    requires forall s :: s in b.triedTab ==> s.bucket < TRIED_BUCKET_COUNT
    requires forall s :: s in b.newTab ==> s.bucket < NEW_BUCKET_COUNT
    ensures restTried == {} && restNew == map[]
  {
    hide AddrOk, RandomOk, CountsOk, StatsOk;
    forall id
      ensures id !in restTried && id !in restNew
    {
      if id in TriedIds(b.info) {
        var s := p.TriedSlot(b.info[id]);
        assert s in b.triedTab && b.triedTab[s] == id && Before(s, TRIED_BUCKET_COUNT, 0);
      }
      if id in mapNew {
        assert SlotsUpTo(b.newTab, id, NEW_BUCKET_COUNT, 0) == SlotsOf(b.newTab, id);
      }
    }
  }

  // ---------- Runs ----------

  /** What can happen to a manager. Times are clock readings; random numbers are arbitrary. */
  datatype Op =
    | AddOp(address: Address, source: NetAddr, penalty: int, now: int, random: nat)
    | GoodOp(service: Service, testBeforeEvict: bool, time: int, rnd: nat)
    | AttemptOp(service: Service, countFailure: bool, time: int)
    | ConnectedOp(service: Service, time: int)
    | ServicesOp(service: Service, services: bv64)
    | GetAddrOp(maxAddresses: nat, maxPct: nat, network: Option<nat>, now: int)
    | ResolveOp(now: int)
    | SelectOp

  predicate Possible(op: Op) {
    match op
    case GoodOp(_, _, time, rnd) => time > 0 && rnd < NEW_BUCKET_COUNT
    case AttemptOp(_, _, time) => time >= 0
    case ResolveOp(now) => now > 0
    case _ => true
  }

  /** A moment of a run: the tables, the entries that wait for a tried slot, and the time of the last success. */
  datatype Moment = Moment(book: Book, waiting: set<int>, lastGood: int)

  ghost function Now(m: Manager): Moment
    reads m, m.vvNew, m.vvTried
  {
    Moment(m.Abs(), m.mTriedCollisions, m.nLastGood)
  }

  /** What each operation does. */
  ghost predicate Took(p: Params, isRoutable: NetAddr -> bool, isValid: NetAddr -> bool, op: Op, x: Moment, y: Moment) {
    var b, c := x.book, y.book;
    match op
    case AddOp(address, source, penalty, now, random) =>
      Announced(b, c, p, isRoutable, address, source, penalty, now, random) && y == x.(book := c)
    case GoodOp(service, test, time, _) =>
      Succeeded(b, x.waiting, c, y.waiting, p, service, test, time) && y.lastGood == time
    case AttemptOp(service, countFailure, time) =>
      Attempted(b, c, service, countFailure, time, x.lastGood) && y == x.(book := c)
    case ConnectedOp(service, time) => Met(b, c, service, time) && y == x.(book := c)
    case ServicesOp(service, services) => Offers(b, c, service, services) && y == x.(book := c)
    case GetAddrOp(_, _, _, _) => Reordered(b, c) && y == x.(book := c)
    case ResolveOp(now) => exists order, books :: Resolved(b, x.waiting, c, y.waiting, p, isValid, now, order, books)
    case SelectOp =>
      && y == x.(waiting := y.waiting)
      && (y.waiting == x.waiting || exists id :: id in x.waiting && id !in b.info && y.waiting == x.waiting - {id})
  }

  method Apply(m: Manager, op: Op)
    requires m.Valid() && Possible(op)
    modifies m, m.vvNew, m.vvTried
    ensures m.Valid() && Took(m.params, m.isRoutable, m.isValid, op, old(Now(m)), Now(m))
  {
    hide Inv, CollisionsOk, TableOf, Announced, Succeeded, Attempted, Met, Offers, Reordered, Resolved;
    match op {
      case AddOp(address, source, penalty, now, random) =>
        var _ := m.Add(address, source, penalty, now, random);
      case GoodOp(service, testBeforeEvict, time, rnd) =>
        m.Good(service, testBeforeEvict, time, rnd);
      case AttemptOp(service, countFailure, time) =>
        m.Attempt(service, countFailure, time);
      case ConnectedOp(service, time) =>
        m.Connected(service, time);
      case ServicesOp(service, services) =>
        m.SetServices(service, services);
      case GetAddrOp(maxAddresses, maxPct, network, now) =>
        var _, _ := m.GetAddr(maxAddresses, maxPct, network, now);
      case ResolveOp(now) =>
        ghost var _, _ := m.ResolveCollisions(now);
      case SelectOp =>
        var _, _ := m.SelectTriedCollision();
    }
  }

  /** From an empty manager, any operations in any order: the consistency check finds nothing after any of them. */
  method Run(params: Params, isRoutable: NetAddr -> bool, isValid: NetAddr -> bool, netClass: NetAddr -> nat, ops: seq<Op>)
    returns (codes: seq<int>, ghost moments: seq<Moment>)
    requires params.key != 0 && forall i :: 0 <= i < |ops| ==> Possible(ops[i])
    ensures |codes| == |ops| && forall i :: 0 <= i < |codes| ==> codes[i] == 0
    ensures |moments| == |ops| + 1 && moments[0] == Moment(Book(map[], map[], [], map[], map[], 0, 0, 0), {}, 1)
    ensures forall i :: 0 <= i < |ops| ==> Took(params, isRoutable, isValid, ops[i], moments[i], moments[i + 1])
    ensures forall i :: 0 <= i < |moments| ==> Inv(moments[i].book, params)
  {
    hide Inv, CollisionsOk, TableOf, Possible, Tidy, Took;
    var m := new Manager(params, isRoutable, isValid, netClass);
    codes, moments := [], [Now(m)];
    var i := 0;
    while i < |ops|
      invariant 0 <= i <= |ops| && m.Valid() && fresh(m) && fresh(m.vvNew) && fresh(m.vvTried)
      invariant m.params == params && m.isRoutable == isRoutable && m.isValid == isValid
      invariant |codes| == i && forall j :: 0 <= j < i ==> codes[j] == 0
      invariant |moments| == i + 1 && moments[i] == Now(m)
      invariant moments[0] == Moment(Book(map[], map[], [], map[], map[], 0, 0, 0), {}, 1)
      invariant forall j :: 0 <= j < i ==> Took(params, isRoutable, isValid, ops[j], moments[j], moments[j + 1])
      invariant forall j :: 0 <= j < |moments| ==> Inv(moments[j].book, params)
    {
      Apply(m, ops[i]);
      moments := moments + [Now(m)];
      var code := Check(m);
      assert m.Abs() == moments[i + 1].book;
      codes := codes + [code];
      i := i + 1;
    }
  }
}
