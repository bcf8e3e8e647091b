/**
  The address manager itself (src/addrman.h, src/addrman.cpp): the operations as methods on
  the mutable tables, each proved to act on the book of module AddrBook as it should and to
  keep the invariant of `Check_`.

  Clocks, randomness and the classification of addresses are parameters.
*/
module AddrMan {

  import opened AddrBook
  import opened Basics

  const EMPTY := -1

  const HORIZON_DAYS := 30
  const RETRIES := 3
  const MAX_FAILURES := 10
  const MIN_FAIL_DAYS := 7
  const REPLACEMENT_HOURS := 4
  const TEST_WINDOW := 40 * 60

  /** Whether the statistics of an entry are bad enough to drop it. */
  predicate IsTerrible(info: AddrInfo, now: int) {
    if info.nLastTry != 0 && info.nLastTry >= now - 60 then false
    else if info.address.nTime > now + 10 * 60 then true
    else if info.address.nTime == 0 || now - info.address.nTime > HORIZON_DAYS * 24 * 60 * 60 then true
    else if info.nLastSuccess == 0 && info.nAttempts >= RETRIES then true
    else now - info.nLastSuccess > MIN_FAIL_DAYS * 24 * 60 * 60 && info.nAttempts >= MAX_FAILURES
  }

  /** A success and a try, if not both too long ago, are what saves an entry with failures behind it. */
  ghost predicate Promising(info: AddrInfo, now: int) {
    var recent := info.address.nTime != 0 && now - 30 * 86400 <= info.address.nTime <= now + 600;
    || (info.nLastTry != 0 && now - info.nLastTry <= 60)
    || (recent && info.nAttempts < 3)
    || (recent && info.nLastSuccess != 0 && (info.nAttempts < 10 || now - info.nLastSuccess <= 7 * 86400))
  }

  /** An entry is kept exactly if it was tried in the last minute, or is recent and has not failed too often. */
  lemma TerribleIff(info: AddrInfo, now: int)
    ensures IsTerrible(info, now) <==> !Promising(info, now)
  {
  }

  /** A further attempt never makes an entry better, except that it counts as one for a minute. */
  lemma AttemptsCount(info: AddrInfo, more: nat, now: int)
    requires IsTerrible(info, now)
    ensures IsTerrible(info.(nAttempts := info.nAttempts + more), now)
  {
  }

  // ---------- What the operations do to the tables ----------

  /** There is an entry with exactly this address and port. */
  ghost predicate Known(b: Book, service: Service) {
    service.ip in b.addr && b.addr[service.ip] in b.info && b.info[b.addr[service.ip]].address.service == service
  }

  /** An attempt to connect is noted; a failure counts unless one was counted since the last success of any entry. */
  ghost predicate Attempted(b: Book, c: Book, service: Service, countFailure: bool, time: int, lastGood: int) {
    if !Known(b, service) then c == b
    else
      var id := b.addr[service.ip];
      var entry := b.info[id];
      var counted := countFailure && entry.nLastCountAttempt < lastGood;
      c == Touch(b, id, entry.(
        nLastTry := time,
        nLastCountAttempt := if counted then time else entry.nLastCountAttempt,
        nAttempts := entry.nAttempts + if counted then 1 else 0))
  }

  /** The time of a peer that is connected is brought up to date in steps of more than twenty minutes. */
  ghost predicate Met(b: Book, c: Book, service: Service, time: int) {
    if !Known(b, service) then c == b
    else
      var id := b.addr[service.ip];
      var entry := b.info[id];
      c == Touch(b, id, entry.(address := entry.address.(nTime := if time - entry.address.nTime > 20 * 60 then time else entry.address.nTime)))
  }

  ghost predicate Offers(b: Book, c: Book, service: Service, services: bv64) {
    if !Known(b, service) then c == b
    else
      var id := b.addr[service.ip];
      c == Touch(b, id, b.info[id].(address := b.info[id].address.(nServices := services)))
  }

  /** The entry after a successful connection. */
  ghost function Greeted(entry: AddrInfo, time: int): AddrInfo {
    entry.(nLastSuccess := time, nLastTry := time, nAttempts := 0)
  }

  /**
    A success is noted, and the entry moves to the tried table; where it should first be tested
    whether the entry in its way is still alive, it waits instead, if fewer than ten do.
  */
  ghost predicate Succeeded(b: Book, waiting: set<int>, c: Book, waiting': set<int>, p: Params, service: Service, test: bool, time: int) {
    if !Known(b, service) then c == b && waiting' == waiting
    else
      var id := b.addr[service.ip];
      var t := Touch(b, id, Greeted(b.info[id], time));
      if b.info[id].fInTried then c == t && waiting' == waiting
      else if test && p.TriedSlot(b.info[id]) in b.triedTab then
        c == t && waiting' == if |waiting| < 10 then waiting + {id} else waiting
      else
        Inv(t, p) && c == MadeTried(t, p, id) && waiting' == waiting
  }

  /** All that wait get their turn, in order; an entry stops waiting exactly if it is settled then. */
  ghost predicate Resolved(b: Book, waiting: set<int>, c: Book, waiting': set<int>, p: Params, isValid: NetAddr -> bool, now: int,
                           order: seq<int>, books: seq<Book>)
  {
    && waiting' <= waiting && Increasing(order) && (forall id :: id in order <==> id in waiting)
    && ResolveTrace(books, order, p, isValid, now) && books[0] == b && books[|order|] == c
    && Verdicts(books, order, waiting', p, isValid, now)
  }

  /** Whether the occupant of a new slot is terrible. */
  ghost predicate TerribleAt(b: Book, s: Slot, now: int) {
    s in b.newTab && b.newTab[s] in b.info && IsTerrible(b.info[b.newTab[s]], now)
  }

  // ---------- Tables as two-dimensional arrays ----------

  ghost function TableOf(a: array2<int>): Table
    reads a
  {
    map b, q | 0 <= b < a.Length0 && 0 <= q < a.Length1 && a[b, q] != EMPTY :: Slot(b, q) := a[b, q]
  }

  ghost predicate Fits(a: array2<int>, s: Slot) {
    s.bucket < a.Length0 && s.pos < a.Length1
  }

  lemma TableAt(a: array2<int>, s: Slot)
    ensures s in TableOf(a) <==> Fits(a, s) && a[s.bucket, s.pos] != EMPTY
    ensures s in TableOf(a) ==> TableOf(a)[s] == a[s.bucket, s.pos]
  {
  }

  method WriteSlot(a: array2<int>, s: Slot, id: int)
    requires Fits(a, s)
    modifies a
    ensures TableOf(a) == if id == EMPTY then old(TableOf(a)) - {s} else old(TableOf(a))[s := id]
  {
    a[s.bucket, s.pos] := id;
    ghost var before, after := old(TableOf(a)), TableOf(a);
    ghost var want := if id == EMPTY then before - {s} else before[s := id];
    forall t ensures (t in after <==> t in want) && (t in after ==> after[t] == want[t]) {}
    assert after == want;
  }

  method AnyOf(ids: set<int>) returns (id: int)
    requires ids != {}
    ensures id in ids
  {
    HasMember(ids);
    id :| id in ids;
  }

  lemma HasMember(ids: set<int>)
    ensures ids == {} || exists id :: id in ids
  {
    if !exists id :: id in ids {
      assert ids == {};
    }
  }

  /** Service bits of both announcements. */
  function Combined(a: bv64, b: bv64): bv64 {
    a | b
  }

  class Manager {
    const params: Params
    const isRoutable: NetAddr -> bool
    const isValid: NetAddr -> bool
    const netClass: NetAddr -> nat

    const vvNew: array2<int>
    const vvTried: array2<int>

    var nIdCount: int
    var mapInfo: map<int, AddrInfo>
    var mapAddr: map<NetAddr, int>
    var vRandom: seq<int>
    var nTried: int
    var nNew: int
    var nLastGood: int
    var mTriedCollisions: set<int>

    ghost predicate Shaped() {
      && vvNew.Length0 == NEW_BUCKET_COUNT && vvNew.Length1 == BUCKET_SIZE
      && vvTried.Length0 == TRIED_BUCKET_COUNT && vvTried.Length1 == BUCKET_SIZE
      && vvNew != vvTried
    }

    /** The tables as a value. */
    ghost function Abs(): Book
      reads this, vvNew, vvTried
    {
      Book(mapInfo, mapAddr, vRandom, TableOf(vvNew), TableOf(vvTried), nIdCount, nNew, nTried)
    }

    /** The consistency check, and that waiting collisions wait for occupied slots. */
    ghost predicate Valid()
      reads this, vvNew, vvTried
    {
      Shaped() && nIdCount >= 0 && Inv(Abs(), params) && CollisionsOk(Abs(), params, mTriedCollisions)
    }

    constructor (params: Params, isRoutable: NetAddr -> bool, isValid: NetAddr -> bool, netClass: NetAddr -> nat)
      ensures Valid() && fresh(vvNew) && fresh(vvTried)
      ensures this.params == params && this.isRoutable == isRoutable && this.isValid == isValid && this.netClass == netClass
      ensures Abs() == Book(map[], map[], [], map[], map[], 0, 0, 0) && mTriedCollisions == {} && nLastGood == 1
    {
      this.params := params;
      this.isRoutable, this.isValid, this.netClass := isRoutable, isValid, netClass;
      vvNew := new int[NEW_BUCKET_COUNT, BUCKET_SIZE]((_, _) => EMPTY);
      vvTried := new int[TRIED_BUCKET_COUNT, BUCKET_SIZE]((_, _) => EMPTY);
      nIdCount, nTried, nNew, nLastGood := 0, 0, 0, 1;
      mapInfo, mapAddr, vRandom, mTriedCollisions := map[], map[], [], {};
    }

    /** The identifier under which an address is known. */
    method Find(ip: NetAddr) returns (id: Option<int>)
      requires AddrOk(Abs())
      ensures id.Some? <==> ip in mapAddr
      ensures id.Some? ==> id.value == mapAddr[ip] && id.value in mapInfo && mapInfo[id.value].Ip() == ip
    {
      id := if ip in mapAddr && mapAddr[ip] in mapInfo then Some(mapAddr[ip]) else None;
    }

    method Create(address: Address, source: NetAddr) returns (id: int)
      modifies `nIdCount, `mapInfo, `mapAddr, `vRandom
      ensures Abs() == Created(old(Abs()), address, source) && id == old(nIdCount)
    {
      id := nIdCount;
      nIdCount := nIdCount + 1;
      mapInfo := mapInfo[id := NewEntry(address, source, |vRandom|)];
      mapAddr := mapAddr[address.service.ip := id];
      vRandom := vRandom + [id];
    }

    method SwapRandom(i: nat, j: nat)
      requires i < |vRandom| && j < |vRandom| && vRandom[i] in mapInfo && vRandom[j] in mapInfo
      modifies `mapInfo, `vRandom
      ensures Abs() == Swapped(old(Abs()), i, j)
    {
      if i == j {
        return;
      }
      var id1, id2 := vRandom[i], vRandom[j];
      mapInfo := mapInfo[id1 := mapInfo[id1].(nRandomPos := j)];
      mapInfo := mapInfo[id2 := mapInfo[id2].(nRandomPos := i)];
      vRandom := vRandom[i := id2];
      vRandom := vRandom[j := id1];
    }

    method Delete(id: int)
      requires RandomOk(Abs()) && id in mapInfo && !mapInfo[id].fInTried && mapInfo[id].nRefCount == 0
      modifies `mapInfo, `mapAddr, `vRandom, `nNew
      ensures Abs() == Deleted(old(Abs()), id)
    {
      hide TableOf;
      SwapRandom(mapInfo[id].nRandomPos, |vRandom| - 1);
      vRandom := vRandom[..|vRandom| - 1];
      mapAddr := mapAddr - {mapInfo[id].Ip()};
      mapInfo := mapInfo - {id};
      nNew := nNew - 1;
    }

    method ClearNew(s: Slot)
      requires Shaped() && Fits(vvNew, s) && RandomOk(Abs()) && NewOk(Abs(), params)
      requires s in TableOf(vvNew) ==> mapInfo[TableOf(vvNew)[s]].nRefCount > 0
      modifies `mapInfo, `mapAddr, `vRandom, `nNew, vvNew
      ensures Abs() == Cleared(old(Abs()), s)
    {
      TableAt(vvNew, s);
      if vvNew[s.bucket, s.pos] != EMPTY {
        var id := vvNew[s.bucket, s.pos];
        mapInfo := mapInfo[id := mapInfo[id].(nRefCount := mapInfo[id].nRefCount - 1)];
        WriteSlot(vvNew, s, EMPTY);
        assert Abs() == RefRemoved(old(Abs()), s);
        if mapInfo[id].nRefCount == 0 {
          Delete(id);
        }
      }
    }

    /** Empty a slot of the new table if it holds the entry. */
    method DropRef(id: int, s: Slot)
      requires Shaped() && Fits(vvNew, s) && id in mapInfo && id != EMPTY
      requires mapInfo[id].nRefCount == |SlotsOf(TableOf(vvNew), id)|
      modifies `mapInfo, vvNew
      ensures var tab := old(TableOf(vvNew));
              TableOf(vvNew) == tab - (if s in tab && tab[s] == id then {s} else {})
      ensures mapInfo == old(mapInfo)[id := old(mapInfo)[id].(nRefCount := |SlotsOf(TableOf(vvNew), id)|)]
    {
      TableAt(vvNew, s);
      if vvNew[s.bucket, s.pos] == id {
        RemoveRefSlots(TableOf(vvNew), s, id);
        WriteSlot(vvNew, s, EMPTY);
        mapInfo := mapInfo[id := mapInfo[id].(nRefCount := mapInfo[id].nRefCount - 1)];
      }
    }

    /** Remove an entry from all its buckets of the new table (src/addrman.cpp:200-208). */
    method Withdraw(id: int)
      requires Valid() && id in mapInfo && !mapInfo[id].fInTried
      modifies `mapInfo, `nNew, vvNew
      ensures Abs() == Withdrawn(old(Abs()), id)
    {
      hide AddrOk, RandomOk, TriedOk, NewOk, RefsOk, CountsOk, StatsOk, TableOf, SlotsOf, SlotsBelow;
      ghost var b := Abs();
      ghost var tab, info := TableOf(vvNew), mapInfo;
      NothingBelow(b, params, id);
      for bucket := 0 to NEW_BUCKET_COUNT
        invariant nNew == old(nNew) && TableOf(vvNew) == tab - SlotsBelow(tab, id, bucket)
        invariant mapInfo == info[id := info[id].(nRefCount := |SlotsOf(TableOf(vvNew), id)|)]
      {
        var s := params.NewSlot(mapInfo[id], bucket);
        SlotsBelowStep(b, params, id, bucket);
        RemovedMore(tab, SlotsBelow(tab, id, bucket), s, id);
        DropRef(id, s);
      }
      nNew := nNew - 1;
      AllSlotsBelow(b, params, id);
      assert mapInfo[id].nRefCount == 0;
    }

    /** Take the occupant out of a tried slot. */
    method Evict(s: Slot) returns (id: int)
      requires Shaped() && TriedOk(Abs(), params) && s in TableOf(vvTried)
      modifies `mapInfo, `nTried, vvTried
      ensures Abs() == Evicted(old(Abs()), s) && id == old(Abs()).triedTab[s]
    {
      TableAt(vvTried, s);
      assert TableOf(vvTried)[s] in mapInfo;
      hide TriedOk, TableOf;
      id := vvTried[s.bucket, s.pos];
      mapInfo := mapInfo[id := mapInfo[id].(fInTried := false)];
      WriteSlot(vvTried, s, EMPTY);
      nTried := nTried - 1;
    }

    /** Give an entry that has none a reference from an empty slot of the new table. */
    method Enroll(s: Slot, id: int)
      requires Shaped() && Fits(vvNew, s) && id in mapInfo && id != EMPTY && mapInfo[id].nRefCount == 0
      modifies `mapInfo, `nNew, vvNew
      ensures Abs() == RefAdded(old(Abs()), s, id).(nNew := old(nNew) + 1)
    {
      hide TableOf;
      WriteSlot(vvNew, s, id);
      mapInfo := mapInfo[id := mapInfo[id].(nRefCount := 1)];
      nNew := nNew + 1;
    }

    /** Turn the occupant of a tried slot back into a new entry (src/addrman.cpp:217-238). */
    method Demote(x: int, s: Slot)
      requires Shaped() && InvBut(Abs(), params, {x}, 1) && x in mapInfo && mapInfo[x].nRefCount == 0
      requires s in TableOf(vvTried) && TableOf(vvTried)[s] != x
      modifies `mapInfo, `mapAddr, `vRandom, `nNew, `nTried, vvNew, vvTried
      ensures Abs() == Demoted(old(Abs()), params, x, s)
    {
      hide AddrOk, RandomOk, TriedOk, NewOk, RefsOk, CountsOk, StatsOk, TableOf, SlotsOf, Evicted, Cleared;
      ghost var w := Abs();
      DemoteStep(w, params, x, s);
      EvictKeeps(w, params, {x}, 1, s);
      EvictFacts(w, params, s);
      var id := Evict(s);
      var bucket := params.hashing.newBucket(params.key, mapInfo[id].Ip(), mapInfo[id].source);
      var home := params.NewSlot(mapInfo[id], bucket);
      OccupantCounted(Abs(), {x} + {id}, home);
      ClearNew(home);
      Enroll(home, id);
    }

    /** Move an entry from the new table to the tried table. */
    method MakeTried(id: int)
      requires Valid() && id in mapInfo && !mapInfo[id].fInTried
      modifies `mapInfo, `mapAddr, `vRandom, `nNew, `nTried, vvNew, vvTried
      ensures Abs() == MadeTried(old(Abs()), params, id)
    {
      hide AddrOk, RandomOk, TriedOk, NewOk, RefsOk, CountsOk, StatsOk, TableOf, SlotsOf, Demoted;
      ghost var b := Abs();
      NewFacts(b, params, id);
      WithdrawKeeps(b, params, id);
      MakeRoomEffect(b, params, id);
      Withdraw(id);
      var s := params.TriedSlot(mapInfo[id]);
      TableAt(vvTried, s);
      if vvTried[s.bucket, s.pos] != EMPTY {
        Demote(id, s);
      }
      assert Abs() == MadeRoom(b, params, id);
      WriteSlot(vvTried, s, id);
      nTried := nTried + 1;
      mapInfo := mapInfo[id := mapInfo[id].(fInTried := true)];
    }

    // ----- Statistics -----

    method FindExact(service: Service) returns (id: Option<int>)
      requires Valid()
      ensures id.Some? <==> Known(Abs(), service)
      ensures id.Some? ==> id.value == mapAddr[service.ip] && EntryStatsOk(mapInfo[id.value])
    {
      id := Find(service.ip);
      FindUnique(Abs());
      if id.Some? {
        StatsAt(Abs(), id.value);
        if mapInfo[id.value].address.service != service {
          id := None;
        }
      }
    }

    /** Overwrite the statistics of an entry. */
    method Update(id: int, entry: AddrInfo)
      requires Valid() && id in mapInfo
      requires SamePlace(mapInfo[id], entry) && entry.nRandomPos == mapInfo[id].nRandomPos && EntryStatsOk(entry)
      modifies `mapInfo
      ensures Valid() && Abs() == Touch(old(Abs()), id, entry)
    {
      hide AddrOk, RandomOk, TriedOk, NewOk, RefsOk, CountsOk, StatsOk, TableOf, SlotsOf, CollisionsOk;
      TouchKeeps(Abs(), params, {}, 0, id, entry);
      TouchServices(Abs(), id, entry);
      CollisionsKept(Abs(), Touch(Abs(), id, entry), params, mTriedCollisions);
      mapInfo := mapInfo[id := entry];
    }

    method Attempt(service: Service, fCountFailure: bool, nTime: int)
      requires Valid() && nTime >= 0
      modifies `mapInfo
      ensures Valid() && Attempted(old(Abs()), Abs(), service, fCountFailure, nTime, nLastGood)
    {
      hide AddrOk, RandomOk, TriedOk, NewOk, RefsOk, CountsOk, StatsOk, TableOf, SlotsOf;
      var id := FindExact(service);
      if id.None? {
        return;
      }
      var entry := mapInfo[id.value];
      entry := entry.(nLastTry := nTime);
      if fCountFailure && entry.nLastCountAttempt < nLastGood {
        entry := entry.(nLastCountAttempt := nTime, nAttempts := entry.nAttempts + 1);
      }
      Update(id.value, entry);
    }

    method Connected(service: Service, nTime: int)
      requires Valid()
      modifies `mapInfo
      ensures Valid() && Met(old(Abs()), Abs(), service, nTime)
    {
      hide AddrOk, RandomOk, TriedOk, NewOk, RefsOk, CountsOk, StatsOk, TableOf, SlotsOf;
      var id := FindExact(service);
      if id.None? {
        return;
      }
      var entry := mapInfo[id.value];
      if nTime - entry.address.nTime > 20 * 60 {
        entry := entry.(address := entry.address.(nTime := nTime));
      }
      Update(id.value, entry);
    }

    method SetServices(service: Service, nServices: bv64)
      requires Valid()
      modifies `mapInfo
      ensures Valid() && Offers(old(Abs()), Abs(), service, nServices)
    {
      hide AddrOk, RandomOk, TriedOk, NewOk, RefsOk, CountsOk, StatsOk, TableOf, SlotsOf;
      var id := FindExact(service);
      if id.None? {
        return;
      }
      var entry := mapInfo[id.value];
      Update(id.value, entry.(address := entry.address.(nServices := nServices)));
    }

    // ----- Marking an address as good -----

    /** The search for a bucket of the new table that holds the entry always succeeds. */
    method FindBucket(id: int, nRnd: nat) returns (bucket: nat)
      requires Valid() && id in mapInfo && !mapInfo[id].fInTried && nRnd < NEW_BUCKET_COUNT
      ensures bucket < NEW_BUCKET_COUNT
      ensures var s := params.NewSlot(mapInfo[id], bucket); vvNew[s.bucket, s.pos] == id
    {
      hide AddrOk, RandomOk, TriedOk, NewOk, RefsOk, CountsOk, StatsOk, TableOf, SlotsOf;
      ghost var held := SomeBucket(Abs(), params, id);
      TableAt(vvNew, params.NewSlot(mapInfo[id], held));
      ghost var steps := (held + NEW_BUCKET_COUNT - nRnd) % NEW_BUCKET_COUNT;
      var n := 0;
      bucket := nRnd;
      var s := params.NewSlot(mapInfo[id], bucket);
      while n < NEW_BUCKET_COUNT && vvNew[s.bucket, s.pos] != id
        invariant n <= steps && bucket == (n + nRnd) % NEW_BUCKET_COUNT && s == params.NewSlot(mapInfo[id], bucket)
      {
        n := n + 1;
        bucket := (n + nRnd) % NEW_BUCKET_COUNT;
        s := params.NewSlot(mapInfo[id], bucket);
      }
    }

    /** `MakeTried` as the rest of the class sees it. */
    method Promote(id: int)
      requires Valid() && id in mapInfo && !mapInfo[id].fInTried && mapInfo[id].nLastSuccess > 0
      modifies `mapInfo, `mapAddr, `vRandom, `nNew, `nTried, vvNew, vvTried
      ensures Valid() && Abs() == MadeTried(old(Abs()), params, id)
    {
      hide AddrOk, RandomOk, TriedOk, NewOk, RefsOk, CountsOk, StatsOk, TableOf, SlotsOf, MadeTried, CollisionsOk;
      ghost var b := Abs();
      MakeTriedKeeps(b, params, id);
      MakeTriedEffect(b, params, id);
      MakeTriedServices(b, params, id);
      CollisionsKept(b, MadeTried(b, params, id), params, mTriedCollisions);
      MakeTried(id);
    }

    /**
      `Good_`: a known new address moves to the tried table, unless it should first be tested
      whether the entry in its way is still alive, in which case it is put on the waiting list if
      that has room.
    */
    method Good(service: Service, testBeforeEvict: bool, nTime: int, nRnd: nat)
      requires Valid() && nTime > 0 && nRnd < NEW_BUCKET_COUNT
      modifies this, vvNew, vvTried
      ensures Valid() && nLastGood == nTime
      ensures Succeeded(old(Abs()), old(mTriedCollisions), Abs(), mTriedCollisions, params, service, testBeforeEvict, nTime)
    {
      hide AddrOk, RandomOk, TriedOk, NewOk, RefsOk, CountsOk, StatsOk, TableOf, SlotsOf, MadeTried;
      nLastGood := nTime;
      var id := FindExact(service);
      if id.None? {
        return;
      }
      Update(id.value, mapInfo[id.value].(nLastSuccess := nTime, nLastTry := nTime, nAttempts := 0));
      var entry := mapInfo[id.value];
      if entry.fInTried {
        return;
      }
      var bucket := FindBucket(id.value, nRnd);
      var s := params.TriedSlot(entry);
      TableAt(vvTried, s);
      if testBeforeEvict && vvTried[s.bucket, s.pos] != EMPTY {
        if |mTriedCollisions| < SET_TRIED_COLLISION_SIZE {
          CollisionAdded(Abs(), params, mTriedCollisions, id.value);
          mTriedCollisions := mTriedCollisions + {id.value};
        }
      } else {
        Promote(id.value);
      }
    }

    // ----- Adding an address -----

    /** Give an entry a reference from its slot for a source, if that slot can be had. */
    method Refer(id: int, source: NetAddr, now: int)
      requires Shaped() && InvBut(Abs(), params, {id}, 0) && id in mapInfo && !mapInfo[id].fInTried
      requires mapInfo[id].nRefCount < NEW_BUCKETS_PER_ADDRESS
      modifies `mapInfo, `mapAddr, `vRandom, `nNew, vvNew
      ensures var s := params.SlotFor(old(mapInfo)[id], source);
              Abs() == Referred(old(Abs()), params, id, source, TerribleAt(old(Abs()), s, now))
    {
      hide AddrOk, RandomOk, TriedOk, NewOk, RefsOk, CountsOk, StatsOk, TableOf, SlotsOf, Cleared;
      ghost var b := Abs();
      var bucket := params.hashing.newBucket(params.key, mapInfo[id].Ip(), source);
      var s := params.NewSlot(mapInfo[id], bucket);
      TableAt(vvNew, s);
      SlotFacts(b, params, id, s);
      ClearEffect(b, s);
      if vvNew[s.bucket, s.pos] != id {
        var fInsert := vvNew[s.bucket, s.pos] == EMPTY;
        if !fInsert {
          var existing := mapInfo[vvNew[s.bucket, s.pos]];
          if IsTerrible(existing, now) || (existing.nRefCount > 1 && mapInfo[id].nRefCount == 0) {
            fInsert := true;
          }
        }
        if fInsert {
          ClearNew(s);
          mapInfo := mapInfo[id := mapInfo[id].(nRefCount := mapInfo[id].nRefCount + 1)];
          WriteSlot(vvNew, s, id);
        } else if mapInfo[id].nRefCount == 0 {
          Delete(id);
        }
      }
    }

    /** The time a known address gets when it is announced again (src/addrman.cpp:331-335). */
    static function Retimed(time: int, announced: int, penalty: int, now: int): int {
      var interval := if now - announced < 24 * 60 * 60 then 60 * 60 else 24 * 60 * 60;
      if announced != 0 && (time == 0 || time < announced - interval - penalty) then
        if announced - penalty > 0 then announced - penalty else 0
      else time
    }

    /** The stored address after it is announced again. */
    static function Renewed(stored: Address, announced: Address, penalty: int, now: int): Address {
      stored.(nTime := Retimed(stored.nTime, announced.nTime, penalty, now),
              nServices := Combined(stored.nServices, announced.nServices))
    }

    /** The number the random draw has to be a multiple of: 2^n. */
    static function Odds(n: nat): (odds: nat)
      ensures odds >= 1
    {
      if n == 0 then 1 else 2 * Odds(n - 1)
    }

    /** Whether an announcement makes a known address look for another bucket (src/addrman.cpp:340-357). */
    static predicate Spreads(entry: AddrInfo, announced: Address, penalty: int, now: int, random: nat) {
      var time := Retimed(entry.address.nTime, announced.nTime, penalty, now);
      && announced.nTime != 0 && (time == 0 || announced.nTime > time)
      && !entry.fInTried
      && 0 <= entry.nRefCount < 8 && random % Odds(entry.nRefCount) == 0
    }

    /** Bring time and services of a known address up to date; tell whether to look for another bucket. */
    method Refresh(id: int, address: Address, penalty: int, now: int, random: nat) returns (proceed: bool)
      requires Valid() && id in mapInfo
      modifies `mapInfo
      ensures Valid()
      ensures var entry := old(mapInfo)[id];
              Abs() == Touch(old(Abs()), id, entry.(address := Renewed(entry.address, address, penalty, now)))
      ensures proceed <==> Spreads(old(mapInfo)[id], address, penalty, now, random)
    {
      hide AddrOk, RandomOk, TriedOk, NewOk, RefsOk, CountsOk, StatsOk, TableOf, SlotsOf, CollisionsOk, Combined, Retimed, Odds;
      StatsAt(Abs(), id);
      RefsAt(Abs(), id);
      var entry := mapInfo[id];
      var time := Retimed(entry.address.nTime, address.nTime, penalty, now);
      var services := Combined(entry.address.nServices, address.nServices);
      entry := entry.(address := entry.address.(nTime := time, nServices := services));
      Update(id, entry);
      if address.nTime == 0 || (time != 0 && address.nTime <= time) || entry.fInTried {
        return false;
      }
      if entry.nRefCount == NEW_BUCKETS_PER_ADDRESS {
        return false;
      }
      proceed := Draw(entry.nRefCount, random);
    }

    /** A draw that succeeds for one random number in 2^n. */
    static method Draw(n: nat, random: nat) returns (lucky: bool)
      ensures lucky <==> random % Odds(n) == 0
    {
      var nFactor := 1;
      for i := 0 to n
        invariant nFactor == Odds(i)
      {
        nFactor := nFactor * 2;
      }
      lucky := !(nFactor > 1 && random % nFactor != 0);
    }

    /** The address with its time set back by the penalty. */
    static function Penalized(address: Address, penalty: int): Address {
      address.(nTime := if address.nTime - penalty > 0 then address.nTime - penalty else 0)
    }

    /** Create an entry for an unknown address. */
    method Enlist(address: Address, source: NetAddr, penalty: int) returns (id: int)
      requires Valid() && address.service.ip !in mapAddr
      modifies `nIdCount, `mapInfo, `mapAddr, `vRandom, `nNew
      ensures id == old(nIdCount) && InvBut(Abs(), params, {id}, 0) && nIdCount >= 0
      ensures Abs() == Created(old(Abs()), Penalized(address, penalty), source).(nNew := old(nNew) + 1)
    {
      hide AddrOk, RandomOk, TriedOk, NewOk, RefsOk, CountsOk, StatsOk, TableOf, SlotsOf;
      ghost var b, fixed := Abs(), Penalized(address, penalty);
      CreateKeeps(b, params, {}, 0, fixed, source);
      assert {} + {b.nIdCount} == {b.nIdCount};
      RecountNew(Created(b, fixed, source), params, {b.nIdCount}, 1);
      id := Create(address, source);
      mapInfo := mapInfo[id := mapInfo[id].(address := Penalized(mapInfo[id].address, penalty))];
      nNew := nNew + 1;
      assert mapInfo == Created(b, fixed, source).info;
      assert Abs() == Created(b, fixed, source).(nNew := b.nNew + 1);
    }

    /** The last part of `Add_`, as the rest of the class sees it. */
    method Settle(id: int, source: NetAddr, now: int)
      requires Shaped() && InvBut(Abs(), params, {id}, 0) && id in mapInfo && !mapInfo[id].fInTried
      requires mapInfo[id].nRefCount < NEW_BUCKETS_PER_ADDRESS
      requires nIdCount >= 0 && CollisionsOk(Abs(), params, mTriedCollisions)
      modifies `mapInfo, `mapAddr, `vRandom, `nNew, vvNew
      ensures Valid()
      ensures var b, s := old(Abs()), params.SlotFor(old(mapInfo)[id], source);
              var placed := (s in b.newTab && b.newTab[s] == id) || AvailableAt(b, s, id, TerribleAt(b, s, now));
              && Abs().triedTab == b.triedTab && SameServices(b, Abs())
              && Abs().newTab == (if placed then b.newTab[s := id] else b.newTab)
              && (id in Abs().info <==> placed || b.info[id].nRefCount != 0)
              && (id in Abs().info ==> Referenced(b.info[id], Abs().info[id], b.newTab, Abs().newTab, id))
              && OthersKept(b, Abs(), id, Displaced(b, id, s, placed))
    {
      hide AddrOk, RandomOk, TriedOk, NewOk, RefsOk, CountsOk, StatsOk, TableOf, SlotsOf, Referred, CollisionsOk;
      ghost var b, s := Abs(), params.SlotFor(mapInfo[id], source);
      ghost var terrible := TerribleAt(b, s, now);
      SlotFacts(b, params, id, s);
      ReferKeeps(b, params, id, source, terrible);
      ReferEffect(b, params, id, source, terrible);
      CollisionsKept(b, Referred(b, params, id, source, terrible), params, mTriedCollisions);
      Refer(id, source, now);
    }

    /**
      `Add_`.  It reports whether the address was unknown, and that alone: an unknown address is
      forgotten again right away if the slot for its source is held by an entry that is neither
      terrible nor referenced elsewhere.
    */
    method Add(address: Address, source: NetAddr, timePenalty: int, now: int, random: nat) returns (fNew: bool)
      requires Valid()
      modifies `nIdCount, `mapInfo, `mapAddr, `vRandom, `nNew, vvNew
      ensures Valid() && Announced(old(Abs()), Abs(), params, isRoutable, address, source, timePenalty, now, random)
      ensures fNew <==> isRoutable(address.service.ip) && address.service.ip !in old(mapAddr)
    {
      hide AddrOk, RandomOk, TriedOk, NewOk, RefsOk, CountsOk, StatsOk, TableOf, SlotsOf, Welcomed, Repeated;
      if !isRoutable(address.service.ip) {
        return false;
      }
      var penalty := if address.service.ip == source then 0 else timePenalty;
      var known := Find(address.service.ip);
      if known.Some? {
        AddKnown(known.value, address, source, penalty, now, random);
      } else {
        AddUnknown(address, source, penalty, now);
      }
      fNew := known.None?;
    }

    method AddUnknown(address: Address, source: NetAddr, penalty: int, now: int)
      requires Valid() && address.service.ip !in mapAddr
      modifies `nIdCount, `mapInfo, `mapAddr, `vRandom, `nNew, vvNew
      ensures Valid() && Abs().triedTab == old(Abs()).triedTab && SameServices(old(Abs()), Abs())
      ensures Welcomed(old(Abs()), Abs(), params, address, source, penalty, now)
    {
      hide AddrOk, RandomOk, TriedOk, NewOk, RefsOk, CountsOk, StatsOk, TableOf, SlotsOf;
      ghost var b := Abs();
      CreatedFacts(b, params, Penalized(address, penalty), source);
      var id := Enlist(address, source, penalty);
      CollisionsKept(b, Abs(), params, mTriedCollisions);
      ghost var c := Abs();
      Settle(id, source, now);
      if id in mapInfo {
        FirstReference(b, c, Abs(), params, id, params.SlotFor(NewEntry(address, source, 0), source), address, source, penalty);
      }
    }

    method AddKnown(id: int, address: Address, source: NetAddr, penalty: int, now: int, random: nat)
      requires Valid() && id in mapInfo
      modifies `mapInfo, `mapAddr, `vRandom, `nNew, vvNew
      ensures Valid() && Abs().triedTab == old(Abs()).triedTab && SameServices(old(Abs()), Abs())
      ensures Repeated(old(Abs()), Abs(), params, id, address, source, penalty, now, random)
    {
      hide AddrOk, RandomOk, TriedOk, NewOk, RefsOk, CountsOk, StatsOk, TableOf, SlotsOf, Odds, Retimed, Combined;
      ghost var b := Abs();
      RefsAt(b, id);
      var proceed := Refresh(id, address, penalty, now, random);
      TouchServices(b, id, mapInfo[id]);
      RenewedIs(b.info[id], address, penalty, now);
      if proceed {
        NewHasRefs(Abs(), params, id);
        Settle(id, source, now);
      }
    }

    // ----- Reporting addresses -----

    /**
      `GetAddr_`: shuffle the front of `vRandom` and report the entries of quality found there, until
      there are enough of them or no more entries.
    */
    method GetAddr(maxAddresses: nat, maxPct: nat, network: Option<nat>, now: int) returns (vAddr: seq<Address>, ghost k: nat)
      requires Valid()
      modifies `mapInfo, `vRandom
      ensures Valid() && Reordered(old(Abs()), Abs())
      ensures k <= |vRandom| && vAddr == Picked(Abs(), netClass, network, now, k)
      ensures k == |vRandom| || |vAddr| == Quota(|vRandom|, maxAddresses, maxPct)
      ensures Allowed(|vAddr|, |old(mapInfo)|, maxAddresses, maxPct)
      ensures var ids := EligibleIds(old(Abs()), netClass, network, now);
              && |vAddr| <= |ids| && forall n :: |vAddr| < n <= |ids| ==> !Allowed(n, |old(mapInfo)|, maxAddresses, maxPct)
      ensures forall i :: 0 <= i < |vAddr| ==> Reported(old(Abs()), EligibleIds(old(Abs()), netClass, network, now), vAddr[i])
      ensures forall i, j :: 0 <= i < j < |vAddr| ==> vAddr[i].service.ip != vAddr[j].service.ip
    {
      hide AddrOk, RandomOk, TriedOk, NewOk, RefsOk, CountsOk, StatsOk, TableOf, SlotsOf, CollisionsOk, Picked;
      var nNodes := Quota(|vRandom|, maxAddresses, maxPct);
      vAddr, k := [], 0;
      PickedNone(Abs(), netClass, network, now);
      var n := 0;
      while n < |vRandom| && |vAddr| < nNodes
        invariant Valid() && Reordered(old(Abs()), Abs()) && n <= |vRandom|
        invariant vAddr == Picked(Abs(), netClass, network, now, n) && |vAddr| <= nNodes
        decreases |vRandom| - n
      {
        var pos: nat :| n <= pos < |vRandom|;
        Shuffle(n, pos, network, now);
        RandomAt(Abs(), n);
        PickedStep(Abs(), netClass, network, now, n);
        var entry := mapInfo[vRandom[n]];
        n := n + 1;
        if Eligible(entry, netClass, network, now) {
          vAddr := vAddr + [entry.address];
        }
      }
      k := n;
      ghost var b, c := old(Abs()), Abs();
      ReorderedEligible(b, c, netClass, network, now);
      PickedCount(c, netClass, network, now, k);
      RandomSize(b);
      QuotaIs(|vRandom|, maxAddresses, maxPct);
      forall i | 0 <= i < |vAddr| ensures Reported(b, EligibleIds(b, netClass, network, now), vAddr[i]) {
        PickedReported(b, c, netClass, network, now, k, i);
      }
      forall i, j | 0 <= i < j < |vAddr| ensures vAddr[i].service.ip != vAddr[j].service.ip {
        PickedOnce(c, netClass, network, now, k, i, j);
      }
    }

    /** A swap at or behind position `n` leaves what was picked before it. */
    method Shuffle(n: nat, pos: nat, ghost network: Option<nat>, ghost now: int)
      requires Valid() && n <= pos < |vRandom|
      modifies `mapInfo, `vRandom
      ensures Valid() && Reordered(old(Abs()), Abs())
      ensures Picked(Abs(), netClass, network, now, n) == Picked(old(Abs()), netClass, network, now, n)
    {
      hide AddrOk, RandomOk, TriedOk, NewOk, RefsOk, CountsOk, StatsOk, TableOf, SlotsOf, CollisionsOk, Picked;
      ghost var b := Abs();
      RandomAt(b, n);
      RandomAt(b, pos);
      SwapKeeps(b, params, {}, 0, n, pos);
      SwapReorders(b, n, pos);
      CollisionsKept(b, Swapped(b, n, pos), params, mTriedCollisions);
      PickedStable(b, Swapped(b, n, pos), netClass, network, now, n);
      SwapRandom(n, pos);
    }

    // ----- Collisions in the tried table -----

    /**
      One waiting entry (src/addrman.cpp:623-676): whether to stop waiting, and with which effect.
      Its tried slot is always occupied, so the branch at src/addrman.cpp:665-668 is never taken.
    */
    method Resolve(id: int, now: int, nRnd: nat) returns (erase: bool)
      requires Valid() && now > 0 && nRnd < NEW_BUCKET_COUNT && id in mTriedCollisions
      modifies this, vvNew, vvTried
      ensures Valid() && mTriedCollisions == old(mTriedCollisions)
      ensures erase <==> Settled(old(Abs()), params, isValid, id, now)
      ensures ResolveStep(old(Abs()), Abs(), params, isValid, id, now)
    {
      hide AddrOk, RandomOk, TriedOk, NewOk, RefsOk, CountsOk, StatsOk, TableOf, SlotsOf, MadeTried;
      erase := false;
      if id !in mapInfo {
        return true;
      }
      var entry := mapInfo[id];
      var s := params.TriedSlot(entry);
      TableAt(vvTried, s);
      KnownFacts(Abs(), params, id);
      if !isValid(entry.Ip()) {
        return true;
      }
      assert vvTried[s.bucket, s.pos] != EMPTY;
      var other := mapInfo[vvTried[s.bucket, s.pos]];
      if now - other.nLastSuccess < REPLACEMENT_HOURS * (60 * 60) {
        erase := true;
      } else if now - other.nLastTry < REPLACEMENT_HOURS * (60 * 60) {
        if now - other.nLastTry > 60 {
          Replace(id, now, nRnd);
          erase := true;
        }
      } else if now - entry.nLastSuccess > TEST_WINDOW {
        Replace(id, now, nRnd);
        erase := true;
      }
    }

    /** The entry in the way of a waiting entry. */
    ghost function InTheWay(id: int): AddrInfo
      requires Valid() && id in mapInfo && id in mTriedCollisions
      reads this, vvNew, vvTried
    {
      KnownFacts(Abs(), params, id);
      mapInfo[TableOf(vvTried)[params.TriedSlot(mapInfo[id])]]
    }

    /** `Good_` without a test: the entry ends up in the tried table. */
    method Replace(id: int, now: int, nRnd: nat)
      requires Valid() && now > 0 && nRnd < NEW_BUCKET_COUNT && id in mapInfo
      modifies this, vvNew, vvTried
      ensures Valid() && mTriedCollisions == old(mTriedCollisions)
      ensures Replaced(old(Abs()), Abs(), params, id, now)
    {
      hide AddrOk, RandomOk, TriedOk, NewOk, RefsOk, CountsOk, StatsOk, TableOf, SlotsOf, MadeTried;
      FindUniqueAt(Abs(), id);
      Good(mapInfo[id].address.service, false, now, nRnd);
    }

    /**
      `ResolveCollisions_`: go once through the waiting entries, in ascending order.  `books` are the
      tables before each of them and at the end: an entry stops waiting exactly if it was settled in
      the tables as they were at its turn.
    */
    method ResolveCollisions(now: int) returns (ghost order: seq<int>, ghost books: seq<Book>)
      requires Valid() && now > 0
      modifies this, vvNew, vvTried
      ensures Valid()
      ensures Resolved(old(Abs()), old(mTriedCollisions), Abs(), mTriedCollisions, params, isValid, now, order, books)
    {
      hide AddrOk, RandomOk, TriedOk, NewOk, RefsOk, CountsOk, StatsOk, TableOf, SlotsOf, CollisionsOk, Settled, ResolveStep, Verdicts, Increasing;
      NothingIncreases();
      NoVerdicts(Abs(), mTriedCollisions, params, isValid, now);
      var todo := mTriedCollisions;
      order, books := [], [Abs()];
      while todo != {}
        invariant Valid() && todo <= mTriedCollisions <= old(mTriedCollisions)
        invariant Increasing(order) && forall x, y :: x in order && y in todo ==> x < y
        invariant forall id :: id in order || id in todo <==> id in old(mTriedCollisions)
        invariant ResolveTrace(books, order, params, isValid, now) && books[0] == old(Abs()) && books[|order|] == Abs()
        invariant Verdicts(books, order, mTriedCollisions, params, isValid, now)
        decreases |todo|
      {
        var id := LeastOf(todo);
        var nRnd: nat :| nRnd < NEW_BUCKET_COUNT;
        ghost var waiting := mTriedCollisions;
        var erase := Resolve(id, now, nRnd);
        if erase {
          CollisionRemoved(Abs(), params, mTriedCollisions, id);
          mTriedCollisions := mTriedCollisions - {id};
        }
        TraceGrows(books, order, params, isValid, id, now, Abs());
        IncreasingMore(order, id);
        VerdictsGrow(books, order, waiting, params, isValid, id, now, Abs(), erase);
        order, books, todo := order + [id], books + [Abs()], todo - {id};
      }
    }

    /**
      `SelectTriedCollision_`: an entry of the tried table that a waiting entry, chosen at random,
      would evict.  Where the waiting entry chosen is gone it is taken off the list and nothing is
      returned.
    */
    method SelectTriedCollision() returns (selected: Option<AddrInfo>, ghost id: int)
      requires Valid()
      modifies `mTriedCollisions
      ensures Valid()
      ensures old(mTriedCollisions) == {} ==> selected.None? && mTriedCollisions == {}
      ensures old(mTriedCollisions) != {} ==> id in old(mTriedCollisions) && (selected.Some? <==> id in mapInfo)
      ensures selected.Some? ==>
                && mTriedCollisions == old(mTriedCollisions)
                && selected.value == old(InTheWay(id)) && selected.value.fInTried
      ensures old(mTriedCollisions) != {} && selected.None? ==> mTriedCollisions == old(mTriedCollisions) - {id}
    {
      hide AddrOk, RandomOk, TriedOk, NewOk, RefsOk, CountsOk, StatsOk, TableOf, SlotsOf;
      id := 0;
      if mTriedCollisions == {} {
        return None, 0;
      }
      var chosen := AnyOf(mTriedCollisions);
      id := chosen;
      if chosen !in mapInfo {
        CollisionRemoved(Abs(), params, mTriedCollisions, chosen);
        mTriedCollisions := mTriedCollisions - {chosen};
        return None, chosen;
      }
      var s := params.TriedSlot(mapInfo[chosen]);
      TableAt(vvTried, s);
      KnownFacts(Abs(), params, chosen);
      selected := Some(mapInfo[vvTried[s.bucket, s.pos]]);
    }
  }

  // ---------- Resolving collisions ----------

  /** The entry in the way of a waiting one was tried and did not answer, or could not be tested in time. */
  ghost predicate Replaces(b: Book, p: Params, id: int, now: int)
    requires id in b.info
  {
    var s := p.TriedSlot(b.info[id]);
    && s in b.triedTab && b.triedTab[s] in b.info
    && var other := b.info[b.triedTab[s]];
       && now - other.nLastSuccess >= 14400
       && if now - other.nLastTry < 14400 then now - other.nLastTry > 60 else now - b.info[id].nLastSuccess > 2400
  }

  /** The entry in the way of a waiting one has answered lately. */
  ghost predicate Withstands(b: Book, p: Params, id: int, now: int)
    requires id in b.info
  {
    var s := p.TriedSlot(b.info[id]);
    && s in b.triedTab && b.triedTab[s] in b.info
    && now - b.info[b.triedTab[s]].nLastSuccess < 14400
  }

  /** The wait is over: the entry is gone or useless, or the one in its way answered or is replaced. */
  ghost predicate Settled(b: Book, p: Params, isValid: NetAddr -> bool, id: int, now: int) {
    id in b.info && isValid(b.info[id].Ip()) ==> Withstands(b, p, id, now) || Replaces(b, p, id, now)
  }

  /** The entry has moved to the tried table, with a success noted. */
  ghost predicate Replaced(b: Book, c: Book, p: Params, id: int, now: int)
    requires id in b.info
  {
    var t := Touch(b, id, Greeted(b.info[id], now));
    if b.info[id].fInTried then c == t else Inv(t, p) && c == MadeTried(t, p, id)
  }

  /** What one waiting entry does to the tables: nothing, unless it replaces the one in its way. */
  ghost predicate ResolveStep(b: Book, c: Book, p: Params, isValid: NetAddr -> bool, id: int, now: int) {
    if id in b.info && isValid(b.info[id].Ip()) && Replaces(b, p, id, now) then Replaced(b, c, p, id, now) else c == b
  }

  ghost predicate ResolveTrace(books: seq<Book>, order: seq<int>, p: Params, isValid: NetAddr -> bool, now: int) {
    && |books| == |order| + 1
    && forall i :: 0 <= i < |order| ==> ResolveStep(books[i], books[i + 1], p, isValid, order[i], now)
  }

  ghost predicate Increasing(order: seq<int>) {
    forall i, j :: 0 <= i < j < |order| ==> order[i] < order[j]
  }

  lemma NothingIncreases()
    ensures Increasing([])
  {
  }

  lemma IncreasingMore(order: seq<int>, id: int)
    requires Increasing(order) && forall x :: x in order ==> x < id
    ensures Increasing(order + [id])
  {
    assert forall i :: 0 <= i < |order| ==> order[i] in order;
  }

  /** An entry still waits exactly if it was not settled in the tables at its turn. */
  ghost predicate Verdicts(books: seq<Book>, order: seq<int>, waiting: set<int>, p: Params, isValid: NetAddr -> bool, now: int) {
    && |books| == |order| + 1
    && forall i :: 0 <= i < |order| ==> (order[i] in waiting <==> !Settled(books[i], p, isValid, order[i], now))
  }

  lemma NoVerdicts(b: Book, waiting: set<int>, p: Params, isValid: NetAddr -> bool, now: int)
    ensures Verdicts([b], [], waiting, p, isValid, now)
  {
  }

  lemma VerdictsGrow(books: seq<Book>, order: seq<int>, waiting: set<int>, p: Params, isValid: NetAddr -> bool,
                     id: int, now: int, c: Book, erase: bool)
    requires Verdicts(books, order, waiting, p, isValid, now) && id in waiting && id !in order
    requires erase <==> Settled(books[|order|], p, isValid, id, now)
    ensures Verdicts(books + [c], order + [id], if erase then waiting - {id} else waiting, p, isValid, now)
  {
    hide Settled;
    var more, ids, left := books + [c], order + [id], if erase then waiting - {id} else waiting;
    forall i | 0 <= i < |ids| ensures ids[i] in left <==> !Settled(more[i], p, isValid, ids[i], now) {
      if i < |order| {
        assert more[i] == books[i] && ids[i] == order[i] && order[i] in order;
      } else {
        assert more[i] == books[|order|] && ids[i] == id;
      }
    }
  }

  lemma TraceGrows(books: seq<Book>, order: seq<int>, p: Params, isValid: NetAddr -> bool, id: int, now: int, c: Book)
    requires ResolveTrace(books, order, p, isValid, now) && ResolveStep(books[|order|], c, p, isValid, id, now)
    ensures ResolveTrace(books + [c], order + [id], p, isValid, now)
  {
    hide ResolveStep;
    var more, ids := books + [c], order + [id];
    forall i | 0 <= i < |ids| ensures ResolveStep(more[i], more[i + 1], p, isValid, ids[i], now) {
      if i < |order| {
        assert more[i] == books[i] && more[i + 1] == books[i + 1] && ids[i] == order[i];
      }
    }
  }

  /** A replacing entry ends up in the tried table. */
  lemma ReplacedMarks(b: Book, c: Book, p: Params, id: int, now: int)
    requires id in b.info && Replaced(b, c, p, id, now)
    ensures id in c.info && c.info[id].fInTried
  {
    hide MadeTried, Inv;
    var t := Touch(b, id, Greeted(b.info[id], now));
    if !t.info[id].fInTried {
      MadeTriedMarks(t, p, id);
    }
  }

  method LeastOf(ids: set<int>) returns (id: int)
    requires ids != {}
    ensures id in ids && forall x :: x in ids ==> id <= x
  {
    HasLeast(ids);
    id :| id in ids && forall x :: x in ids ==> id <= x;
  }

  lemma {:induction false} HasLeast(ids: set<int>)
    requires ids != {}
    ensures exists id :: id in ids && forall x :: x in ids ==> id <= x
  {
    HasMember(ids);
    var y :| y in ids;
    var rest := ids - {y};
    if rest == {} {
      assert ids == {y};
    } else {
      HasLeast(rest);
      var z :| z in rest && forall x :: x in rest ==> z <= x;
      var least := if y < z then y else z;
      assert forall x :: x in ids ==> x == y || x in rest;
      assert least in ids && forall x :: x in ids ==> least <= x;
    }
  }

  // ---------- Announcements ----------

  /** The record of an address heard of for the first time, with its one reference. */
  ghost predicate Introduced(info: AddrInfo, announced: Address, source: NetAddr, penalty: int) {
    && info.address.service == announced.service && info.address.nServices == announced.nServices && info.source == source
    && info.address.nTime >= 0 && info.address.nTime >= announced.nTime - penalty
    && (info.address.nTime == 0 || info.address.nTime == announced.nTime - penalty)
    && info.nLastTry == 0 && info.nLastCountAttempt == 0 && info.nLastSuccess == 0 && info.nAttempts == 0
    && info.nRefCount == 1 && !info.fInTried
  }

  /** What an announcement leaves of a time: no more than an hour, or a day, behind it after the penalty, and never lowered. */
  ghost predicate TimeKept(time: int, time': int, announced: int, penalty: int, now: int) {
    var interval := if announced > now - 86400 then 3600 else 86400;
    var behind := time == 0 || time + interval + penalty < announced;
    if announced == 0 || !behind then time' == time
    else time' >= 0 && time' >= announced - penalty && (time' == 0 || time' == announced - penalty)
  }

  /** Time and services of a known address after an announcement; nothing else but references and position changes. */
  ghost predicate Reannounced(x: AddrInfo, y: AddrInfo, announced: Address, penalty: int, now: int) {
    && y == x.(address := y.address, nRefCount := y.nRefCount, nRandomPos := y.nRandomPos)
    && y.address.service == x.address.service && y.address.nServices == x.address.nServices | announced.nServices
    && TimeKept(x.address.nTime, y.address.nTime, announced.nTime, penalty, now)
  }

  /** A first announcement on the tables: the slot for its source, if that can be had, and the record. */
  ghost predicate Welcomed(b: Book, c: Book, p: Params, address: Address, source: NetAddr, penalty: int, now: int) {
    var s := p.SlotFor(NewEntry(address, source, 0), source);
    && (s in b.newTab ==> b.newTab[s] in b.info)
    && var kept := s !in b.newTab || TerribleAt(b, s, now) || b.info[b.newTab[s]].nRefCount > 1;
       && (b.nIdCount in c.info <==> kept)
       && c.newTab == (if kept then b.newTab[s := b.nIdCount] else b.newTab)
       && (kept ==> Introduced(c.info[b.nIdCount], address, source, penalty))
       && OthersKept(b, c, b.nIdCount, Displaced(b, b.nIdCount, s, kept))
  }

  /** A further announcement: the record is renewed, and gets another slot where it spreads and that is to be had. */
  ghost predicate Repeated(b: Book, c: Book, p: Params, id: int, address: Address, source: NetAddr, penalty: int, now: int, random: nat)
    requires id in b.info
  {
    var s := p.SlotFor(b.info[id], source);
    var placed := Manager.Spreads(b.info[id], address, penalty, now, random) && (s !in b.newTab || TerribleAt(b, s, now));
    && id in c.info && Reannounced(b.info[id], c.info[id], address, penalty, now)
    && c.info[id].nRefCount == b.info[id].nRefCount + |SlotsOf(c.newTab, id)| - |SlotsOf(b.newTab, id)|
    && c.newTab == (if placed then b.newTab[s := id] else b.newTab)
    && OthersKept(b, c, id, Displaced(b, id, s, placed))
  }

  /** What an announcement does to the tables; a source's announcement of itself has no penalty. */
  ghost predicate Announced(b: Book, c: Book, p: Params, isRoutable: NetAddr -> bool, address: Address, source: NetAddr,
                            timePenalty: int, now: int, random: nat)
  {
    var ip := address.service.ip;
    var penalty := if ip == source then 0 else timePenalty;
    if !isRoutable(ip) then c == b
    else
      && c.triedTab == b.triedTab && SameServices(b, c)
      && if ip in b.addr then b.addr[ip] in b.info && Repeated(b, c, p, b.addr[ip], address, source, penalty, now, random)
         else Welcomed(b, c, p, address, source, penalty, now)
  }

  /** A first announcement with a recent time makes an entry that is reported; one from the distant past does not. */
  lemma IntroducedReported(info: AddrInfo, announced: Address, source: NetAddr, penalty: int, now: int)
    requires Introduced(info, announced, source, penalty)
    ensures IsTerrible(info, now) <==> announced.nTime - penalty <= 0 || !(now - 30 * 86400 <= announced.nTime - penalty <= now + 600)
  {
    TerribleIff(info, now);
  }

  lemma RenewedIs(x: AddrInfo, announced: Address, penalty: int, now: int)
    ensures Reannounced(x, x.(address := Manager.Renewed(x.address, announced, penalty, now)), announced, penalty, now)
  {
  }

  /** An entry with its references counted anew. */
  ghost predicate Referenced(x: AddrInfo, y: AddrInfo, tab: Table, tab': Table, id: int) {
    y == x.(nRandomPos := y.nRandomPos, nRefCount := x.nRefCount + |SlotsOf(tab', id)| - |SlotsOf(tab, id)|)
  }

  lemma FirstReference(b: Book, c: Book, d: Book, p: Params, id: int, s: Slot, announced: Address, source: NetAddr, penalty: int)
    requires NewOk(b, p) && c.info == Created(b, Manager.Penalized(announced, penalty), source).info && c.newTab == b.newTab
    requires id == b.nIdCount && id !in b.info && id in d.info && Referenced(c.info[id], d.info[id], c.newTab, d.newTab, id)
    requires d.newTab == b.newTab[s := id]
    ensures Introduced(d.info[id], announced, source, penalty)
  {
    assert SlotsOf(b.newTab, id) == {};
    NewRef(b.newTab, s, id);
  }

  /**
    A source that announces itself spreads to another bucket only by a small step forward in time: a
    larger step is stored first, and then nothing newer is left in the announcement.
  */
  lemma SelfAnnouncement(entry: AddrInfo, announced: Address, now: int, random: nat)
    requires announced.nTime >= 0 && entry.address.nTime >= 0
    ensures var interval := if now - announced.nTime < 24 * 60 * 60 then 60 * 60 else 24 * 60 * 60;
            Manager.Spreads(entry, announced, 0, now, random) <==>
              && 0 < entry.address.nTime < announced.nTime <= entry.address.nTime + interval
              && !entry.fInTried && 0 <= entry.nRefCount < NEW_BUCKETS_PER_ADDRESS
              && random % Manager.Odds(entry.nRefCount) == 0
  {
  }

  // ---------- What `GetAddr_` reports ----------

  /** The bound on the number of addresses to report (src/addrman.cpp:546-552). */
  function Quota(known: nat, maxAddresses: nat, maxPct: nat): nat {
    var share := if maxPct != 0 then maxPct * known / 100 else known;
    if maxAddresses != 0 && maxAddresses < share then maxAddresses else share
  }

  /** The number of addresses to report is within the bounds given; a bound of zero is none. */
  ghost predicate Allowed(n: int, known: nat, maxAddresses: nat, maxPct: nat) {
    && 0 <= n <= known
    && (maxAddresses != 0 ==> n <= maxAddresses)
    && (maxPct != 0 ==> 100 * n <= maxPct * known)
  }

  /** The quota is the largest number that is allowed, or beyond all entries there are. */
  lemma QuotaIs(known: nat, maxAddresses: nat, maxPct: nat)
    ensures var q := Quota(known, maxAddresses, maxPct);
            forall n :: 0 <= n <= known ==> (n <= q <==> Allowed(n, known, maxAddresses, maxPct))
  {
    var share := maxPct * known;
    assert share == share / 100 * 100 + share % 100;
  }

  /** The entries of the network asked for that are not terrible. */
  ghost function EligibleIds(b: Book, netClass: NetAddr -> nat, network: Option<nat>, now: int): set<int> {
    set id | id in b.info && (network == None || network == Some(netClass(b.info[id].Ip()))) && !IsTerrible(b.info[id], now)
  }

  /** The address is that of one of these entries. */
  ghost predicate Reported(b: Book, ids: set<int>, address: Address) {
    exists id :: id in ids && id in b.info && b.info[id].address == address
  }

  /** Those of them found in the first `k` places of `vRandom`. */
  ghost function EligibleBefore(b: Book, netClass: NetAddr -> nat, network: Option<nat>, now: int, k: int): set<int> {
    set id | id in EligibleIds(b, netClass, network, now) && b.info[id].nRandomPos < k
  }

  lemma {:induction false} PickedSize(b: Book, netClass: NetAddr -> nat, network: Option<nat>, now: int, k: nat)
    requires RandomOk(b) && k <= |b.random|
    ensures |Picked(b, netClass, network, now, k)| == |EligibleBefore(b, netClass, network, now, k)|
  {
    hide IsTerrible, EligibleBefore, RandomOk, Eligible;
    if k == 0 {
      NoneEligible(b, netClass, network, now);
    } else {
      PickedSize(b, netClass, network, now, k - 1);
      RandomAt(b, k - 1);
      EligibleStep(b, netClass, network, now, k);
    }
  }

  lemma NoneEligible(b: Book, netClass: NetAddr -> nat, network: Option<nat>, now: int)
    requires RandomOk(b)
    ensures EligibleBefore(b, netClass, network, now, 0) == {}
  {
    hide IsTerrible;
    forall id ensures id !in EligibleBefore(b, netClass, network, now, 0) {}
  }

  lemma EligibleStep(b: Book, netClass: NetAddr -> nat, network: Option<nat>, now: int, k: nat)
    requires RandomOk(b) && 0 < k <= |b.random| && b.random[k - 1] in b.info
    ensures |EligibleBefore(b, netClass, network, now, k)| ==
            |EligibleBefore(b, netClass, network, now, k - 1)| + if Eligible(b.info[b.random[k - 1]], netClass, network, now) then 1 else 0
  {
    hide IsTerrible;
    var last := b.random[k - 1];
    var before, upTo := EligibleBefore(b, netClass, network, now, k - 1), EligibleBefore(b, netClass, network, now, k);
    var extra := if Eligible(b.info[last], netClass, network, now) then {last} else {};
    forall id ensures id in upTo <==> id in before + extra {}
    assert upTo == before + extra && last !in before;
  }

  lemma PickedCount(b: Book, netClass: NetAddr -> nat, network: Option<nat>, now: int, k: nat)
    requires RandomOk(b) && k <= |b.random|
    ensures var n, ids := |Picked(b, netClass, network, now, k)|, EligibleIds(b, netClass, network, now);
            n <= |ids| <= |b.info| && (k == |b.random| ==> n == |ids|)
  {
    hide IsTerrible, Picked;
    PickedSize(b, netClass, network, now, k);
    var part, ids := EligibleBefore(b, netClass, network, now, k), EligibleIds(b, netClass, network, now);
    IdsWithin(part, ids);
    IdsWithin(ids, b.info.Keys);
    assert |b.info.Keys| == |b.info|;
    if k == |b.random| {
      forall id ensures id in part <==> id in ids {}
      assert part == ids;
    }
  }

  lemma {:induction false} IdsWithin(part: set<int>, ids: set<int>)
    requires part <= ids
    ensures |part| <= |ids|
  {
    if part != {} {
      HasMember(part);
      var x :| x in part;
      IdsWithin(part - {x}, ids - {x});
    }
  }

  lemma ReorderedEligible(b: Book, c: Book, netClass: NetAddr -> nat, network: Option<nat>, now: int)
    requires Reordered(b, c)
    ensures EligibleIds(c, netClass, network, now) == EligibleIds(b, netClass, network, now)
  {
    var i, j := EligibleIds(b, netClass, network, now), EligibleIds(c, netClass, network, now);
    forall id ensures id in i <==> id in j {
      assert id in b.info.Keys <==> id in c.info.Keys;
    }
    assert i == j;
  }

  lemma PickedReported(b: Book, c: Book, netClass: NetAddr -> nat, network: Option<nat>, now: int, k: nat, i: nat)
    requires Reordered(b, c) && RandomOk(c) && k <= |c.random| && i < |Picked(c, netClass, network, now, k)|
    ensures Reported(b, EligibleIds(b, netClass, network, now), Picked(c, netClass, network, now, k)[i])
  {
    hide Picked, RandomOk;
    var id := PickedFrom(c, netClass, network, now, k, i);
    assert id in b.info.Keys && c.info[id].address == b.info[id].address;
    ReorderedEligible(b, c, netClass, network, now);
  }

  predicate Eligible(entry: AddrInfo, netClass: NetAddr -> nat, network: Option<nat>, now: int) {
    (network.Some? ==> netClass(entry.Ip()) == network.value) && !IsTerrible(entry, now)
  }

  /** The addresses of the eligible entries among the first `k` of `vRandom`. */
  ghost function Picked(b: Book, netClass: NetAddr -> nat, network: Option<nat>, now: int, k: nat): seq<Address> {
    if k == 0 || k > |b.random| || b.random[k - 1] !in b.info then []
    else
      var entry := b.info[b.random[k - 1]];
      Picked(b, netClass, network, now, k - 1) + if Eligible(entry, netClass, network, now) then [entry.address] else []
  }

  lemma PickedNone(b: Book, netClass: NetAddr -> nat, network: Option<nat>, now: int)
    ensures Picked(b, netClass, network, now, 0) == []
  {
  }

  lemma PickedStep(b: Book, netClass: NetAddr -> nat, network: Option<nat>, now: int, n: nat)
    requires n < |b.random| && b.random[n] in b.info
    ensures var entry := b.info[b.random[n]];
            Picked(b, netClass, network, now, n + 1) ==
            Picked(b, netClass, network, now, n) + if Eligible(entry, netClass, network, now) then [entry.address] else []
  {
  }

  /** Everything but the order of `vRandom` is the same. */
  ghost predicate Reordered(b: Book, c: Book) {
    && c.addr == b.addr && c.newTab == b.newTab && c.triedTab == b.triedTab && |c.random| == |b.random|
    && c.nIdCount == b.nIdCount && c.nNew == b.nNew && c.nTried == b.nTried
    && c.info.Keys == b.info.Keys
    && forall id :: id in b.info ==> c.info[id] == b.info[id].(nRandomPos := c.info[id].nRandomPos)
  }

  lemma RandomAt(b: Book, i: nat)
    requires RandomOk(b) && i < |b.random|
    ensures b.random[i] in b.info
  {
  }

  lemma SwapReorders(b: Book, i: nat, j: nat)
    requires RandomOk(b) && i < |b.random| && j < |b.random|
    ensures Reordered(b, Swapped(b, i, j)) && SameServices(b, Swapped(b, i, j))
    ensures forall k :: 0 <= k < |b.random| && k != i && k != j ==> Swapped(b, i, j).random[k] == b.random[k]
  {
  }

  lemma {:induction false} PickedStable(b: Book, c: Book, netClass: NetAddr -> nat, network: Option<nat>, now: int, k: nat)
    requires Reordered(b, c) && k <= |b.random| && forall i :: 0 <= i < k ==> c.random[i] == b.random[i]
    ensures Picked(c, netClass, network, now, k) == Picked(b, netClass, network, now, k)
  {
    if k > 0 {
      PickedStable(b, c, netClass, network, now, k - 1);
    }
  }

  /** Once all of `vRandom` has been gone through, every eligible entry has been reported. */
  lemma {:induction false} PickedAll(b: Book, netClass: NetAddr -> nat, network: Option<nat>, now: int, k: nat, id: int)
    requires RandomOk(b) && k <= |b.random| && id in b.info && b.info[id].nRandomPos < k
    requires Eligible(b.info[id], netClass, network, now)
    ensures b.info[id].address in Picked(b, netClass, network, now, k)
  {
    if b.info[id].nRandomPos < k - 1 {
      PickedAll(b, netClass, network, now, k - 1, id);
    }
  }

  /** What is reported is known and eligible, and comes from the part gone through. */
  lemma {:induction false} PickedFrom(b: Book, netClass: NetAddr -> nat, network: Option<nat>, now: int, k: nat, i: nat)
    returns (id: int)
    requires RandomOk(b) && k <= |b.random| && i < |Picked(b, netClass, network, now, k)|
    ensures id in b.info && b.info[id].nRandomPos < k && Eligible(b.info[id], netClass, network, now)
    ensures Picked(b, netClass, network, now, k)[i] == b.info[id].address
  {
    if i < |Picked(b, netClass, network, now, k - 1)| {
      id := PickedFrom(b, netClass, network, now, k - 1, i);
    } else {
      id := b.random[k - 1];
    }
  }

  /** No network address is reported twice. */
  lemma {:induction false} PickedOnce(b: Book, netClass: NetAddr -> nat, network: Option<nat>, now: int, k: nat, i: nat, j: nat)
    requires AddrOk(b) && RandomOk(b) && k <= |b.random| && i < j < |Picked(b, netClass, network, now, k)|
    ensures Picked(b, netClass, network, now, k)[i].service.ip != Picked(b, netClass, network, now, k)[j].service.ip
  {
    var before := Picked(b, netClass, network, now, k - 1);
    if j < |before| {
      PickedOnce(b, netClass, network, now, k - 1, i, j);
    } else {
      var last := b.random[k - 1];
      var id := PickedFrom(b, netClass, network, now, k - 1, i);
      assert b.addr[b.info[id].Ip()] == id && b.addr[b.info[last].Ip()] == last;
      assert b.info[last].nRandomPos == k - 1;
    }
  }

  /** `Available`, also where the book is not known to be consistent. */
  ghost predicate AvailableAt(b: Book, s: Slot, id: int, terrible: bool) {
    id in b.info && (s in b.newTab ==> b.newTab[s] in b.info) && Available(b, s, id, terrible)
  }

  /** The slots of an entry in the buckets below `n`. */
  function SlotsBelow(tab: Table, id: int, n: nat): set<Slot> {
    set s | s in tab && tab[s] == id && s.bucket < n
  }

  /** In each bucket an entry has at most one slot, the one at its own position. */
  lemma SlotsBelowStep(b: Book, p: Params, id: int, bucket: nat)
    requires NewOk(b, p) && id in b.info
    ensures var s := p.NewSlot(b.info[id], bucket);
            SlotsBelow(b.newTab, id, bucket + 1) ==
            SlotsBelow(b.newTab, id, bucket) + (if s in b.newTab && b.newTab[s] == id then {s} else {})
  {
    var s := p.NewSlot(b.info[id], bucket);
    var extra := if s in b.newTab && b.newTab[s] == id then {s} else {};
    forall t ensures t in SlotsBelow(b.newTab, id, bucket + 1) <==> t in SlotsBelow(b.newTab, id, bucket) + extra {}
  }

  lemma NothingBelow(b: Book, p: Params, id: int)
    requires Inv(b, p) && id in b.info
    ensures SlotsBelow(b.newTab, id, 0) == {} && b.newTab - SlotsBelow(b.newTab, id, 0) == b.newTab
    ensures b.info == b.info[id := b.info[id].(nRefCount := |SlotsOf(b.newTab, id)|)] && id != EMPTY
  {
    forall t ensures t !in SlotsBelow(b.newTab, id, 0) {}
  }

  lemma AllSlotsBelow(b: Book, p: Params, id: int)
    requires NewOk(b, p)
    ensures SlotsBelow(b.newTab, id, NEW_BUCKET_COUNT) == SlotsOf(b.newTab, id)
    ensures |SlotsOf(b.newTab - SlotsOf(b.newTab, id), id)| == 0
  {
    forall t ensures t in SlotsBelow(b.newTab, id, NEW_BUCKET_COUNT) <==> t in SlotsOf(b.newTab, id) {}
    assert SlotsOf(b.newTab - SlotsOf(b.newTab, id), id) == {};
  }

  lemma RemovedMore(tab: Table, gone: set<Slot>, s: Slot, id: int)
    ensures var rest := tab - gone;
            var extra := if s in tab && tab[s] == id then {s} else {};
            rest - (if s in rest && rest[s] == id then {s} else {}) == tab - (gone + extra)
  {
  }

  lemma OccupantCounted(b: Book, limbo: set<int>, s: Slot)
    requires RefsOk(b, limbo) && (s in b.newTab ==> b.newTab[s] in b.info)
    ensures s in b.newTab ==> b.info[b.newTab[s]].nRefCount > 0
  {
    if s in b.newTab {
      assert s in SlotsOf(b.newTab, b.newTab[s]);
    }
  }

  lemma EvictFacts(b: Book, p: Params, s: Slot)
    requires AddrOk(b) && TriedOk(b, p) && s in b.triedTab
    ensures b.triedTab[s] in b.info && b.triedTab[s] in Evicted(b, s).info && b.triedTab[s] != EMPTY
    ensures Home(Evicted(b, s), p, b.triedTab[s]) == Home(b, p, b.triedTab[s])
  {
  }

  lemma NewFacts(b: Book, p: Params, id: int)
    requires Inv(b, p) && id in b.info && !b.info[id].fInTried
    ensures id != EMPTY
    ensures p.TriedSlot(b.info[id]) in b.triedTab ==> b.triedTab[p.TriedSlot(b.info[id])] != id
  {
  }

  lemma TouchServices(b: Book, id: int, entry: AddrInfo)
    requires id in b.info && SamePlace(b.info[id], entry)
    ensures SameServices(b, Touch(b, id, entry))
  {
  }

  lemma FindUnique(b: Book)
    requires AddrOk(b)
    ensures forall id :: id in b.info ==> b.info[id].Ip() in b.addr && b.addr[b.info[id].Ip()] == id
  {
  }

  lemma StatsAt(b: Book, id: int)
    requires StatsOk(b) && id in b.info
    ensures EntryStatsOk(b.info[id])
  {
  }

  /** A new entry is in some bucket, so the bail-out of src/addrman.cpp:291-292 is never taken. */
  lemma SomeBucket(b: Book, p: Params, id: int) returns (bucket: nat)
    requires Inv(b, p) && id in b.info && !b.info[id].fInTried
    ensures bucket < NEW_BUCKET_COUNT
    ensures p.NewSlot(b.info[id], bucket) in b.newTab && b.newTab[p.NewSlot(b.info[id], bucket)] == id
  {
    assert |SlotsOf(b.newTab, id)| >= 1;
    var s :| s in SlotsOf(b.newTab, id);
    bucket := s.bucket;
  }

  lemma CollisionAdded(b: Book, p: Params, collisions: set<int>, id: int)
    requires AddrOk(b) && CollisionsOk(b, p, collisions) && |collisions| < SET_TRIED_COLLISION_SIZE
    requires id in b.info && p.TriedSlot(b.info[id]) in b.triedTab
    ensures CollisionsOk(b, p, collisions + {id})
  {
  }

  /** The occupant of a slot is an entry with references; the entry at hand survives its removal. */
  lemma SlotFacts(b: Book, p: Params, id: int, s: Slot)
    requires InvBut(b, p, {id}, 0) && id in b.info
    ensures id != EMPTY
    ensures s in b.newTab ==> b.newTab[s] in b.info && b.info[b.newTab[s]].nRefCount > 0
  {
    if s in b.newTab {
      assert s in SlotsOf(b.newTab, b.newTab[s]);
    }
  }

  lemma RefsAt(b: Book, id: int)
    requires RefsOk(b, {}) && id in b.info
    ensures 0 <= b.info[id].nRefCount <= NEW_BUCKETS_PER_ADDRESS
  {
  }

  lemma NewHasRefs(b: Book, p: Params, id: int)
    requires Inv(b, p) && id in b.info && !b.info[id].fInTried
    ensures b.info[id].nRefCount >= 1 && InvBut(b, p, {id}, 0)
  {
  }

  /** A new entry has no place yet; every other one is as before. */
  lemma CreatedFacts(b: Book, p: Params, address: Address, source: NetAddr)
    requires Inv(b, p) && b.nIdCount >= 0
    ensures var c := Created(b, address, source).(nNew := b.nNew + 1);
            && SameServices(b, c) && c.info[b.nIdCount].nRefCount == 0
            && (forall s :: s in b.newTab ==> b.newTab[s] != b.nIdCount && b.newTab[s] in b.info)
            && (forall id :: id in b.info ==> id != b.nIdCount && c.info[id] == b.info[id])
  {
  }

  lemma KnownFacts(b: Book, p: Params, id: int)
    requires TriedOk(b, p) && id in b.info
    ensures p.TriedSlot(b.info[id]) in b.triedTab ==>
              b.triedTab[p.TriedSlot(b.info[id])] in b.info && b.info[b.triedTab[p.TriedSlot(b.info[id])]].fInTried
  {
  }

  lemma FindUniqueAt(b: Book, id: int)
    requires AddrOk(b) && id in b.info
    ensures b.info[id].Ip() in b.addr && b.addr[b.info[id].Ip()] == id
  {
  }

  lemma MadeTriedMarks(b: Book, p: Params, id: int)
    requires Inv(b, p) && id in b.info && !b.info[id].fInTried
    ensures id in MadeTried(b, p, id).info && MadeTried(b, p, id).info[id].fInTried
  {
    hide AddrOk, RandomOk, TriedOk, NewOk, RefsOk, CountsOk, StatsOk, SlotsOf, MadeRoom;
    MakeRoomEffect(b, p, id);
  }

  lemma CollisionRemoved(b: Book, p: Params, collisions: set<int>, id: int)
    requires CollisionsOk(b, p, collisions) && id in collisions
    ensures CollisionsOk(b, p, collisions - {id})
  {
  }
}
