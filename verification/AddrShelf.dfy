/**
  The tables without their promises about addresses and statistics: what holds of them while a
  file is read, whatever the file says, and what dropping entries does to them.
*/
module AddrShelf {

  import opened AddrBook

  /** `vRandom` is right, and no identifier is ahead of the counter. */
  ghost predicate Numbered(b: Book) {
    RandomOk(b) && forall id :: id in b.info ==> 0 <= id < b.nIdCount
  }

  /** The invariant, but for addresses, statistics and the entries in limbo. */
  ghost predicate Shelved(b: Book, p: Params, limbo: set<int>, behind: int) {
    Numbered(b) && Housed(b, p, limbo, behind)
  }

  lemma InvIsShelved(b: Book, p: Params, limbo: set<int>, behind: int)
    ensures InvBut(b, p, limbo, behind) <==> Shelved(b, p, limbo, behind) && AddrOk(b) && StatsOk(b)
  {
    hide RandomOk, TriedOk, NewOk, RefsOk, CountsOk, StatsOk;
  }

  // ---------- The steps keep it ----------

  lemma AlikeKeepsHoused(b: Book, c: Book, p: Params, limbo: set<int>, behind: int)
    requires Alike(b, c) && Housed(b, p, limbo, behind)
    ensures Housed(c, p, limbo, behind)
  {
    AlikeIds(b, c);
    AlikeKeepsTables(b, c, p);
    hide TriedOk, NewOk;
  }

  lemma SwapShelved(b: Book, p: Params, limbo: set<int>, behind: int, i: nat, j: nat)
    requires Shelved(b, p, limbo, behind) && i < |b.random| && j < |b.random|
    ensures Shelved(Swapped(b, i, j), p, limbo, behind)
  {
    hide TriedOk, NewOk, RefsOk, CountsOk;
    AlikeKeepsHoused(b, Swapped(b, i, j), p, limbo, behind);
  }

  lemma PopNumbered(b: Book, id: int)
    requires Numbered(b) && id in b.info && b.info[id].nRandomPos == |b.random| - 1
    ensures Numbered(Popped(b, id))
  {
  }

  lemma DeleteShelved(b: Book, p: Params, limbo: set<int>, behind: int, id: int)
    requires Shelved(b, p, limbo, behind) && id in b.info && !b.info[id].fInTried && b.info[id].nRefCount == 0
    ensures Shelved(Deleted(b, id), p, limbo - {id}, behind)
  {
    hide TriedOk, NewOk, RefsOk, CountsOk;
    SwapMovesLast(b, id);
    var pos, last := b.info[id].nRandomPos, |b.random| - 1;
    SwapShelved(b, p, limbo, behind, pos, last);
    hide Swapped, RandomOk;
    PopNumbered(Swapped(b, pos, last), id);
    PopKeepsHoused(Swapped(b, pos, last), p, limbo, behind, id);
  }

  lemma ReplaceNumbered(b: Book, c: Book, id: int, entry: AddrInfo)
    requires Numbered(b) && id in b.info && c.info == b.info[id := entry] && c.random == b.random && c.nIdCount == b.nIdCount
    requires entry.nRandomPos == b.info[id].nRandomPos
    ensures Numbered(c)
  {
  }

  lemma AddRefShelved(b: Book, p: Params, limbo: set<int>, behind: int, s: Slot, id: int)
    requires Shelved(b, p, limbo, behind) && s !in b.newTab && s.bucket < NEW_BUCKET_COUNT
    requires id in b.info && !b.info[id].fInTried && p.NewSlot(b.info[id], s.bucket) == s
    requires b.info[id].nRefCount < NEW_BUCKETS_PER_ADDRESS
    ensures Shelved(RefAdded(b, s, id), p, limbo - {id}, behind)
  {
    ReplaceNumbered(b, RefAdded(b, s, id), id, b.info[id].(nRefCount := b.info[id].nRefCount + 1));
    AddRefKeepsHoused(b, p, limbo, behind, s, id);
  }

  lemma EnterShelved(b: Book, p: Params, limbo: set<int>, behind: int, id: int)
    requires Shelved(b, p, limbo, behind)
    requires id in b.info && !b.info[id].fInTried && b.info[id].nRefCount == 0 && p.TriedSlot(b.info[id]) !in b.triedTab
    ensures Shelved(Entered(b, p, id), p, limbo - {id}, behind - 1)
  {
    ReplaceNumbered(b, Entered(b, p, id), id, b.info[id].(fInTried := true));
    EnterKeepsHoused(b, p, limbo, behind, id);
  }

  lemma EvictShelved(b: Book, p: Params, limbo: set<int>, behind: int, s: Slot)
    requires Shelved(b, p, limbo, behind) && s in b.triedTab
    ensures b.triedTab[s] in b.info && Shelved(Evicted(b, s), p, limbo + {b.triedTab[s]}, behind + 1)
    ensures b.info[b.triedTab[s]].nRefCount == 0
  {
    var id := b.triedTab[s];
    ReplaceNumbered(b, Evicted(b, s), id, b.info[id].(fInTried := false));
    EvictKeepsHoused(b, p, limbo, behind, s);
    assert SlotsOf(b.newTab, id) == {};
  }

  lemma RemoveRefShelved(b: Book, p: Params, limbo: set<int>, behind: int, s: Slot)
    requires Shelved(b, p, limbo, behind) && s in b.newTab
    ensures b.newTab[s] in b.info && b.info[b.newTab[s]].nRefCount >= 1 && !b.info[b.newTab[s]].fInTried
    ensures Shelved(RefRemoved(b, s), p, limbo + {b.newTab[s]}, behind)
  {
    var id := b.newTab[s];
    assert s in SlotsOf(b.newTab, id);
    ReplaceNumbered(b, RefRemoved(b, s), id, b.info[id].(nRefCount := b.info[id].nRefCount - 1));
    RemoveRefKeepsHoused(b, p, limbo, behind, s);
  }

  lemma ClearShelved(b: Book, p: Params, s: Slot)
    requires Shelved(b, p, {}, 0) && s in b.newTab
    ensures b.newTab[s] in b.info && Shelved(Cleared(b, s), p, {}, 0)
  {
    var id := b.newTab[s];
    RemoveRefShelved(b, p, {}, 0, s);
    var c := RefRemoved(b, s);
    hide RandomOk, TriedOk, NewOk, CountsOk;
    assert {} + {id} == {id} && {id} - {id} == {};
    if c.info[id].nRefCount == 0 {
      DeleteShelved(c, p, {id}, 0, id);
    } else {
      assert RefsOk(c, {});
    }
  }

  /** Changing only the count of new entries. */
  lemma RecountShelved(b: Book, p: Params, limbo: set<int>, behind: int)
    requires Shelved(b, p, limbo, behind)
    ensures Shelved(b.(nNew := b.nNew + behind), p, limbo, 0)
  {
    var c := b.(nNew := b.nNew + behind);
    assert RandomOk(c) && TriedOk(c, p) && NewOk(c, p) && RefsOk(c, limbo) && CountsOk(c, 0);
  }

  // ---------- Which entry an address leads to ----------

  /** `mapAddr` knows exactly the addresses of the entries, each by the last entry that has it. */
  ghost predicate LastNamed(b: Book) {
    && (forall a :: a in b.addr ==> b.addr[a] in b.info && b.info[b.addr[a]].Ip() == a)
    && (forall id :: id in b.info ==> b.info[id].Ip() in b.addr && id <= b.addr[b.info[id].Ip()])
  }

  lemma LastNamedStep(b: Book, c: Book, entry: AddrInfo)
    requires LastNamed(b) && forall id :: id in b.info ==> id < b.nIdCount
    requires c.info == b.info[b.nIdCount := entry] && c.addr == b.addr[entry.Ip() := b.nIdCount]
    ensures LastNamed(c)
  {
    forall a | a in c.addr ensures c.addr[a] in c.info && c.info[c.addr[a]].Ip() == a {
      if a != entry.Ip() {
        assert a in b.addr && b.addr[a] != b.nIdCount;
      }
    }
  }

  lemma LastNamedSame(b: Book, c: Book)
    requires LastNamed(b) && c.addr == b.addr && c.info.Keys == b.info.Keys
    requires forall id :: id in b.info ==> c.info[id].Ip() == b.info[id].Ip()
    ensures LastNamed(c)
  {
    forall a | a in c.addr ensures c.addr[a] in c.info && c.info[c.addr[a]].Ip() == a {
      var id := b.addr[a];
      assert id in b.info && c.info[id].Ip() == b.info[id].Ip();
    }
    forall id | id in c.info ensures c.info[id].Ip() in c.addr && id <= c.addr[c.info[id].Ip()] {
      assert id in b.info;
    }
  }

  // ---------- Dropping entries ----------

  function Ips(info: map<int, AddrInfo>, ids: set<int>): set<NetAddr> {
    set id | id in ids && id in info :: info[id].Ip()
  }

  /** `c` has some entries less than `b`, but none of `keep`; with an entry go slots of its and its address. */
  ghost predicate Shed(b: Book, c: Book, keep: set<int>) {
    && keep <= c.info.Keys <= b.info.Keys && c.nIdCount == b.nIdCount
    && (forall id :: id in c.info ==> c.info[id].address == b.info[id].address)
    && (forall id :: id in keep ==> c.info[id] == b.info[id].(nRandomPos := c.info[id].nRandomPos))
    && c.addr == b.addr - Ips(b.info, b.info.Keys - c.info.Keys)
    && Subtable(c.newTab, b.newTab, keep) && Subtable(c.triedTab, b.triedTab, keep)
  }

  ghost predicate Subtable(t: Table, u: Table, keep: set<int>) {
    && (forall s :: s in t ==> s in u && t[s] == u[s])
    && (forall s :: s in u && u[s] in keep ==> s in t)
  }

  function Restricted(t: Table, keep: set<int>): Table {
    map s | s in t && t[s] in keep :: t[s]
  }

  /** What is left of `b` is exactly `keep`: unchanged entries in unchanged slots; the addresses of the others are forgotten. */
  ghost predicate Remains(b: Book, c: Book, keep: set<int>) {
    && keep <= b.info.Keys && c.info.Keys == keep && c.nIdCount == b.nIdCount
    && (forall id :: id in keep ==> c.info[id] == b.info[id].(nRandomPos := c.info[id].nRandomPos))
    && c.addr == b.addr - Ips(b.info, b.info.Keys - keep)
    && c.newTab == Restricted(b.newTab, keep) && c.triedTab == Restricted(b.triedTab, keep)
  }

  lemma ShedNothing(b: Book, keep: set<int>)
    requires keep <= b.info.Keys
    ensures Shed(b, b, keep)
  {
    assert b.info.Keys - b.info.Keys == {};
    assert Ips(b.info, {}) == {};
  }

  lemma ShedMore(b: Book, c: Book, d: Book, keep: set<int>)
    requires Shed(b, c, keep) && Shed(c, d, keep)
    ensures Shed(b, d, keep)
  {
    IpsSplit(b.info, c.info, d.info.Keys);
    forall id | id in keep ensures d.info[id] == b.info[id].(nRandomPos := d.info[id].nRandomPos) {
      assert d.info[id] == c.info[id].(nRandomPos := d.info[id].nRandomPos);
    }
    SubtableMore(b.newTab, c.newTab, d.newTab, keep);
    SubtableMore(b.triedTab, c.triedTab, d.triedTab, keep);
    hide Subtable, Ips;
    var gone, more := Ips(b.info, b.info.Keys - c.info.Keys), Ips(c.info, c.info.Keys - d.info.Keys);
    assert b.addr - gone - more == b.addr - (gone + more);
  }

  lemma SubtableMore(t: Table, u: Table, v: Table, keep: set<int>)
    requires Subtable(u, t, keep) && Subtable(v, u, keep)
    ensures Subtable(v, t, keep)
  {
  }

  lemma IpsSplit(info: map<int, AddrInfo>, part: map<int, AddrInfo>, rest: set<int>)
    requires rest <= part.Keys <= info.Keys && forall id :: id in part ==> part[id].address == info[id].address
    ensures Ips(info, info.Keys - rest) == Ips(info, info.Keys - part.Keys) + Ips(part, part.Keys - rest)
  {
    forall a | a in Ips(info, info.Keys - rest)
      ensures a in Ips(info, info.Keys - part.Keys) + Ips(part, part.Keys - rest)
    {
      var id :| id in info.Keys - rest && info[id].Ip() == a;
      if id in part.Keys {
        assert id in part.Keys - rest && part[id].Ip() == a;
      } else {
        assert id in info.Keys - part.Keys;
      }
    }
    forall a | a in Ips(part, part.Keys - rest)
      ensures a in Ips(info, info.Keys - rest)
    {
      var id :| id in part.Keys - rest && part[id].Ip() == a;
      assert id in info.Keys - rest && info[id].Ip() == a;
    }
    forall a | a in Ips(info, info.Keys - part.Keys)
      ensures a in Ips(info, info.Keys - rest)
    {
      var id :| id in info.Keys - part.Keys && info[id].Ip() == a;
      assert id in info.Keys - rest;
    }
  }

  lemma IpsOne(info: map<int, AddrInfo>, id: int)
    requires id in info
    ensures info.Keys - (info.Keys - {id}) == {id} && Ips(info, {id}) == {info[id].Ip()}
  {
    assert info.Keys - (info.Keys - {id}) == {id};
  }

  lemma DeleteSheds(b: Book, id: int, keep: set<int>)
    requires RandomOk(b) && id in b.info && keep <= b.info.Keys - {id}
    ensures Shed(b, Deleted(b, id), keep)
  {
    SwapMovesLast(b, id);
    IpsOne(b.info, id);
    hide Ips;
    var c := Deleted(b, id);
    assert c.info.Keys == b.info.Keys - {id};
  }

  lemma ClearSheds(b: Book, s: Slot, keep: set<int>)
    requires RandomOk(b) && s in b.newTab && b.newTab[s] in b.info && keep <= b.info.Keys && b.newTab[s] !in keep
    ensures Shed(b, Cleared(b, s), keep)
  {
    var id := b.newTab[s];
    var c := RefRemoved(b, s);
    assert c.info.Keys == b.info.Keys && RandomOk(c);
    RefRemovedSheds(b, s, keep);
    hide RandomOk, RefRemoved, Shed, Deleted;
    if c.info[id].nRefCount == 0 {
      DeleteSheds(c, id, keep);
      ShedMore(b, c, Deleted(c, id), keep);
    }
  }

  lemma RefRemovedSheds(b: Book, s: Slot, keep: set<int>)
    requires s in b.newTab && b.newTab[s] in b.info && keep <= b.info.Keys && b.newTab[s] !in keep
    ensures Shed(b, RefRemoved(b, s), keep)
  {
    var c := RefRemoved(b, s);
    assert c.info.Keys == b.info.Keys && b.info.Keys - c.info.Keys == {};
    assert Ips(b.info, {}) == {};
  }

  /** When all that is left is to be kept, the tables are the old ones restricted to it. */
  lemma ShedAll(b: Book, c: Book, p: Params, keep: set<int>)
    requires Shed(b, c, keep) && c.info.Keys == keep && NewOk(c, p) && TriedOk(c, p)
    ensures Remains(b, c, keep)
  {
    forall s ensures s in c.newTab <==> s in Restricted(b.newTab, keep) {
      if s in c.newTab {
        assert c.newTab[s] in c.info.Keys;
      }
    }
    assert c.newTab == Restricted(b.newTab, keep);
    forall s ensures s in c.triedTab <==> s in Restricted(b.triedTab, keep) {
      if s in c.triedTab {
        assert c.triedTab[s] in c.info.Keys;
      }
    }
    assert c.triedTab == Restricted(b.triedTab, keep);
  }

  lemma RemainsMore(b: Book, c: Book, d: Book, some: set<int>, keep: set<int>)
    requires Remains(b, c, some) && Remains(c, d, keep)
    ensures Remains(b, d, keep)
  {
    IpsSplit(b.info, c.info, keep);
    assert Restricted(Restricted(b.newTab, some), keep) == Restricted(b.newTab, keep);
    assert Restricted(Restricted(b.triedTab, some), keep) == Restricted(b.triedTab, keep);
    hide Restricted, Ips;
    var gone, more := Ips(b.info, b.info.Keys - c.info.Keys), Ips(c.info, c.info.Keys - keep);
    assert b.addr - gone - more == b.addr - (gone + more);
    forall id | id in keep ensures d.info[id] == b.info[id].(nRandomPos := d.info[id].nRandomPos) {
      assert id in c.info.Keys && d.info[id] == c.info[id].(nRandomPos := d.info[id].nRandomPos);
    }
  }

  // ---------- When what remains is consistent ----------

  /** No other entry, dropped or not, has the address of one that is kept, and the statistics of those are possible. */
  ghost predicate Harmless(info: map<int, AddrInfo>, keep: set<int>) {
    && (forall id, x :: id in keep && id in info && x in info && x != id ==> info[x].Ip() != info[id].Ip())
    && (forall id :: id in keep && id in info ==> EntryStatsOk(info[id]))
  }

  /**
    Dropping an entry erases its address, also where another entry has the same one; so what
    remains is consistent exactly if no entry that is kept shares its address with any other.
  */
  lemma RemainsConsistent(b: Book, c: Book, p: Params, keep: set<int>)
    requires LastNamed(b) && Remains(b, c, keep) && Shelved(c, p, {}, 0)
    ensures Inv(c, p) <==> Harmless(b.info, keep)
  {
    hide RandomOk, TriedOk, NewOk, RefsOk, CountsOk, Restricted;
    InvIsShelved(c, p, {}, 0);
    StatsRemain(b, c, keep);
    if Harmless(b.info, keep) {
      HarmlessAddr(b, c, keep);
    }
    if Inv(c, p) {
      AddrHarmless(b, c, keep);
    }
  }

  lemma StatsRemain(b: Book, c: Book, keep: set<int>)
    requires Remains(b, c, keep)
    ensures StatsOk(c) <==> forall id :: id in keep && id in b.info ==> EntryStatsOk(b.info[id])
  {
    forall id | id in keep ensures EntryStatsOk(c.info[id]) <==> EntryStatsOk(b.info[id]) {}
    assert forall id :: id in c.info <==> id in keep;
  }

  lemma HarmlessAddr(b: Book, c: Book, keep: set<int>)
    requires LastNamed(b) && Remains(b, c, keep) && Numbered(c) && Harmless(b.info, keep)
    ensures AddrOk(c)
  {
    hide RandomOk, Restricted;
    var gone := Ips(b.info, b.info.Keys - keep);
    forall id | id in c.info
      ensures c.info[id].Ip() in c.addr && c.addr[c.info[id].Ip()] == id
    {
      assert id in keep && c.info[id].Ip() == b.info[id].Ip();
      assert b.addr[b.info[id].Ip()] == id;
    }
    forall a | a in c.addr
      ensures c.addr[a] in c.info && c.info[c.addr[a]].Ip() == a
    {
      var id := b.addr[a];
      assert id in b.info && b.info[id].Ip() == a && a !in gone;
      assert id !in b.info.Keys - keep;
      assert id in keep;
    }
  }

  lemma AddrHarmless(b: Book, c: Book, keep: set<int>)
    requires LastNamed(b) && Remains(b, c, keep) && AddrOk(c)
    ensures forall id, x :: id in keep && id in b.info && x in b.info && x != id ==> b.info[x].Ip() != b.info[id].Ip()
  {
    hide Restricted;
    forall id, x | id in keep && id in b.info && x in b.info && x != id
      ensures b.info[x].Ip() != b.info[id].Ip()
    {
      assert id in c.info && c.info[id].Ip() == b.info[id].Ip();
      if x in keep {
        assert x in c.info && c.info[x].Ip() == b.info[x].Ip();
      } else {
        assert x in b.info.Keys - keep;
        assert b.info[x].Ip() in Ips(b.info, b.info.Keys - keep);
      }
    }
  }
}
