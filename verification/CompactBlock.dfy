/** Compact blocks: a block sent as short transaction ids, and its reconstruction from the memory pool. */
module CompactBlock {

  import opened Basics

  /** A transaction: its hash, the hash that covers its witness, and whether it is the null transaction. */
  datatype Tx = Tx(hash: nat, witnessHash: nat, isNull: bool)

  /** A transaction sent along, with its distance from the one before. */
  datatype Prefilled = Prefilled(index: nat, tx: Tx)

  /** The message; `shortId` is the hash keyed by its header and nonce, cut to six bytes. */
  datatype Compact = Compact(nullHeader: bool, shortIds: seq<nat>, prefilled: seq<Prefilled>, shortId: nat -> nat)

  /** A transaction at hand, under the hash it is looked up by. */
  datatype Entry = Entry(hash: nat, tx: Tx)

  datatype Status = Ok | BadMessage | Failed | CheckFailed

  type Slots = seq<Option<Tx>>

  function Count(c: Compact): nat {
    |c.shortIds| + |c.prefilled|
  }

  // ----- Free slots -----

  /** The empty slots, in order. */
  function Free(s: Slots): (f: seq<nat>)
    ensures |f| <= |s| && forall i :: 0 <= i < |f| ==> f[i] < |s| && s[f[i]].None?
  {
    if s == [] then []
    else
      var n := |s| - 1;
      Free(s[..n]) + if s[n].None? then [n] else []
  }

  lemma FreeStep(s: Slots, k: nat)
    requires k < |s|
    ensures Free(s[..k + 1]) == Free(s[..k]) + if s[k].None? then [k] else []
  {
    assert s[..k + 1][..k] == s[..k];
  }

  lemma {:induction false} FreePrefix(s: Slots, k: nat)
    requires k <= |s|
    ensures Free(s[..k]) <= Free(s)
    decreases |s| - k
  {
    if k == |s| {
      assert s[..k] == s;
    } else {
      FreePrefix(s, k + 1);
      FreeStep(s, k);
    }
  }

  /** The free slots are listed in increasing order, and every free slot is listed. */
  lemma {:induction false} FreeSorted(s: Slots)
    ensures forall i, j :: 0 <= i < j < |Free(s)| ==> Free(s)[i] < Free(s)[j]
    ensures forall k :: 0 <= k < |s| && s[k].None? ==> k in Free(s)
  {
    if s != [] {
      var t := s[..|s| - 1];
      FreeSorted(t);
      forall k | 0 <= k < |s| && s[k].None?
        ensures k in Free(s)
      {
        assert k < |t| ==> t[k].None? && k in Free(t);
      }
    }
  }

  function One(b: bool): nat {
    if b then 1 else 0
  }

  lemma {:induction false} FreeUpdate(s: Slots, k: nat, v: Option<Tx>)
    requires k < |s|
    ensures |Free(s[k := v])| + One(s[k].None?) == |Free(s)| + One(v.None?)
  {
    var n := |s| - 1;
    if k == n {
      assert s[k := v][..n] == s[..n];
    } else {
      assert s[k := v][..n] == s[..n][k := v];
      FreeUpdate(s[..n], k, v);
    }
  }

  lemma {:induction false} FreeMonotone(s: Slots, t: Slots)
    requires |s| == |t| && forall k :: 0 <= k < |s| && s[k].Some? ==> t[k].Some?
    ensures |Free(t)| <= |Free(s)|
  {
    if s != [] {
      FreeMonotone(s[..|s| - 1], t[..|t| - 1]);
    }
  }

  // ----- Prefilled transactions -----

  /** The place of the i-th prefilled transaction in the block. */
  function Position(p: seq<Prefilled>, i: nat): nat
    requires i < |p|
  {
    (if i == 0 then 0 else Position(p, i - 1) + 1) + p[i].index
  }

  lemma {:induction false} PositionsIncrease(p: seq<Prefilled>, i: nat, j: nat)
    requires i < j < |p|
    ensures Position(p, i) < Position(p, j)
  {
    if i < j - 1 {
      PositionsIncrease(p, i, j - 1);
    }
  }

  /** Every prefilled transaction is real and leaves no gap that no short id could fill. */
  ghost predicate PrefilledUpTo(c: Compact, n: nat)
    requires n <= |c.prefilled|
  {
    forall i :: 0 <= i < n ==>
      && !c.prefilled[i].tx.isNull
      && Position(c.prefilled, i) <= 0xffff && Position(c.prefilled, i) <= |c.shortIds| + i
  }

  /** The slots with the first `n` prefilled transactions in place. */
  ghost function Placed(c: Compact, n: nat): (s: Slots)
    requires n <= |c.prefilled| && PrefilledUpTo(c, n)
    ensures |s| == Count(c)
  {
    if n == 0 then seq(Count(c), i => None)
    else Placed(c, n - 1)[Position(c.prefilled, n - 1) := Some(c.prefilled[n - 1].tx)]
  }

  /** Past the last position nothing is filled yet. */
  lemma {:induction false} PlacedAbove(c: Compact, n: nat, k: nat)
    requires n <= |c.prefilled| && PrefilledUpTo(c, n) && k < Count(c)
    requires n > 0 ==> Position(c.prefilled, n - 1) < k
    ensures Placed(c, n)[k].None?
  {
    hide Position;
    if n > 1 {
      PositionsIncrease(c.prefilled, n - 2, n - 1);
    }
    if n > 0 {
      PlacedAbove(c, n - 1, k);
    }
  }

  /** Every prefilled transaction is at its place, and no other overwrites it. */
  lemma {:induction false} PlacedAt(c: Compact, n: nat, i: nat)
    requires i < n <= |c.prefilled| && PrefilledUpTo(c, n)
    ensures Position(c.prefilled, i) < Count(c) && Placed(c, n)[Position(c.prefilled, i)] == Some(c.prefilled[i].tx)
  {
    hide Position;
    if i < n - 1 {
      PositionsIncrease(c.prefilled, i, n - 1);
      PlacedAt(c, n - 1, i);
    }
  }

  /** As many slots stay free as there are short ids. */
  lemma {:induction false} PlacedFree(c: Compact, n: nat)
    requires n <= |c.prefilled| && PrefilledUpTo(c, n)
    ensures |Free(Placed(c, n))| == Count(c) - n
  {
    hide Position, Free;
    if n == 0 {
      AllFree(Placed(c, 0));
    } else {
      var k := Position(c.prefilled, n - 1);
      if n > 1 {
        PositionsIncrease(c.prefilled, n - 2, n - 1);
      }
      PlacedAbove(c, n - 1, k);
      PlacedFree(c, n - 1);
      FreeUpdate(Placed(c, n - 1), k, Some(c.prefilled[n - 1].tx));
    }
  }

  lemma {:induction false} AllFree(s: Slots)
    requires forall k :: 0 <= k < |s| ==> s[k].None?
    ensures |Free(s)| == |s|
  {
    if s != [] {
      AllFree(s[..|s| - 1]);
    }
  }

  // ----- Short ids and their slots -----

  ghost predicate WellPlaced(c: Compact) {
    PrefilledUpTo(c, |c.prefilled|)
  }

  /** Places sent as distances are read back as the places they stand for. */
  lemma {:induction false} PositionsDecode(p: seq<Prefilled>, places: seq<nat>, i: nat)
    requires i < |p| == |places| && forall j, k :: 0 <= j < k < |places| ==> places[j] < places[k]
    requires forall j :: 0 <= j < |p| ==> p[j].index == if j == 0 then places[0] else places[j] - places[j - 1] - 1
    ensures Position(p, i) == places[i]
  {
    if i > 0 {
      PositionsDecode(p, places, i - 1);
      assert places[i - 1] < places[i];
    }
    assert p[i].index == if i == 0 then places[0] else places[i] - places[i - 1] - 1;
  }

  /** Every further place needs one more slot. */
  lemma {:induction false} PositionsSpread(p: seq<Prefilled>, i: nat, j: nat)
    requires i <= j < |p|
    ensures Position(p, i) + (j - i) <= Position(p, j)
    decreases j
  {
    if i < j {
      PositionsSpread(p, i, j - 1);
    }
  }

  /** The prefilled transactions have their places exactly if all are real and the last one is inside the block. */
  lemma WellPlacedIff(c: Compact)
    ensures var p := c.prefilled;
            WellPlaced(c) <==>
              && (forall i :: 0 <= i < |p| ==> !p[i].tx.isNull)
              && (p != [] ==> Position(p, |p| - 1) <= 0xffff && Position(p, |p| - 1) < Count(c))
  {
    var p := c.prefilled;
    forall i | 0 <= i < |p| ensures Position(p, i) + (|p| - 1 - i) <= Position(p, |p| - 1) {
      PositionsSpread(p, i, |p| - 1);
    }
  }

  ghost function Base(c: Compact): (s: Slots)
    requires WellPlaced(c)
    ensures |s| == Count(c) && |Free(s)| == |c.shortIds|
  {
    PlacedFree(c, |c.prefilled|);
    Placed(c, |c.prefilled|)
  }

  /** The slot of the i-th short id: the i-th that no prefilled transaction takes. */
  ghost function SlotOf(c: Compact, i: nat): (k: nat)
    requires WellPlaced(c) && i < |c.shortIds|
    ensures k < Count(c) && Base(c)[k].None?
  {
    Free(Base(c))[i]
  }

  lemma SlotsDistinct(c: Compact, i: nat, j: nat)
    requires WellPlaced(c) && i < |c.shortIds| && j < |c.shortIds| && SlotOf(c, i) == SlotOf(c, j)
    ensures i == j
  {
    FreeSorted(Base(c));
  }

  ghost predicate Distinct(s: seq<nat>) {
    forall i, j :: 0 <= i < j < |s| ==> s[i] != s[j]
  }

  /** The table has as many entries as there are ids exactly when no id repeats. */
  ghost predicate Sized(ids: seq<nat>, table: map<nat, nat>) {
    table.Keys == (set id | id in ids) && |table.Keys| <= |ids| && (|table.Keys| == |ids| <==> Distinct(ids))
  }

  /** It leads from every id to the slot in the same place. */
  ghost predicate Leads(ids: seq<nat>, slots: seq<nat>, table: map<nat, nat>)
    requires |ids| <= |slots|
  {
    forall i :: 0 <= i < |ids| ==> ids[i] in table && table[ids[i]] == slots[i]
  }

  lemma SizedStep(ids: seq<nat>, id: nat, k: nat, table: map<nat, nat>)
    requires Sized(ids, table)
    ensures Sized(ids + [id], table[id := k])
  {
    hide Distinct;
    var keys := table.Keys;
    assert table[id := k].Keys == keys + {id} == set x | x in ids + [id];
    if id in ids {
      assert keys + {id} == keys;
      RepeatedId(ids, id);
    } else {
      DistinctSnoc(ids, id);
    }
  }

  lemma LeadsStep(ids: seq<nat>, id: nat, slots: seq<nat>, table: map<nat, nat>)
    requires |ids| < |slots| && Leads(ids, slots, table) && id !in ids
    ensures Leads(ids + [id], slots, table[id := slots[|ids|]])
  {
  }

  lemma RepeatedId(s: seq<nat>, x: nat)
    requires x in s
    ensures !Distinct(s + [x])
  {
    var j :| 0 <= j < |s| && s[j] == x;
    assert (s + [x])[j] == (s + [x])[|s|];
  }

  lemma DistinctSnoc(s: seq<nat>, x: nat)
    requires x !in s
    ensures Distinct(s + [x]) <==> Distinct(s)
  {
    var t := s + [x];
    if Distinct(t) {
      assert forall i, j :: 0 <= i < j < |s| ==> t[i] == s[i] && t[j] == s[j];
    }
  }

  // ----- Matching -----

  /** What becomes of the slot of a short id: no transaction at hand answers to it, one does, or several do. */
  datatype Fate = Unseen | Held(tx: Tx) | Clashed

  predicate Hits(c: Compact, i: nat, e: Entry)
    requires i < |c.shortIds|
  {
    c.shortId(e.hash) == c.shortIds[i]
  }

  /** One more transaction at hand; the same one may come once more in the extra list. */
  function Meet(c: Compact, i: nat, f: Fate, e: Entry, extra: bool): Fate
    requires i < |c.shortIds|
  {
    if !Hits(c, i, e) then f
    else match f
      case Unseen => Held(e.tx)
      case Held(tx) => if !extra || tx.witnessHash != e.tx.witnessHash then Clashed else f
      case Clashed => Clashed
  }

  /** The slot of a short id after going through some of the pool and some of the extra list. */
  function FateOf(c: Compact, i: nat, pool: seq<Entry>, extra: seq<Entry>): Fate
    requires i < |c.shortIds|
    decreases |extra|, |pool|
  {
    if extra != [] then Meet(c, i, FateOf(c, i, pool, extra[..|extra| - 1]), extra[|extra| - 1], true)
    else if pool != [] then Meet(c, i, FateOf(c, i, pool[..|pool| - 1], []), pool[|pool| - 1], false)
    else Unseen
  }

  /** Two transactions at hand answer to the short id, and not as one in the pool and the same in the extra list. */
  ghost predicate Clash(c: Compact, i: nat, pool: seq<Entry>, extra: seq<Entry>)
    requires i < |c.shortIds|
  {
    exists a, b :: ClashAt(c, i, pool, extra, a, b)
  }

  ghost predicate ClashAt(c: Compact, i: nat, pool: seq<Entry>, extra: seq<Entry>, a: int, b: int)
    requires i < |c.shortIds|
  {
    var all := pool + extra;
    && 0 <= a < b < |all| && Hits(c, i, all[a]) && Hits(c, i, all[b])
    && (b < |pool| || all[a].tx.witnessHash != all[b].tx.witnessHash)
  }

  /** The first of them that answers. */
  ghost predicate First(c: Compact, i: nat, all: seq<Entry>, k: int)
    requires i < |c.shortIds|
  {
    0 <= k < |all| && Hits(c, i, all[k]) && forall a :: 0 <= a < k ==> !Hits(c, i, all[a])
  }

  ghost predicate SomeHit(c: Compact, i: nat, all: seq<Entry>)
    requires i < |c.shortIds|
  {
    exists e :: e in all && Hits(c, i, e)
  }

  /** The fate of a slot without the walk: nothing there, a clash, or the first answer. */
  ghost predicate FateIs(c: Compact, i: nat, pool: seq<Entry>, extra: seq<Entry>, f: Fate)
    requires i < |c.shortIds|
  {
    && (f.Unseen? <==> !SomeHit(c, i, pool + extra))
    && (f.Clashed? <==> Clash(c, i, pool, extra))
    && (!f.Unseen? ==> exists k :: First(c, i, pool + extra, k) && (f.Held? ==> (pool + extra)[k].tx == f.tx))
  }

  lemma {:induction false} FateExplained(c: Compact, i: nat, pool: seq<Entry>, extra: seq<Entry>)
    requires i < |c.shortIds|
    ensures FateIs(c, i, pool, extra, FateOf(c, i, pool, extra))
    decreases |extra|, |pool|
  {
    hide FateIs;
    if extra != [] {
      var k := |extra| - 1;
      FateExplained(c, i, pool, extra[..k]);
      assert pool + extra == (pool + extra[..k]) + [extra[k]];
      MeetExplained(c, i, pool, extra[..k], pool, extra, FateOf(c, i, pool, extra[..k]), extra[k], true);
    } else if pool != [] {
      var k := |pool| - 1;
      FateExplained(c, i, pool[..k], []);
      assert pool + extra == (pool[..k] + []) + [pool[k]];
      MeetExplained(c, i, pool[..k], [], pool, extra, FateOf(c, i, pool[..k], []), pool[k], false);
    } else {
      NothingMet(c, i);
    }
  }

  lemma NothingMet(c: Compact, i: nat)
    requires i < |c.shortIds|
    ensures FateIs(c, i, [], [], Unseen)
  {
  }

  lemma MeetExplained(c: Compact, i: nat, pool: seq<Entry>, extra: seq<Entry>, pool': seq<Entry>, extra': seq<Entry>,
                      f: Fate, e: Entry, isExtra: bool)
    requires i < |c.shortIds| && FateIs(c, i, pool, extra, f) && pool' + extra' == pool + extra + [e]
    requires |pool'| == |pool| + One(!isExtra) && (!isExtra ==> extra == [])
    ensures FateIs(c, i, pool', extra', Meet(c, i, f, e, isExtra))
  {
    hide FateIs;
    HitsMore(c, i, pool + extra, e);
    ClashMore(c, i, pool, extra, pool', extra', f, e, isExtra);
    FateParts(c, i, pool, extra, f);
    var all := pool + extra;
    if f.Unseen? {
      if Hits(c, i, e) {
        assert forall a :: 0 <= a < |all| ==> all[a] in all;
        FirstMore(c, i, all, e, |all|);
        MakeFate(c, i, pool', extra', Held(e.tx), |all|);
      } else {
        MakeUnseen(c, i, pool', extra');
      }
    } else {
      var k :| First(c, i, all, k) && (f.Held? ==> all[k].tx == f.tx);
      FirstMore(c, i, all, e, k);
      MakeFate(c, i, pool', extra', Meet(c, i, f, e, isExtra), k);
    }
  }

  lemma FateParts(c: Compact, i: nat, pool: seq<Entry>, extra: seq<Entry>, f: Fate)
    requires i < |c.shortIds| && FateIs(c, i, pool, extra, f)
    ensures (f.Unseen? <==> !SomeHit(c, i, pool + extra)) && (f.Clashed? <==> Clash(c, i, pool, extra))
    ensures !f.Unseen? ==> exists k :: First(c, i, pool + extra, k) && (f.Held? ==> (pool + extra)[k].tx == f.tx)
  {
  }

  lemma MakeFate(c: Compact, i: nat, pool: seq<Entry>, extra: seq<Entry>, f: Fate, k: int)
    requires i < |c.shortIds| && !f.Unseen? && First(c, i, pool + extra, k) && (f.Held? ==> (pool + extra)[k].tx == f.tx)
    requires f.Clashed? <==> Clash(c, i, pool, extra)
    ensures FateIs(c, i, pool, extra, f)
  {
    hide Clash;
    assert (pool + extra)[k] in pool + extra;
  }

  lemma MakeUnseen(c: Compact, i: nat, pool: seq<Entry>, extra: seq<Entry>)
    requires i < |c.shortIds| && !SomeHit(c, i, pool + extra) && !Clash(c, i, pool, extra)
    ensures FateIs(c, i, pool, extra, Unseen)
  {
  }

  lemma HitsMore(c: Compact, i: nat, all: seq<Entry>, e: Entry)
    requires i < |c.shortIds|
    ensures SomeHit(c, i, all + [e]) <==> SomeHit(c, i, all) || Hits(c, i, e)
  {
    if SomeHit(c, i, all) {
      var x :| x in all && Hits(c, i, x);
      assert x in all + [e];
    }
    assert e in all + [e];
  }

  lemma FirstMore(c: Compact, i: nat, all: seq<Entry>, e: Entry, k: int)
    requires i < |c.shortIds| && (First(c, i, all, k) || (k == |all| && Hits(c, i, e) && forall a :: 0 <= a < |all| ==> !Hits(c, i, all[a])))
    ensures First(c, i, all + [e], k)
  {
  }

  /** One more transaction clashes with the first answer or not at all. */
  lemma ClashMore(c: Compact, i: nat, pool: seq<Entry>, extra: seq<Entry>, pool': seq<Entry>, extra': seq<Entry>,
                  f: Fate, e: Entry, isExtra: bool)
    requires i < |c.shortIds| && FateIs(c, i, pool, extra, f) && pool' + extra' == pool + extra + [e]
    requires |pool'| == |pool| + One(!isExtra) && (!isExtra ==> extra == [])
    ensures Clash(c, i, pool', extra') <==> Meet(c, i, f, e, isExtra).Clashed?
  {
    var all, n := pool + extra, |pool + extra|;
    var all' := pool' + extra';
    assert all'[n] == e && forall a :: 0 <= a < n ==> all'[a] == all[a];
    if Clash(c, i, pool, extra) {
      var a, b :| ClashAt(c, i, pool, extra, a, b);
      assert ClashAt(c, i, pool', extra', a, b);
    } else if Hits(c, i, e) && f.Held? {
      var k :| First(c, i, all, k) && all[k].tx == f.tx;
      if !isExtra || f.tx.witnessHash != e.tx.witnessHash {
        assert ClashAt(c, i, pool', extra', k, n);
      } else if Clash(c, i, pool', extra') {
        var a, b :| ClashAt(c, i, pool', extra', a, b);
        if b < n {
          assert ClashAt(c, i, pool, extra, a, b);
        } else if a != k {
          assert k < a < n;
          assert ClashAt(c, i, pool, extra, k, a);
        }
      }
    } else if Clash(c, i, pool', extra') {
      var a, b :| ClashAt(c, i, pool', extra', a, b);
      if b < n {
        assert ClashAt(c, i, pool, extra, a, b);
      }
    }
  }

  ghost predicate AllHeld(c: Compact, pool: seq<Entry>, extra: seq<Entry>) {
    forall i :: 0 <= i < |c.shortIds| ==> FateOf(c, i, pool, extra).Held?
  }

  /** What a slot holds, by its fate. */
  function Content(f: Fate): Option<Tx> {
    if f.Held? then Some(f.tx) else None
  }

  /** Prefilled slots are untouched, the others are as their fates say, and the filled ones are counted. */
  ghost predicate Matched(c: Compact, pool: seq<Entry>, extra: seq<Entry>, s: Slots, have: seq<bool>, count: nat)
    requires WellPlaced(c)
  {
    && |s| == |have| == Count(c)
    && (forall k :: 0 <= k < Count(c) && Base(c)[k].Some? ==> s[k] == Base(c)[k])
    && (forall i :: 0 <= i < |c.shortIds| ==>
          have[SlotOf(c, i)] == !FateOf(c, i, pool, extra).Unseen? && s[SlotOf(c, i)] == Content(FateOf(c, i, pool, extra)))
    && count + |Free(s)| == |c.shortIds|
  }

  lemma MatchStart(c: Compact, have: seq<bool>)
    requires WellPlaced(c) && |have| == Count(c) && forall k :: 0 <= k < |have| ==> !have[k]
    ensures Matched(c, [], [], Base(c), have, 0)
  {
    hide Free, Base, SlotOf;
  }

  /** A transaction that answers to no short id changes nothing. */
  lemma MatchSkip(c: Compact, pool: seq<Entry>, extra: seq<Entry>, pool': seq<Entry>, extra': seq<Entry>,
                  s: Slots, have: seq<bool>, count: nat)
    requires WellPlaced(c) && Matched(c, pool, extra, s, have, count)
    requires forall i :: 0 <= i < |c.shortIds| ==> FateOf(c, i, pool', extra') == FateOf(c, i, pool, extra)
    ensures Matched(c, pool', extra', s, have, count)
  {
    hide Free, Base, SlotOf, FateOf;
  }

  /** Setting the slot of one short id as its fate demands keeps the account. */
  lemma MatchSet(c: Compact, pool: seq<Entry>, extra: seq<Entry>, pool': seq<Entry>, extra': seq<Entry>,
                 s: Slots, have: seq<bool>, count: nat, i: nat)
    requires WellPlaced(c) && Matched(c, pool, extra, s, have, count) && i < |c.shortIds|
    requires forall j :: 0 <= j < |c.shortIds| && j != i ==> FateOf(c, j, pool', extra') == FateOf(c, j, pool, extra)
    requires !FateOf(c, i, pool', extra').Unseen?
    ensures var k, v := SlotOf(c, i), Content(FateOf(c, i, pool', extra'));
            && count + One(v.Some?) >= One(s[k].Some?)
            && Matched(c, pool', extra', s[k := v], have[k := true], count + One(v.Some?) - One(s[k].Some?))
  {
    hide Free, Base, SlotOf, FateOf, Content;
    var k, v := SlotOf(c, i), Content(FateOf(c, i, pool', extra'));
    SetCount(c, s, k, v);
    SetSlots(c, pool, extra, pool', extra', s, have, count, i);
  }

  lemma SetCount(c: Compact, s: Slots, k: nat, v: Option<Tx>)
    requires WellPlaced(c) && |s| == Count(c) && k < |s| && Base(c)[k].None?
    requires forall j :: 0 <= j < Count(c) && Base(c)[j].Some? ==> s[j] == Base(c)[j]
    ensures |Free(s[k := v])| + One(v.Some?) == |Free(s)| + One(s[k].Some?) && |Free(s[k := v])| <= |c.shortIds|
  {
    hide Free, Base;
    FreeUpdate(s, k, v);
    FreeMonotone(Base(c), s[k := v]);
  }

  lemma SetSlots(c: Compact, pool: seq<Entry>, extra: seq<Entry>, pool': seq<Entry>, extra': seq<Entry>,
                 s: Slots, have: seq<bool>, count: nat, i: nat)
    requires WellPlaced(c) && Matched(c, pool, extra, s, have, count) && i < |c.shortIds|
    requires forall j :: 0 <= j < |c.shortIds| && j != i ==> FateOf(c, j, pool', extra') == FateOf(c, j, pool, extra)
    requires !FateOf(c, i, pool', extra').Unseen?
    ensures var s', have' := s[SlotOf(c, i) := Content(FateOf(c, i, pool', extra'))], have[SlotOf(c, i) := true];
            forall j :: 0 <= j < |c.shortIds| ==>
              have'[SlotOf(c, j)] == !FateOf(c, j, pool', extra').Unseen? && s'[SlotOf(c, j)] == Content(FateOf(c, j, pool', extra'))
  {
    hide Free, Base, SlotOf, FateOf, Content;
    var s', have' := s[SlotOf(c, i) := Content(FateOf(c, i, pool', extra'))], have[SlotOf(c, i) := true];
    forall j | 0 <= j < |c.shortIds|
      ensures have'[SlotOf(c, j)] == !FateOf(c, j, pool', extra').Unseen? && s'[SlotOf(c, j)] == Content(FateOf(c, j, pool', extra'))
    {
      if j != i {
        OtherSlot(c, i, j);
        assert have[SlotOf(c, j)] == !FateOf(c, j, pool, extra).Unseen?;
      }
    }
  }

  lemma OtherSlot(c: Compact, i: nat, j: nat)
    requires WellPlaced(c) && i < |c.shortIds| && j < |c.shortIds| && i != j
    ensures SlotOf(c, i) != SlotOf(c, j)
  {
    if SlotOf(c, i) == SlotOf(c, j) {
      SlotsDistinct(c, i, j);
    }
  }

  /** All short ids are accounted for exactly if every slot holds a transaction. */
  lemma MatchFull(c: Compact, pool: seq<Entry>, extra: seq<Entry>, s: Slots, have: seq<bool>, count: nat)
    requires WellPlaced(c) && Matched(c, pool, extra, s, have, count)
    ensures count == |c.shortIds| <==> AllHeld(c, pool, extra)
    ensures count == |c.shortIds| <==> Free(s) == []
  {
    hide Base, FateOf;
    if Free(s) == [] {
      forall i | 0 <= i < |c.shortIds| ensures FateOf(c, i, pool, extra).Held? {
        if s[SlotOf(c, i)].None? {
          FreeSorted(s);
        }
      }
    } else {
      var k := Free(s)[0];
      assert s[k].None? && Base(c)[k].None?;
      FreeSorted(Base(c));
      var i :| 0 <= i < |Free(Base(c))| && Free(Base(c))[i] == k;
      assert SlotOf(c, i) == k && !FateOf(c, i, pool, extra).Held?;
    }
  }

  /** The next entry is looked at: the two lists as far as they have been gone through. */
  function Walked(first: seq<Entry>, entries: seq<Entry>, n: nat, extra: bool): (r: (seq<Entry>, seq<Entry>))
    requires n <= |entries|
  {
    if extra then (first, entries[..n]) else (entries[..n], [])
  }

  lemma WalkStep(c: Compact, i: nat, first: seq<Entry>, entries: seq<Entry>, n: nat, extra: bool)
    requires n < |entries| && i < |c.shortIds|
    ensures var w, w' := Walked(first, entries, n, extra), Walked(first, entries, n + 1, extra);
            FateOf(c, i, w'.0, w'.1) == Meet(c, i, FateOf(c, i, w.0, w.1), entries[n], extra)
  {
    assert entries[..n + 1][..n] == entries[..n];
  }

  /** The walk through a list ends at its end, or where every short id is accounted for after at least one step. */
  ghost predicate Ends(c: Compact, first: seq<Entry>, entries: seq<Entry>, n: nat, extra: bool) {
    && n <= |entries|
    && (n < |entries| ==> n > 0 && var w := Walked(first, entries, n, extra); AllHeld(c, w.0, w.1))
    && forall m :: 0 < m < n ==> var w := Walked(first, entries, m, extra); !AllHeld(c, w.0, w.1)
  }

  /** Each distinct short id is in the table with its own slot, and nothing else is. */
  lemma TableEntry(c: Compact, table: map<nat, nat>, id: nat) returns (i: nat)
    requires WellPlaced(c) && Sized(c.shortIds, table) && Leads(c.shortIds, Free(Base(c)), table) && id in table
    ensures i < |c.shortIds| && c.shortIds[i] == id && table[id] == SlotOf(c, i)
  {
    hide Free, Base;
    assert id in table.Keys;
    i :| 0 <= i < |c.shortIds| && c.shortIds[i] == id;
  }

  // ----- Filling in what is missing -----

  /** The block with the missing transactions put into the free slots in order. */
  ghost function Filled(s: Slots, missing: seq<Tx>): (r: seq<Tx>)
    requires |Free(s)| <= |missing|
    ensures |r| == |s|
  {
    if s == [] then []
    else
      var t := s[..|s| - 1];
      Filled(t, missing) + [if s[|s| - 1].Some? then s[|s| - 1].value else missing[|Free(t)|]]
  }

  /** Where the slots agree with a block and the missing ones are sent in order, the result is the block. */
  lemma {:induction false} FilledIs(s: Slots, missing: seq<Tx>, block: seq<Tx>)
    requires |s| == |block| && |Free(s)| <= |missing|
    requires forall k :: 0 <= k < |s| && s[k].Some? ==> s[k].value == block[k]
    requires forall i :: 0 <= i < |Free(s)| ==> missing[i] == block[Free(s)[i]]
    ensures Filled(s, missing) == block
  {
    hide Free;
    if s != [] {
      var n := |s| - 1;
      var t := s[..n];
      FreeStep(s, n);
      assert s[..n + 1] == s;
      forall i | 0 <= i < |Free(t)| ensures missing[i] == block[..n][Free(t)[i]] {
        assert Free(t)[i] == Free(s)[i];
      }
      FilledIs(t, missing, block[..n]);
      assert s[n].None? ==> Free(s)[|Free(t)|] == n;
      assert block == block[..n] + [block[n]];
    }
  }

  class PartialBlock {
    /** Whether the header is set. */
    var live: bool
    var available: Slots
    var prefilledCount: nat
    var mempoolCount: nat

    constructor ()
      ensures !live && available == [] && prefilledCount == mempoolCount == 0
    {
      live, available, prefilledCount, mempoolCount := false, [], 0, 0;
    }

    /** Puts the prefilled transactions in place, if all of them have one. */
    method PlacePrefilled(c: Compact) returns (ok: bool)
      requires available == seq(Count(c), i => None)
      modifies `available
      ensures ok <==> WellPlaced(c)
      ensures ok ==> available == Base(c)
    {
      var last, i := -1, 0;
      while i < |c.prefilled|
        invariant 0 <= i <= |c.prefilled| && PrefilledUpTo(c, i) && available == Placed(c, i)
        invariant last == if i == 0 then -1 else Position(c.prefilled, i - 1)
      {
        if c.prefilled[i].tx.isNull {
          return false;
        }
        last := last + c.prefilled[i].index + 1;
        assert last == Position(c.prefilled, i);
        if last > 0xffff {
          return false;
        }
        if last > |c.shortIds| + i {
          return false;
        }
        available := available[last := Some(c.prefilled[i].tx)];
        i := i + 1;
      }
      return true;
    }

    /** The scan for the next free slot, from `i` + `offset` on. */
    method NextSlot(i: nat, offset: nat) returns (next: nat)
      requires i + offset <= |available| <= 0xffff && |Free(available[..i + offset])| == i < |Free(available)|
      ensures offset <= next && i + next < |available| && |Free(available[..i + next + 1])| == i + 1
      ensures Free(available)[i] == i + next
    {
      hide Free;
      next := offset;
      NextInBounds(available, i + next, i);
      while available[i + next].Some?
        invariant offset <= next && i + next < |available| && |Free(available[..i + next])| == i
        decreases |available| - next
      {
        FreeStep(available, i + next);
        assert i + next + 1 == i + (next + 1);
        next := (next + 1) % 0x1_0000;
        NextInBounds(available, i + next, i);
      }
      NextFree(available, i + next, i);
    }

    /** Gives each short id its slot; fails where a bucket is crowded or an id repeats. */
    method IndexShortIds(c: Compact, crowded: nat -> bool) returns (ok: bool, table: map<nat, nat>)
      requires |Free(available)| == |c.shortIds| && |available| <= 0xffff
      ensures ok <==> Distinct(c.shortIds) && forall i :: 0 <= i < |c.shortIds| ==> !crowded(i)
      ensures ok ==> Sized(c.shortIds, table) && Leads(c.shortIds, Free(available), table)
    {
      hide Free, Distinct, Tabled, Leads;
      ghost var ids, slots := c.shortIds, Free(available);
      table := map[];
      var offset: nat, i: nat := 0, 0;
      assert ids[..0] == [] && available[..0] == [];
      NothingYet(slots);
      while i < |c.shortIds|
        invariant i <= |ids| && i + offset <= |available| && |Free(available[..i + offset])| == i
        invariant Tabled(ids[..i], slots, table)
        invariant forall j :: 0 <= j < i ==> !crowded(j)
      {
        offset := NextSlot(i, offset);
        assert ids[..i + 1] == ids[..i] + [ids[i]];
        TabledStep(ids[..i], ids[i], slots, table);
        table := table[c.shortIds[i] := (i + offset) % 0x1_0000];
        if crowded(i) {
          return false, table;
        }
        i := i + 1;
      }
      assert ids[..i] == ids;
      TabledEnd(ids, slots, table);
      ok := |table| == |c.shortIds|;
    }

    /** Looks the transactions at hand up by their short ids; a slot that two of them answer to is emptied again. */
    method Match(c: Compact, entries: seq<Entry>, extra: bool, table: map<nat, nat>, have0: seq<bool>, ghost first: seq<Entry>)
      returns (have: seq<bool>, ghost n: nat)
      requires WellPlaced(c) && Distinct(c.shortIds) && Sized(c.shortIds, table) && Leads(c.shortIds, Free(Base(c)), table)
      requires Matched(c, if extra then first else [], [], available, have0, mempoolCount)
      modifies `available, `mempoolCount
      ensures Ends(c, first, entries, n, extra)
      ensures var w := Walked(first, entries, n, extra); Matched(c, w.0, w.1, available, have, mempoolCount)
    {
      hide Free, Base, SlotOf, Matched, Sized, Leads, WellPlaced, Distinct, FateOf, AllHeld;
      have := have0;
      assert entries[..0] == [];
      TableSize(c.shortIds, table);
      var i := 0;
      while i < |entries|
        invariant 0 <= i <= |entries|
        invariant var w := Walked(first, entries, i, extra); Matched(c, w.0, w.1, available, have, mempoolCount)
        invariant forall m :: 0 < m <= i ==> var w := Walked(first, entries, m, extra); !AllHeld(c, w.0, w.1)
      {
        ghost var w, w' := Walked(first, entries, i, extra), Walked(first, entries, i + 1, extra);
        var id := c.shortId(entries[i].hash);
        if id in table {
          var k := table[id];
          ghost var j := TableEntry(c, table, id);
          MatchedShape(c, w.0, w.1, available, have, mempoolCount, j);
          OnlyOne(c, j, first, entries, i, extra);
          WalkStep(c, j, first, entries, i, extra);
          MatchSet(c, w.0, w.1, w'.0, w'.1, available, have, mempoolCount, j);
          if !have[k] {
            available := available[k := Some(entries[i].tx)];
            have := have[k := true];
            mempoolCount := mempoolCount + 1;
          } else {
            assert have[k := true] == have;
            if available[k].Some? && (!extra || available[k].value.witnessHash != entries[i].tx.witnessHash) {
              available := available[k := None];
              mempoolCount := mempoolCount - 1;
            } else {
              assert available[k := available[k]] == available;
            }
          }
        } else {
          NoneOfThem(c, table, first, entries, i, extra);
          MatchSkip(c, w.0, w.1, w'.0, w'.1, available, have, mempoolCount);
        }
        MatchFull(c, w'.0, w'.1, available, have, mempoolCount);
        if mempoolCount == |table| {
          return have, i + 1;
        }
        i := i + 1;
      }
      n := i;
    }

    /**
      `np` and `ne` are how far the pool and the extra list are gone through: to the end, or to where
      every short id is accounted for.  Each slot is as its fate up to there says.
    */
    method InitData(c: Compact, pool: seq<Entry>, extra: seq<Entry>, crowded: nat -> bool, limit: nat)
      returns (r: Status, ghost np: nat, ghost ne: nat)
      requires !live && available == [] && mempoolCount == 0 && Count(c) <= 0xffff
      modifies this
      ensures r == BadMessage <==> c.nullHeader || Count(c) == 0 || Count(c) > limit || !WellPlaced(c)
      ensures r == Failed <==> r != BadMessage && !(Distinct(c.shortIds) && forall i :: 0 <= i < |c.shortIds| ==> !crowded(i))
      ensures r != CheckFailed
      ensures r == Ok ==> live && Ends(c, [], pool, np, false) && Ends(c, pool[..np], extra, ne, true)
      ensures r == Ok ==> exists have :: Matched(c, pool[..np], extra[..ne], available, have, mempoolCount)
      ensures r != BadMessage ==> prefilledCount == |c.prefilled|
    {
      hide Free, Base, SlotOf, Matched, Sized, Leads, WellPlaced, Distinct, Ends;
      np, ne := 0, 0;
      if c.nullHeader || (c.shortIds == [] && c.prefilled == []) {
        return BadMessage, 0, 0;
      }
      if |c.shortIds| + |c.prefilled| > limit {
        return BadMessage, 0, 0;
      }
      live := true;
      available := seq(Count(c), i => None);
      var placed := PlacePrefilled(c);
      if !placed {
        return BadMessage, 0, 0;
      }
      prefilledCount := |c.prefilled|;
      var ok, table := IndexShortIds(c, crowded);
      if !ok {
        return Failed, 0, 0;
      }
      var have := seq(|available|, i => false);
      MatchStart(c, have);
      have, np := Match(c, pool, false, table, have, []);
      EndsWithin(c, [], pool, np, false);
      have, ne := Match(c, extra, true, table, have, pool[..np]);
      EndsWithin(c, pool[..np], extra, ne, true);
      r := Ok;
    }

    /** The places whose transactions have to be asked for. */
    method MissingIndexes() returns (r: seq<nat>)
      ensures r == Free(available)
    {
      hide Free;
      r := [];
      var i := 0;
      assert available[..0] == [];
      NothingYet([]);
      while i < |available|
        invariant 0 <= i <= |available| && r == Free(available[..i])
      {
        FreeStep(available, i);
        if available[i].None? {
          r := r + [i];
        }
        i := i + 1;
      }
      assert available[..i] == available;
    }

    /**
      Where too few transactions are sent, the ones at hand before the first that is missing have
      been moved out when that is noticed.
    */
    method FillBlock(missing: seq<Tx>, check: seq<Tx> -> Status) returns (r: Status, block: seq<Tx>)
      requires live
      modifies this
      ensures |missing| != |Free(old(available))| ==> r == BadMessage
      ensures |missing| == |Free(old(available))| ==> block == Filled(old(available), missing) && r == check(block)
      ensures |missing| >= |Free(old(available))| ==> !live && available == []
      ensures |missing| < |Free(old(available))| ==> live && MovedOut(old(available), available, Free(old(available))[|missing|])
    {
      hide Free, Filled;
      ghost var s := available;
      block := [];
      var used := 0;
      var i := 0;
      assert s[..0] == [];
      NothingYet([]);
      NothingFilled(missing);
      while i < |available|
        invariant live && 0 <= i <= |available| && MovedOut(s, available, i)
        invariant used == |Free(s[..i])| <= |missing| && block == Filled(s[..i], missing)
      {
        FreeStep(s, i);
        FreePrefix(s, i + 1);
        if available[i].None? {
          if |missing| <= used {
            NextFree(s, i, used);
            return BadMessage, block;
          }
          FilledStep(s, i, missing);
          block := block + [missing[used]];
          used := used + 1;
        } else {
          FilledStep(s, i, missing);
          block := block + [available[i].value];
          available := available[i := None];
        }
        i := i + 1;
      }
      assert s[..i] == s;
      live, available := false, [];
      if |missing| != used {
        return BadMessage, block;
      }
      r := check(block);
    }
  }

  /** Slots before `n` are empty, the others as they were. */
  ghost predicate MovedOut(s: Slots, t: Slots, n: nat) {
    && |t| == |s| && n <= |s|
    && (forall k :: 0 <= k < n ==> t[k].None?) && (forall k :: n <= k < |s| ==> t[k] == s[k])
  }

  lemma NothingFilled(missing: seq<Tx>)
    ensures |Free([])| <= |missing| && Filled([], missing) == []
  {
  }

  lemma FilledStep(s: Slots, k: nat, missing: seq<Tx>)
    requires k < |s| && |Free(s[..k + 1])| <= |missing|
    ensures |Free(s[..k])| <= |missing| && (s[k].None? ==> |Free(s[..k])| < |missing|)
    ensures Filled(s[..k + 1], missing)
         == Filled(s[..k], missing) + [if s[k].Some? then s[k].value else missing[|Free(s[..k])|]]
  {
    FreeStep(s, k);
    assert s[..k + 1][..k] == s[..k];
  }

  lemma MatchedShape(c: Compact, pool: seq<Entry>, extra: seq<Entry>, s: Slots, have: seq<bool>, count: nat, i: nat)
    requires WellPlaced(c) && Matched(c, pool, extra, s, have, count) && i < |c.shortIds|
    ensures |s| == |have| == Count(c) && (s[SlotOf(c, i)].Some? ==> count > 0)
    ensures var f := FateOf(c, i, pool, extra); have[SlotOf(c, i)] == !f.Unseen? && s[SlotOf(c, i)] == Content(f)
  {
    hide Free, Base, SlotOf, FateOf;
    if s[SlotOf(c, i)].Some? {
      FreeUpdate(s, SlotOf(c, i), None);
      FreeMonotone(Base(c), s[SlotOf(c, i) := None]);
    }
  }

  /** With distinct short ids a transaction answers to at most one of them. */
  lemma OnlyOne(c: Compact, i: nat, first: seq<Entry>, entries: seq<Entry>, n: nat, extra: bool)
    requires n < |entries| && i < |c.shortIds| && Distinct(c.shortIds) && Hits(c, i, entries[n])
    ensures var w, w' := Walked(first, entries, n, extra), Walked(first, entries, n + 1, extra);
            forall j :: 0 <= j < |c.shortIds| && j != i ==> FateOf(c, j, w'.0, w'.1) == FateOf(c, j, w.0, w.1)
  {
    hide FateOf;
    var w, w' := Walked(first, entries, n, extra), Walked(first, entries, n + 1, extra);
    forall j | 0 <= j < |c.shortIds| && j != i ensures FateOf(c, j, w'.0, w'.1) == FateOf(c, j, w.0, w.1) {
      WalkStep(c, j, first, entries, n, extra);
    }
  }

  lemma NoneOfThem(c: Compact, table: map<nat, nat>, first: seq<Entry>, entries: seq<Entry>, n: nat, extra: bool)
    requires n < |entries| && Sized(c.shortIds, table) && c.shortId(entries[n].hash) !in table
    ensures var w, w' := Walked(first, entries, n, extra), Walked(first, entries, n + 1, extra);
            forall j :: 0 <= j < |c.shortIds| ==> FateOf(c, j, w'.0, w'.1) == FateOf(c, j, w.0, w.1)
  {
    hide FateOf;
    var w, w' := Walked(first, entries, n, extra), Walked(first, entries, n + 1, extra);
    forall j | 0 <= j < |c.shortIds| ensures FateOf(c, j, w'.0, w'.1) == FateOf(c, j, w.0, w.1) {
      assert c.shortIds[j] in table.Keys;
      WalkStep(c, j, first, entries, n, extra);
    }
  }

  lemma TableSize(ids: seq<nat>, table: map<nat, nat>)
    requires Sized(ids, table) && Distinct(ids)
    ensures |table| == |ids|
  {
    assert |table| == |table.Keys|;
  }

  lemma EndsWithin(c: Compact, first: seq<Entry>, entries: seq<Entry>, n: nat, extra: bool)
    requires Ends(c, first, entries, n, extra)
    ensures n <= |entries|
  {
  }

  // ----- What is found -----

  /** What the two walks leave in the slots, whatever they pass over. */
  ghost predicate Searched(c: Compact, pool: seq<Entry>, extra: seq<Entry>, np: nat, ne: nat) {
    Ends(c, [], pool, np, false) && Ends(c, pool[..np], extra, ne, true)
  }

  /**
    A short id that two transactions at hand do not clash over is filled if and only if one of them
    answers to it, early exit or not.
  */
  lemma FoundIff(c: Compact, pool: seq<Entry>, extra: seq<Entry>, np: nat, ne: nat, i: nat)
    requires i < |c.shortIds| && Searched(c, pool, extra, np, ne) && !Clash(c, i, pool, extra)
    ensures FateOf(c, i, pool[..np], extra[..ne]).Held? <==> SomeHit(c, i, pool + extra)
  {
    hide FateOf;
    var f := FateOf(c, i, pool[..np], extra[..ne]);
    FateExplained(c, i, pool[..np], extra[..ne]);
    hide FateIs;
    FateParts(c, i, pool[..np], extra[..ne], f);
    NoClashBefore(c, i, pool, extra, np, ne);
    HitsBefore(c, i, pool, extra, np, ne);
    if SomeHit(c, i, pool + extra) {
      if ne < |extra| {
        assert AllHeld(c, pool[..np], extra[..ne]);
      } else if np < |pool| {
        assert AllHeld(c, pool[..np], []);
        FateExplained(c, i, pool[..np], []);
        FateParts(c, i, pool[..np], [], FateOf(c, i, pool[..np], []));
        assert pool[..np][..np] == pool[..np] && extra[..ne] == extra && extra[..0] == [];
        HitsBefore(c, i, pool[..np], extra, np, 0);
      } else {
        assert pool[..np] == pool && extra[..ne] == extra;
      }
    }
  }

  lemma NoClashBefore(c: Compact, i: nat, pool: seq<Entry>, extra: seq<Entry>, np: nat, ne: nat)
    requires i < |c.shortIds| && np <= |pool| && ne <= |extra| && !Clash(c, i, pool, extra)
    ensures !Clash(c, i, pool[..np], extra[..ne])
  {
    if Clash(c, i, pool[..np], extra[..ne]) {
      var all, some := pool + extra, pool[..np] + extra[..ne];
      var a, b :| ClashAt(c, i, pool[..np], extra[..ne], a, b);
      var a', b' := if a < np then a else a - np + |pool|, if b < np then b else b - np + |pool|;
      assert all[a'] == some[a] && all[b'] == some[b];
      assert ClashAt(c, i, pool, extra, a', b');
    }
  }

  lemma HitsBefore(c: Compact, i: nat, pool: seq<Entry>, extra: seq<Entry>, np: nat, ne: nat)
    requires i < |c.shortIds| && np <= |pool| && ne <= |extra|
    ensures SomeHit(c, i, pool[..np] + extra[..ne]) ==> SomeHit(c, i, pool + extra)
  {
    if SomeHit(c, i, pool[..np] + extra[..ne]) {
      var e :| e in pool[..np] + extra[..ne] && Hits(c, i, e);
      assert e in pool + extra;
    }
  }

  /** Two transactions that clash before the walks end leave the slot empty. */
  lemma ClashEmpties(c: Compact, pool: seq<Entry>, extra: seq<Entry>, i: nat)
    requires i < |c.shortIds| && Clash(c, i, pool, extra)
    ensures Content(FateOf(c, i, pool, extra)) == None
  {
    hide FateOf;
    FateExplained(c, i, pool, extra);
  }

  /** Where every short id has an answer at hand and none clash, nothing has to be asked for. */
  lemma NothingMissing(c: Compact, pool: seq<Entry>, extra: seq<Entry>, np: nat, ne: nat, s: Slots, have: seq<bool>, count: nat)
    requires WellPlaced(c) && Searched(c, pool, extra, np, ne) && Matched(c, pool[..np], extra[..ne], s, have, count)
    requires AtHand(c, pool, extra)
    ensures Free(s) == [] && count == |c.shortIds|
  {
    hide FateOf, Matched, Free, WellPlaced, Clash, SomeHit, Ends;
    EndsWithin(c, [], pool, np, false);
    EndsWithin(c, pool[..np], extra, ne, true);
    forall i | 0 <= i < |c.shortIds| ensures FateOf(c, i, pool[..np], extra[..ne]).Held? {
      FoundIff(c, pool, extra, np, ne, i);
    }
    MatchFull(c, pool[..np], extra[..ne], s, have, count);
  }

  // ----- A block and its compact form -----

  /** The hash a transaction is looked up by. */
  function LookupHash(tx: Tx, useWitness: bool): nat {
    if useWitness then tx.witnessHash else tx.hash
  }

  function ShortIds(txs: seq<Tx>, shortId: nat -> nat, useWitness: bool): (r: seq<nat>)
    ensures |r| == |txs| && forall i :: 0 <= i < |r| ==> r[i] == shortId(LookupHash(txs[i], useWitness))
  {
    if txs == [] then [] else [shortId(LookupHash(txs[0], useWitness))] + ShortIds(txs[1..], shortId, useWitness)
  }

  /** The compact form of a block: the first transaction in full, the others as short ids. */
  function Shortened(block: seq<Tx>, shortId: nat -> nat, useWitness: bool): Compact
    requires block != []
  {
    Compact(false, ShortIds(block[1..], shortId, useWitness), [Prefilled(0, block[0])], shortId)
  }

  method Shorten(block: seq<Tx>, shortId: nat -> nat, useWitness: bool) returns (c: Compact)
    requires block != []
    ensures c == Shortened(block, shortId, useWitness)
  {
    var ids := [];
    var i := 1;
    while i < |block|
      invariant 1 <= i <= |block| && ids == Shortened(block, shortId, useWitness).shortIds[..i - 1]
    {
      ids := ids + [shortId(LookupHash(block[i], useWitness))];
      i := i + 1;
    }
    c := Compact(false, ids, [Prefilled(0, block[0])], shortId);
  }

  /** No transaction at hand answers to the short id of a different transaction of the block. */
  ghost predicate NoForeignMatch(block: seq<Tx>, c: Compact, entries: seq<Entry>)
    requires |c.shortIds| + 1 == |block|
  {
    forall e, i :: e in entries && 0 <= i < |c.shortIds| && c.shortId(e.hash) == c.shortIds[i] ==> e.tx == block[i + 1]
  }

  /** In the compact form of a block short id `i` stands for transaction `i` + 1. */
  lemma ShortenedSlots(block: seq<Tx>, shortId: nat -> nat, useWitness: bool)
    requires block != [] && !block[0].isNull
    ensures var c := Shortened(block, shortId, useWitness);
            && WellPlaced(c) && Count(c) == |block| && Base(c)[0] == Some(block[0])
            && forall i :: 0 <= i < |c.shortIds| ==> SlotOf(c, i) == i + 1
  {
    hide Free, ShortIds;
    var c := Shortened(block, shortId, useWitness);
    assert Position(c.prefilled, 0) == 0;
    var s := Base(c);
    assert s == Placed(c, 0)[0 := Some(block[0])];
    FirstTaken(s, |block| - 1);
    assert s[..|block|] == s;
  }

  lemma {:induction false} FirstTaken(s: Slots, n: nat)
    requires n < |s| && s[0].Some? && forall k :: 0 < k < |s| ==> s[k].None?
    ensures Free(s[..n + 1]) == seq(n, i => i + 1)
  {
    hide Free;
    FreeStep(s, n);
    if n > 0 {
      FirstTaken(s, n - 1);
      assert seq(n, i => i + 1) == seq(n - 1, i => i + 1) + [n];
    } else {
      assert s[..0] == [];
      NothingYet([]);
    }
  }

  /** What matching leaves in the slots of a block's compact form are the block's own transactions. */
  lemma MatchedOwn(block: seq<Tx>, shortId: nat -> nat, useWitness: bool, pool: seq<Entry>, extra: seq<Entry>,
                   s: Slots, have: seq<bool>, count: nat)
    requires block != [] && !block[0].isNull
    requires var c := Shortened(block, shortId, useWitness);
             WellPlaced(c) && NoForeignMatch(block, c, pool + extra) && Matched(c, pool, extra, s, have, count)
    ensures |s| == |block| && forall k :: 0 <= k < |s| && s[k].Some? ==> s[k].value == block[k]
  {
    hide Free, Base, SlotOf, FateOf, ShortIds, FateIs;
    var c := Shortened(block, shortId, useWitness);
    ShortenedSlots(block, shortId, useWitness);
    forall k | 0 <= k < |s| && s[k].Some?
      ensures s[k].value == block[k]
    {
      if k > 0 {
        assert SlotOf(c, k - 1) == k;
        HeldOwn(block, c, pool, extra, k - 1);
      }
    }
  }

  lemma HeldOwn(block: seq<Tx>, c: Compact, pool: seq<Entry>, extra: seq<Entry>, i: nat)
    requires |c.shortIds| + 1 == |block| && i < |c.shortIds| && NoForeignMatch(block, c, pool + extra)
    ensures var f := FateOf(c, i, pool, extra); f.Held? ==> f.tx == block[i + 1]
  {
    hide FateOf, Clash;
    var f := FateOf(c, i, pool, extra);
    FateExplained(c, i, pool, extra);
    if f.Held? {
      var k :| First(c, i, pool + extra, k) && (f.Held? ==> (pool + extra)[k].tx == f.tx);
      assert (pool + extra)[k] in pool + extra;
    }
  }

  lemma NoForeignPart(block: seq<Tx>, c: Compact, pool: seq<Entry>, extra: seq<Entry>, np: nat, ne: nat)
    requires |c.shortIds| + 1 == |block| && NoForeignMatch(block, c, pool + extra) && np <= |pool| && ne <= |extra|
    ensures NoForeignMatch(block, c, pool[..np] + extra[..ne])
  {
    forall e, i | e in pool[..np] + extra[..ne] && 0 <= i < |c.shortIds| && c.shortId(e.hash) == c.shortIds[i]
      ensures e.tx == block[i + 1]
    {
      assert e in pool + extra;
    }
  }

  /** Every transaction but the first has an answer at hand, and no two of these clash. */
  ghost predicate AtHand(c: Compact, pool: seq<Entry>, extra: seq<Entry>) {
    forall i :: 0 <= i < |c.shortIds| ==> SomeHit(c, i, pool + extra) && !Clash(c, i, pool, extra)
  }

  /** Everything at hand is listed under the hash it is looked up by: with its witness, or without. */
  ghost predicate Listed(entries: seq<Entry>, useWitness: bool) {
    forall e :: e in entries ==> e.hash == if useWitness then e.tx.witnessHash else e.tx.hash
  }

  /** No two hashes at hand have the same short id, and no two transactions the same hash but another witness. */
  ghost predicate Apart(entries: seq<Entry>, shortId: nat -> nat) {
    forall e, f :: e in entries && f in entries && shortId(e.hash) == shortId(f.hash) ==> e.tx.witnessHash == f.tx.witnessHash
  }

  ghost predicate PoolOnce(pool: seq<Entry>, shortId: nat -> nat) {
    forall a, b :: 0 <= a < b < |pool| ==> shortId(pool[a].hash) != shortId(pool[b].hash)
  }

  /**
    A memory pool and extra list that hold every transaction of the block but the first, listed under
    the hash in use, with short ids that keep them apart, have everything at hand.
  */
  lemma PoolComplete(block: seq<Tx>, shortId: nat -> nat, useWitness: bool, pool: seq<Entry>, extra: seq<Entry>)
    requires block != [] && Listed(pool + extra, useWitness) && Apart(pool + extra, shortId) && PoolOnce(pool, shortId)
    requires forall i :: 0 < i < |block| ==> Holds(pool + extra, block[i])
    ensures AtHand(Shortened(block, shortId, useWitness), pool, extra)
  {
    hide Apart;
    var c := Shortened(block, shortId, useWitness);
    forall i | 0 <= i < |c.shortIds| ensures SomeHit(c, i, pool + extra) && !Clash(c, i, pool, extra) {
      assert Holds(pool + extra, block[i + 1]);
      var e :| e in pool + extra && e.tx == block[i + 1];
      assert block[1..][i] == block[i + 1];
      assert Hits(c, i, e);
      NoClashApart(c, i, pool, extra);
    }
  }

  ghost predicate Holds(entries: seq<Entry>, tx: Tx) {
    exists e :: e in entries && e.tx == tx
  }

  lemma NoClashApart(c: Compact, i: nat, pool: seq<Entry>, extra: seq<Entry>)
    requires i < |c.shortIds| && Apart(pool + extra, c.shortId) && PoolOnce(pool, c.shortId)
    ensures !Clash(c, i, pool, extra)
  {
    var all := pool + extra;
    assert forall k :: 0 <= k < |all| ==> all[k] in all;
    forall a, b ensures !ClashAt(c, i, pool, extra, a, b) {}
  }

  /** The places asked for, in order: those of the short ids that no transaction at hand stands for. */
  ghost predicate AskedFor(c: Compact, pool: seq<Entry>, extra: seq<Entry>, asked: seq<nat>) {
    && (forall j, k :: 0 <= j < k < |asked| ==> asked[j] < asked[k])
    && (forall k :: k in asked ==> 1 <= k <= |c.shortIds|)
    && (forall i :: 0 <= i < |c.shortIds| ==> (i + 1 in asked <==> !FateOf(c, i, pool, extra).Held?))
  }

  lemma MissingAsked(block: seq<Tx>, shortId: nat -> nat, useWitness: bool, pool: seq<Entry>, extra: seq<Entry>,
                     s: Slots, have: seq<bool>, count: nat)
    requires block != [] && !block[0].isNull && WellPlaced(Shortened(block, shortId, useWitness))
    requires Matched(Shortened(block, shortId, useWitness), pool, extra, s, have, count)
    ensures AskedFor(Shortened(block, shortId, useWitness), pool, extra, Free(s))
  {
    hide Free, Base, FateOf, ShortIds;
    var c := Shortened(block, shortId, useWitness);
    ShortenedSlots(block, shortId, useWitness);
    FreeSorted(s);
    forall i | 0 <= i < |c.shortIds| ensures i + 1 in Free(s) <==> !FateOf(c, i, pool, extra).Held? {
      assert s[SlotOf(c, i)] == Content(FateOf(c, i, pool, extra));
    }
  }

  /**
    Sending a block in compact form and asking for what is missing rebuilds exactly that block.  What
    is asked for is what no transaction at hand stands for; with everything at hand that is nothing.
  */
  method Reconstruct(block: seq<Tx>, shortId: nat -> nat, useWitness: bool, pool: seq<Entry>, extra: seq<Entry>,
                     crowded: nat -> bool, limit: nat, check: seq<Tx> -> Status)
    returns (r: Status, rebuilt: seq<Tx>, asked: seq<nat>, ghost np: nat, ghost ne: nat)
    requires 0 < |block| <= 0xffff && !block[0].isNull && |block| <= limit
    requires NoForeignMatch(block, Shortened(block, shortId, useWitness), pool + extra)
    ensures r == BadMessage ==> check(block) == BadMessage
    ensures r == Ok ==> rebuilt == block
    ensures var c := Shortened(block, shortId, useWitness);
            Distinct(c.shortIds) && (forall i :: 0 <= i < |block| - 1 ==> !crowded(i)) ==>
              && r == check(block) && rebuilt == block
              && Searched(c, pool, extra, np, ne) && AskedFor(c, pool[..np], extra[..ne], asked)
    ensures AtHand(Shortened(block, shortId, useWitness), pool, extra) ==> asked == []
  {
    hide Free, Base, SlotOf, Matched, Distinct, NoForeignMatch, WellPlaced, Ends, AtHand, ShortIds;
    var c := Shorten(block, shortId, useWitness);
    ShortenedSlots(block, shortId, useWitness);
    var partial := new PartialBlock();
    r, np, ne := partial.InitData(c, pool, extra, crowded, limit);
    rebuilt, asked := [], [];
    if r == Ok {
      EndsWithin(c, [], pool, np, false);
      EndsWithin(c, pool[..np], extra, ne, true);
      ghost var have :| Matched(c, pool[..np], extra[..ne], partial.available, have, partial.mempoolCount);
      NoForeignPart(block, c, pool, extra, np, ne);
      MatchedOwn(block, shortId, useWitness, pool[..np], extra[..ne], partial.available, have, partial.mempoolCount);
      asked := partial.MissingIndexes();
      MissingAsked(block, shortId, useWitness, pool[..np], extra[..ne], partial.available, have, partial.mempoolCount);
      if AtHand(c, pool, extra) {
        NothingMissing(c, pool, extra, np, ne, partial.available, have, partial.mempoolCount);
      }
      var missing := seq(|asked|, i requires 0 <= i < |asked| => block[asked[i]]);
      FilledIs(partial.available, missing, block);
      r, rebuilt := partial.FillBlock(missing, check);
    }
  }

  /** The table built from some ids: its size tells whether they are distinct, and then it leads to their slots. */
  ghost predicate Tabled(ids: seq<nat>, slots: seq<nat>, table: map<nat, nat>)
    requires |ids| <= |slots|
  {
    Sized(ids, table) && (Distinct(ids) ==> Leads(ids, slots, table))
  }

  lemma TabledStep(ids: seq<nat>, id: nat, slots: seq<nat>, table: map<nat, nat>)
    requires |ids| < |slots| && Tabled(ids, slots, table)
    ensures Tabled(ids + [id], slots, table[id := slots[|ids|]])
  {
    hide Distinct, Sized, Leads;
    SizedStep(ids, id, slots[|ids|], table);
    if Distinct(ids + [id]) {
      PrefixDistinct(ids, id);
      LeadsStep(ids, id, slots, table);
    }
  }

  lemma TabledEnd(ids: seq<nat>, slots: seq<nat>, table: map<nat, nat>)
    requires |ids| <= |slots| && Tabled(ids, slots, table)
    ensures Sized(ids, table) && (|table| == |ids| <==> Distinct(ids)) && (Distinct(ids) ==> Leads(ids, slots, table))
  {
    assert |table| == |table.Keys|;
  }

  lemma NothingYet(slots: seq<nat>)
    ensures Free([]) == [] && Tabled([], slots, map[])
  {
  }

  /** While some free slot is still to come, the scan is inside the block. */
  lemma NextInBounds(s: Slots, k: nat, i: nat)
    requires k <= |s| && |Free(s[..k])| == i < |Free(s)|
    ensures k < |s|
  {
    FreePrefix(s, k);
    assert s[..|s|] == s;
  }

  lemma NextFree(s: Slots, k: nat, i: nat)
    requires k < |s| && |Free(s[..k])| == i && s[k].None?
    ensures |Free(s[..k + 1])| == i + 1 && i < |Free(s)| && Free(s)[i] == k
  {
    FreeStep(s, k);
    FreePrefix(s, k + 1);
  }

  lemma PrefixDistinct(ids: seq<nat>, id: nat)
    requires Distinct(ids + [id])
    ensures Distinct(ids) && id !in ids
  {
    var t := ids + [id];
    assert forall j, k :: 0 <= j < k < |ids| ==> t[j] == ids[j] && t[k] == ids[k];
    forall j | 0 <= j < |ids|
      ensures ids[j] != id
    {
      assert t[j] != t[|ids|];
    }
  }
}
