/**
  The cuckoo cache of verified signatures and scripts (src/cuckoocache.h): a table in which
  every element may sit in one of eight places, with a bit per place that marks its content
  as discardable and a bit that tells the current epoch from the one before.
*/
module CuckooCache {

  import opened Arithmetic
  import opened Basics

  // ---------- Bit-packed flags ----------

  predicate BitOf(b: bv8, i: nat)
    requires i < 8
  {
    ((1 as bv8) << i) & b != 0
  }

  function WithBit(b: bv8, i: nat): bv8
    requires i < 8
  {
    b | ((1 as bv8) << i)
  }

  function WithoutBit(b: bv8, i: nat): bv8
    requires i < 8
  {
    b & !((1 as bv8) << i)
  }

  lemma SetOneBit(b: bv8, i: nat, j: nat)
    requires i < 8 && j < 8
    ensures BitOf(WithBit(b, i), j) <==> i == j || BitOf(b, j)
  {
  }

  lemma ClearOneBit(b: bv8, i: nat, j: nat)
    requires i < 8 && j < 8
    ensures BitOf(WithoutBit(b, i), j) <==> i != j && BitOf(b, j)
  {
  }

  lemma AllBits(j: nat)
    requires j < 8
    ensures BitOf(0xff, j)
  {
  }

  predicate IsSet(mem: seq<bv8>, s: nat)
    requires s / 8 < |mem|
  {
    BitOf(mem[s / 8], s % 8)
  }

  function BitSet(mem: seq<bv8>, s: nat): seq<bv8>
    requires s / 8 < |mem|
  {
    mem[s / 8 := WithBit(mem[s / 8], s % 8)]
  }

  function BitUnset(mem: seq<bv8>, s: nat): seq<bv8>
    requires s / 8 < |mem|
  {
    mem[s / 8 := WithoutBit(mem[s / 8], s % 8)]
  }

  /** Setting and clearing one flag leaves every other one alone. */
  lemma FlagUpdated(mem: seq<bv8>, s: nat, t: nat)
    requires s / 8 < |mem| && t / 8 < |mem|
    ensures IsSet(BitSet(mem, s), t) <==> t == s || IsSet(mem, t)
    ensures IsSet(BitUnset(mem, s), t) <==> t != s && IsSet(mem, t)
  {
    hide BitOf, WithBit, WithoutBit;
    SetOneBit(mem[s / 8], s % 8, t % 8);
    ClearOneBit(mem[s / 8], s % 8, t % 8);
  }

  // ---------- Counting ----------

  /** Entries of the current epoch, among the first `n`, that are not discardable. */
  function LiveCount(epochFlags: seq<bool>, mem: seq<bv8>, n: nat): nat
    requires n <= |epochFlags| && n <= 8 * |mem|
  {
    if n == 0 then 0
    else LiveCount(epochFlags, mem, n - 1) + (if epochFlags[n - 1] && !IsSet(mem, n - 1) then 1 else 0)
  }

  function One(b: bool): nat {
    if b then 1 else 0
  }

  /** Changing one place moves the count by that place alone. */
  lemma {:induction false} LiveUpdate(
      epochFlags: seq<bool>, mem: seq<bv8>, epochFlags': seq<bool>, mem': seq<bv8>, loc: nat, n: nat)
    requires loc < |epochFlags| == |epochFlags'| && |mem| == |mem'| && n <= |epochFlags| <= 8 * |mem|
    requires forall i :: 0 <= i < |epochFlags| && i != loc ==>
               epochFlags'[i] == epochFlags[i] && IsSet(mem', i) == IsSet(mem, i)
    ensures LiveCount(epochFlags', mem', n) ==
            LiveCount(epochFlags, mem, n)
            + (if loc < n then One(epochFlags'[loc] && !IsSet(mem', loc)) - One(epochFlags[loc] && !IsSet(mem, loc)) else 0)
  {
    if n > 0 {
      LiveUpdate(epochFlags, mem, epochFlags', mem', loc, n - 1);
    }
  }

  lemma {:induction false} NoneLive(epochFlags: seq<bool>, mem: seq<bv8>, n: nat)
    requires n <= |epochFlags| && n <= 8 * |mem|
    requires forall i :: 0 <= i < n ==> !epochFlags[i] || IsSet(mem, i)
    ensures LiveCount(epochFlags, mem, n) == 0
  {
    if n > 0 {
      NoneLive(epochFlags, mem, n - 1);
    }
  }

  /** How often `x` sits in the table at a place that is not discardable. */
  function Kept<E(==)>(table: seq<E>, mem: seq<bv8>, x: E, n: nat): nat
    requires n <= |table| && n <= 8 * |mem|
  {
    if n == 0 then 0
    else Kept(table, mem, x, n - 1) + One(table[n - 1] == x && !IsSet(mem, n - 1))
  }

  lemma {:induction false} KeptIff<E>(table: seq<E>, mem: seq<bv8>, x: E, n: nat)
    requires n <= |table| && n <= 8 * |mem|
    ensures Kept(table, mem, x, n) > 0 <==> exists i :: 0 <= i < n && table[i] == x && !IsSet(mem, i)
  {
    if n > 0 {
      KeptIff(table, mem, x, n - 1);
    }
  }

  lemma {:induction false} KeptUpdate<E>(
      table: seq<E>, mem: seq<bv8>, table': seq<E>, mem': seq<bv8>, x: E, loc: nat, n: nat)
    requires loc < |table| == |table'| && |mem| == |mem'| && n <= |table| <= 8 * |mem|
    requires forall i :: 0 <= i < |table| && i != loc ==> table'[i] == table[i] && IsSet(mem', i) == IsSet(mem, i)
    ensures Kept(table', mem', x, n) ==
            Kept(table, mem, x, n)
            + (if loc < n then One(table'[loc] == x && !IsSet(mem', loc)) - One(table[loc] == x && !IsSet(mem, loc)) else 0)
  {
    if n > 0 {
      KeptUpdate(table, mem, table', mem', x, loc, n - 1);
    }
  }

  // ---------- Places ----------

  lemma Scaled(h: nat, size: nat)
    requires h < TWO_32 && size > 0
    ensures h * size / TWO_32 < size
  {
    MulStrict(h, TWO_32, size);
    DivLess(h * size, TWO_32, size);
  }

  /** The eight places of an element: 32-bit hashes scaled down to the table. */
  function ComputeHashes<E>(hash: (nat, E) -> uint32, size: nat, e: E): (locs: seq<nat>)
    requires size > 0
    ensures |locs| == 8 && forall k :: 0 <= k < 8 ==> locs[k] < size
  {
    forall k: nat ensures hash(k, e) * size / TWO_32 < size { Scaled(hash(k, e), size); }
    seq(8, k requires 0 <= k < 8 => hash(k, e) * size / TWO_32)
  }

  /** Each of the hashes can name every place, and a greater hash never names a smaller one. */
  lemma PlacesOnto<E(!new)>(size: nat, k: nat, loc: nat) returns (h: uint32)
    requires loc < size <= TWO_32 && k < 8
    ensures forall hash: (nat, E) -> uint32, e: E :: hash(k, e) == h ==> ComputeHashes(hash, size, e)[k] == loc
  {
    h := ScalingOnto(loc, size, TWO_32);
  }

  lemma PlacesMonotone<E>(hash: (nat, E) -> uint32, size: nat, e: E, f: E, k: nat)
    requires size > 0 && k < 8 && hash(k, e) <= hash(k, f)
    ensures ComputeHashes(hash, size, e)[k] <= ComputeHashes(hash, size, f)[k]
  {
    MulMonotone(hash(k, e), hash(k, f), size);
    DivMonotone(hash(k, e) * size, hash(k, f) * size, TWO_32);
  }

  /** Some place of the element is discardable. */
  ghost predicate HasFree<E>(hash: (nat, E) -> uint32, size: nat, mem: seq<bv8>, e: E)
    requires 0 < size <= 8 * |mem|
  {
    exists k :: 0 <= k < 8 && IsSet(mem, ComputeHashes(hash, size, e)[k])
  }

  /** The first place of the element, in the order of the hashes, that is discardable. */
  ghost predicate FirstFree<E>(hash: (nat, E) -> uint32, size: nat, mem: seq<bv8>, e: E, loc: nat)
    requires 0 < size <= 8 * |mem|
  {
    var locs := ComputeHashes(hash, size, e);
    exists k :: 0 <= k < 8 && locs[k] == loc && IsSet(mem, locs[k]) && forall j :: 0 <= j < k ==> !IsSet(mem, locs[j])
  }

  ghost predicate DistinctPlaces(locs: seq<nat>) {
    forall i, j :: 0 <= i < j < |locs| ==> locs[i] != locs[j]
  }

  /** `k` is where `loc` occurs first, or one past the end. */
  ghost predicate FirstAt(locs: seq<nat>, loc: nat, k: nat) {
    k <= |locs| && (k < |locs| ==> locs[k] == loc) && forall j :: 0 <= j < k ==> locs[j] != loc
  }

  /** The place behind the first occurrence of `last`, going round; the second one where `last` does not occur. */
  ghost predicate Behind(locs: seq<nat>, last: nat, loc: nat)
    requires |locs| == 8
  {
    if last in locs then exists k :: 0 <= k < 8 && FirstAt(locs, last, k) && loc == locs[if k < 7 then k + 1 else 0]
    else loc == locs[1]
  }

  /** An element does not go where its predecessor has just gone unless its places coincide. */
  lemma BehindMoves(locs: seq<nat>, last: nat, loc: nat)
    requires |locs| == 8 && Behind(locs, last, loc)
    ensures loc in locs && (DistinctPlaces(locs) ==> loc != last)
  {
  }

  // ---------- The account of elements ----------

  /** `x` is out of the table for `e`; if it is lost it was not discardable. Everything else is there as often as before. */
  ghost predicate Balanced<E(!new)>(table: seq<E>, mem: seq<bv8>, table': seq<E>, mem': seq<bv8>, e: E, x: E, lost: bool)
    requires |table| == |table'| <= 8 * |mem| && |table| <= 8 * |mem'|
  {
    && multiset(table') + multiset{x} == multiset(table) + multiset{e}
    && forall y :: Kept(table', mem', y, |table|) + One(lost && y == x) == Kept(table, mem, y, |table|) + One(y == e)
  }

  lemma BalancedKick<E(!new)>(table: seq<E>, mem: seq<bv8>, t: seq<E>, t': seq<E>, e: E, x: E, loc: nat)
    requires |table| == |t| <= 8 * |mem| && loc < |t| && Balanced(table, mem, t, mem, e, x, true) && t' == t[loc := x]
    requires forall y :: Kept(t', mem, y, |t|) + One(t[loc] == y) == Kept(t, mem, y, |t|) + One(x == y)
    ensures Balanced(table, mem, t', mem, e, t[loc], true)
  {
    hide Kept;
    assert multiset(t') == multiset(t) - multiset{t[loc]} + multiset{x};
    forall y ensures Kept(t', mem, y, |t|) + One(y == t[loc]) == Kept(table, mem, y, |t|) + One(y == e) {
      assert Kept(t, mem, y, |t|) + One(true && y == x) == Kept(table, mem, y, |t|) + One(y == e);
    }
  }

  lemma BalancedPut<E(!new)>(table: seq<E>, mem: seq<bv8>, t: seq<E>, t': seq<E>, mem': seq<bv8>, e: E, x: E, loc: nat)
    requires |table| == |t| <= 8 * |mem| && |t| <= 8 * |mem'| && loc < |t|
    requires Balanced(table, mem, t, mem, e, x, true) && t' == t[loc := x]
    requires forall y :: Kept(t', mem', y, |t|) == Kept(t, mem, y, |t|) + One(y == x)
    ensures Balanced(table, mem, t', mem', e, t[loc], false)
  {
    hide Kept;
    assert multiset(t') == multiset(t) - multiset{t[loc]} + multiset{x};
    forall y ensures Kept(t', mem', y, |t|) + One(false && y == t[loc]) == Kept(table, mem, y, |t|) + One(y == e) {
      assert Kept(t, mem, y, |t|) + One(true && y == x) == Kept(table, mem, y, |t|) + One(y == e);
    }
  }

  // ---------- Chains of kicks ----------

  /** The table and the element in hand after kicks into these places. */
  datatype Chase<E> = Chase(table: seq<E>, inHand: E)

  function After<E>(table: seq<E>, e: E, kicks: seq<nat>): (r: Chase<E>)
    requires forall i :: 0 <= i < |kicks| ==> kicks[i] < |table|
    ensures |r.table| == |table|
  {
    if kicks == [] then Chase(table, e)
    else
      var n := |kicks| - 1;
      var c := After(table, e, kicks[..n]);
      Chase(c.table[kicks[n] := c.inHand], c.table[kicks[n]])
  }

  /**
    The kicks are forced: each element in hand has no discardable place and goes to one of its own,
    the first one to its second place, the others to the place behind the one the predecessor got.
  */
  ghost predicate Forced<E>(hash: (nat, E) -> uint32, size: nat, mem: seq<bv8>, table: seq<E>, e: E, kicks: seq<nat>)
    requires 0 < size == |table| <= 8 * |mem|
  {
    && (forall i :: 0 <= i < |kicks| ==> kicks[i] < size)
    && forall i :: 0 <= i < |kicks| ==> ForcedAt(hash, size, mem, table, e, kicks, i)
  }

  ghost predicate ForcedAt<E>(hash: (nat, E) -> uint32, size: nat, mem: seq<bv8>, table: seq<E>, e: E, kicks: seq<nat>, i: nat)
    requires 0 < size == |table| <= 8 * |mem| && i < |kicks| && forall j :: 0 <= j < |kicks| ==> kicks[j] < size
  {
    var x := After(table, e, kicks[..i]).inHand;
    var locs := ComputeHashes(hash, size, x);
    && !HasFree(hash, size, mem, x) && kicks[i] in locs
    && if i == 0 then kicks[i] == locs[1] else Behind(locs, kicks[i - 1], kicks[i])
  }

  lemma ForcedMore<E>(hash: (nat, E) -> uint32, size: nat, mem: seq<bv8>, table: seq<E>, e: E, kicks: seq<nat>, loc: nat)
    requires 0 < size == |table| <= 8 * |mem| && Forced(hash, size, mem, table, e, kicks) && loc < size
    requires var x := After(table, e, kicks).inHand;
             var locs := ComputeHashes(hash, size, x);
             && !HasFree(hash, size, mem, x) && loc in locs
             && if kicks == [] then loc == locs[1] else Behind(locs, kicks[|kicks| - 1], loc)
    ensures Forced(hash, size, mem, table, e, kicks + [loc])
    ensures var c := After(table, e, kicks);
            After(table, e, kicks + [loc]) == Chase(c.table[loc := c.inHand], c.table[loc])
  {
    hide HasFree, Behind;
    var more := kicks + [loc];
    assert more[..|kicks|] == kicks;
    forall i | 0 <= i < |more| ensures ForcedAt(hash, size, mem, table, e, more, i) {
      if i < |kicks| {
        assert ForcedAt(hash, size, mem, table, e, kicks, i);
        assert more[..i] == kicks[..i];
      }
    }
  }

  lemma NoKicks<E>(hash: (nat, E) -> uint32, size: nat, mem: seq<bv8>, table: seq<E>, e: E)
    requires 0 < size == |table| <= 8 * |mem|
    ensures Forced(hash, size, mem, table, e, []) && After(table, e, []) == Chase(table, e)
  {
  }

  lemma IsFirstFree<E>(hash: (nat, E) -> uint32, size: nat, mem: seq<bv8>, e: E, k: nat)
    requires 0 < size <= 8 * |mem| && k < 8
    requires var locs := ComputeHashes(hash, size, e); IsSet(mem, locs[k]) && forall j :: 0 <= j < k ==> !IsSet(mem, locs[j])
    ensures FirstFree(hash, size, mem, e, ComputeHashes(hash, size, e)[k])
  {
  }

  lemma NoneFree<E>(hash: (nat, E) -> uint32, size: nat, mem: seq<bv8>, e: E)
    requires 0 < size <= 8 * |mem| && forall j :: 0 <= j < 8 ==> !IsSet(mem, ComputeHashes(hash, size, e)[j])
    ensures !HasFree(hash, size, mem, e)
  {
  }

  /** How an element enters the table: into its first discardable place, or by way of kicks. */
  ghost predicate Inserted<E>(hash: (nat, E) -> uint32, size: nat, mem: seq<bv8>, table: seq<E>, table': seq<E>, e: E,
                              depth: nat, kicks: seq<nat>, overflow: bool, discarded: E)
    requires 0 < size == |table| <= 8 * |mem|
  {
    && Forced(hash, size, mem, table, e, kicks)
    && var c := After(table, e, kicks);
       if overflow then |kicks| == depth && table' == c.table && discarded == c.inHand
       else
         && |kicks| < depth
         && exists loc: nat :: loc < size && FirstFree(hash, size, mem, c.inHand, loc) && table' == c.table[loc := c.inHand] && discarded == c.table[loc]
  }

  /** An element with a discardable place gets the first of them, and nothing else is touched. */
  lemma FreeIsTaken<E>(hash: (nat, E) -> uint32, size: nat, mem: seq<bv8>, table: seq<E>, table': seq<E>, e: E,
                       depth: nat, kicks: seq<nat>, overflow: bool, discarded: E)
    requires 0 < size == |table| <= 8 * |mem| && depth >= 1 && HasFree(hash, size, mem, e)
    requires Inserted(hash, size, mem, table, table', e, depth, kicks, overflow, discarded)
    ensures !overflow && kicks == []
    ensures exists loc: nat :: loc < size && FirstFree(hash, size, mem, e, loc) && table' == table[loc := e] && discarded == table[loc]
  {
    hide HasFree, FirstFree;
    if kicks != [] {
      FirstForced(hash, size, mem, table, e, kicks);
    }
  }

  lemma FirstForced<E>(hash: (nat, E) -> uint32, size: nat, mem: seq<bv8>, table: seq<E>, e: E, kicks: seq<nat>)
    requires 0 < size == |table| <= 8 * |mem| && Forced(hash, size, mem, table, e, kicks) && kicks != []
    ensures !HasFree(hash, size, mem, e)
  {
    hide HasFree;
    assert kicks[..0] == [];
    assert ForcedAt(hash, size, mem, table, e, kicks, 0);
  }

  /** Whatever sits in a place has that place among its eight. */
  ghost predicate Placed<E>(hash: (nat, E) -> uint32, defaultElement: E, size: nat, table: seq<E>) {
    && 0 < size == |table|
    && forall i :: 0 <= i < size ==> table[i] == defaultElement || i in ComputeHashes(hash, size, table[i])
  }

  /** With every flag set all places are discardable and none is counted. */
  lemma AllFree(epoch: seq<bool>, mem: seq<bv8>, size: nat)
    requires |epoch| == size && |mem| == (size + 7) / 8 && forall i :: 0 <= i < |mem| ==> mem[i] == 0xff
    ensures (forall i :: 0 <= i < size ==> IsSet(mem, i)) && LiveCount(epoch, mem, size) == 0
  {
    forall i | 0 <= i < size ensures IsSet(mem, i) { AllBits(i % 8); }
    NoneLive(epoch, mem, size);
  }

  /** The bytes for the flags, counted in 32 bits: none for the largest sizes. */
  function FlagBytes(size: uint32): (n: nat)
    ensures n == if size <= TWO_32 - 8 then (size + 7) / 8 else 0
  {
    (size + 7) % TWO_32 / 8
  }

  /** The size of an epoch: 45 of a hundred places, as long as the product fits into 32 bits. */
  function EpochSize(size: nat): (n: nat)
    ensures n >= 1 && 100 * n <= TWO_32
    ensures 45 * size < TWO_32 ==> 45 * size < 100 * n + 100 && (n > 1 ==> 100 * n <= 45 * size)
    ensures TWO_32 <= 45 * size < 2 * TWO_32 && n > 1 ==> 100 * n <= 45 * size - TWO_32 < 100 * n + 100
  {
    var share := (45 * size % TWO_32) / 100;
    if share < 1 then 1 else share
  }

  // ---------- The cache ----------

  class Cache<E(==,!new)> {
    const hash: (nat, E) -> uint32
    const defaultElement: E

    var table: seq<E>
    var size: nat
    var mem: seq<bv8>
    var epochFlags: seq<bool>
    var epochHeuristicCounter: nat
    var epochSize: nat
    var depthLimit: nat

    constructor (hash: (nat, E) -> uint32, defaultElement: E)
      ensures this.hash == hash && this.defaultElement == defaultElement
      ensures table == [] && mem == [] && epochFlags == [] && size == epochHeuristicCounter == epochSize == depthLimit == 0
    {
      this.hash := hash;
      this.defaultElement := defaultElement;
      table, size, mem, epochFlags := [], 0, [], [];
      epochHeuristicCounter, epochSize, depthLimit := 0, 0, 0;
    }

    ghost predicate Shaped()
      reads this
    {
      && 2 <= size < TWO_32
      && |table| == |epochFlags| == size && |mem| == (size + 7) / 8
      && epochSize >= 1 && depthLimit >= 1
    }

    /** Slack that the minimum scan interval leaves above the size of an epoch. */
    function Allowance(): nat
      reads this
    {
      epochSize + (if epochSize / 16 > 1 then epochSize / 16 else 1)
    }

    function Live(): nat
      requires Shaped()
      reads this
    {
      LiveCount(epochFlags, mem, size)
    }

    ghost predicate Valid()
      reads this
    {
      Shaped() && Placed(hash, defaultElement, size, table) && Live() + epochHeuristicCounter <= Allowance()
    }

    /**
      `depth` stands for the rounded-down logarithm that src/cuckoocache.h:342 computes in floating
      point.  The size of the packed flags is computed in 32 bits, so that the largest sizes leave
      no flags at all.
    */
    method Setup(newSize: uint32, depth: nat) returns (capacity: nat)
      requires depth >= 1
      modifies this
      ensures Valid() <==> newSize <= TWO_32 - 8
      ensures capacity == size == if newSize < 2 then 2 else newSize
      ensures Valid() ==> Live() == 0 && forall i :: 0 <= i < size ==> table[i] == defaultElement && IsSet(mem, i)
      ensures !Valid() ==> mem == []
      ensures epochHeuristicCounter == epochSize == EpochSize(size) && depthLimit == depth
      ensures |epochFlags| == size && forall i :: 0 <= i < size ==> !epochFlags[i]
    {
      hide FlagBytes, EpochSize, LiveCount, IsSet;
      depthLimit := depth;
      size := if newSize < 2 then 2 else newSize;
      table := seq(size, _ => defaultElement);
      mem := seq(FlagBytes(size), _ => 0xff);
      epochFlags := seq(size, _ => false);
      epochSize := EpochSize(size);
      epochHeuristicCounter := epochSize;
      capacity := size;
      if newSize <= TWO_32 - 8 {
        AllFree(epochFlags, mem, size);
      }
    }

    /** Ageing of the epochs, before every insertion. */
    method EpochCheck()
      requires Valid()
      modifies `mem, `epochFlags, `epochHeuristicCounter
      ensures Shaped() && Placed(hash, defaultElement, size, table) && Live() + 1 + epochHeuristicCounter <= Allowance()
      ensures if old(epochHeuristicCounter) == 0 && old(Live()) >= epochSize then
                forall i :: 0 <= i < size ==> !epochFlags[i] && (IsSet(mem, i) <==> old(IsSet(mem, i)) || !old(epochFlags[i]))
              else mem == old(mem) && epochFlags == old(epochFlags)
      ensures if old(epochHeuristicCounter) != 0 then epochHeuristicCounter == old(epochHeuristicCounter) - 1
              else if old(Live()) >= epochSize then epochHeuristicCounter == epochSize
              else
                && epochHeuristicCounter >= 1 && epochHeuristicCounter >= epochSize / 16 && epochHeuristicCounter + old(Live()) >= epochSize
                && epochHeuristicCounter in {1, epochSize / 16, epochSize - old(Live())}
    {
      if epochHeuristicCounter != 0 {
        epochHeuristicCounter := epochHeuristicCounter - 1;
        return;
      }
      var unused := 0;
      for i := 0 to size
        invariant unused == LiveCount(epochFlags, mem, i)
      {
        unused := unused + One(epochFlags[i] && !IsSet(mem, i));
      }
      if unused >= epochSize {
        Age();
        NoneLive(epochFlags, mem, size);
        epochHeuristicCounter := epochSize;
      } else {
        var wait := if epochSize / 16 > epochSize - unused then epochSize / 16 else epochSize - unused;
        epochHeuristicCounter := if wait > 1 then wait else 1;
      }
    }

    /** Give up the old epoch and turn the current one into the old one. */
    method Age()
      requires Shaped() && Placed(hash, defaultElement, size, table)
      modifies `mem, `epochFlags
      ensures Shaped() && Placed(hash, defaultElement, size, table)
      ensures forall i :: 0 <= i < size ==> !epochFlags[i]
      ensures forall i :: 0 <= i < size ==> (IsSet(mem, i) <==> old(IsSet(mem, i)) || !old(epochFlags[i]))
    {
      for i := 0 to size
        invariant Shaped() && Placed(hash, defaultElement, size, table)
        invariant forall j :: 0 <= j < i ==> !epochFlags[j]
        invariant forall j :: i <= j < size ==> epochFlags[j] == old(epochFlags[j])
        invariant forall j :: 0 <= j < size ==>
                    (IsSet(mem, j) <==> old(IsSet(mem, j)) || (j < i && !old(epochFlags[j])))
      {
        if epochFlags[i] {
          epochFlags := epochFlags[i := false];
        } else {
          forall j | 0 <= j < size { FlagUpdated(mem, i, j); }
          mem := BitSet(mem, i);
        }
      }
    }

    /** First of the places `locs` that is discardable, or 8. */
    method FindFree(locs: seq<nat>) returns (k: nat)
      requires Shaped() && |locs| == 8 && forall j :: 0 <= j < 8 ==> locs[j] < size
      ensures k <= 8 && (k < 8 ==> IsSet(mem, locs[k]))
      ensures forall j :: 0 <= j < k ==> !IsSet(mem, locs[j])
    {
      k := 0;
      while k < 8 && !IsSet(mem, locs[k])
        invariant k <= 8 && forall j :: 0 <= j < k ==> !IsSet(mem, locs[j])
      {
        k := k + 1;
      }
    }

    /** First of the places `locs` that holds `e`, or 8. */
    method FindElement(locs: seq<nat>, e: E) returns (k: nat)
      requires Shaped() && |locs| == 8 && forall j :: 0 <= j < 8 ==> locs[j] < size
      ensures k <= 8 && (k < 8 ==> table[locs[k]] == e)
      ensures forall j :: 0 <= j < k ==> table[locs[j]] != e
    {
      k := 0;
      while k < 8 && table[locs[k]] != e
        invariant k <= 8 && forall j :: 0 <= j < k ==> table[locs[j]] != e
      {
        k := k + 1;
      }
    }

    /** Position of a place in `locs`, or 8. */
    static method IndexOf(locs: seq<nat>, loc: nat) returns (k: nat)
      requires |locs| == 8
      ensures k <= 8 && (k < 8 ==> locs[k] == loc) && forall j :: 0 <= j < k ==> locs[j] != loc
    {
      k := 0;
      while k < 8 && locs[k] != loc
        invariant k <= 8 && forall j :: 0 <= j < k ==> locs[j] != loc
      {
        k := k + 1;
      }
    }

    /** Put `e` in place `loc`, mark it as kept, and note its epoch. */
    method Put(loc: nat, e: E, epoch: bool)
      requires Shaped() && Placed(hash, defaultElement, size, table) && loc < size && (e == defaultElement || loc in ComputeHashes(hash, size, e))
      modifies `table, `mem, `epochFlags
      ensures Shaped() && Placed(hash, defaultElement, size, table)
      ensures table == old(table)[loc := e] && mem == BitUnset(old(mem), loc) && epochFlags == old(epochFlags)[loc := epoch]
      ensures forall i :: 0 <= i < size ==> IsSet(mem, i) == (i != loc && old(IsSet(mem, i)))
      ensures Live() == old(Live()) + One(epoch) - One(old(epochFlags[loc]) && !old(IsSet(mem, loc)))
      ensures forall x :: Kept(table, mem, x, size) ==
                old(Kept(table, mem, x, size)) + One(x == e) - One(old(table[loc]) == x && !old(IsSet(mem, loc)))
    {
      forall j | 0 <= j < size { FlagUpdated(mem, loc, j); }
      table := table[loc := e];
      mem := BitUnset(mem, loc);
      epochFlags := epochFlags[loc := epoch];
      LiveUpdate(old(epochFlags), old(mem), epochFlags, mem, loc, size);
      forall x
        ensures Kept(table, mem, x, size) ==
                Kept(old(table), old(mem), x, size) + One(x == e) - One(old(table[loc]) == x && !old(IsSet(mem, loc)))
      {
        KeptUpdate(old(table), old(mem), table, mem, x, loc, size);
      }
    }

    /** `contains`; with `erase`, the place becomes discardable while the element stays there. */
    method Contains(e: E, erase: bool) returns (found: bool)
      requires Valid()
      modifies `mem
      ensures Valid() && table == old(table)
      ensures e != defaultElement ==> (found <==> e in table)
      ensures if found && erase then exists i :: 0 <= i < size && table[i] == e && mem == BitSet(old(mem), i)
              else mem == old(mem)
    {
      var locs := ComputeHashes(hash, size, e);
      var k := FindElement(locs, e);
      found := k < 8;
      if found && erase {
        var loc := locs[k];
        forall j | 0 <= j < size { FlagUpdated(mem, loc, j); }
        mem := BitSet(mem, loc);
        LiveUpdate(epochFlags, old(mem), epochFlags, mem, loc, size);
      }
    }

    /** Swap the element in hand with the one in place `loc`, along with their epochs. */
    method Kick(loc: nat, e: E, epoch: bool) returns (e': E, epoch': bool)
      requires Shaped() && Placed(hash, defaultElement, size, table)
      requires loc < size && !IsSet(mem, loc) && loc in ComputeHashes(hash, size, e)
      modifies `table, `epochFlags
      ensures Shaped() && Placed(hash, defaultElement, size, table)
      ensures table == old(table)[loc := e] && e' == old(table)[loc]
      ensures Live() + One(epoch') == old(Live()) + One(epoch)
      ensures epoch' == old(epochFlags)[loc] && epochFlags == old(epochFlags)[loc := epoch]
      ensures forall x :: Kept(table, mem, x, size) + One(e' == x) == Kept(old(table), mem, x, size) + One(e == x)
    {
      e', epoch' := table[loc], epochFlags[loc];
      table := table[loc := e];
      epochFlags := epochFlags[loc := epoch];
      LiveUpdate(old(epochFlags), mem, epochFlags, mem, loc, size);
      forall x
        ensures Kept(table, mem, x, size) + One(e' == x) == Kept(old(table), mem, x, size) + One(e == x)
      {
        KeptUpdate(old(table), mem, table, mem, x, loc, size);
      }
    }

    /** The place for the next kick: the one behind the place where the last element went, if that is one of these. */
    static method NextKick(locs: seq<nat>, lastLoc: nat) returns (loc: nat)
      requires |locs| == 8
      ensures Behind(locs, lastLoc, loc) && loc in locs
    {
      var at := IndexOf(locs, lastLoc);
      loc := locs[(1 + at) % 8];
      assert FirstAt(locs, lastLoc, at);
    }

    /** The copy of `e` that is being inserted: in hand, or at a place of its own, with the current epoch. */
    ghost predicate Tracked(e: E, at: int, inHand: E, epoch: bool)
      requires Shaped()
      reads this
    {
      if at < 0 then inHand == e && epoch
      else at < size && table[at] == e && epochFlags[at] && !IsSet(mem, at) && at in ComputeHashes(hash, size, e)
    }

    /** One round without a discardable place: the element in hand takes the place of another. */
    method Round(e: E, lastLoc: nat, lastEpoch: bool, inHand: E, ghost at: int,
                 ghost kicks: seq<nat>, ghost table0: seq<E>)
      returns (loc: nat, epoch': bool, inHand': E, ghost at': int)
      requires Shaped() && Placed(hash, defaultElement, size, table) && |table0| == size
      requires forall j :: 0 <= j < 8 ==> !IsSet(mem, ComputeHashes(hash, size, inHand)[j])
      requires (forall i :: 0 <= i < |kicks| ==> kicks[i] < size) && Forced(hash, size, mem, table0, e, kicks)
      requires After(table0, e, kicks) == Chase(table, inHand)
      requires lastLoc == if kicks == [] then TWO_32 - 1 else kicks[|kicks| - 1]
      requires Tracked(e, at, inHand, lastEpoch) && Balanced(table0, mem, table, mem, e, inHand, true)
      modifies `table, `epochFlags
      ensures Shaped() && Placed(hash, defaultElement, size, table)
      ensures loc < size && Forced(hash, size, mem, table0, e, kicks + [loc])
      ensures After(table0, e, kicks + [loc]) == Chase(table, inHand')
      ensures Tracked(e, at', inHand', epoch') && Balanced(table0, mem, table, mem, e, inHand', true)
      ensures Live() + One(epoch') == old(Live()) + One(lastEpoch)
    {
      hide HasFree, Forced, Placed, DistinctPlaces, LiveCount, Kept, After, Balanced;
      var locs := ComputeHashes(hash, size, inHand);
      NoneFree(hash, size, mem, inHand);
      loc := NextKick(locs, lastLoc);
      ForcedMore(hash, size, mem, table0, e, kicks, loc);
      inHand', epoch' := Kick(loc, inHand, lastEpoch);
      BalancedKick(table0, mem, old(table), table, e, inHand, loc);
      at' := if at < 0 then loc else if at == loc then -1 else at;
    }

    /** The last round: the element in hand takes its first discardable place. */
    method Settle(e: E, k: nat, epoch: bool, inHand: E, ghost at: int, ghost table0: seq<E>) returns (ghost discarded: E)
      requires Shaped() && Placed(hash, defaultElement, size, table) && |table0| == size && k < 8
      requires IsSet(mem, ComputeHashes(hash, size, inHand)[k])
      requires Tracked(e, at, inHand, epoch) && Balanced(table0, mem, table, mem, e, inHand, true)
      modifies `table, `mem, `epochFlags
      ensures Shaped() && Placed(hash, defaultElement, size, table) && Refreshed(e)
      ensures var loc := ComputeHashes(hash, size, inHand)[k]; table == old(table)[loc := inHand] && discarded == old(table)[loc]
      ensures Live() <= old(Live()) + One(epoch) && Balanced(table0, old(mem), table, mem, e, discarded, false)
    {
      hide Placed, LiveCount, Kept, Balanced;
      var loc := ComputeHashes(hash, size, inHand)[k];
      discarded := table[loc];
      Put(loc, inHand, epoch);
      BalancedPut(table0, old(mem), old(table), table, mem, e, inHand, loc);
      ghost var here := if at < 0 then loc else at;
      assert here in ComputeHashes(hash, size, e) && table[here] == e && !IsSet(mem, here) && epochFlags[here];
    }

    /**
      The walk of an element that is in none of its places.  One element is given up for it, and
      the rest is only moved: something discardable if `depthLimit` kicks come across any, else
      the last element in hand.
    */
    method Walk(e: E) returns (ghost kicks: seq<nat>, ghost overflow: bool, ghost discarded: E)
      requires Shaped() && Placed(hash, defaultElement, size, table)
      modifies `table, `mem, `epochFlags
      ensures Shaped() && Placed(hash, defaultElement, size, table)
      ensures Live() <= old(Live()) + 1
      ensures Inserted(hash, size, old(mem), old(table), table, e, depthLimit, kicks, overflow, discarded)
      ensures if overflow then mem == old(mem) else Refreshed(e)
      ensures Balanced(old(table), old(mem), table, mem, e, discarded, overflow)
    {
      hide FirstFree, HasFree, Forced, Placed, LiveCount, Kept, After, Balanced, Tracked, ComputeHashes, IsSet;
      var locs := ComputeHashes(hash, size, e);
      var lastLoc: nat, lastEpoch, inHand := TWO_32 - 1, true, e;
      ghost var at := -1;
      kicks := [];
      WalkStarts(e);
      NoKicks(hash, size, mem, table, e);
      for depth := 0 to depthLimit
        invariant Shaped() && Placed(hash, defaultElement, size, table)
        invariant mem == old(mem) && locs == ComputeHashes(hash, size, inHand)
        invariant |kicks| == depth && (forall i :: 0 <= i < |kicks| ==> kicks[i] < size) && Forced(hash, size, mem, old(table), e, kicks)
        invariant After(old(table), e, kicks) == Chase(table, inHand)
        invariant lastLoc == if kicks == [] then TWO_32 - 1 else kicks[|kicks| - 1]
        invariant Tracked(e, at, inHand, lastEpoch)
        invariant Live() + One(lastEpoch) <= old(Live()) + 1
        invariant Balanced(old(table), mem, table, mem, e, inHand, true)
      {
        var k := FindFree(locs);
        if k < 8 {
          IsFirstFree(hash, size, mem, inHand, k);
          discarded := Settle(e, k, lastEpoch, inHand, at, old(table));
          overflow := false;
          return;
        }
        lastLoc, lastEpoch, inHand, at := Round(e, lastLoc, lastEpoch, inHand, at, kicks, old(table));
        kicks := kicks + [lastLoc];
        locs := ComputeHashes(hash, size, inHand);
      }
      overflow, discarded := true, inHand;
    }

    lemma WalkStarts(e: E)
      requires Shaped()
      ensures Tracked(e, -1, e, true) && Balanced(table, mem, table, mem, e, e, true)
    {
    }

    /** The element is in one of its places, not to be discarded and of the current epoch. */
    ghost predicate Refreshed(e: E)
      requires Shaped()
      reads this
    {
      exists loc :: loc in ComputeHashes(hash, size, e) && loc < size && table[loc] == e && !IsSet(mem, loc) && epochFlags[loc]
    }

    /** Insertion after the epoch check; an element that is in one of its places is only refreshed. */
    method Place(e: E) returns (ghost present: bool, ghost kicks: seq<nat>, ghost overflow: bool, ghost discarded: E)
      requires Shaped() && Placed(hash, defaultElement, size, table)
      modifies `table, `mem, `epochFlags
      ensures Shaped() && Placed(hash, defaultElement, size, table)
      ensures Live() <= old(Live()) + 1
      ensures present <==> exists loc :: loc in ComputeHashes(hash, size, e) && old(table)[loc] == e
      ensures present ==> table == old(table) && !overflow
      ensures !overflow ==> Refreshed(e)
      ensures !present ==> Inserted(hash, size, old(mem), old(table), table, e, depthLimit, kicks, overflow, discarded)
      ensures !present ==> Balanced(old(table), old(mem), table, mem, e, discarded, overflow)
    {
      var locs := ComputeHashes(hash, size, e);
      var k := FindElement(locs, e);
      present, kicks, overflow, discarded := k < 8, [], false, e;
      if k < 8 {
        Put(locs[k], e, true);
      } else {
        kicks, overflow, discarded := Walk(e);
      }
    }

    /**
      Whatever the mix of insertions and erasing lookups, the current epoch stays within its bound.
      `aged` are the flags after the epoch check; the account of kept elements starts from them.
      The element is in the table afterwards, kept and of the current epoch, unless the walk
      overflows, and it does not where a place of the element is discardable.
    */
    method Insert(e: E) returns (ghost aged: seq<bv8>, ghost kicks: seq<nat>, ghost overflow: bool, ghost discarded: E)
      requires Valid()
      modifies `table, `mem, `epochFlags, `epochHeuristicCounter
      ensures Valid() && Live() <= Allowance() && |aged| == |old(mem)|
      ensures Live() <= epochSize + 1 || 16 * Live() <= 17 * epochSize
      ensures var rolled := old(epochHeuristicCounter) == 0 && old(Live()) >= epochSize;
              forall i :: 0 <= i < size ==> (IsSet(aged, i) <==> old(IsSet(mem, i)) || (rolled && !old(epochFlags[i])))
      ensures !overflow ==> Refreshed(e) && e in table
      ensures HasFree(hash, size, aged, e) ==> !overflow
      ensures old(e in table && e != defaultElement) ==> table == old(table) && !overflow
      ensures old(e !in table) ==>
                && Inserted(hash, size, aged, old(table), table, e, depthLimit, kicks, overflow, discarded)
                && Balanced(old(table), aged, table, mem, e, discarded, overflow)
      ensures old(e !in table) && HasFree(hash, size, aged, e) ==>
                exists loc: nat :: loc < size && FirstFree(hash, size, aged, e, loc) && table == old(table)[loc := e]
    {
      hide HasFree, FirstFree, Inserted, LiveCount, Balanced;
      EpochCheck();
      aged := mem;
      ghost var present;
      present, kicks, overflow, discarded := Place(e);
      if !present && HasFree(hash, size, aged, e) {
        FreeIsTaken(hash, size, aged, old(table), table, e, depthLimit, kicks, overflow, discarded);
      }
    }
  }
}
