/**
  The rolling bloom filter (src/bloom.h:85-130, src/bloom.cpp:173-276): a bloom filter whose
  cells carry the generation, 1 to 3, in which they were last set, two bits in two words.
*/
module RollingBloom {

  import opened Arithmetic
  import opened Basics

  type BitIndex = i: bv64 | i < 64

  type Key = seq<bv8>

  /** A hash value together with its six low bits, which index a bit of a word. */
  datatype Probe = Probe(h: uint32, bit: BitIndex)

  // ---------- Words ----------

  predicate Bit(w: bv64, i: BitIndex)
  {
    (w >> i) & 1 == 1
  }

  function WithBit(w: bv64, i: BitIndex, v: bool): bv64
  {
    (w & !((1 as bv64) << i)) | ((if v then 1 as bv64 else 0) << i)
  }

  /** All bits equal to `v`; the source writes it as 0 minus v. */
  function Broadcast(v: bool): bv64 {
    (0 as bv64) - (if v then 1 else 0)
  }

  lemma BitOfWithBit(w: bv64, i: BitIndex, v: bool, j: BitIndex)
    ensures Bit(WithBit(w, i, v), j) == if i == j then v else Bit(w, j)
  {
  }

  function And(a: bv64, b: bv64): bv64 { a & b }

  function Or(a: bv64, b: bv64): bv64 { a | b }

  function Xor(a: bv64, b: bv64): bv64 { a ^ b }

  lemma RawAnd(a: bv64, b: bv64, i: BitIndex)
    ensures Bit(a & b, i) == (Bit(a, i) && Bit(b, i))
  {
  }

  lemma BitOfAnd(a: bv64, b: bv64, i: BitIndex)
    ensures Bit(And(a, b), i) == (Bit(a, i) && Bit(b, i))
  {
    hide Bit;
    RawAnd(a, b, i);
  }

  lemma RawOr(a: bv64, b: bv64, i: BitIndex)
    ensures Bit(a | b, i) == (Bit(a, i) || Bit(b, i))
  {
  }

  lemma BitOfOr(a: bv64, b: bv64, i: BitIndex)
    ensures Bit(Or(a, b), i) == (Bit(a, i) || Bit(b, i))
  {
    hide Bit;
    RawOr(a, b, i);
  }

  lemma RawXor(a: bv64, b: bv64, i: BitIndex)
    ensures Bit(a ^ b, i) == (Bit(a, i) != Bit(b, i))
  {
  }

  lemma BitOfXor(a: bv64, b: bv64, i: BitIndex)
    ensures Bit(Xor(a, b), i) == (Bit(a, i) != Bit(b, i))
  {
    hide Bit;
    RawXor(a, b, i);
  }

  lemma BitOfBroadcast(v: bool, i: BitIndex)
    ensures Bit(Broadcast(v), i) == v
    ensures !Bit(0, i)
  {
  }

  // ---------- Cells and generations ----------

  /** A two-bit cell: bit `bit` of words 2 * `word` and 2 * `word` + 1. */
  datatype Cell = Cell(word: nat, bit: BitIndex)

  ghost predicate InRange(c: Cell, data: seq<bv64>) {
    2 * c.word + 1 < |data|
  }

  function One(b: bool): nat {
    if b then 1 else 0
  }

  /** The generation in which the cell was last set, or 0. */
  function Generation(data: seq<bv64>, c: Cell): (g: nat)
    requires 2 * c.word + 1 < |data|
    ensures g <= 3
  {
    One(Bit(data[2 * c.word], c.bit)) + 2 * One(Bit(data[2 * c.word + 1], c.bit))
  }

  /** A 32-bit hash scaled down to [0, n). */
  function FastMod(x: uint32, n: nat): nat {
    x * n / TWO_32
  }

  lemma FastModInRange(x: uint32, n: nat)
    requires n > 0
    ensures FastMod(x, n) < n
  {
    MulStrict(x, TWO_32, n);
    DivLess(x * n, TWO_32, n);
  }

  /** The cell a hash value stands for, in a filter of `size` words. */
  function CellOf(probe: Probe, size: nat): Cell {
    Cell(FastMod(probe.h, size) / 2, probe.bit)
  }

  /** Each cell of a filter of up to 2^32 words stands for some hash. */
  lemma CellsOnto(c: Cell, data: seq<bv64>) returns (h: uint32)
    requires InRange(c, data) && |data| <= TWO_32
    ensures CellOf(Probe(h, c.bit), |data|) == c
  {
    h := ScalingOnto(2 * c.word, |data|, TWO_32);
  }

  /** A greater hash never stands for an earlier word. */
  lemma CellsMonotone(p: Probe, q: Probe, size: nat)
    requires p.h <= q.h
    ensures CellOf(p, size).word <= CellOf(q, size).word && CellOf(p, size).bit == p.bit
  {
    MulMonotone(p.h, q.h, size);
    DivMonotone(p.h * size, q.h * size, TWO_32);
  }

  lemma CellInRange(probe: Probe, data: seq<bv64>)
    requires |data| > 0 && |data| % 2 == 0
    ensures InRange(CellOf(probe, |data|), data)
  {
    FastModInRange(probe.h, |data|);
  }

  /** How many generations ago `g` was the current one. */
  function Age(current: nat, g: nat): int {
    if g <= current then current - g else current - g + 3
  }

  function NextGeneration(g: nat): nat {
    if g == 3 then 1 else g + 1
  }

  // ---------- Wiping ----------

  /** One pair of words with the cells of a generation cleared, as in src/bloom.cpp:225-228. */
  function WipeMask(p1: bv64, p2: bv64, low: bool, high: bool): bv64 {
    Or(Xor(p1, Broadcast(low)), Xor(p2, Broadcast(high)))
  }

  lemma WipeMaskBit(p1: bv64, p2: bv64, low: bool, high: bool, i: BitIndex)
    ensures Bit(WipeMask(p1, p2, low, high), i) == (Bit(p1, i) != low || Bit(p2, i) != high)
  {
    hide Bit, Or, Xor, Broadcast;
    BitOfBroadcast(low, i);
    BitOfBroadcast(high, i);
    BitOfXor(p1, Broadcast(low), i);
    BitOfXor(p2, Broadcast(high), i);
    BitOfOr(Xor(p1, Broadcast(low)), Xor(p2, Broadcast(high)), i);
  }

  lemma WipedBits(p1: bv64, p2: bv64, low: bool, high: bool, i: BitIndex)
    ensures var mask := WipeMask(p1, p2, low, high);
            var hit := Bit(p1, i) == low && Bit(p2, i) == high;
            Bit(And(p1, mask), i) == (Bit(p1, i) && !hit) && Bit(And(p2, mask), i) == (Bit(p2, i) && !hit)
  {
    hide Bit, And, WipeMask;
    WipeMaskBit(p1, p2, low, high, i);
    BitOfAnd(p1, WipeMask(p1, p2, low, high), i);
    BitOfAnd(p2, WipeMask(p1, p2, low, high), i);
  }

  // ---------- What the filter remembers ----------

  /** The age of the generation in which the insertion `d` places from the last one was made. */
  function EntryAge(d: nat, perGeneration: nat, thisGeneration: nat): nat {
    if d < thisGeneration then 0
    else if d < thisGeneration + perGeneration then 1
    else if d < thisGeneration + 2 * perGeneration then 2
    else 3
  }

  /** Every cell of the key was set at most `age` generations ago. */
  ghost predicate Covered(hash: (nat, uint32, Key) -> Probe, tweak: uint32, funcs: nat, data: seq<bv64>, current: nat, key: Key, age: nat) {
    forall n :: 0 <= n < funcs ==>
      var c := CellOf(hash(n, tweak, key), |data|);
      InRange(c, data) && Generation(data, c) != 0 && Age(current, Generation(data, c)) <= age
  }

  /** The cell is one of the key's. */
  ghost predicate IsCellOf(hash: (nat, uint32, Key) -> Probe, tweak: uint32, funcs: nat, size: nat, key: Key, c: Cell) {
    exists n :: 0 <= n < funcs && CellOf(hash(n, tweak, key), size) == c
  }

  /** The insertion `d` places from the last one set this cell, in the generation of that age. */
  ghost predicate SetBy(hash: (nat, uint32, Key) -> Probe, tweak: uint32, funcs: nat, size: nat, inserted: seq<Key>,
                        per: nat, this': nat, c: Cell, age: int, d: int) {
    UsedBy(hash, tweak, funcs, size, inserted, c, d) && EntryAge(d, per, this') == age
  }

  /** Every cell that is set was set by an insertion made in the generation the cell carries. */
  ghost predicate Backed(hash: (nat, uint32, Key) -> Probe, tweak: uint32, funcs: nat, data: seq<bv64>, inserted: seq<Key>,
                         per: nat, this': nat, current: nat) {
    forall c :: InRange(c, data) && Generation(data, c) != 0 ==>
      exists d :: SetBy(hash, tweak, funcs, |data|, inserted, per, this', c, Age(current, Generation(data, c)), d)
  }

  /** The cell is one of a key inserted in the last three generations. */
  ghost predicate Recent(hash: (nat, uint32, Key) -> Probe, tweak: uint32, funcs: nat, size: nat, inserted: seq<Key>,
                         per: nat, this': nat, c: Cell) {
    exists d :: UsedBy(hash, tweak, funcs, size, inserted, c, d) && d < this' + 2 * per
  }

  ghost predicate UsedBy(hash: (nat, uint32, Key) -> Probe, tweak: uint32, funcs: nat, size: nat, inserted: seq<Key>, c: Cell, d: int) {
    0 <= d < |inserted| && IsCellOf(hash, tweak, funcs, size, inserted[|inserted| - 1 - d], c)
  }

  lemma NothingSet(hash: (nat, uint32, Key) -> Probe, tweak: uint32, funcs: nat, data: seq<bv64>, per: nat, current: nat)
    requires forall i :: 0 <= i < |data| ==> data[i] == 0
    ensures Backed(hash, tweak, funcs, data, [], per, 0, current)
  {
    hide Bit;
    forall c | InRange(c, data) ensures Generation(data, c) == 0 {
      BitOfBroadcast(false, c.bit);
    }
  }

  /** A generation change ages what is set by one and clears what was oldest. */
  lemma RollBacked(hash: (nat, uint32, Key) -> Probe, tweak: uint32, funcs: nat, data: seq<bv64>, data': seq<bv64>,
                   inserted: seq<Key>, per: nat, current: nat)
    requires 1 <= current <= 3 && per >= 1 && |data| == |data'| && Backed(hash, tweak, funcs, data, inserted, per, per, current)
    requires forall c :: InRange(c, data') ==>
               Generation(data', c) == if Generation(data, c) == NextGeneration(current) then 0 else Generation(data, c)
    ensures Backed(hash, tweak, funcs, data', inserted, per, 0, NextGeneration(current))
  {
    hide IsCellOf, Generation;
    forall c | InRange(c, data') && Generation(data', c) != 0
      ensures exists d :: SetBy(hash, tweak, funcs, |data|, inserted, per, 0, c, Age(NextGeneration(current), Generation(data', c)), d)
    {
      var d :| SetBy(hash, tweak, funcs, |data|, inserted, per, per, c, Age(current, Generation(data, c)), d);
      assert SetBy(hash, tweak, funcs, |data|, inserted, per, 0, c, Age(NextGeneration(current), Generation(data', c)), d);
    }
  }

  /** Setting the cells of a key, and noting its insertion. */
  lemma MarkBacked(hash: (nat, uint32, Key) -> Probe, tweak: uint32, funcs: nat, data: seq<bv64>, data': seq<bv64>,
                   inserted: seq<Key>, key: Key, per: nat, this': nat, current: nat)
    requires 1 <= current <= 3 && this' < per && |data| == |data'| && Backed(hash, tweak, funcs, data, inserted, per, this', current)
    requires forall c :: InRange(c, data') ==>
               Generation(data', c) == if IsCellOf(hash, tweak, funcs, |data|, key, c) then current else Generation(data, c)
    ensures Backed(hash, tweak, funcs, data', inserted + [key], per, this' + 1, current)
  {
    hide IsCellOf, Generation;
    var more, now := inserted + [key], this' + 1;
    forall c | InRange(c, data') && Generation(data', c) != 0
      ensures exists d :: SetBy(hash, tweak, funcs, |data|, more, per, now, c, Age(current, Generation(data', c)), d)
    {
      if IsCellOf(hash, tweak, funcs, |data|, key, c) {
        assert more[|more| - 1 - 0] == key;
        assert UsedBy(hash, tweak, funcs, |data|, more, c, 0);
        assert SetBy(hash, tweak, funcs, |data|, more, per, now, c, Age(current, Generation(data', c)), 0);
      } else {
        var d :| SetBy(hash, tweak, funcs, |data|, inserted, per, this', c, Age(current, Generation(data, c)), d);
        assert more[|more| - 1 - (d + 1)] == inserted[|inserted| - 1 - d];
        assert SetBy(hash, tweak, funcs, |data|, more, per, now, c, Age(current, Generation(data', c)), d + 1);
      }
    }
  }

  // ---------- The filter ----------

  class Filter {
    const hash: (nat, uint32, Key) -> Probe
    const nEntriesPerGeneration: nat
    const nHashFuncs: nat
    var nEntriesThisGeneration: nat
    var nGeneration: nat
    var data: seq<bv64>
    var nTweak: uint32
    ghost var inserted: seq<Key>

    ghost predicate Shaped()
      reads this
    {
      && |data| > 0 && |data| % 2 == 0
      && 1 <= nGeneration <= 3
      && nEntriesPerGeneration >= 1 && nHashFuncs >= 1
      && nEntriesThisGeneration <= nEntriesPerGeneration
    }

    /** A cell that is set was set by an insertion of the last three generations. */
    ghost predicate Justified()
      reads this
    {
      Backed(hash, nTweak, nHashFuncs, data, inserted, nEntriesPerGeneration, nEntriesThisGeneration, nGeneration)
    }

    ghost predicate Remembers(d: nat)
      requires d < |inserted|
      reads this
    {
      var age := EntryAge(d, nEntriesPerGeneration, nEntriesThisGeneration);
      age <= 2 ==> Covered(hash, nTweak, nHashFuncs, data, nGeneration, inserted[|inserted| - 1 - d], age)
    }

    ghost predicate Valid()
      reads this
    {
      Shaped() && Justified() && forall d :: 0 <= d < |inserted| ==> Remembers(d)
    }

    /** The floating-point sizing of src/bloom.cpp:175-189 is replaced by its two results. */
    constructor (hash: (nat, uint32, Key) -> Probe, nElements: nat, hashFuncs: nat, filterBits: nat, tweak: uint32)
      requires nElements >= 1 && hashFuncs >= 1 && filterBits >= 1
      ensures Valid() && inserted == [] && this.hash == hash && nTweak == tweak && nHashFuncs == hashFuncs
      ensures nEntriesThisGeneration == 0 && nGeneration == 1
      ensures nElements <= 2 * nEntriesPerGeneration <= nElements + 1
      ensures 32 * |data| >= filterBits > 32 * (|data| - 2)
    {
      this.hash := hash;
      nEntriesPerGeneration := (nElements + 1) / 2;
      nHashFuncs := hashFuncs;
      data := seq((filterBits + 63) / 64 * 2, _ => 0);
      nEntriesThisGeneration, nGeneration, nTweak, inserted := 0, 1, tweak, [];
      new;
      NothingSet(hash, tweak, hashFuncs, data, nEntriesPerGeneration, 1);
    }

    method Reset(tweak: uint32)
      requires Valid()
      modifies `nTweak, `nEntriesThisGeneration, `nGeneration, `data, `inserted
      ensures Valid() && inserted == [] && nTweak == tweak && |data| == |old(data)|
      ensures nEntriesThisGeneration == 0 && nGeneration == 1
    {
      nTweak := tweak;
      nEntriesThisGeneration := 0;
      nGeneration := 1;
      data := seq(|data|, _ => 0);
      inserted := [];
      NothingSet(hash, nTweak, nHashFuncs, data, nEntriesPerGeneration, 1);
    }

    /** Clear every cell of generation `g` and no other. */
    method Wipe(g: nat)
      requires |data| % 2 == 0 && 1 <= g <= 3
      modifies `data
      ensures |data| == |old(data)|
      ensures forall c :: InRange(c, data) ==>
                Generation(data, c) == if Generation(old(data), c) == g then 0 else Generation(old(data), c)
    {
      hide Bit, And, WipeMask;
      var p := 0;
      while p < |data|
        invariant |data| == |old(data)| && p % 2 == 0
        invariant forall c :: InRange(c, data) ==>
                    Generation(data, c) ==
                    if 2 * c.word < p && Generation(old(data), c) == g then 0 else Generation(old(data), c)
      {
        var p1, p2 := data[p], data[p + 1];
        var mask := WipeMask(p1, p2, g % 2 == 1, g / 2 == 1);
        forall i: BitIndex { WipedBits(p1, p2, g % 2 == 1, g / 2 == 1, i); }
        data := data[p := And(p1, mask)][p + 1 := And(p2, mask)];
        p := p + 2;
      }
    }

    /** Set one cell to generation `g`. */
    method SetCell(c: Cell, g: nat)
      requires InRange(c, data) && 1 <= g <= 3
      modifies `data
      ensures |data| == |old(data)|
      ensures forall c' :: InRange(c', data) ==>
                Generation(data, c') == if c' == c then g else Generation(old(data), c')
    {
      hide Bit, WithBit;
      var p := 2 * c.word;
      var p1, p2 := data[p], data[p + 1];
      forall i: BitIndex { BitOfWithBit(p1, c.bit, g % 2 == 1, i); }
      forall i: BitIndex { BitOfWithBit(p2, c.bit, g / 2 == 1, i); }
      data := data[p := WithBit(p1, c.bit, g % 2 == 1)];
      data := data[p + 1 := WithBit(p2, c.bit, g / 2 == 1)];
    }

    /** The generation change at the head of `insert`. */
    method Roll()
      requires Valid()
      modifies `nEntriesThisGeneration, `nGeneration, `data
      ensures Shaped() && nEntriesThisGeneration < nEntriesPerGeneration && |data| == |old(data)|
      ensures nEntriesThisGeneration == if old(nEntriesThisGeneration) == nEntriesPerGeneration then 0 else old(nEntriesThisGeneration)
      ensures Justified() && forall d :: 0 <= d < |inserted| ==> RemembersNext(d)
    {
      hide Backed;
      if nEntriesThisGeneration == nEntriesPerGeneration {
        nEntriesThisGeneration := 0;
        nGeneration := NextGeneration(nGeneration);
        Wipe(nGeneration);
        RollBacked(hash, nTweak, nHashFuncs, old(data), data, inserted, nEntriesPerGeneration, old(nGeneration));
        forall d | 0 <= d < |inserted| ensures RemembersNext(d) {
          assert old(Remembers(d));
          var key := inserted[|inserted| - 1 - d];
          var age := EntryAge(d, nEntriesPerGeneration, old(nEntriesThisGeneration));
          if age <= 1 {
            RollCovers(hash, nTweak, nHashFuncs, old(data), data, old(nGeneration), key, age);
          }
        }
      } else {
        forall d | 0 <= d < |inserted| ensures RemembersNext(d) { assert old(Remembers(d)); }
      }
    }

    /** `Remembers`, for an insertion that is about to move one place further back. */
    ghost predicate RemembersNext(d: nat)
      requires d < |inserted|
      reads this
    {
      var age := EntryAge(d + 1, nEntriesPerGeneration, nEntriesThisGeneration + 1);
      age <= 2 ==> Covered(hash, nTweak, nHashFuncs, data, nGeneration, inserted[|inserted| - 1 - d], age)
    }

    /** Set all cells of the key to the current generation. */
    method Mark(key: Key)
      requires Shaped()
      modifies `data
      ensures Shaped() && |data| == |old(data)|
      ensures forall c :: InRange(c, data) ==>
                Generation(data, c) ==
                if IsCellOf(hash, nTweak, nHashFuncs, |data|, key, c) then nGeneration else Generation(old(data), c)
    {
      hide Generation;
      for n := 0 to nHashFuncs
        invariant Shaped() && |data| == |old(data)|
        invariant forall c :: InRange(c, data) ==>
                    Generation(data, c) ==
                    if IsCellOf(hash, nTweak, n, |data|, key, c) then nGeneration else Generation(old(data), c)
      {
        var c := CellOf(hash(n, nTweak, key), |data|);
        CellInRange(hash(n, nTweak, key), data);
        SetCell(c, nGeneration);
        forall c': Cell ensures IsCellOf(hash, nTweak, n + 1, |data|, key, c') <==> IsCellOf(hash, nTweak, n, |data|, key, c') || c' == c {
          OneCellMore(hash, nTweak, n, |data|, key, c');
        }
      }
    }

    method Insert(key: Key)
      requires Valid()
      modifies `nEntriesThisGeneration, `nGeneration, `data, `inserted
      ensures Valid() && inserted == old(inserted) + [key] && |data| == |old(data)|
      ensures nEntriesThisGeneration == if old(nEntriesThisGeneration) == nEntriesPerGeneration then 1 else old(nEntriesThisGeneration) + 1
    {
      hide Backed, IsCellOf, Generation;
      Roll();
      label rolled:
      ghost var before := data;
      nEntriesThisGeneration := nEntriesThisGeneration + 1;
      Mark(key);
      MarkBacked(hash, nTweak, nHashFuncs, before, data, inserted, key, nEntriesPerGeneration, nEntriesThisGeneration - 1, nGeneration);
      MarkCoversOwn(hash, nTweak, nHashFuncs, before, data, nGeneration, key);
      inserted := inserted + [key];
      forall d | 0 <= d < |inserted| ensures Remembers(d) {
        if d > 0 {
          assert old@rolled(RemembersNext(d - 1));
          var age := EntryAge(d, nEntriesPerGeneration, nEntriesThisGeneration);
          if age <= 2 {
            MarkCovers(hash, nTweak, nHashFuncs, before, data, nGeneration, inserted[|inserted| - 1 - d], age);
          }
        }
      }
    }

    /**
      A key is reported exactly if every cell of it is set, and that is exactly if every cell of it
      is one of a key inserted in the last three generations.  So an empty filter reports none.
    */
    method Contains(key: Key) returns (found: bool)
      requires Shaped()
      ensures found <==> forall c :: IsCellOf(hash, nTweak, nHashFuncs, |data|, key, c) ==>
                InRange(c, data) && Generation(data, c) != 0
      ensures Valid() ==> (found <==> AllRecent(key))
      ensures Valid() && inserted == [] ==> !found
    {
      hide Backed, Generation, IsCellOf, AllRecent;
      NoCells(hash, nTweak, |data|, key);
      for n := 0 to nHashFuncs
        invariant forall c :: IsCellOf(hash, nTweak, n, |data|, key, c) ==> InRange(c, data) && Generation(data, c) != 0
      {
        var c := CellOf(hash(n, nTweak, key), |data|);
        CellInRange(hash(n, nTweak, key), data);
        forall c': Cell ensures IsCellOf(hash, nTweak, n + 1, |data|, key, c') <==> IsCellOf(hash, nTweak, n, |data|, key, c') || c' == c {
          OneCellMore(hash, nTweak, n, |data|, key, c');
        }
        GenerationSet(data, c);
        if !Bit(Or(data[2 * c.word], data[2 * c.word + 1]), c.bit) {
          CellsOfAll(hash, nTweak, n + 1, nHashFuncs, |data|, key, c);
          NotAllRecent(key, c);
          return false;
        }
      }
      AllSetRecent(key);
      return true;
    }

    /** Every cell of the key is one of a key inserted in the last three generations. */
    ghost predicate AllRecent(key: Key)
      reads this
    {
      forall c :: IsCellOf(hash, nTweak, nHashFuncs, |data|, key, c) ==>
        Recent(hash, nTweak, nHashFuncs, |data|, inserted, nEntriesPerGeneration, nEntriesThisGeneration, c)
    }

    lemma NotAllRecent(key: Key, c: Cell)
      requires Shaped() && IsCellOf(hash, nTweak, nHashFuncs, |data|, key, c) && InRange(c, data) && Generation(data, c) == 0
      ensures Valid() ==> !AllRecent(key)
    {
      hide Generation, Backed;
      if Valid() && AllRecent(key) {
        RecentIsSet(c);
      }
    }

    lemma AllSetRecent(key: Key)
      requires Shaped() && forall c :: IsCellOf(hash, nTweak, nHashFuncs, |data|, key, c) ==> InRange(c, data) && Generation(data, c) != 0
      ensures Valid() ==> AllRecent(key) && inserted != []
    {
      hide Generation, IsCellOf;
      if Valid() {
        forall c | IsCellOf(hash, nTweak, nHashFuncs, |data|, key, c)
          ensures Recent(hash, nTweak, nHashFuncs, |data|, inserted, nEntriesPerGeneration, nEntriesThisGeneration, c)
        {
          SetIsRecent(c);
        }
        var c := CellOf(hash(0, nTweak, key), |data|);
        FirstCell(hash, nTweak, nHashFuncs, |data|, key);
        assert Recent(hash, nTweak, nHashFuncs, |data|, inserted, nEntriesPerGeneration, nEntriesThisGeneration, c);
      }
    }

    lemma SetIsRecent(c: Cell)
      requires Shaped() && Justified() && InRange(c, data) && Generation(data, c) != 0
      ensures Recent(hash, nTweak, nHashFuncs, |data|, inserted, nEntriesPerGeneration, nEntriesThisGeneration, c)
    {
      hide Generation, IsCellOf;
      GenerationBound(data, c);
      var d :| SetBy(hash, nTweak, nHashFuncs, |data|, inserted, nEntriesPerGeneration, nEntriesThisGeneration, c, Age(nGeneration, Generation(data, c)), d);
      assert 0 <= d < nEntriesThisGeneration + 2 * nEntriesPerGeneration;
    }

    lemma RecentIsSet(c: Cell)
      requires Valid() && Recent(hash, nTweak, nHashFuncs, |data|, inserted, nEntriesPerGeneration, nEntriesThisGeneration, c)
      ensures InRange(c, data) && Generation(data, c) != 0
    {
      hide Generation, Backed;
      var d :| UsedBy(hash, nTweak, nHashFuncs, |data|, inserted, c, d) && d < nEntriesThisGeneration + 2 * nEntriesPerGeneration;
      assert Remembers(d);
    }

    /**
      The promise of src/bloom.h:93-94: the filter contains every key among the last
      2 * nEntriesPerGeneration + nEntriesThisGeneration insertions since it was reset.
    */
    method ContainsRecent(ghost d: nat, key: Key) returns (found: bool)
      requires Valid() && d < |inserted| && key == inserted[|inserted| - 1 - d]
      requires d < 2 * nEntriesPerGeneration + nEntriesThisGeneration
      ensures found
    {
      hide Backed, IsCellOf, AllRecent, Covered;
      InsertedRecent(d, key);
      found := Contains(key);
    }

    lemma InsertedRecent(d: nat, key: Key)
      requires Shaped() && d < |inserted| && key == inserted[|inserted| - 1 - d]
      requires d < 2 * nEntriesPerGeneration + nEntriesThisGeneration
      ensures AllRecent(key)
    {
      hide IsCellOf;
      forall c | IsCellOf(hash, nTweak, nHashFuncs, |data|, key, c)
        ensures Recent(hash, nTweak, nHashFuncs, |data|, inserted, nEntriesPerGeneration, nEntriesThisGeneration, c)
      {
        assert UsedBy(hash, nTweak, nHashFuncs, |data|, inserted, c, d);
      }
    }
  }

  lemma OneCellMore(hash: (nat, uint32, Key) -> Probe, tweak: uint32, n: nat, size: nat, key: Key, c: Cell)
    ensures IsCellOf(hash, tweak, n + 1, size, key, c) <==> IsCellOf(hash, tweak, n, size, key, c) || c == CellOf(hash(n, tweak, key), size)
  {
    if c == CellOf(hash(n, tweak, key), size) {
      assert 0 <= n < n + 1;
    }
  }

  lemma NoCells(hash: (nat, uint32, Key) -> Probe, tweak: uint32, size: nat, key: Key)
    ensures forall c :: !IsCellOf(hash, tweak, 0, size, key, c)
  {
  }

  lemma CellsOfAll(hash: (nat, uint32, Key) -> Probe, tweak: uint32, n: nat, funcs: nat, size: nat, key: Key, c: Cell)
    requires n <= funcs && IsCellOf(hash, tweak, n, size, key, c)
    ensures IsCellOf(hash, tweak, funcs, size, key, c)
  {
  }

  lemma FirstCell(hash: (nat, uint32, Key) -> Probe, tweak: uint32, funcs: nat, size: nat, key: Key)
    requires funcs >= 1
    ensures IsCellOf(hash, tweak, funcs, size, key, CellOf(hash(0, tweak, key), size))
  {
  }

  lemma GenerationBound(data: seq<bv64>, c: Cell)
    requires InRange(c, data)
    ensures 0 <= Generation(data, c) <= 3
  {
  }

  /** The test of `contains`: one of the two bits is set. */
  lemma GenerationSet(data: seq<bv64>, c: Cell)
    requires InRange(c, data)
    ensures Bit(Or(data[2 * c.word], data[2 * c.word + 1]), c.bit) <==> Generation(data, c) != 0
  {
    hide Bit, Or;
    BitOfOr(data[2 * c.word], data[2 * c.word + 1], c.bit);
  }

  /** The cells of a key just inserted are of the current generation. */
  lemma MarkCoversOwn(hash: (nat, uint32, Key) -> Probe, tweak: uint32, funcs: nat, data: seq<bv64>, data': seq<bv64>, current: nat, key: Key)
    requires 1 <= current <= 3 && |data| == |data'| > 0 && |data| % 2 == 0
    requires forall c :: InRange(c, data') ==>
               Generation(data', c) == if IsCellOf(hash, tweak, funcs, |data'|, key, c) then current else Generation(data, c)
    ensures Covered(hash, tweak, funcs, data', current, key, 0)
  {
    hide Generation;
    forall n | 0 <= n < funcs
      ensures var c := CellOf(hash(n, tweak, key), |data'|); InRange(c, data') && Generation(data', c) == current
    {
      var c := CellOf(hash(n, tweak, key), |data'|);
      CellInRange(hash(n, tweak, key), data');
      assert IsCellOf(hash, tweak, funcs, |data'|, key, c);
    }
  }

  /** A generation change ages every cell by one and clears none that is younger than two. */
  lemma RollCovers(
      hash: (nat, uint32, Key) -> Probe, tweak: uint32, funcs: nat, data: seq<bv64>, data': seq<bv64>,
      current: nat, key: Key, age: nat)
    requires 1 <= current <= 3 && age <= 1 && |data| == |data'|
    requires Covered(hash, tweak, funcs, data, current, key, age)
    requires forall c :: InRange(c, data') ==>
               Generation(data', c) == if Generation(data, c) == NextGeneration(current) then 0 else Generation(data, c)
    ensures Covered(hash, tweak, funcs, data', NextGeneration(current), key, age + 1)
  {
    forall n | 0 <= n < funcs
      ensures var c := CellOf(hash(n, tweak, key), |data'|);
              InRange(c, data') && Generation(data', c) != 0 && Age(NextGeneration(current), Generation(data', c)) <= age + 1
    {
      var c := CellOf(hash(n, tweak, key), |data|);
      assert Age(current, Generation(data, c)) <= age;
    }
  }

  /** Cells only get younger when a key is inserted. */
  lemma MarkCovers(
      hash: (nat, uint32, Key) -> Probe, tweak: uint32, funcs: nat, data: seq<bv64>, data': seq<bv64>,
      current: nat, key: Key, age: nat)
    requires 1 <= current <= 3 && |data| == |data'|
    requires Covered(hash, tweak, funcs, data, current, key, age)
    requires forall c :: InRange(c, data') ==>
               Generation(data', c) == current || Generation(data', c) == Generation(data, c)
    ensures Covered(hash, tweak, funcs, data', current, key, age)
  {
  }
}
