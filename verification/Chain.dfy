/** The tree of block headers with its skip pointers, and the active chain in it. */
module Chain {

  import opened Arithmetic
  import opened SkipHeights

  // ----- The tree -----

  /** A block header in the tree. What is above it never changes; the skip pointer is filled in later. */
  class BlockIndex {
    const hash: nat
    const prev: BlockIndex?
    const height: nat
    var skip: BlockIndex?
    /** The blocks from the genesis block to the one before this. */
    ghost const above: seq<BlockIndex>

    /** Height and history agree with the link to the block before. */
    ghost predicate Linked()
      decreases |above|
    {
      && height == |above|
      && (prev == null <==> above == [])
      && (prev != null ==> above == prev.above + [prev] && prev.Linked())
    }

    /** The blocks from the genesis block to this one. */
    ghost function Line(): (line: seq<BlockIndex>)
      ensures |line| == |above| + 1 && line[|above|] == this
    {
      above + [this]
    }

    /** The skip pointer, where there is one, leads to the block at the skip height. */
    ghost predicate SkipOk()
      requires Linked()
      reads this
    {
      skip != null ==> height > 0 && (SkipLower(height); above[SkipHeight(height)] == skip)
    }

    ghost predicate Valid()
      reads this, above
    {
      Linked() && forall b :: b in Line() ==> b.Linked() && b.SkipOk()
    }

    constructor (hash: nat, prev: BlockIndex?)
      requires prev != null ==> prev.Valid()
      ensures Valid() && this.hash == hash && this.prev == prev && skip == null
      ensures above == if prev == null then [] else prev.Line()
    {
      this.hash := hash;
      this.prev := prev;
      height := if prev == null then 0 else prev.height + 1;
      skip := null;
      above := if prev == null then [] else prev.above + [prev];
    }

    /** Every block but the first has its skip pointer. */
    ghost predicate Built()
      reads this, above
    {
      forall b :: b in Line() && b.height > 0 ==> b.skip != null
    }

    /**
      The ancestor at a height, or null where there is none, and the number of steps to it: with all
      skip pointers in place at most the square of the number of bits of the height.
    */
    method GetAncestor(height: int) returns (r: BlockIndex?, ghost steps: nat)
      requires Valid()
      ensures r == null <==> height < 0 || height > this.height
      ensures r != null ==> r == Line()[height] == Walk(this, height)
      ensures r != null && Built() ==> steps == Steps(this.height, height) <= BitLength(this.height) * BitLength(this.height)
    {
      steps := 0;
      if height > this.height || height < 0 {
        return null, 0;
      }
      WalkIsLine(this, height);
      SkipListShort(this.height, height);
      var walk, heightWalk := this, this.height;
      while heightWalk > height
        invariant height <= heightWalk <= this.height && walk == Line()[heightWalk]
        invariant Built() ==> steps + Steps(heightWalk, height) == Steps(this.height, height)
      {
        AncestorLine(this, heightWalk);
        SkipLower(heightWalk);
        var heightSkip := SkipHeight(heightWalk);
        var heightSkipPrev := SkipHeight(heightWalk - 1);
        if walk.skip != null
           && (heightSkip == height
               || (heightSkip > height && !(heightSkipPrev < heightSkip - 2 && heightSkipPrev >= height)))
        {
          walk := walk.skip;
          heightWalk := heightSkip;
        } else {
          walk := walk.prev;
          heightWalk := heightWalk - 1;
        }
        steps := steps + 1;
      }
      return walk, steps;
    }

    method BuildSkip()
      requires Valid()
      modifies `skip
      ensures Valid()
      ensures skip == if prev == null then old(skip) else (SkipLower(height); above[SkipHeight(height)])
    {
      if prev != null {
        ValidAbove(this);
        SkipLower(height);
        var ancestor, _ := prev.GetAncestor(SkipHeight(height));
        skip := ancestor;
        NotAbove(this);
      }
    }
  }

  /** An ancestor's history is the beginning of the block's own. */
  lemma {:induction false} AncestorLine(b: BlockIndex, i: nat)
    requires b.Linked() && i <= b.height
    ensures var a := b.Line()[i]; a.Linked() && a.height == i && a.above == b.above[..i]
    decreases b.height
  {
    if i < b.height {
      AncestorLine(b.prev, i);
      assert b.Line()[i] == b.prev.Line()[i];
    }
  }

  lemma NotAbove(b: BlockIndex)
    requires b.Linked()
    ensures b !in b.above
  {
    forall i | 0 <= i < |b.above|
      ensures b.above[i] != b
    {
      AncestorLine(b, i);
      assert b.Line()[i] == b.above[i];
    }
  }

  lemma ValidAbove(b: BlockIndex)
    requires b.Valid() && b.prev != null
    ensures b.prev.Valid()
  {
    assert forall a :: a in b.prev.Line() ==> a in b.Line();
  }

  /** The ancestor found by following the link to the block before, one block at a time. */
  ghost function Walk(b: BlockIndex, height: nat): BlockIndex
    requires b.Linked() && height <= b.height
    decreases b.height
  {
    if b.height == height then b else Walk(b.prev, height)
  }

  lemma {:induction false} WalkIsLine(b: BlockIndex, height: nat)
    requires b.Linked() && height <= b.height
    ensures Walk(b, height) == b.Line()[height]
    decreases b.height
  {
    if height < b.height {
      WalkIsLine(b.prev, height);
      assert b.Line()[height] == b.prev.Line()[height];
    }
  }

  // ----- Common ancestors -----

  /** A block is in a line only at its own height. */
  lemma InLine(a: BlockIndex, b: BlockIndex)
    requires b.Linked() && a in b.Line()
    ensures a.Linked() && a.height <= b.height && b.Line()[a.height] == a && a.above == b.above[..a.height]
  {
    var i :| 0 <= i < |b.Line()| && b.Line()[i] == a;
    AncestorLine(b, i);
  }

  /** Lines that share a block share everything below it. */
  lemma Meet(a: BlockIndex, b: BlockIndex, i: nat)
    requires a.Linked() && b.Linked() && i <= a.height && i <= b.height && a.Line()[i] == b.Line()[i]
    ensures forall k :: 0 <= k <= i ==> a.Line()[k] == b.Line()[k]
  {
    AncestorLine(a, i);
    AncestorLine(b, i);
    forall k | 0 <= k < i
      ensures a.Line()[k] == b.Line()[k]
    {
      assert a.Line()[k] == a.above[..i][k] && b.Line()[k] == b.above[..i][k];
    }
  }

  /** The highest block in both lines, or null where they share none. */
  ghost predicate HighestCommon(r: BlockIndex?, pa: BlockIndex, pb: BlockIndex) {
    if r == null then forall c :: c in pa.Line() ==> c !in pb.Line()
    else r in pa.Line() && r in pb.Line() && forall c :: c in pa.Line() && c in pb.Line() ==> c.height <= r.height
  }

  /** Where two lines agree at `h` and differ above, the highest common block is there; -1 where they never agree. */
  lemma CommonAt(pa: BlockIndex, pb: BlockIndex, h: int)
    requires pa.Linked() && pb.Linked() && -1 <= h <= pa.height && h <= pb.height
    requires h >= 0 ==> pa.Line()[h] == pb.Line()[h]
    requires forall k :: h < k <= pa.height && k <= pb.height ==> pa.Line()[k] != pb.Line()[k]
    ensures HighestCommon(if h < 0 then null else pa.Line()[h], pa, pb)
  {
    forall c | c in pa.Line() && c in pb.Line()
      ensures c.height <= h
    {
      InLine(c, pa);
      InLine(c, pb);
    }
    if h >= 0 {
      AncestorLine(pa, h);
    }
  }

  method LastCommonAncestor(pa: BlockIndex, pb: BlockIndex) returns (r: BlockIndex?)
    requires pa.Valid() && pb.Valid()
    ensures HighestCommon(r, pa, pb)
  {
    hide HighestCommon;
    var a: BlockIndex?, b: BlockIndex? := pa, pb;
    if pa.height > pb.height {
      var found, _ := pa.GetAncestor(pb.height);
      a := found;
    } else if pb.height > pa.height {
      var found, _ := pb.GetAncestor(pa.height);
      b := found;
    }
    ghost var h: int := if pa.height < pb.height then pa.height else pb.height;
    while a != b && a != null && b != null
      invariant -1 <= h <= pa.height && h <= pb.height
      invariant if h < 0 then a == null && b == null else a == pa.Line()[h] && b == pb.Line()[h]
      invariant forall k :: h < k <= pa.height && k <= pb.height ==> pa.Line()[k] != pb.Line()[k]
      decreases h
    {
      AncestorLine(pa, h);
      AncestorLine(pb, h);
      a := a.prev;
      b := b.prev;
      h := h - 1;
    }
    CommonAt(pa, pb, h);
    return a;
  }

  // ----- The active chain -----

  function Resized(s: seq<BlockIndex?>, n: nat): (r: seq<BlockIndex?>)
    ensures |r| == n && forall i :: 0 <= i < n ==> r[i] == if i < |s| then s[i] else null
  {
    if n <= |s| then s[..n] else s + seq(n - |s|, i => null)
  }

  /** The heights a locator lists: steps of one for eleven blocks, then doubling, down to the genesis block. */
  function LocatorHeights(height: nat, step: nat, count: nat): (r: seq<nat>)
    requires step > 0
    decreases height
  {
    if height == 0 then [0]
    else
      [height] + LocatorHeights(if height < step then 0 else height - step, if count >= 10 then 2 * step else step, count + 1)
  }

  /** A locator starts at its block, goes down, and ends with the genesis block. */
  lemma {:induction false} LocatorDescends(height: nat, step: nat, count: nat)
    requires step > 0
    ensures var r := LocatorHeights(height, step, count);
            r != [] && r[0] == height && r[|r| - 1] == 0 && forall i, j :: 0 <= i < j < |r| ==> r[i] > r[j]
    decreases height
  {
    if height > 0 {
      var lower, next := if height < step then 0 else height - step, if count >= 10 then 2 * step else step;
      LocatorDescends(lower, next, count + 1);
      var r := LocatorHeights(lower, next, count + 1);
      forall j | 0 <= j < |r|
        ensures r[j] <= lower
      {
        assert j > 0 ==> r[0] > r[j];
      }
    }
  }

  /** Once the steps double, a locator has one entry per bit of the height that is left. */
  lemma {:induction false} LocatorDoubles(height: nat, step: nat, count: nat, bits: nat)
    requires step > 0 && count >= 10 && height <= step * (Pow(2, bits) - 1)
    ensures |LocatorHeights(height, step, count)| <= bits + 1
    decreases height
  {
    if height > 0 {
      if bits == 0 {
        assert false;
      }
      PowPositive(2, bits - 1);
      StepTaken(height, step, Pow(2, bits - 1));
      LocatorDoubles(if height < step then 0 else height - step, 2 * step, count + 1, bits - 1);
    }
  }

  lemma StepTaken(height: nat, step: nat, p: nat)
    requires step > 0 && p > 0 && height <= step * (2 * p - 1)
    ensures (if height < step then 0 else height - step) <= 2 * step * (p - 1)
  {
    MulMonotone(0, p - 1, 2 * step);
    assert step * (2 * p - 1) - step == 2 * step * (p - 1);
  }

  /** A locator has eleven entries and then one per bit of its height. */
  lemma {:induction false} LocatorShort(height: nat, count: nat, bits: nat)
    requires count <= 10 && height < Pow(2, bits)
    ensures |LocatorHeights(height, 1, count)| <= (10 - count) + bits + 1
    decreases 10 - count
  {
    if count == 10 {
      LocatorDoubles(height, 1, 10, bits);
    } else if height > 0 {
      LocatorShort(height - 1, count + 1, bits);
    }
  }

  /** The distance between entries `k` and `k` + 1 of a locator, unless the genesis block is closer. */
  function Gap(k: nat): (gap: nat)
    ensures gap > 0
  {
    if k <= 10 then 1 else 2 * Gap(k - 1)
  }

  /** Ten steps of one, then every step is twice the one before, down to height zero. */
  lemma {:induction false} LocatorGaps(height: nat, count: nat, k: nat)
    ensures var r := LocatorHeights(height, Gap(count), count);
            k + 1 < |r| ==> r[k + 1] == if r[k] < Gap(count + k) then 0 else r[k] - Gap(count + k)
    decreases k
  {
    var step := Gap(count);
    if height > 0 {
      var lower := if height < step then 0 else height - step;
      LocatorDescends(lower, Gap(count + 1), count + 1);
      if k > 0 {
        LocatorGaps(lower, count + 1, k - 1);
      }
    }
  }

  /** The distances themselves: 1 up to the eleventh, then powers of two. */
  lemma {:induction false} GapIs(k: nat)
    ensures Gap(k) == if k <= 10 then 1 else Pow(2, k - 10)
  {
    if k > 10 {
      GapIs(k - 1);
    }
  }

  class ActiveChain {
    var blocks: seq<BlockIndex?>

    /** The entries are the line of the last one. */
    ghost predicate Valid()
      reads this
    {
      blocks != [] ==>
        var tip := blocks[|blocks| - 1];
        tip != null && tip.Linked() && blocks == tip.Line()
    }

    constructor ()
      ensures Valid() && blocks == []
    {
      blocks := [];
    }

    function At(height: int): BlockIndex?
      reads this
    {
      if height < 0 || height >= |blocks| then null else blocks[height]
    }

    predicate Contains(b: BlockIndex)
      reads this
    {
      At(b.height) == b
    }

    function Height(): int
      reads this
    {
      |blocks| - 1
    }

    method SetTip(tip: BlockIndex?)
      requires Valid() && (tip != null ==> tip.Linked())
      modifies this
      ensures Valid() && blocks == if tip == null then [] else tip.Line()
    {
      if tip == null {
        blocks := [];
        return;
      }
      ghost var was := blocks;
      var n := tip.height + 1;
      blocks := Resized(blocks, n);
      var walk: BlockIndex? := tip;
      ghost var h: int := tip.height;
      while walk != null && blocks[walk.height] != walk
        invariant -1 <= h <= tip.height && |blocks| == n
        invariant if h < 0 then walk == null else walk == tip.Line()[h] && walk.height == h
        invariant forall i :: 0 <= i <= h ==> blocks[i] == if i < |was| then was[i] else null
        invariant forall i :: h < i < n ==> blocks[i] == tip.Line()[i]
        decreases h
      {
        AncestorLine(tip, h);
        blocks := blocks[walk.height := walk];
        walk := walk.prev;
        h := h - 1;
        if h >= 0 {
          AncestorLine(tip, h);
        }
      }
      if walk != null {
        Meet(was[|was| - 1], tip, h);
      }
      assert blocks == tip.Line();
    }

    /** The last block of the chain that is on the line of `b`. */
    method FindFork(b: BlockIndex?) returns (r: BlockIndex?)
      requires Valid() && (b != null ==> b.Valid())
      ensures b == null || blocks == [] ==> r == null
      ensures b != null && blocks != [] ==> HighestCommon(r, b, blocks[|blocks| - 1])
    {
      hide HighestCommon;
      if b == null {
        return null;
      }
      r := b;
      if b.height > Height() {
        var found, _ := b.GetAncestor(Height());
        r := found;
      }
      ghost var line := b.Line();
      ghost var h: int := if b.height > Height() then Height() else b.height;
      while r != null && !Contains(r)
        invariant -1 <= h < |line| && h < |blocks|
        invariant if h < 0 then r == null else r == line[h]
        invariant forall k :: h < k < |line| && k < |blocks| ==> line[k] != blocks[k]
        decreases h
      {
        AncestorLine(b, h);
        r := r.prev;
        h := h - 1;
      }
      if h >= 0 {
        AncestorLine(b, h);
      }
      if blocks != [] {
        CommonAt(b, blocks[|blocks| - 1], h);
      }
    }

    /** The ancestor at a height, by the chain's index where it holds the block and by the skip list elsewhere. */
    method StepBack(b: BlockIndex, height: nat) returns (r: BlockIndex)
      requires Valid() && b.Valid() && height <= b.height
      ensures r == b.Line()[height]
    {
      if Contains(b) {
        Meet(blocks[|blocks| - 1], b, b.height);
        r := At(height);
      } else {
        var found, _ := b.GetAncestor(height);
        r := found;
      }
    }

    method GetLocator(b: BlockIndex?) returns (have: seq<nat>)
      requires Valid() && (b != null ==> b.Valid()) && (blocks != [] ==> blocks[|blocks| - 1].Valid())
      ensures var start := if b != null then b else At(Height());
              if start == null then have == [] else Locates(have, start.Line(), LocatorHeights(start.height, 1, 0))
    {
      hide LocatorHeights, Locates;
      var step: nat := 1;
      have := [];
      var walk: BlockIndex? := if b != null then b else At(Height());
      if walk == null {
        return;
      }
      ghost var start, line := walk, walk.Line();
      ghost var done: seq<nat> := [];
      LocatesNone(line);
      while true
        invariant walk != null && walk.height < |line| && line[walk.height] == walk
        invariant step > 0 && Locates(have, line, done)
        invariant LocatorHeights(start.height, 1, 0) == done + LocatorHeights(walk.height, step, |have|)
        decreases walk.height
      {
        LocatorStep(LocatorHeights(start.height, 1, 0), done, walk.height, step, |have|);
        LocatesSnoc(have, line, done, walk.height);
        done := done + [walk.height];
        have := have + [walk.hash];
        if walk.height == 0 {
          assert done + [] == done;
          break;
        }
        var height := if walk.height < step then 0 else walk.height - step;
        AncestorValid(start, walk);
        walk := StepBack(walk, height);
        AncestorLine(start, height);
        if |have| > 10 {
          step := step * 2;
        }
      }
    }
  }

  lemma LocatorStep(all: seq<nat>, done: seq<nat>, height: nat, step: nat, count: nat)
    requires step > 0 && all == done + LocatorHeights(height, step, count)
    ensures all == done + [height] +
                   if height == 0 then []
                   else LocatorHeights(if height < step then 0 else height - step, if count >= 10 then 2 * step else step, count + 1)
  {
  }

  lemma LocatesNone(line: seq<BlockIndex>)
    ensures Locates([], line, [])
  {
  }

  lemma LocatesSnoc(have: seq<nat>, line: seq<BlockIndex>, heights: seq<nat>, h: nat)
    requires Locates(have, line, heights) && h < |line|
    ensures Locates(have + [line[h].hash], line, heights + [h])
  {
  }

  /** The hashes are those of the line's blocks at the given heights. */
  ghost predicate Locates(have: seq<nat>, line: seq<BlockIndex>, heights: seq<nat>) {
    |have| == |heights| && forall i :: 0 <= i < |have| ==> heights[i] < |line| && have[i] == line[heights[i]].hash
  }

  lemma AncestorValid(b: BlockIndex, a: BlockIndex)
    requires b.Valid() && a in b.Line()
    ensures a.Valid() && a.height <= b.height && forall i :: 0 <= i <= a.height ==> a.Line()[i] == b.Line()[i]
  {
    InLine(a, b);
    assert forall c :: c in a.Line() ==> c in b.Line();
  }
}
