/**
  Partial Merkle trees (src/merkleblock.h, src/merkleblock.cpp): the proof that selected
  transactions are in a block, built by and extracted in the same depth-first traversal.

  The pair hash is a parameter; where a statement needs it to be injective it says so.
*/
module PartialMerkleTree {

  import opened Arithmetic
  import opened Basics

  type Hash = nat

  const NULL_HASH: Hash := 0

  type PairHash = (Hash, Hash) -> Hash

  const MAX_BLOCK_WEIGHT := 4000000
  const MIN_TRANSACTION_WEIGHT := 240

  /** A matched leaf: its transaction id and its index in the block. */
  datatype Match = Match(txid: Hash, index: nat)

  // ---------- The shape of the tree ----------

  function Pow2(k: nat): nat {
    Pow(2, k)
  }

  /** Number of nodes at a height: each level has half as many as the one below, rounded up. */
  function Width(n: nat, height: nat): nat {
    if height == 0 then n else (Width(n, height - 1) + 1) / 2
  }

  /** The closed form that the source evaluates with shifts (src/merkleblock.h:70-72). */
  lemma {:induction false} WidthIsShift(n: nat, height: nat)
    ensures Pow2(height) > 0 && Width(n, height) == (n + Pow2(height) - 1) / Pow2(height)
  {
    if height > 0 {
      WidthIsShift(n, height - 1);
      RoundUpHalves(n, Pow2(height - 1));
    }
  }

  /** Height of the tree over `n` leaves. */
  ghost predicate IsHeight(n: nat, height: nat) {
    Width(n, height) <= 1 && forall h :: 0 <= h < height ==> Width(n, h) > 1
  }

  /** The hash of a node; a missing right child is replaced by the left one. */
  function CalcHash(H: PairHash, txids: seq<Hash>, height: nat, pos: nat): Hash
    requires pos < Width(|txids|, height)
  {
    if height == 0 then txids[pos]
    else
      var left := CalcHash(H, txids, height - 1, 2 * pos);
      var right := if 2 * pos + 1 < Width(|txids|, height - 1) then CalcHash(H, txids, height - 1, 2 * pos + 1) else left;
      H(left, right)
  }

  /** Whether some leaf below the node is selected. */
  function AnyMatch(mask: seq<bool>, height: nat, pos: nat): bool
    requires pos < Width(|mask|, height)
  {
    if height == 0 then mask[pos]
    else
      || AnyMatch(mask, height - 1, 2 * pos)
      || (2 * pos + 1 < Width(|mask|, height - 1) && AnyMatch(mask, height - 1, 2 * pos + 1))
  }

  /** First leaf below a node, and the first leaf after it. */
  function FirstLeaf(height: nat, pos: nat): nat
    decreases height
  {
    if height == 0 then pos else FirstLeaf(height - 1, 2 * pos)
  }

  function EndLeaf(n: nat, height: nat, pos: nat): nat
    decreases height
  {
    if height == 0 then pos + 1
    else if 2 * pos + 1 < Width(n, height - 1) then EndLeaf(n, height - 1, 2 * pos + 1)
    else EndLeaf(n, height - 1, 2 * pos)
  }

  /** Neighbouring nodes have neighbouring leaves. */
  lemma {:induction false} LeavesAdjoin(n: nat, height: nat, pos: nat)
    requires pos + 1 < Width(n, height)
    ensures EndLeaf(n, height, pos) == FirstLeaf(height, pos + 1)
    decreases height
  {
    if height > 0 {
      LeavesAdjoin(n, height - 1, 2 * pos + 1);
    }
  }

  lemma {:induction false} LeafRange(n: nat, height: nat, pos: nat)
    requires pos < Width(n, height)
    ensures FirstLeaf(height, pos) < EndLeaf(n, height, pos) <= n
    decreases height
  {
    if height > 0 {
      LeafRange(n, height - 1, 2 * pos);
      if 2 * pos + 1 < Width(n, height - 1) {
        LeafRange(n, height - 1, 2 * pos + 1);
        LeavesAdjoin(n, height - 1, 2 * pos);
      }
    }
  }

  /** The interval that src/merkleblock.cpp:80 writes with shifts. */
  lemma LeavesAreShifts(n: nat, height: nat, pos: nat)
    requires pos < Width(n, height)
    ensures FirstLeaf(height, pos) == pos * Pow2(height)
    ensures EndLeaf(n, height, pos) == if (pos + 1) * Pow2(height) < n then (pos + 1) * Pow2(height) else n
  {
    FirstLeafIsShift(height, pos);
    FirstLeafIsShift(height, pos + 1);
    if pos + 1 < Width(n, height) {
      LeavesAdjoin(n, height, pos);
      LeafRange(n, height, pos + 1);
    } else {
      LastLeaf(n, height, pos);
      NoSuchLeaf(n, height, pos + 1);
    }
  }

  lemma {:induction false} FirstLeafIsShift(height: nat, pos: nat)
    ensures FirstLeaf(height, pos) == pos * Pow2(height)
    decreases height
  {
    if height > 0 {
      FirstLeafIsShift(height - 1, 2 * pos);
      assert pos * (2 * Pow2(height - 1)) == (2 * pos) * Pow2(height - 1);
    }
  }

  lemma {:induction false} NoSuchLeaf(n: nat, height: nat, pos: nat)
    requires pos >= Width(n, height)
    ensures FirstLeaf(height, pos) >= n
    decreases height
  {
    if height > 0 {
      NoSuchLeaf(n, height - 1, 2 * pos);
    }
  }

  lemma {:induction false} LastLeaf(n: nat, height: nat, pos: nat)
    requires pos + 1 == Width(n, height)
    ensures EndLeaf(n, height, pos) == n
    decreases height
  {
    if height > 0 {
      LastLeaf(n, height - 1, Width(n, height - 1) - 1);
    }
  }

  ghost predicate AnyIn(mask: seq<bool>, lo: nat, hi: nat)
    requires hi <= |mask|
  {
    exists p :: lo <= p < hi && mask[p]
  }

  lemma AnyInSplit(mask: seq<bool>, lo: nat, mid: nat, hi: nat)
    requires lo <= mid <= hi <= |mask|
    ensures AnyIn(mask, lo, hi) <==> AnyIn(mask, lo, mid) || AnyIn(mask, mid, hi)
  {
  }

  /** `AnyMatch` is what the loop of src/merkleblock.cpp:80-81 computes. */
  lemma {:induction false} AnyMatchIsExists(mask: seq<bool>, height: nat, pos: nat)
    requires pos < Width(|mask|, height)
    ensures AnyMatch(mask, height, pos) <==> (LeafRange(|mask|, height, pos); AnyIn(mask, FirstLeaf(height, pos), EndLeaf(|mask|, height, pos)))
    decreases height
  {
    var n := |mask|;
    if height > 0 {
      LeafRange(n, height, pos);
      AnyMatchIsExists(mask, height - 1, 2 * pos);
      if 2 * pos + 1 < Width(n, height - 1) {
        AnyMatchIsExists(mask, height - 1, 2 * pos + 1);
        LeavesAdjoin(n, height - 1, 2 * pos);
        LeafRange(n, height - 1, 2 * pos);
        LeafRange(n, height - 1, 2 * pos + 1);
        AnyInSplit(mask, FirstLeaf(height, pos), EndLeaf(n, height - 1, 2 * pos), EndLeaf(n, height, pos));
      }
    }
  }

  // ---------- Building ----------

  datatype Proof = Proof(bits: seq<bool>, hashes: seq<Hash>)

  /** What `TraverseAndBuild` appends for the subtree at a node. */
  function Build(H: PairHash, txids: seq<Hash>, mask: seq<bool>, height: nat, pos: nat): Proof
    requires |mask| == |txids| && pos < Width(|txids|, height)
  {
    var match_ := AnyMatch(mask, height, pos);
    if height == 0 || !match_ then Proof([match_], [CalcHash(H, txids, height, pos)])
    else
      var left := Build(H, txids, mask, height - 1, 2 * pos);
      if 2 * pos + 1 < Width(|txids|, height - 1) then
        var right := Build(H, txids, mask, height - 1, 2 * pos + 1);
        Proof([match_] + left.bits + right.bits, left.hashes + right.hashes)
      else
        Proof([match_] + left.bits, left.hashes)
  }

  /** The selected leaves of an interval, in order. */
  function Masked(txids: seq<Hash>, mask: seq<bool>, lo: nat, hi: nat): seq<Match>
    requires lo <= hi <= |txids| == |mask|
    decreases hi - lo
  {
    if lo == hi then []
    else (if mask[lo] then [Match(txids[lo], lo)] else []) + Masked(txids, mask, lo + 1, hi)
  }

  lemma {:induction false} MaskedSplit(txids: seq<Hash>, mask: seq<bool>, lo: nat, mid: nat, hi: nat)
    requires lo <= mid <= hi <= |txids| == |mask|
    ensures Masked(txids, mask, lo, hi) == Masked(txids, mask, lo, mid) + Masked(txids, mask, mid, hi)
    decreases mid - lo
  {
    if lo < mid {
      MaskedSplit(txids, mask, lo + 1, mid, hi);
    }
  }

  // ---------- Extracting ----------

  datatype Extraction = Extraction(bad: bool, hash: Hash, nBits: nat, nHashes: nat, matches: seq<Match>)

  /** A node from its two children, or from its only child. */
  function Join(H: PairHash, left: Extraction, right: Extraction): Extraction {
    Extraction(left.bad || right.bad || right.hash == left.hash, H(left.hash, right.hash),
               right.nBits, right.nHashes, left.matches + right.matches)
  }

  function Lift(H: PairHash, only: Extraction): Extraction {
    only.(hash := H(only.hash, only.hash))
  }

  /** What `TraverseAndExtract` does below a node, starting at given positions of the two vectors. */
  function Extract(
      H: PairHash, n: nat, proof: Proof, height: nat, pos: nat, nBits: nat, nHashes: nat): Extraction
    requires pos < Width(n, height)
    decreases height
  {
    if nBits >= |proof.bits| then Extraction(true, NULL_HASH, nBits, nHashes, [])
    else
      var match_ := proof.bits[nBits];
      if height == 0 || !match_ then
        if nHashes >= |proof.hashes| then Extraction(true, NULL_HASH, nBits + 1, nHashes, [])
        else
          var hash := proof.hashes[nHashes];
          Extraction(false, hash, nBits + 1, nHashes + 1, if height == 0 && match_ then [Match(hash, pos)] else [])
      else
        var left := Extract(H, n, proof, height - 1, 2 * pos, nBits + 1, nHashes);
        if 2 * pos + 1 < Width(n, height - 1) then
          Join(H, left, Extract(H, n, proof, height - 1, 2 * pos + 1, left.nBits, left.nHashes))
        else
          Lift(H, left)
  }

  // ---------- Soundness of arbitrary proofs ----------

  datatype Collision = Collision(a: Hash, b: Hash, c: Hash, d: Hash)

  predicate Collides(H: PairHash, w: Collision) {
    (w.a != w.c || w.b != w.d) && H(w.a, w.b) == H(w.c, w.d)
  }

  ghost predicate AllTrue(txids: seq<Hash>, matches: seq<Match>) {
    forall m :: m in matches ==> m.index < |txids| && txids[m.index] == m.txid
  }

  /**
    Whatever the bits and hashes are: a node that evaluates to the hash of the same node in the
    tree over `txids` only yields true entries of `txids`, or else two different pairs with the
    same hash have been found.
  */
  lemma {:induction false} ExtractSound(
      H: PairHash, txids: seq<Hash>, proof: Proof, height: nat, pos: nat, nBits: nat, nHashes: nat)
    returns (collision: Option<Collision>)
    requires pos < Width(|txids|, height)
    requires !Extract(H, |txids|, proof, height, pos, nBits, nHashes).bad
    requires Extract(H, |txids|, proof, height, pos, nBits, nHashes).hash == CalcHash(H, txids, height, pos)
    ensures collision.None? ==> AllTrue(txids, Extract(H, |txids|, proof, height, pos, nBits, nHashes).matches)
    ensures collision.Some? ==> Collides(H, collision.value)
    decreases height
  {
    var n := |txids|;
    collision := None;
    if height == 0 || !proof.bits[nBits] {
      return;
    }
    var left := Extract(H, n, proof, height - 1, 2 * pos, nBits + 1, nHashes);
    var l := CalcHash(H, txids, height - 1, 2 * pos);
    var two := 2 * pos + 1 < Width(n, height - 1);
    var rightHash, r := left.hash, l;
    if two {
      rightHash := Extract(H, n, proof, height - 1, 2 * pos + 1, left.nBits, left.nHashes).hash;
      r := CalcHash(H, txids, height - 1, 2 * pos + 1);
    }
    if left.hash != l || rightHash != r {
      return Some(Collision(left.hash, rightHash, l, r));
    }
    collision := ExtractSound(H, txids, proof, height - 1, 2 * pos, nBits + 1, nHashes);
    if collision.None? && two {
      collision := ExtractSound(H, txids, proof, height - 1, 2 * pos + 1, left.nBits, left.nHashes);
    }
  }

  ghost predicate Ascending(matches: seq<Match>, lo: nat, hi: nat) {
    && (forall i :: 0 <= i < |matches| ==> lo <= matches[i].index < hi)
    && (forall i, j :: 0 <= i < j < |matches| ==> matches[i].index < matches[j].index)
  }

  /** The extracted positions lie below the node and strictly increase, so none is reported twice. */
  lemma {:induction false} ExtractAscending(
      H: PairHash, n: nat, proof: Proof, height: nat, pos: nat, nBits: nat, nHashes: nat)
    requires pos < Width(n, height)
    ensures Ascending(Extract(H, n, proof, height, pos, nBits, nHashes).matches,
                      FirstLeaf(height, pos), EndLeaf(n, height, pos))
    decreases height
  {
    LeafRange(n, height, pos);
    if height > 0 && nBits < |proof.bits| && proof.bits[nBits] {
      var left := Extract(H, n, proof, height - 1, 2 * pos, nBits + 1, nHashes);
      ExtractAscending(H, n, proof, height - 1, 2 * pos, nBits + 1, nHashes);
      if 2 * pos + 1 < Width(n, height - 1) {
        LeavesAdjoin(n, height - 1, 2 * pos);
        LeafRange(n, height - 1, 2 * pos);
        LeafRange(n, height - 1, 2 * pos + 1);
        ExtractAscending(H, n, proof, height - 1, 2 * pos + 1, left.nBits, left.nHashes);
        AscendingConcat(left.matches, Extract(H, n, proof, height - 1, 2 * pos + 1, left.nBits, left.nHashes).matches,
                        FirstLeaf(height, pos), EndLeaf(n, height - 1, 2 * pos), EndLeaf(n, height, pos));
      }
    }
  }

  lemma AscendingConcat(a: seq<Match>, b: seq<Match>, lo: nat, mid: nat, hi: nat)
    requires Ascending(a, lo, mid) && Ascending(b, mid, hi) && lo <= mid <= hi
    ensures Ascending(a + b, lo, hi)
  {
  }

  // ---------- Completeness ----------

  ghost predicate At<T>(s: seq<T>, i: nat, part: seq<T>) {
    i + |part| <= |s| && s[i..i + |part|] == part
  }

  lemma AtSplit<T>(s: seq<T>, i: nat, a: seq<T>, b: seq<T>)
    requires At(s, i, a + b)
    ensures At(s, i, a) && At(s, i + |a|, b)
  {
    assert s[i..i + |a|] == (a + b)[..|a|];
    assert s[i + |a|..i + |a| + |b|] == (a + b)[|a|..];
  }

  /** Some node that the traversal descends into has two children with the same hash. */
  function Twins(H: PairHash, txids: seq<Hash>, mask: seq<bool>, height: nat, pos: nat): bool
    requires |mask| == |txids| && pos < Width(|txids|, height)
  {
    height > 0 && AnyMatch(mask, height, pos) &&
    (|| Twins(H, txids, mask, height - 1, 2 * pos)
     || (2 * pos + 1 < Width(|txids|, height - 1) &&
         (|| Twins(H, txids, mask, height - 1, 2 * pos + 1)
          || CalcHash(H, txids, height - 1, 2 * pos) == CalcHash(H, txids, height - 1, 2 * pos + 1))))
  }

  /** The traversal result a prover aims at: the node's hash and its selected leaves. */
  function Rebuilt(
      H: PairHash, txids: seq<Hash>, mask: seq<bool>, height: nat, pos: nat, nBits: nat, nHashes: nat): Extraction
    requires |mask| == |txids| && pos < Width(|txids|, height)
  {
    var built := Build(H, txids, mask, height, pos);
    LeafRange(|txids|, height, pos);
    Extraction(Twins(H, txids, mask, height, pos), CalcHash(H, txids, height, pos),
               nBits + |built.bits|, nHashes + |built.hashes|,
               Masked(txids, mask, FirstLeaf(height, pos), EndLeaf(|txids|, height, pos)))
  }

  /**
    Extracting what was built, from wherever it sits in the two vectors, gives the hash of the
    node and exactly the selected leaves, and is rejected exactly when there are twins.
  */
  lemma {:induction false} ExtractOfBuild(
      H: PairHash, txids: seq<Hash>, mask: seq<bool>, proof: Proof, height: nat, pos: nat, nBits: nat, nHashes: nat)
    requires |mask| == |txids| && pos < Width(|txids|, height)
    requires At(proof.bits, nBits, Build(H, txids, mask, height, pos).bits)
    requires At(proof.hashes, nHashes, Build(H, txids, mask, height, pos).hashes)
    ensures Extract(H, |txids|, proof, height, pos, nBits, nHashes) ==
            Rebuilt(H, txids, mask, height, pos, nBits, nHashes)
    decreases height
  {
    var n := |txids|;
    var built := Build(H, txids, mask, height, pos);
    var lo, hi := FirstLeaf(height, pos), EndLeaf(n, height, pos);
    LeafRange(n, height, pos);
    assert nBits < |proof.bits| && proof.bits[nBits] == built.bits[0] by {
      assert proof.bits[nBits..nBits + |built.bits|][0] == built.bits[0];
    }
    if height == 0 {
      assert proof.hashes[nHashes] == proof.hashes[nHashes..nHashes + 1][0];
      assert Masked(txids, mask, pos + 1, pos + 1) == [];
    } else if !AnyMatch(mask, height, pos) {
      assert proof.hashes[nHashes] == proof.hashes[nHashes..nHashes + 1][0];
      AnyMatchIsExists(mask, height, pos);
      MaskedNothing(txids, mask, lo, hi);
    } else {
      ChildParts(H, txids, mask, proof, height, pos, nBits, nHashes);
      ExtractOfBuildNode(H, txids, mask, proof, height, pos, nBits, nHashes);
    }
  }

  lemma {:induction false} MaskedNothing(txids: seq<Hash>, mask: seq<bool>, lo: nat, hi: nat)
    requires lo <= hi <= |txids| == |mask| && !AnyIn(mask, lo, hi)
    ensures Masked(txids, mask, lo, hi) == []
    decreases hi - lo
  {
    if lo < hi {
      MaskedNothing(txids, mask, lo + 1, hi);
    }
  }

  /** Where the parts for the children of a traversed node sit. */
  lemma ChildParts(
      H: PairHash, txids: seq<Hash>, mask: seq<bool>, proof: Proof, height: nat, pos: nat, nBits: nat, nHashes: nat)
    requires |mask| == |txids| && 0 < height && pos < Width(|txids|, height) && AnyMatch(mask, height, pos)
    requires At(proof.bits, nBits, Build(H, txids, mask, height, pos).bits)
    requires At(proof.hashes, nHashes, Build(H, txids, mask, height, pos).hashes)
    ensures nBits < |proof.bits| && proof.bits[nBits]
    ensures var left := Build(H, txids, mask, height - 1, 2 * pos);
            && At(proof.bits, nBits + 1, left.bits) && At(proof.hashes, nHashes, left.hashes)
            && (2 * pos + 1 < Width(|txids|, height - 1) ==>
                  var right := Build(H, txids, mask, height - 1, 2 * pos + 1);
                  && At(proof.bits, nBits + 1 + |left.bits|, right.bits)
                  && At(proof.hashes, nHashes + |left.hashes|, right.hashes))
  {
    var left := Build(H, txids, mask, height - 1, 2 * pos);
    if 2 * pos + 1 < Width(|txids|, height - 1) {
      var right := Build(H, txids, mask, height - 1, 2 * pos + 1);
      AtSplit(proof.bits, nBits, [true] + left.bits, right.bits);
      AtSplit(proof.hashes, nHashes, left.hashes, right.hashes);
    }
    AtSplit(proof.bits, nBits, [true], left.bits);
    assert proof.bits[nBits] == proof.bits[nBits..nBits + 1][0];
  }

  /** The case of a node whose subtrees are traversed. */
  lemma {:induction false} ExtractOfBuildNode(
      H: PairHash, txids: seq<Hash>, mask: seq<bool>, proof: Proof, height: nat, pos: nat, nBits: nat, nHashes: nat)
    requires |mask| == |txids| && 0 < height && pos < Width(|txids|, height) && AnyMatch(mask, height, pos)
    requires nBits < |proof.bits| && proof.bits[nBits]
    requires At(proof.bits, nBits + 1, Build(H, txids, mask, height - 1, 2 * pos).bits)
    requires At(proof.hashes, nHashes, Build(H, txids, mask, height - 1, 2 * pos).hashes)
    requires 2 * pos + 1 < Width(|txids|, height - 1) ==>
               var left := Build(H, txids, mask, height - 1, 2 * pos);
               var right := Build(H, txids, mask, height - 1, 2 * pos + 1);
               && At(proof.bits, nBits + 1 + |left.bits|, right.bits)
               && At(proof.hashes, nHashes + |left.hashes|, right.hashes)
    ensures Extract(H, |txids|, proof, height, pos, nBits, nHashes) ==
            Rebuilt(H, txids, mask, height, pos, nBits, nHashes)
    decreases height, 0
  {
    hide At, Build, Masked, Twins, CalcHash, FirstLeaf, EndLeaf, AnyMatch;
    var left := Build(H, txids, mask, height - 1, 2 * pos);
    if 2 * pos + 1 < Width(|txids|, height - 1) {
      ExtractOfBuild(H, txids, mask, proof, height - 1, 2 * pos + 1, nBits + 1 + |left.bits|, nHashes + |left.hashes|);
    }
    ExtractOfBuild(H, txids, mask, proof, height - 1, 2 * pos, nBits + 1, nHashes);
    RebuiltNode(H, txids, mask, height, pos, nBits, nHashes);
  }

  /** How the results for the children combine. */
  lemma RebuiltNode(
      H: PairHash, txids: seq<Hash>, mask: seq<bool>, height: nat, pos: nat, nBits: nat, nHashes: nat)
    requires |mask| == |txids| && 0 < height && pos < Width(|txids|, height) && AnyMatch(mask, height, pos)
    ensures var left := Rebuilt(H, txids, mask, height - 1, 2 * pos, nBits + 1, nHashes);
            Rebuilt(H, txids, mask, height, pos, nBits, nHashes) ==
            if 2 * pos + 1 < Width(|txids|, height - 1)
            then Join(H, left, Rebuilt(H, txids, mask, height - 1, 2 * pos + 1, left.nBits, left.nHashes))
            else Lift(H, left)
  {
    var n := |txids|;
    if 2 * pos + 1 < Width(n, height - 1) {
      LeavesAdjoin(n, height - 1, 2 * pos);
      LeafRange(n, height - 1, 2 * pos);
      LeafRange(n, height - 1, 2 * pos + 1);
      MaskedSplit(txids, mask, FirstLeaf(height, pos), EndLeaf(n, height - 1, 2 * pos), EndLeaf(n, height, pos));
    }
  }

  // ---------- When there are no twins ----------

  ghost predicate Injective(H: PairHash) {
    forall a, b, c, d :: H(a, b) == H(c, d) ==> a == c && b == d
  }

  ghost predicate Distinct(txids: seq<Hash>) {
    forall i, j :: 0 <= i < j < |txids| ==> txids[i] != txids[j]
  }

  /** With injective pair hashing, nodes of one height with equal hashes have the same first leaf. */
  lemma {:induction false} HashPinsFirstLeaf(H: PairHash, txids: seq<Hash>, height: nat, p: nat, q: nat)
    requires Injective(H) && p < Width(|txids|, height) && q < Width(|txids|, height)
    requires CalcHash(H, txids, height, p) == CalcHash(H, txids, height, q)
    ensures FirstLeaf(height, p) < |txids| && FirstLeaf(height, q) < |txids|
    ensures txids[FirstLeaf(height, p)] == txids[FirstLeaf(height, q)]
    decreases height
  {
    if height > 0 {
      HashPinsFirstLeaf(H, txids, height - 1, 2 * p, 2 * q);
    }
  }

  lemma {:induction false} NoTwins(H: PairHash, txids: seq<Hash>, mask: seq<bool>, height: nat, pos: nat)
    requires Injective(H) && Distinct(txids) && |mask| == |txids| && pos < Width(|txids|, height)
    ensures !Twins(H, txids, mask, height, pos)
    decreases height
  {
    var n := |txids|;
    if height > 0 {
      NoTwins(H, txids, mask, height - 1, 2 * pos);
      if 2 * pos + 1 < Width(n, height - 1) {
        NoTwins(H, txids, mask, height - 1, 2 * pos + 1);
        LeafRange(n, height - 1, 2 * pos);
        LeafRange(n, height - 1, 2 * pos + 1);
        LeavesAdjoin(n, height - 1, 2 * pos);
        if CalcHash(H, txids, height - 1, 2 * pos) == CalcHash(H, txids, height - 1, 2 * pos + 1) {
          HashPinsFirstLeaf(H, txids, height - 1, 2 * pos, 2 * pos + 1);
          assert false;
        }
      }
    }
  }

  // ---------- Sizes ----------

  /** Number of traversed nodes that have a single child. */
  function OnlyChildren(mask: seq<bool>, height: nat, pos: nat): nat
    requires pos < Width(|mask|, height)
  {
    if height == 0 || !AnyMatch(mask, height, pos) then 0
    else if 2 * pos + 1 < Width(|mask|, height - 1) then
      OnlyChildren(mask, height - 1, 2 * pos) + OnlyChildren(mask, height - 1, 2 * pos + 1)
    else 1 + OnlyChildren(mask, height - 1, 2 * pos)
  }

  /** Exact number of flag bits, and the first bound on the number of hashes (src/merkleblock.h:43). */
  lemma {:induction false} BuildSizes(H: PairHash, txids: seq<Hash>, mask: seq<bool>, height: nat, pos: nat)
    requires |mask| == |txids| && pos < Width(|txids|, height)
    ensures var built := Build(H, txids, mask, height, pos);
            && |built.bits| == 2 * |built.hashes| - 1 + OnlyChildren(mask, height, pos)
            && 1 <= |built.hashes| <= EndLeaf(|txids|, height, pos) - FirstLeaf(height, pos)
    decreases height
  {
    var n := |txids|;
    LeafRange(n, height, pos);
    if height > 0 && AnyMatch(mask, height, pos) {
      BuildSizes(H, txids, mask, height - 1, 2 * pos);
      if 2 * pos + 1 < Width(n, height - 1) {
        BuildSizes(H, txids, mask, height - 1, 2 * pos + 1);
        LeavesAdjoin(n, height - 1, 2 * pos);
      }
    }
  }

  function MatchCount(mask: seq<bool>, height: nat, pos: nat): nat
    requires pos < Width(|mask|, height)
    decreases height
  {
    if height == 0 then if mask[pos] then 1 else 0
    else
      MatchCount(mask, height - 1, 2 * pos) +
      if 2 * pos + 1 < Width(|mask|, height - 1) then MatchCount(mask, height - 1, 2 * pos + 1) else 0
  }

  lemma {:induction false} MatchesCounted(mask: seq<bool>, height: nat, pos: nat)
    requires pos < Width(|mask|, height)
    ensures AnyMatch(mask, height, pos) <==> MatchCount(mask, height, pos) > 0
    decreases height
  {
    if height > 0 {
      MatchesCounted(mask, height - 1, 2 * pos);
      if 2 * pos + 1 < Width(|mask|, height - 1) {
        MatchesCounted(mask, height - 1, 2 * pos + 1);
      }
    }
  }

  /** The second bound on the number of hashes (src/merkleblock.h:44). */
  lemma {:induction false} BuildHashBound(H: PairHash, txids: seq<Hash>, mask: seq<bool>, height: nat, pos: nat)
    requires |mask| == |txids| && pos < Width(|txids|, height)
    ensures |Build(H, txids, mask, height, pos).hashes| <= 1 + MatchCount(mask, height, pos) * height
    decreases height
  {
    var m := MatchCount(mask, height, pos);
    MulMonotone(0, m, height);
    if height > 0 && AnyMatch(mask, height, pos) {
      MatchesCounted(mask, height, pos);
      BuildHashBound(H, txids, mask, height - 1, 2 * pos);
      if 2 * pos + 1 < Width(|txids|, height - 1) {
        BuildHashBound(H, txids, mask, height - 1, 2 * pos + 1);
        BoundsAdd(MatchCount(mask, height - 1, 2 * pos), MatchCount(mask, height - 1, 2 * pos + 1), height - 1);
      } else {
        BoundsAdd(m, 0, height - 1);
      }
    }
  }

  lemma BoundsAdd(a: nat, b: nat, h: nat)
    requires a + b > 0
    ensures (1 + a * h) + (1 + b * h) <= 1 + (a + b) * (h + 1)
  {
    assert (a + b) * (h + 1) == a * h + b * h + a + b;
  }

  /** A selected leaf hangs below the last node of some level that has an odd number of nodes beneath. */
  ghost predicate OddEdgeMatched(mask: seq<bool>, height: nat) {
    exists k :: 0 < k <= height && OddEdgeAt(mask, k)
  }

  ghost predicate OddEdgeAt(mask: seq<bool>, k: nat) {
    k > 0 && Width(|mask|, k - 1) % 2 == 1 && AnyMatch(mask, k, Width(|mask|, k) - 1)
  }

  /** Single-child nodes only occur at the right edge, at most one per level. */
  lemma {:induction false} OnlyChildrenAtEdge(mask: seq<bool>, height: nat, pos: nat)
    requires pos < Width(|mask|, height)
    ensures OnlyChildren(mask, height, pos) <= height
    ensures pos + 1 < Width(|mask|, height) ==> OnlyChildren(mask, height, pos) == 0
    ensures pos + 1 == Width(|mask|, height) ==>
              (OnlyChildren(mask, height, pos) > 0 <==> OddEdgeMatched(mask, height))
    decreases height
  {
    var n := |mask|;
    if height > 0 {
      OnlyChildrenAtEdge(mask, height - 1, 2 * pos);
      if 2 * pos + 1 < Width(n, height - 1) {
        OnlyChildrenAtEdge(mask, height - 1, 2 * pos + 1);
      }
      if pos + 1 == Width(n, height) {
        OddEdgeStep(mask, height);
        if !AnyMatch(mask, height, pos) { UnmatchedEdge(mask, height); }
      }
    }
  }

  lemma OddEdgeStep(mask: seq<bool>, height: nat)
    requires height > 0
    ensures OddEdgeMatched(mask, height) <==> OddEdgeAt(mask, height) || OddEdgeMatched(mask, height - 1)
  {
  }

  lemma {:induction false} UnmatchedEdge(mask: seq<bool>, height: nat)
    requires Width(|mask|, height) > 0 && !AnyMatch(mask, height, Width(|mask|, height) - 1)
    ensures !OddEdgeMatched(mask, height)
  {
    if height > 0 {
      UnmatchedEdge(mask, height - 1);
      OddEdgeStep(mask, height);
    }
  }

  /**
    The header promises at most 2N-1 flag bits for N hashes (src/merkleblock.h:51).  That holds
    exactly when no selected leaf hangs below a single-child node; otherwise up to one more bit
    per level is needed.
  */
  lemma FlagBitBound(H: PairHash, txids: seq<Hash>, mask: seq<bool>, height: nat)
    requires |mask| == |txids| && IsHeight(|txids|, height) && |txids| > 0
    ensures Width(|txids|, height) == 1
    ensures var built := Build(H, txids, mask, height, 0);
            && (|built.bits| <= 2 * |built.hashes| - 1 <==> !OddEdgeMatched(mask, height))
            && |built.bits| <= 2 * |built.hashes| - 1 + height
  {
    WidthPositive(|txids|, height);
    BuildSizes(H, txids, mask, height, 0);
    OnlyChildrenAtEdge(mask, height, 0);
  }

  lemma {:induction false} WidthPositive(n: nat, height: nat)
    requires n > 0
    ensures Width(n, height) > 0
  {
    if height > 0 { WidthPositive(n, height - 1); }
  }

  /** Three transactions with the last one selected take 2 hashes and 4 bits. */
  lemma FlagBitBoundFails(H: PairHash, a: Hash, b: Hash, c: Hash)
    ensures IsHeight(3, 2)
    ensures var built := Build(H, [a, b, c], [false, false, true], 2, 0);
            |built.hashes| == 2 && |built.bits| == 4
  {
    var txids, mask := [a, b, c], [false, false, true];
    assert Width(3, 1) == 2 && Width(3, 2) == 1;
    assert !AnyMatch(mask, 1, 0) && AnyMatch(mask, 1, 1);
    assert Build(H, txids, mask, 0, 2) == Proof([true], [c]);
    assert Build(H, txids, mask, 1, 1) == Proof([true, true], [c]);
    assert Build(H, txids, mask, 1, 0) == Proof([false], [CalcHash(H, txids, 1, 0)]);
  }

  // ---------- The size of the message ----------

  /** Bytes of a length prefix. */
  function PrefixSize(n: nat): nat {
    if n < 253 then 1 else if n <= 0xffff then 3 else if n <= 0xffff_ffff then 5 else 9
  }

  /** A length is written in one byte, or in the shortest of 2, 4 and 8 bytes that holds it after a mark. */
  lemma PrefixIsShortest(n: nat)
    requires n < Pow(256, 8)
    ensures var k := PrefixSize(n);
            && k in {1, 3, 5, 9} && n < Pow(256, if k == 1 then 1 else k - 1)
            && (k == 1 <==> n < 253) && (k > 3 ==> n >= Pow(256, (k - 1) / 2))
  {
    assert Pow(256, 1) == 256 && Pow(256, 2) == 0x1_0000 && Pow(256, 3) == 0x100_0000 && Pow(256, 4) == 0x1_0000_0000;
  }

  function FlagBytes(bits: nat): nat {
    (bits + 7) / 8
  }

  /** Bytes of the count, the hashes and the flags, the latter two with their lengths (src/merkleblock.h:46-51). */
  function MessageSize(hashes: nat, bits: nat): nat {
    4 + PrefixSize(hashes) + 32 * hashes + PrefixSize(FlagBytes(bits)) + FlagBytes(bits)
  }

  /** What the header promises: 10 bytes and 32.25 for each hash, rounded up (src/merkleblock.h:35-38). */
  function PromisedSize(hashes: nat): nat {
    10 + 32 * hashes + (hashes + 3) / 4
  }

  /** Number of hashes, told from the mask alone. */
  function HashCount(mask: seq<bool>, height: nat, pos: nat): nat
    requires pos < Width(|mask|, height)
  {
    if height == 0 || !AnyMatch(mask, height, pos) then 1
    else
      HashCount(mask, height - 1, 2 * pos) +
      if 2 * pos + 1 < Width(|mask|, height - 1) then HashCount(mask, height - 1, 2 * pos + 1) else 0
  }

  lemma {:induction false} BuildHashCount(H: PairHash, txids: seq<Hash>, mask: seq<bool>, height: nat, pos: nat)
    requires |mask| == |txids| && pos < Width(|txids|, height)
    ensures |Build(H, txids, mask, height, pos).hashes| == HashCount(mask, height, pos)
    decreases height
  {
    if height > 0 && AnyMatch(mask, height, pos) {
      BuildHashCount(H, txids, mask, height - 1, 2 * pos);
      if 2 * pos + 1 < Width(|txids|, height - 1) {
        BuildHashCount(H, txids, mask, height - 1, 2 * pos + 1);
      }
    }
  }

  /** Flag bytes beyond one for every four hashes, with `only` single-child nodes. */
  function SpareBytes(hashes: nat, only: nat): int {
    (2 * hashes + 6 + only) / 8 - (hashes + 3) / 4
  }

  /**
    Up to 252 hashes there is always room.  With more, the longer length prefixes use it up: two
    more flag bytes fit while there are at most 252 of them, and none after that.
  */
  predicate SizeFits(hashes: nat, only: nat) {
    var spare := SpareBytes(hashes, only);
    || hashes < 253
    || (hashes <= 0xffff && spare <= if (hashes + 3) / 4 + spare < 253 then 2 else 0)
  }

  lemma SizeArithmetic(hashes: nat, only: nat)
    requires 0 < hashes <= 0xffff_ffff && only <= 32
    ensures MessageSize(hashes, 2 * hashes - 1 + only) <= PromisedSize(hashes) <==> SizeFits(hashes, only)
  {
    var spare := SpareBytes(hashes, only);
    assert FlagBytes(2 * hashes - 1 + only) == (hashes + 3) / 4 + spare;
    assert 0 <= spare <= 4;
  }

  lemma {:induction false} WidthWithin(n: nat, k: nat)
    requires n <= Pow2(k)
    ensures Width(n, k) <= 1
  {
    WidthIsShift(n, k);
    DivLess(n + Pow2(k) - 1, Pow2(k), 2);
  }

  lemma HeightWithin(n: nat, height: nat)
    requires IsHeight(n, height) && n <= 0xffff_ffff
    ensures height <= 32
  {
    assert Pow(2, 8) == 0x100;
    assert Pow(2, 16) == 0x1_0000;
    assert Pow(2, 24) == 0x100_0000;
    assert Pow(2, 32) == 0x1_0000_0000;
    WidthWithin(n, 32);
  }

  /** Exactly which blocks and selections keep the promised size. */
  lemma SizeBound(H: PairHash, txids: seq<Hash>, mask: seq<bool>, height: nat)
    requires 0 < |mask| == |txids| <= 0xffff_ffff && IsHeight(|txids|, height)
    ensures Width(|txids|, height) == 1
    ensures var built := Build(H, txids, mask, height, 0);
            MessageSize(|built.hashes|, |built.bits|) <= PromisedSize(|built.hashes|) <==>
              SizeFits(HashCount(mask, height, 0), OnlyChildren(mask, height, 0))
  {
    WidthPositive(|txids|, height);
    BuildSizes(H, txids, mask, height, 0);
    BuildHashCount(H, txids, mask, height, 0);
    OnlyChildrenAtEdge(mask, height, 0);
    HeightWithin(|txids|, height);
    FirstLeafIsShift(height, 0);
    LastLeaf(|txids|, height, 0);
    SizeArithmetic(HashCount(mask, height, 0), OnlyChildren(mask, height, 0));
  }

  /** With every leaf selected there is a hash for each, and a single child wherever a level is odd. */
  lemma {:induction false} AllSelected(mask: seq<bool>, height: nat, pos: nat)
    requires (forall i :: 0 <= i < |mask| ==> mask[i]) && pos < Width(|mask|, height)
    ensures AnyMatch(mask, height, pos) && HashCount(mask, height, pos) == EndLeaf(|mask|, height, pos) - FirstLeaf(height, pos)
    decreases height
  {
    LeafRange(|mask|, height, pos);
    if height > 0 {
      AllSelected(mask, height - 1, 2 * pos);
      if 2 * pos + 1 < Width(|mask|, height - 1) {
        AllSelected(mask, height - 1, 2 * pos + 1);
        LeavesAdjoin(|mask|, height - 1, 2 * pos);
      }
    }
  }

  lemma EdgeOnly(mask: seq<bool>, height: nat, w: nat)
    requires (forall i :: 0 <= i < |mask| ==> mask[i]) && height > 0 && 0 < w == Width(|mask|, height - 1)
    ensures Width(|mask|, height) == (w + 1) / 2
    ensures OnlyChildren(mask, height, (w + 1) / 2 - 1) == OnlyChildren(mask, height - 1, w - 1) + w % 2
  {
    AllSelected(mask, height, (w + 1) / 2 - 1);
    if w % 2 == 0 {
      OnlyChildrenAtEdge(mask, height - 1, w - 2);
    }
  }

  /** Ten of the eleven levels below the root are odd. */
  lemma OddLevels(mask: seq<bool>)
    requires |mask| == 1025 && forall i :: 0 <= i < 1025 ==> mask[i]
    ensures IsHeight(1025, 11) && Width(1025, 11) == 1 && OnlyChildren(mask, 11, 0) == 10
  {
    hide OnlyChildren;
    EdgeOnly(mask, 1, 1025);
    EdgeOnly(mask, 2, 513);
    EdgeOnly(mask, 3, 257);
    EdgeOnly(mask, 4, 129);
    EdgeOnly(mask, 5, 65);
    EdgeOnly(mask, 6, 33);
    EdgeOnly(mask, 7, 17);
    EdgeOnly(mask, 8, 9);
    EdgeOnly(mask, 9, 5);
    EdgeOnly(mask, 10, 3);
    EdgeOnly(mask, 11, 2);
    LeafHasNone(mask, 1024);
  }

  lemma LeafHasNone(mask: seq<bool>, pos: nat)
    requires pos < |mask|
    ensures OnlyChildren(mask, 0, pos) == 0
  {
  }

  /** 1025 transactions, all selected: the message is one byte longer than promised. */
  lemma SizeBoundFails(H: PairHash, txids: seq<Hash>, mask: seq<bool>)
    requires |txids| == |mask| == 1025 && forall i :: 0 <= i < 1025 ==> mask[i]
    ensures IsHeight(1025, 11) && Width(1025, 11) == 1
    ensures var built := Build(H, txids, mask, 11, 0);
            && |built.hashes| == 1025 && |built.bits| == 2059
            && MessageSize(|built.hashes|, |built.bits|) == 33068 == PromisedSize(|built.hashes|) + 1
  {
    hide OnlyChildren, Build, HashCount, AnyMatch;
    OddLevels(mask);
    AllSelected(mask, 11, 0);
    hide Width;
    FirstLeafIsShift(11, 0);
    LastLeaf(1025, 11, 0);
    BuildSizes(H, txids, mask, 11, 0);
    BuildHashCount(H, txids, mask, 11, 0);
  }

  // ---------- Packing flag bits into bytes ----------

  /** Bit `i` of a byte, least significant first. */
  predicate BitOf(b: bv8, i: nat)
    requires i < 8
  {
    b & ((1 as bv8) << i) != 0
  }

  lemma SetBit(b: bv8, i: nat, j: nat, x: bool)
    requires i < 8 && j < 8 && !BitOf(b, i)
    ensures var shifted := (if x then 1 as bv8 else 0) << i;
            BitOf(b | shifted, j) <==> if i == j then x else BitOf(b, j)
  {
  }

  lemma NoBits(i: nat)
    requires i < 8
    ensures !BitOf(0, i)
  {
  }

  method BitsToBytes(bits: seq<bool>) returns (bytes: seq<bv8>)
    ensures |bytes| == (|bits| + 7) / 8
    ensures forall p :: 0 <= p < |bytes| * 8 ==> (BitOf(bytes[p / 8], p % 8) <==> p < |bits| && bits[p])
  {
    bytes := seq((|bits| + 7) / 8, _ => 0);
    forall i | 0 <= i < 8 { NoBits(i); }
    for p := 0 to |bits|
      invariant |bytes| == (|bits| + 7) / 8
      invariant forall q :: 0 <= q < |bytes| * 8 ==> (BitOf(bytes[q / 8], q % 8) <==> q < p && bits[q])
    {
      var b := bytes[p / 8];
      forall j | 0 <= j < 8 { SetBit(b, p % 8, j, bits[p]); }
      bytes := bytes[p / 8 := b | ((if bits[p] then 1 as bv8 else 0) << (p % 8))];
    }
  }

  method BytesToBits(bytes: seq<bv8>) returns (bits: seq<bool>)
    ensures |bits| == |bytes| * 8
    ensures forall p :: 0 <= p < |bits| ==> bits[p] == BitOf(bytes[p / 8], p % 8)
  {
    bits := seq(|bytes| * 8, _ => false);
    for p := 0 to |bits|
      invariant |bits| == |bytes| * 8
      invariant forall q :: 0 <= q < p ==> bits[q] == BitOf(bytes[q / 8], q % 8)
    {
      bits := bits[p := bytes[p / 8] & ((1 as bv8) << (p % 8)) != 0];
    }
  }

  /** The bits after a trip through bytes: the same ones, padded with zeros to a full byte. */
  function Padded(bits: seq<bool>): seq<bool> {
    bits + seq((|bits| + 7) / 8 * 8 - |bits|, _ => false)
  }

  // ---------- The class ----------

  lemma Regroup<T>(a: seq<T>, b: seq<T>, c: seq<T>)
    ensures (a + b) + c == a + (b + c)
  {
  }

  class PartialTree {
    const H: PairHash
    var nTransactions: nat
    var vBits: seq<bool>
    var vHash: seq<Hash>
    var fBad: bool

    method CalcTreeWidth(height: nat) returns (width: nat)
      ensures width == Width(nTransactions, height)
    {
      WidthIsShift(nTransactions, height);
      width := (nTransactions + Pow2(height) - 1) / Pow2(height);
    }

    method TreeHeight() returns (height: nat)
      ensures IsHeight(nTransactions, height)
    {
      height := 0;
      var width := CalcTreeWidth(0);
      while width > 1
        invariant width == Width(nTransactions, height)
        invariant forall h :: 0 <= h < height ==> Width(nTransactions, h) > 1
        decreases width
      {
        height := height + 1;
        width := CalcTreeWidth(height);
      }
    }

    method TraverseAndBuild(height: nat, pos: nat, vTxid: seq<Hash>, vMatch: seq<bool>)
      requires |vTxid| == |vMatch| == nTransactions && pos < Width(nTransactions, height)
      modifies `vBits, `vHash
      ensures var built := Build(H, vTxid, vMatch, height, pos);
              vBits == old(vBits) + built.bits && vHash == old(vHash) + built.hashes
      decreases height
    {
      hide AnyMatch, CalcHash;
      var parentOfMatch := ParentOfMatch(height, pos, vMatch);
      vBits := vBits + [parentOfMatch];
      if height == 0 || !parentOfMatch {
        vHash := vHash + [CalcHash(H, vTxid, height, pos)];
      } else {
        ghost var left := Build(H, vTxid, vMatch, height - 1, 2 * pos);
        TraverseAndBuild(height - 1, 2 * pos, vTxid, vMatch);
        Regroup(old(vBits), [true], left.bits);
        var width := CalcTreeWidth(height - 1);
        if 2 * pos + 1 < width {
          ghost var right := Build(H, vTxid, vMatch, height - 1, 2 * pos + 1);
          TraverseAndBuild(height - 1, 2 * pos + 1, vTxid, vMatch);
          Regroup(old(vBits), [true] + left.bits, right.bits);
          Regroup(old(vHash), left.hashes, right.hashes);
        }
      }
    }

    /** The loop at the head of `TraverseAndBuild`. */
    method ParentOfMatch(height: nat, pos: nat, vMatch: seq<bool>) returns (any: bool)
      requires |vMatch| == nTransactions && pos < Width(nTransactions, height)
      ensures any == AnyMatch(vMatch, height, pos)
    {
      LeafRange(nTransactions, height, pos);
      LeavesAreShifts(nTransactions, height, pos);
      AnyMatchIsExists(vMatch, height, pos);
      any := false;
      var p := pos * Pow2(height);
      ghost var end := EndLeaf(nTransactions, height, pos);
      while p < (pos + 1) * Pow2(height) && p < nTransactions
        invariant FirstLeaf(height, pos) <= p <= end <= |vMatch|
        invariant any == AnyIn(vMatch, FirstLeaf(height, pos), p)
      {
        any := any || vMatch[p];
        p := p + 1;
      }
    }

    method TraverseAndExtract(height: nat, pos: nat, bitsUsed: nat, hashUsed: nat, matchesIn: seq<Match>)
      returns (hash: Hash, nBitsUsed: nat, nHashUsed: nat, matches: seq<Match>)
      requires pos < Width(nTransactions, height)
      modifies `fBad
      ensures var e := Extract(H, nTransactions, Proof(vBits, vHash), height, pos, bitsUsed, hashUsed);
              && fBad == (old(fBad) || e.bad) && hash == e.hash
              && nBitsUsed == e.nBits && nHashUsed == e.nHashes && matches == matchesIn + e.matches
      decreases height
    {
      nBitsUsed, nHashUsed, matches := bitsUsed, hashUsed, matchesIn;
      if nBitsUsed >= |vBits| {
        fBad := true;
        return NULL_HASH, nBitsUsed, nHashUsed, matches;
      }
      var parentOfMatch := vBits[nBitsUsed];
      nBitsUsed := nBitsUsed + 1;
      if height == 0 || !parentOfMatch {
        if nHashUsed >= |vHash| {
          fBad := true;
          return NULL_HASH, nBitsUsed, nHashUsed, matches;
        }
        hash := vHash[nHashUsed];
        nHashUsed := nHashUsed + 1;
        if height == 0 && parentOfMatch {
          matches := matches + [Match(hash, pos)];
        }
      } else {
        ghost var l := Extract(H, nTransactions, Proof(vBits, vHash), height - 1, 2 * pos, bitsUsed + 1, hashUsed);
        var left, right;
        left, nBitsUsed, nHashUsed, matches :=
          TraverseAndExtract(height - 1, 2 * pos, nBitsUsed, nHashUsed, matches);
        var width := CalcTreeWidth(height - 1);
        if 2 * pos + 1 < width {
          right, nBitsUsed, nHashUsed, matches :=
            TraverseAndExtract(height - 1, 2 * pos + 1, nBitsUsed, nHashUsed, matches);
          Regroup(matchesIn, l.matches,
                  Extract(H, nTransactions, Proof(vBits, vHash), height - 1, 2 * pos + 1, l.nBits, l.nHashes).matches);
          if right == left {
            fBad := true;
          }
        } else {
          right := left;
        }
        hash := H(left, right);
      }
    }

    /** The default-constructed tree, which `Unserialize` then fills. */
    constructor (H: PairHash)
      ensures this.H == H && nTransactions == 0 && vBits == [] && vHash == [] && fBad
    {
      this.H := H;
      nTransactions, vBits, vHash, fBad := 0, [], [], true;
    }

    constructor Create(H: PairHash, vTxid: seq<Hash>, vMatch: seq<bool>)
      requires 0 < |vTxid| == |vMatch|
      ensures this.H == H && nTransactions == |vTxid| && !fBad
      ensures forall height :: IsHeight(|vTxid|, height) ==>
                Width(|vTxid|, height) == 1 && Proof(vBits, vHash) == Build(H, vTxid, vMatch, height, 0)
    {
      this.H := H;
      nTransactions, vBits, vHash, fBad := |vTxid|, [], [], false;
      new;
      var height := TreeHeight();
      forall h | IsHeight(|vTxid|, h) ensures h == height { HeightIsUnique(|vTxid|, h, height); }
      WidthPositive(|vTxid|, height);
      TraverseAndBuild(height, 0, vTxid, vMatch);
    }

    method Serialize() returns (n: nat, hashes: seq<Hash>, bytes: seq<bv8>)
      ensures n == nTransactions && hashes == vHash
      ensures |bytes| == (|vBits| + 7) / 8
      ensures forall p :: 0 <= p < |bytes| * 8 ==> (BitOf(bytes[p / 8], p % 8) <==> p < |vBits| && vBits[p])
    {
      n, hashes := nTransactions, vHash;
      bytes := BitsToBytes(vBits);
    }

    method Unserialize(n: nat, hashes: seq<Hash>, bytes: seq<bv8>)
      modifies this
      ensures nTransactions == n && vHash == hashes && !fBad
      ensures |vBits| == |bytes| * 8
      ensures forall p :: 0 <= p < |vBits| ==> vBits[p] == BitOf(bytes[p / 8], p % 8)
    {
      nTransactions, vHash := n, hashes;
      var bits := BytesToBits(bytes);
      vBits := bits;
      fBad := false;
    }

    /**
      The root if everything is in order, and the null hash otherwise.  The list of matches starts
      empty; the indexes are appended to the caller's list, also where the proof is then refused.
    */
    method ExtractMatches(indexesIn: seq<nat>) returns (root: Hash, matches: seq<Match>, vnIndex: seq<nat>)
      modifies `fBad
      ensures vnIndex == indexesIn + Indexes(matches)
      ensures !Plausible(nTransactions, Proof(vBits, vHash)) ==> root == NULL_HASH && matches == [] && fBad == old(fBad)
      ensures forall height :: IsHeight(nTransactions, height) && Plausible(nTransactions, Proof(vBits, vHash)) ==>
                var proof := Proof(vBits, vHash);
                && matches == Traversal(H, nTransactions, proof, height).matches
                && if !old(fBad) && Accepts(H, nTransactions, proof, height)
                   then !fBad && root == Traversal(H, nTransactions, proof, height).hash
                   else root == NULL_HASH
    {
      root, matches, vnIndex := NULL_HASH, [], indexesIn;
      if nTransactions == 0 || nTransactions > MAX_BLOCK_WEIGHT / MIN_TRANSACTION_WEIGHT
         || |vHash| > nTransactions || |vBits| < |vHash| {
        return;
      }
      var height := TreeHeight();
      forall h | IsHeight(nTransactions, h) ensures h == height { HeightIsUnique(nTransactions, h, height); }
      WidthPositive(nTransactions, height);
      var hash, nBitsUsed, nHashUsed;
      hash, nBitsUsed, nHashUsed, matches := TraverseAndExtract(height, 0, 0, 0, []);
      vnIndex := vnIndex + Indexes(matches);
      if fBad || (nBitsUsed + 7) / 8 != (|vBits| + 7) / 8 || nHashUsed != |vHash| {
        return;
      }
      root := hash;
    }
  }

  /** The index half of the pairs that the traversal appends to two lists. */
  function Indexes(matches: seq<Match>): seq<nat> {
    seq(|matches|, i requires 0 <= i < |matches| => matches[i].index)
  }

  // ---------- What the class promises ----------

  lemma HeightIsUnique(n: nat, g: nat, h: nat)
    requires IsHeight(n, g) && IsHeight(n, h)
    ensures g == h
  {
  }

  /** The traversal from the root. */
  function Traversal(H: PairHash, n: nat, proof: Proof, height: nat): Extraction
    requires n > 0
  {
    WidthPositive(n, height);
    Extract(H, n, proof, height, 0, 0, 0)
  }

  /** The checks before the traversal. */
  predicate Plausible(n: nat, proof: Proof) {
    && 0 < n <= 16666
    && |proof.hashes| <= n
    && |proof.hashes| <= |proof.bits|
  }

  /** The conditions under which `ExtractMatches` gives a root. */
  predicate Accepts(H: PairHash, n: nat, proof: Proof, height: nat) {
    && Plausible(n, proof)
    && var e := Traversal(H, n, proof, height);
       !e.bad && (e.nBits + 7) / 8 == (|proof.bits| + 7) / 8 && e.nHashes == |proof.hashes|
  }

  function MerkleRoot(H: PairHash, txids: seq<Hash>, height: nat): Hash
    requires IsHeight(|txids|, height) && |txids| > 0
  {
    WidthPositive(|txids|, height);
    CalcHash(H, txids, height, 0)
  }

  /**
    Soundness: any proof that is accepted with the Merkle root of a list of the same length
    reports, each once and in order, entries of that list at their true positions, or exhibits a
    collision of the pair hash.
  */
  lemma ProofSound(H: PairHash, txids: seq<Hash>, proof: Proof, height: nat) returns (collision: Option<Collision>)
    requires IsHeight(|txids|, height) && Accepts(H, |txids|, proof, height)
    requires Traversal(H, |txids|, proof, height).hash == MerkleRoot(H, txids, height)
    ensures collision.None? ==>
              var matches := Traversal(H, |txids|, proof, height).matches;
              AllTrue(txids, matches) && Ascending(matches, 0, |txids|)
    ensures collision.Some? ==> Collides(H, collision.value)
  {
    WidthPositive(|txids|, height);
    FirstLeafIsShift(height, 0);
    LastLeaf(|txids|, height, 0);
    ExtractAscending(H, |txids|, proof, height, 0, 0, 0);
    collision := ExtractSound(H, txids, proof, height, 0, 0, 0);
  }

  /**
    Completeness: what was built and went through bytes is accepted exactly when no traversed
    node has twin children, and it then yields the Merkle root and exactly the selected
    transactions with their positions in order.
  */
  lemma ProofComplete(H: PairHash, txids: seq<Hash>, mask: seq<bool>, height: nat)
    requires 0 < |txids| == |mask| <= 16666 && IsHeight(|txids|, height)
    ensures Width(|txids|, height) == 1
    ensures var built := Build(H, txids, mask, height, 0);
            var proof := Proof(Padded(built.bits), built.hashes);
            && (Accepts(H, |txids|, proof, height) <==> !Twins(H, txids, mask, height, 0))
            && Traversal(H, |txids|, proof, height).hash == MerkleRoot(H, txids, height)
            && Traversal(H, |txids|, proof, height).matches == Masked(txids, mask, 0, |txids|)
  {
    WidthPositive(|txids|, height);
    var built := Build(H, txids, mask, height, 0);
    var proof := Proof(Padded(built.bits), built.hashes);
    FirstLeafIsShift(height, 0);
    LastLeaf(|txids|, height, 0);
    BuildSizes(H, txids, mask, height, 0);
    assert proof.bits[0..|built.bits|] == built.bits;
    assert proof.hashes[0..|built.hashes|] == built.hashes;
    ExtractOfBuild(H, txids, mask, proof, height, 0, 0, 0);
  }

  /** Distinct transactions and collision-free hashing leave no room for twins. */
  lemma DistinctProofAccepted(H: PairHash, txids: seq<Hash>, mask: seq<bool>, height: nat)
    requires Injective(H) && Distinct(txids)
    requires 0 < |txids| == |mask| <= 16666 && IsHeight(|txids|, height)
    ensures Width(|txids|, height) == 1
    ensures var built := Build(H, txids, mask, height, 0);
            Accepts(H, |txids|, Proof(Padded(built.bits), built.hashes), height)
  {
    ProofComplete(H, txids, mask, height);
    NoTwins(H, txids, mask, height, 0);
  }

  /** Build, send as bytes, receive, extract. */
  method RoundTrip(H: PairHash, vTxid: seq<Hash>, vMatch: seq<bool>, indexes: seq<nat>, ghost height: nat)
    returns (root: Hash, matches: seq<Match>, vnIndex: seq<nat>)
    requires 0 < |vTxid| == |vMatch| <= 16666 && IsHeight(|vTxid|, height)
    ensures Width(|vTxid|, height) == 1
    ensures if Twins(H, vTxid, vMatch, height, 0) then root == NULL_HASH
            else root == MerkleRoot(H, vTxid, height) && matches == Masked(vTxid, vMatch, 0, |vTxid|) && vnIndex == indexes + Indexes(matches)
  {
    var sent := new PartialTree.Create(H, vTxid, vMatch);
    var n, hashes, bytes := sent.Serialize();
    var received := new PartialTree(H);
    received.Unserialize(n, hashes, bytes);
    assert received.vBits == Padded(sent.vBits);
    ProofComplete(H, vTxid, vMatch, height);
    root, matches, vnIndex := received.ExtractMatches(indexes);
    assert IsHeight(received.nTransactions, height);
  }
}
