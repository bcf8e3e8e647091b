/**
  The Merkle root of a block, computed level by level (src/consensus/merkle.cpp): what it is, that it
  agrees with the recursive hash of the partial trees, and that the mutation flag leaves only one list
  for a root.
*/
module MerkleRoot {

  import opened Basics
  import opened PartialMerkleTree

  // ---------- Levels ----------

  /** Each pair hashed, the last element paired with itself where it is alone. */
  function NextLevel(H: PairHash, level: seq<Hash>): (next: seq<Hash>)
    ensures |next| == (|level| + 1) / 2
  {
    seq((|level| + 1) / 2, i requires 0 <= i < (|level| + 1) / 2 =>
      H(level[2 * i], if 2 * i + 1 < |level| then level[2 * i + 1] else level[2 * i]))
  }

  /** The last hash left, or the null hash for an empty list. */
  function Root(H: PairHash, level: seq<Hash>): Hash
    decreases |level|
  {
    if level == [] then NULL_HASH
    else if |level| == 1 then level[0]
    else Root(H, NextLevel(H, level))
  }

  /** Two equal hashes are paired. */
  ghost predicate Repeats(level: seq<Hash>) {
    exists i :: 0 <= i && 2 * i + 1 < |level| && PairEqual(level, i)
  }

  predicate PairEqual(level: seq<Hash>, i: nat)
    requires 2 * i + 1 < |level|
  {
    level[2 * i] == level[2 * i + 1]
  }

  /** That happens on some level. */
  ghost predicate Mutated(H: PairHash, level: seq<Hash>)
    decreases |level|
  {
    |level| > 1 && (Repeats(level) || Mutated(H, NextLevel(H, level)))
  }

  method ComputeMerkleRoot(H: PairHash, leaves: seq<Hash>) returns (root: Hash, mutated: bool)
    ensures root == Root(H, leaves) && (mutated <==> Mutated(H, leaves))
  {
    hide NextLevel, Repeats, Root, Mutated;
    var hashes, mutation := leaves, false;
    while |hashes| > 1
      invariant Root(H, hashes) == Root(H, leaves)
      invariant mutation || Mutated(H, hashes) <==> Mutated(H, leaves)
      decreases |hashes|
    {
      var repeats := FindRepeat(hashes);
      mutation := mutation || repeats;
      ghost var level := hashes;
      if |hashes| % 2 == 1 {
        hashes := hashes + [hashes[|hashes| - 1]];
      }
      hashes := HashPairs(H, hashes);
      PairsAreNext(H, level, hashes);
      OneLevel(H, level);
    }
    LastLevel(H, hashes);
    root, mutated := if |hashes| == 0 then NULL_HASH else hashes[0], mutation;
  }

  lemma PairsAreNext(H: PairHash, level: seq<Hash>, next: seq<Hash>)
    requires level != []
    requires var even := if |level| % 2 == 1 then level + [level[|level| - 1]] else level;
             |next| == |even| / 2 && forall i :: 0 <= i < |next| ==> next[i] == H(even[2 * i], even[2 * i + 1])
    ensures next == NextLevel(H, level)
  {
    forall i | 0 <= i < |next| ensures next[i] == NextLevel(H, level)[i] {}
  }

  lemma OneLevel(H: PairHash, level: seq<Hash>)
    requires |level| > 1
    ensures Root(H, level) == Root(H, NextLevel(H, level)) && |NextLevel(H, level)| == (|level| + 1) / 2
    ensures Mutated(H, level) <==> Repeats(level) || Mutated(H, NextLevel(H, level))
  {
    hide NextLevel;
  }

  lemma LastLevel(H: PairHash, level: seq<Hash>)
    requires |level| <= 1
    ensures Root(H, level) == (if level == [] then NULL_HASH else level[0]) && !Mutated(H, level)
  {
  }

  method FindRepeat(hashes: seq<Hash>) returns (repeats: bool)
    ensures repeats <==> Repeats(hashes)
  {
    repeats := false;
    var pos := 0;
    while pos + 1 < |hashes|
      invariant pos % 2 == 0 && 0 <= pos <= |hashes| + 1
      invariant repeats <==> exists i :: 0 <= i < pos / 2 && 2 * i + 1 < |hashes| && PairEqual(hashes, i)
    {
      assert PairEqual(hashes, pos / 2) <==> hashes[pos] == hashes[pos + 1];
      if hashes[pos] == hashes[pos + 1] {
        repeats := true;
      }
      pos := pos + 2;
    }
  }

  /** The hash function applied to an even number of hashes, two by two, in place. */
  method HashPairs(H: PairHash, hashes: seq<Hash>) returns (next: seq<Hash>)
    requires |hashes| % 2 == 0
    ensures |next| == |hashes| / 2 && forall i :: 0 <= i < |next| ==> next[i] == H(hashes[2 * i], hashes[2 * i + 1])
  {
    next := hashes;
    var i := 0;
    while i < |hashes| / 2
      invariant 0 <= i <= |hashes| / 2 && |next| == |hashes|
      invariant forall j :: 0 <= j < i ==> next[j] == H(hashes[2 * j], hashes[2 * j + 1])
      invariant forall j :: 2 * i <= j < |hashes| ==> next[j] == hashes[j]
    {
      next := next[i := H(next[2 * i], next[2 * i + 1])];
      i := i + 1;
    }
    next := next[..|hashes| / 2];
  }

  // ---------- The same as the recursive hash ----------

  /** The levels above a list. */
  function Level(H: PairHash, leaves: seq<Hash>, height: nat): (level: seq<Hash>)
    ensures |level| == Width(|leaves|, height)
  {
    if height == 0 then leaves else NextLevel(H, Level(H, leaves, height - 1))
  }

  lemma WidthStep(n: nat, height: nat)
    requires height > 0
    ensures Width(n, height) == (Width(n, height - 1) + 1) / 2
  {
  }

  lemma NextAt(H: PairHash, level: seq<Hash>, i: nat)
    requires i < (|level| + 1) / 2
    ensures NextLevel(H, level)[i] == H(level[2 * i], if 2 * i + 1 < |level| then level[2 * i + 1] else level[2 * i])
  {
  }

  lemma {:induction false} LevelIsHash(H: PairHash, leaves: seq<Hash>, height: nat, pos: nat)
    requires pos < Width(|leaves|, height)
    ensures Level(H, leaves, height)[pos] == CalcHash(H, leaves, height, pos)
  {
    hide Width, NextLevel;
    if height > 0 {
      WidthStep(|leaves|, height);
      NextAt(H, Level(H, leaves, height - 1), pos);
      LevelIsHash(H, leaves, height - 1, 2 * pos);
      if 2 * pos + 1 < Width(|leaves|, height - 1) {
        LevelIsHash(H, leaves, height - 1, 2 * pos + 1);
      }
    }
  }

  lemma {:induction false} RootOfLevel(H: PairHash, leaves: seq<Hash>, height: nat)
    requires forall h :: 0 <= h < height ==> Width(|leaves|, h) > 1
    ensures Root(H, leaves) == Root(H, Level(H, leaves, height))
    ensures Mutated(H, Level(H, leaves, height)) ==> Mutated(H, leaves)
  {
    hide NextLevel, Root, Mutated;
    if height > 0 {
      RootOfLevel(H, leaves, height - 1);
      assert Width(|leaves|, height - 1) > 1;
      OneLevel(H, Level(H, leaves, height - 1));
    }
  }

  /** Both ways of computing the root of a list agree. */
  lemma RootIsMerkleRoot(H: PairHash, leaves: seq<Hash>, height: nat)
    requires IsHeight(|leaves|, height) && |leaves| > 0
    ensures Root(H, leaves) == MerkleRoot(H, leaves, height)
  {
    WidthPositive(|leaves|, height);
    RootOfLevel(H, leaves, height);
    LevelIsHash(H, leaves, height, 0);
  }

  /** A list without the flag has no equal children anywhere, so every partial tree over it is accepted. */
  lemma {:induction false} UnmutatedNoTwins(H: PairHash, leaves: seq<Hash>, mask: seq<bool>, height: nat, pos: nat)
    requires |mask| == |leaves| && pos < Width(|leaves|, height) && !Mutated(H, leaves)
    requires forall h :: 0 <= h < height ==> Width(|leaves|, h) > 1
    ensures !Twins(H, leaves, mask, height, pos)
    decreases height
  {
    if height > 0 {
      UnmutatedNoTwins(H, leaves, mask, height - 1, 2 * pos);
      if 2 * pos + 1 < Width(|leaves|, height - 1) {
        UnmutatedNoTwins(H, leaves, mask, height - 1, 2 * pos + 1);
        RootOfLevel(H, leaves, height - 1);
        var level := Level(H, leaves, height - 1);
        assert Width(|leaves|, height - 1) > 1 && !Repeats(level);
        assert !PairEqual(level, pos);
        LevelIsHash(H, leaves, height - 1, 2 * pos);
        LevelIsHash(H, leaves, height - 1, 2 * pos + 1);
      }
    }
  }

  lemma UnmutatedAccepted(H: PairHash, leaves: seq<Hash>, mask: seq<bool>, height: nat)
    requires 0 < |leaves| == |mask| <= 16666 && IsHeight(|leaves|, height)
    requires !Mutated(H, leaves)
    ensures Width(|leaves|, height) == 1
    ensures var built := Build(H, leaves, mask, height, 0);
            Accepts(H, |leaves|, Proof(Padded(built.bits), built.hashes), height)
  {
    ProofComplete(H, leaves, mask, height);
    UnmutatedNoTwins(H, leaves, mask, height, 0);
  }

  // ---------- One list for a root ----------

  /** Two levels with the same level above, neither with an equal pair, are the same, or a collision is found. */
  lemma SameLevelBelow(H: PairHash, a: seq<Hash>, b: seq<Hash>) returns (collision: Option<Collision>)
    requires NextLevel(H, a) == NextLevel(H, b) && !Repeats(a) && !Repeats(b)
    ensures collision.None? ==> a == b
    ensures collision.Some? ==> Collides(H, collision.value)
  {
    var n := |NextLevel(H, a)|;
    collision := None;
    for i := 0 to n
      invariant collision.None? ==> forall j :: 0 <= j < i ==> PairAt(a, j) == PairAt(b, j)
      invariant collision.Some? ==> Collides(H, collision.value)
    {
      assert NextLevel(H, a)[i] == NextLevel(H, b)[i];
      var p, q := PairAt(a, i), PairAt(b, i);
      if p != q {
        collision := Some(Collision(p.0, p.1, q.0, q.1));
      }
    }
    if collision.None? {
      SamePairs(a, b);
    }
  }

  function PairAt(level: seq<Hash>, i: nat): (Hash, Hash)
    requires i < (|level| + 1) / 2
  {
    (level[2 * i], if 2 * i + 1 < |level| then level[2 * i + 1] else level[2 * i])
  }

  lemma SamePairs(a: seq<Hash>, b: seq<Hash>)
    requires (|a| + 1) / 2 == (|b| + 1) / 2 && !Repeats(a) && !Repeats(b)
    requires forall i :: 0 <= i < (|a| + 1) / 2 ==> PairAt(a, i) == PairAt(b, i)
    ensures a == b
  {
    if |a| != |b| {
      var long, last := if |a| > |b| then a else b, (|a| + 1) / 2 - 1;
      assert PairAt(a, last) == PairAt(b, last);
      assert PairEqual(long, last);
      assert false;
    }
    forall k | 0 <= k < |a| ensures a[k] == b[k] {
      assert PairAt(a, k / 2) == PairAt(b, k / 2);
    }
  }

  /**
    Two lists with trees of one height and the same root, neither of them flagged, are the same list,
    or two different pairs with the same hash have been found.
  */
  lemma {:induction false} SameRootSameList(H: PairHash, a: seq<Hash>, b: seq<Hash>, height: nat)
    returns (collision: Option<Collision>)
    requires a != [] && b != [] && IsHeight(|a|, height) && IsHeight(|b|, height)
    requires Root(H, a) == Root(H, b) && !Mutated(H, a) && !Mutated(H, b)
    ensures collision.None? ==> a == b
    ensures collision.Some? ==> Collides(H, collision.value)
    decreases height
  {
    collision := None;
    if height == 0 {
      assert a == [a[0]] && b == [b[0]];
    } else {
      assert Width(|a|, 0) > 1 && Width(|b|, 0) > 1;
      HeightAbove(|a|, height);
      HeightAbove(|b|, height);
      collision := SameRootSameList(H, NextLevel(H, a), NextLevel(H, b), height - 1);
      if collision.None? {
        collision := SameLevelBelow(H, a, b);
      }
    }
  }

  lemma {:induction false} WidthAbove(n: nat, h: nat)
    ensures Width((n + 1) / 2, h) == Width(n, h + 1)
  {
    if h > 0 {
      WidthAbove(n, h - 1);
    }
  }

  lemma HeightAbove(n: nat, height: nat)
    requires IsHeight(n, height) && height > 0
    ensures IsHeight((n + 1) / 2, height - 1)
  {
    var half := (n + 1) / 2;
    WidthAbove(n, height - 1);
    forall h | 0 <= h < height - 1 ensures Width(half, h) > 1 {
      WidthAbove(n, h);
      assert Width(n, h + 1) > 1;
    }
  }

  /** Repeating the last of an odd number of leaves gives another list with the same root, and that one is flagged. */
  lemma RepeatedTail(H: PairHash, a: seq<Hash>)
    requires |a| > 1 && |a| % 2 == 1
    ensures var b := a + [a[|a| - 1]]; Root(H, b) == Root(H, a) && Mutated(H, b)
  {
    var b := a + [a[|a| - 1]];
    assert NextLevel(H, b) == NextLevel(H, a);
    assert PairEqual(b, |a| / 2);
  }
}
