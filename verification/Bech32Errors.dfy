/**
  The checksum of base-32 strings notices any change of up to three symbols in a window of 1023
  (src/bech32.cpp:51-53).

  The generator has the roots e^24, e^25 and e^26, where e is of order 1023 in the field of 1024
  elements.  Elements are ten-bit numbers, two symbols each; multiplying by a fixed element is a
  linear map, given by the images of the ten bits.
*/
module Bech32Errors {

  import opened Basics
  import opened Bech32

  // ----- Linear maps on ten bits -----

  type Matrix = m: seq<bv32> | |m| == 10 witness [0, 0, 0, 0, 0, 0, 0, 0, 0, 0]

  function Unit(i: nat): bv32
    requires i < 10
  {
    if i == 0 then 1 else if i == 1 then 2 else if i == 2 then 4 else if i == 3 then 8 else if i == 4 then 16
    else if i == 5 then 32 else if i == 6 then 64 else if i == 7 then 128 else if i == 8 then 256 else 512
  }

  /** The sum of the images of those of the first `n` bits that are set. */
  function Sum(m: Matrix, a: bv32, n: nat): bv32
    requires n <= 10
  {
    if n == 0 then 0 else Xor(Sum(m, a, n - 1), Pick(Has(a, Unit(n - 1)), m[n - 1]))
  }

  function Map(m: Matrix, a: bv32): bv32 {
    Sum(m, a, 10)
  }

  lemma HasLinear32(a: bv32, b: bv32)
    ensures Has(Xor(a, b), 32) == (Has(a, 32) != Has(b, 32))
  {
  }

  lemma HasLinear64(a: bv32, b: bv32)
    ensures Has(Xor(a, b), 64) == (Has(a, 64) != Has(b, 64))
  {
  }

  lemma HasLinear128(a: bv32, b: bv32)
    ensures Has(Xor(a, b), 128) == (Has(a, 128) != Has(b, 128))
  {
  }

  lemma HasLinear256(a: bv32, b: bv32)
    ensures Has(Xor(a, b), 256) == (Has(a, 256) != Has(b, 256))
  {
  }

  lemma HasLinear512(a: bv32, b: bv32)
    ensures Has(Xor(a, b), 512) == (Has(a, 512) != Has(b, 512))
  {
  }

  lemma HasLinear(a: bv32, b: bv32, i: nat)
    requires i < 10
    ensures Has(Xor(a, b), Unit(i)) == (Has(a, Unit(i)) != Has(b, Unit(i)))
  {
    hide Xor, Has;
    if i == 0 { HasLinear1(a, b); }
    else if i == 1 { HasLinear2(a, b); }
    else if i == 2 { HasLinear4(a, b); }
    else if i == 3 { HasLinear8(a, b); }
    else if i == 4 { HasLinear16(a, b); }
    else if i == 5 { HasLinear32(a, b); }
    else if i == 6 { HasLinear64(a, b); }
    else if i == 7 { HasLinear128(a, b); }
    else if i == 8 { HasLinear256(a, b); }
    else { HasLinear512(a, b); }
  }

  lemma {:induction false} SumLinear(m: Matrix, a: bv32, b: bv32, n: nat)
    requires n <= 10
    ensures Sum(m, Xor(a, b), n) == Xor(Sum(m, a, n), Sum(m, b, n))
  {
    hide Xor, Has, Pick, Unit;
    if n == 0 {
      XorUnits(0);
    } else {
      var p, q, k := Has(a, Unit(n - 1)), Has(b, Unit(n - 1)), m[n - 1];
      SumLinear(m, a, b, n - 1);
      HasLinear(a, b, n - 1);
      PickLinear(p, q, k);
      XorSwap(Sum(m, a, n - 1), Sum(m, b, n - 1), Pick(p, k), Pick(q, k));
    }
  }

  lemma MapLinear(m: Matrix, a: bv32, b: bv32)
    ensures Map(m, Xor(a, b)) == Xor(Map(m, a), Map(m, b))
  {
    hide Xor, Sum;
    SumLinear(m, a, b, 10);
  }

  lemma MapZero(m: Matrix)
    ensures Map(m, 0) == 0
  {
    hide Xor, Sum;
    MapLinear(m, 0, 0);
    XorUnits(0);
    XorUnits(Map(m, 0));
  }

  /** First `k`, then `m`. */
  function After(m: Matrix, k: Matrix): Matrix {
    seq(10, i requires 0 <= i < 10 => Map(m, k[i]))
  }

  lemma {:induction false} SumAfter(m: Matrix, k: Matrix, a: bv32, n: nat)
    requires n <= 10
    ensures Map(m, Sum(k, a, n)) == Sum(After(m, k), a, n)
  {
    hide Xor, Has, Pick, Unit, Map;
    MapZero(m);
    if n > 0 {
      SumAfter(m, k, a, n - 1);
      MapLinear(m, Sum(k, a, n - 1), Pick(Has(a, Unit(n - 1)), k[n - 1]));
      MapPick(m, Has(a, Unit(n - 1)), k[n - 1]);
    }
  }

  lemma MapPick(m: Matrix, p: bool, k: bv32)
    ensures Map(m, Pick(p, k)) == Pick(p, Map(m, k))
  {
    hide Map;
    MapZero(m);
  }

  lemma MapAfter(m: Matrix, k: Matrix, a: bv32)
    ensures Map(m, Map(k, a)) == Map(After(m, k), a)
  {
    hide Xor, Sum, After;
    SumAfter(m, k, a, 10);
  }

  /** The same without recursion, to compute with. */
  function Lin(a: bv32, k0: bv32, k1: bv32, k2: bv32, k3: bv32, k4: bv32, k5: bv32, k6: bv32, k7: bv32, k8: bv32, k9: bv32): bv32 {
    var low := Xor(Xor(Xor(Xor(Xor(0, Pick(Has(a, 1), k0)), Pick(Has(a, 2), k1)), Pick(Has(a, 4), k2)), Pick(Has(a, 8), k3)), Pick(Has(a, 16), k4));
    Xor(Xor(Xor(Xor(Xor(low, Pick(Has(a, 32), k5)), Pick(Has(a, 64), k6)), Pick(Has(a, 128), k7)), Pick(Has(a, 256), k8)), Pick(Has(a, 512), k9))
  }

  lemma MapIs(m: Matrix, a: bv32)
    ensures Map(m, a) == Lin(a, m[0], m[1], m[2], m[3], m[4], m[5], m[6], m[7], m[8], m[9])
  {
    hide Has, Pick, Xor;
    assert Sum(m, a, 0) == 0;
    assert Sum(m, a, 1) == Xor(Sum(m, a, 0), Pick(Has(a, 1), m[0]));
    assert Sum(m, a, 2) == Xor(Sum(m, a, 1), Pick(Has(a, 2), m[1]));
    assert Sum(m, a, 3) == Xor(Sum(m, a, 2), Pick(Has(a, 4), m[2]));
    assert Sum(m, a, 4) == Xor(Sum(m, a, 3), Pick(Has(a, 8), m[3]));
    assert Sum(m, a, 5) == Xor(Sum(m, a, 4), Pick(Has(a, 16), m[4]));
    assert Sum(m, a, 6) == Xor(Sum(m, a, 5), Pick(Has(a, 32), m[5]));
    assert Sum(m, a, 7) == Xor(Sum(m, a, 6), Pick(Has(a, 64), m[6]));
    assert Sum(m, a, 8) == Xor(Sum(m, a, 7), Pick(Has(a, 128), m[7]));
    assert Sum(m, a, 9) == Xor(Sum(m, a, 8), Pick(Has(a, 256), m[8]));
  }

  /** The same with the choices written out. */
  function Raw(a: bv32, k0: bv32, k1: bv32, k2: bv32, k3: bv32, k4: bv32, k5: bv32, k6: bv32, k7: bv32, k8: bv32, k9: bv32): bv32 {
    var low := Xor(Xor(Xor(Xor(Xor(0, if a & 1 != 0 then k0 else 0), if a & 2 != 0 then k1 else 0), if a & 4 != 0 then k2 else 0), if a & 8 != 0 then k3 else 0), if a & 16 != 0 then k4 else 0);
    Xor(Xor(Xor(Xor(Xor(low, if a & 32 != 0 then k5 else 0), if a & 64 != 0 then k6 else 0), if a & 128 != 0 then k7 else 0), if a & 256 != 0 then k8 else 0), if a & 512 != 0 then k9 else 0)
  }

  lemma PickIs(a: bv32, bit: bv32, k: bv32)
    ensures Pick(Has(a, bit), k) == if a & bit != 0 then k else 0
  {
  }

  lemma RawIs(a: bv32, k0: bv32, k1: bv32, k2: bv32, k3: bv32, k4: bv32, k5: bv32, k6: bv32, k7: bv32, k8: bv32, k9: bv32)
    ensures Raw(a, k0, k1, k2, k3, k4, k5, k6, k7, k8, k9) == Lin(a, k0, k1, k2, k3, k4, k5, k6, k7, k8, k9)
  {
    hide Xor, Pick, Has;
    PickIs(a, 1, k0);
    PickIs(a, 2, k1);
    PickIs(a, 4, k2);
    PickIs(a, 8, k3);
    PickIs(a, 16, k4);
    PickIs(a, 32, k5);
    PickIs(a, 64, k6);
    PickIs(a, 128, k7);
    PickIs(a, 256, k8);
    PickIs(a, 512, k9);
  }

  predicate Row(m: Matrix, k: Matrix, r: Matrix, i: nat)
    requires i < 10
  {
    Map(m, k[i]) == r[i]
  }

  lemma Product(m: Matrix, k: Matrix, r: Matrix)
    requires Row(m, k, r, 0) && Row(m, k, r, 1) && Row(m, k, r, 2) && Row(m, k, r, 3) && Row(m, k, r, 4)
    requires Row(m, k, r, 5) && Row(m, k, r, 6) && Row(m, k, r, 7) && Row(m, k, r, 8) && Row(m, k, r, 9)
    ensures After(m, k) == r
  {
    hide Map;
    forall i | 0 <= i < 10 ensures Map(m, k[i]) == r[i] {
      assert Row(m, k, r, i);
    }
  }

  // ----- Powers of e -----

  const E1: Matrix := [0x266, 0x1ec, 0x3d8, 0x2b9, 0x7b, 0x1, 0x2, 0x4, 0x8, 0x10]
  const E2: Matrix := [0x227, 0x16e, 0x2dc, 0xb1, 0x14b, 0x266, 0x1ec, 0x3d8, 0x2b9, 0x7b]
  const E3: Matrix := [0x43, 0x86, 0x10c, 0x218, 0x139, 0x227, 0x16e, 0x2dc, 0xb1, 0x14b]
  const E6: Matrix := [0x1ab, 0x356, 0x3a5, 0x26a, 0x1f4, 0x2a5, 0x6a, 0xd4, 0x181, 0x302]
  const E12: Matrix := [0x367, 0x3ee, 0x2fc, 0xf1, 0x1cb, 0x37d, 0x3f3, 0x2ef, 0xfe, 0x1d5]
  const E24: Matrix := [0x3d0, 0x2a9, 0x72, 0xcd, 0x19a, 0x104, 0x208, 0x130, 0x249, 0x1b2]
  const E25: Matrix := [0x65, 0xca, 0x194, 0x301, 0x322, 0x3d0, 0x2a9, 0x72, 0xcd, 0x19a]
  const E26: Matrix := [0x1bd, 0x353, 0x3af, 0x27e, 0x1f5, 0x65, 0xca, 0x194, 0x301, 0x322]
  const E31: Matrix := [0xc1, 0x182, 0x304, 0x328, 0x370, 0x3c9, 0x2b2, 0x6d, 0xda, 0x19d]
  const E33: Matrix := [0x13, 0xf, 0x1e, 0x15, 0x3, 0x260, 0x1e0, 0x3c0, 0x2a0, 0x60]
  const E62: Matrix := [0x21e, 0x135, 0x243, 0x1a6, 0x34c, 0x71, 0xcb, 0x196, 0x305, 0x32a]
  const E93: Matrix := [0x343, 0x3a6, 0x26c, 0x1f8, 0x3d9, 0x2ca, 0xb4, 0x141, 0x282, 0x24]
  const E155: Matrix := [0x3cf, 0x2be, 0x75, 0xc3, 0x186, 0x2e4, 0xe8, 0x1d0, 0x389, 0x232]
  const E310: Matrix := [0x144, 0x288, 0x30, 0x49, 0x92, 0x19b, 0x31f, 0x337, 0x367, 0x3ee]
  const E341: Matrix := [0x16c, 0x2d8, 0xb9, 0x15b, 0x29f, 0x1ac, 0x358, 0x3b9, 0x27b, 0x1ff]
  const E682: Matrix := [0x16d, 0x2da, 0xbd, 0x153, 0x28f, 0x18c, 0x318, 0x339, 0x37b, 0x3ff]
  const E1023: Matrix := [0x1, 0x2, 0x4, 0x8, 0x10, 0x20, 0x40, 0x80, 0x100, 0x200]

  /** Multiplication by e, `n` times. */
  function Iter(n: nat, a: bv32): bv32 {
    if n == 0 then a else Map(E1, Iter(n - 1, a))
  }

  /** The map is multiplication by e^n. */
  ghost predicate Is(m: Matrix, n: nat) {
    forall a: bv32 :: Map(m, a) == Iter(n, a)
  }

  lemma {:induction false} IterAdd(j: nat, k: nat, a: bv32)
    ensures Iter(j + k, a) == Iter(j, Iter(k, a))
  {
    hide Map;
    if j > 0 {
      IterAdd(j - 1, k, a);
    }
  }

  lemma PowerOf(m: Matrix, k: Matrix, r: Matrix, i: nat, j: nat)
    requires Is(m, i) && Is(k, j) && After(m, k) == r
    ensures Is(r, i + j)
  {
    hide Map, After, Iter;
    forall a: bv32 ensures Map(r, a) == Iter(i + j, a) {
      MapAfter(m, k, a);
      IterAdd(i, j, a);
    }
  }

  lemma FirstPower()
    ensures Is(E1, 1)
  {
    hide Map;
    assert forall a: bv32 :: Iter(1, a) == Map(E1, Iter(0, a));
  }

  function M1(a: bv32): bv32 {
    Raw(a, 0x266, 0x1ec, 0x3d8, 0x2b9, 0x7b, 0x1, 0x2, 0x4, 0x8, 0x10)
  }

  lemma Is1()
    ensures forall a: bv32 :: Map(E1, a) == M1(a)
  {
    hide Map, Lin, Raw;
    forall a: bv32 ensures Map(E1, a) == M1(a) {
      MapIs(E1, a);
      RawIs(a, 0x266, 0x1ec, 0x3d8, 0x2b9, 0x7b, 0x1, 0x2, 0x4, 0x8, 0x10);
    }
  }

  function M2(a: bv32): bv32 {
    Raw(a, 0x227, 0x16e, 0x2dc, 0xb1, 0x14b, 0x266, 0x1ec, 0x3d8, 0x2b9, 0x7b)
  }

  lemma Is2()
    ensures forall a: bv32 :: Map(E2, a) == M2(a)
  {
    hide Map, Lin, Raw;
    forall a: bv32 ensures Map(E2, a) == M2(a) {
      MapIs(E2, a);
      RawIs(a, 0x227, 0x16e, 0x2dc, 0xb1, 0x14b, 0x266, 0x1ec, 0x3d8, 0x2b9, 0x7b);
    }
  }

  function M3(a: bv32): bv32 {
    Raw(a, 0x43, 0x86, 0x10c, 0x218, 0x139, 0x227, 0x16e, 0x2dc, 0xb1, 0x14b)
  }

  lemma Is3()
    ensures forall a: bv32 :: Map(E3, a) == M3(a)
  {
    hide Map, Lin, Raw;
    forall a: bv32 ensures Map(E3, a) == M3(a) {
      MapIs(E3, a);
      RawIs(a, 0x43, 0x86, 0x10c, 0x218, 0x139, 0x227, 0x16e, 0x2dc, 0xb1, 0x14b);
    }
  }

  function M6(a: bv32): bv32 {
    Raw(a, 0x1ab, 0x356, 0x3a5, 0x26a, 0x1f4, 0x2a5, 0x6a, 0xd4, 0x181, 0x302)
  }

  lemma Is6()
    ensures forall a: bv32 :: Map(E6, a) == M6(a)
  {
    hide Map, Lin, Raw;
    forall a: bv32 ensures Map(E6, a) == M6(a) {
      MapIs(E6, a);
      RawIs(a, 0x1ab, 0x356, 0x3a5, 0x26a, 0x1f4, 0x2a5, 0x6a, 0xd4, 0x181, 0x302);
    }
  }

  function M12(a: bv32): bv32 {
    Raw(a, 0x367, 0x3ee, 0x2fc, 0xf1, 0x1cb, 0x37d, 0x3f3, 0x2ef, 0xfe, 0x1d5)
  }

  lemma Is12()
    ensures forall a: bv32 :: Map(E12, a) == M12(a)
  {
    hide Map, Lin, Raw;
    forall a: bv32 ensures Map(E12, a) == M12(a) {
      MapIs(E12, a);
      RawIs(a, 0x367, 0x3ee, 0x2fc, 0xf1, 0x1cb, 0x37d, 0x3f3, 0x2ef, 0xfe, 0x1d5);
    }
  }

  function M24(a: bv32): bv32 {
    Raw(a, 0x3d0, 0x2a9, 0x72, 0xcd, 0x19a, 0x104, 0x208, 0x130, 0x249, 0x1b2)
  }

  lemma Is24()
    ensures forall a: bv32 :: Map(E24, a) == M24(a)
  {
    hide Map, Lin, Raw;
    forall a: bv32 ensures Map(E24, a) == M24(a) {
      MapIs(E24, a);
      RawIs(a, 0x3d0, 0x2a9, 0x72, 0xcd, 0x19a, 0x104, 0x208, 0x130, 0x249, 0x1b2);
    }
  }

  function M25(a: bv32): bv32 {
    Raw(a, 0x65, 0xca, 0x194, 0x301, 0x322, 0x3d0, 0x2a9, 0x72, 0xcd, 0x19a)
  }

  lemma Is25()
    ensures forall a: bv32 :: Map(E25, a) == M25(a)
  {
    hide Map, Lin, Raw;
    forall a: bv32 ensures Map(E25, a) == M25(a) {
      MapIs(E25, a);
      RawIs(a, 0x65, 0xca, 0x194, 0x301, 0x322, 0x3d0, 0x2a9, 0x72, 0xcd, 0x19a);
    }
  }

  function M26(a: bv32): bv32 {
    Raw(a, 0x1bd, 0x353, 0x3af, 0x27e, 0x1f5, 0x65, 0xca, 0x194, 0x301, 0x322)
  }

  lemma Is26()
    ensures forall a: bv32 :: Map(E26, a) == M26(a)
  {
    hide Map, Lin, Raw;
    forall a: bv32 ensures Map(E26, a) == M26(a) {
      MapIs(E26, a);
      RawIs(a, 0x1bd, 0x353, 0x3af, 0x27e, 0x1f5, 0x65, 0xca, 0x194, 0x301, 0x322);
    }
  }

  function M31(a: bv32): bv32 {
    Raw(a, 0xc1, 0x182, 0x304, 0x328, 0x370, 0x3c9, 0x2b2, 0x6d, 0xda, 0x19d)
  }

  lemma Is31()
    ensures forall a: bv32 :: Map(E31, a) == M31(a)
  {
    hide Map, Lin, Raw;
    forall a: bv32 ensures Map(E31, a) == M31(a) {
      MapIs(E31, a);
      RawIs(a, 0xc1, 0x182, 0x304, 0x328, 0x370, 0x3c9, 0x2b2, 0x6d, 0xda, 0x19d);
    }
  }

  function M33(a: bv32): bv32 {
    Raw(a, 0x13, 0xf, 0x1e, 0x15, 0x3, 0x260, 0x1e0, 0x3c0, 0x2a0, 0x60)
  }

  lemma Is33()
    ensures forall a: bv32 :: Map(E33, a) == M33(a)
  {
    hide Map, Lin, Raw;
    forall a: bv32 ensures Map(E33, a) == M33(a) {
      MapIs(E33, a);
      RawIs(a, 0x13, 0xf, 0x1e, 0x15, 0x3, 0x260, 0x1e0, 0x3c0, 0x2a0, 0x60);
    }
  }

  function M62(a: bv32): bv32 {
    Raw(a, 0x21e, 0x135, 0x243, 0x1a6, 0x34c, 0x71, 0xcb, 0x196, 0x305, 0x32a)
  }

  lemma Is62()
    ensures forall a: bv32 :: Map(E62, a) == M62(a)
  {
    hide Map, Lin, Raw;
    forall a: bv32 ensures Map(E62, a) == M62(a) {
      MapIs(E62, a);
      RawIs(a, 0x21e, 0x135, 0x243, 0x1a6, 0x34c, 0x71, 0xcb, 0x196, 0x305, 0x32a);
    }
  }

  function M93(a: bv32): bv32 {
    Raw(a, 0x343, 0x3a6, 0x26c, 0x1f8, 0x3d9, 0x2ca, 0xb4, 0x141, 0x282, 0x24)
  }

  lemma Is93()
    ensures forall a: bv32 :: Map(E93, a) == M93(a)
  {
    hide Map, Lin, Raw;
    forall a: bv32 ensures Map(E93, a) == M93(a) {
      MapIs(E93, a);
      RawIs(a, 0x343, 0x3a6, 0x26c, 0x1f8, 0x3d9, 0x2ca, 0xb4, 0x141, 0x282, 0x24);
    }
  }

  function M155(a: bv32): bv32 {
    Raw(a, 0x3cf, 0x2be, 0x75, 0xc3, 0x186, 0x2e4, 0xe8, 0x1d0, 0x389, 0x232)
  }

  lemma Is155()
    ensures forall a: bv32 :: Map(E155, a) == M155(a)
  {
    hide Map, Lin, Raw;
    forall a: bv32 ensures Map(E155, a) == M155(a) {
      MapIs(E155, a);
      RawIs(a, 0x3cf, 0x2be, 0x75, 0xc3, 0x186, 0x2e4, 0xe8, 0x1d0, 0x389, 0x232);
    }
  }

  function M341(a: bv32): bv32 {
    Raw(a, 0x16c, 0x2d8, 0xb9, 0x15b, 0x29f, 0x1ac, 0x358, 0x3b9, 0x27b, 0x1ff)
  }

  lemma Is341()
    ensures forall a: bv32 :: Map(E341, a) == M341(a)
  {
    hide Map, Lin, Raw;
    forall a: bv32 ensures Map(E341, a) == M341(a) {
      MapIs(E341, a);
      RawIs(a, 0x16c, 0x2d8, 0xb9, 0x15b, 0x29f, 0x1ac, 0x358, 0x3b9, 0x27b, 0x1ff);
    }
  }

  function M1023(a: bv32): bv32 {
    Raw(a, 0x1, 0x2, 0x4, 0x8, 0x10, 0x20, 0x40, 0x80, 0x100, 0x200)
  }

  lemma Is1023()
    ensures forall a: bv32 :: Map(E1023, a) == M1023(a)
  {
    hide Map, Lin, Raw;
    forall a: bv32 ensures Map(E1023, a) == M1023(a) {
      MapIs(E1023, a);
      RawIs(a, 0x1, 0x2, 0x4, 0x8, 0x10, 0x20, 0x40, 0x80, 0x100, 0x200);
    }
  }

  lemma Computed2()
    ensures M1(0x266) == 0x227 && M1(0x1ec) == 0x16e && M1(0x3d8) == 0x2dc && M1(0x2b9) == 0xb1 && M1(0x7b) == 0x14b
    ensures M1(0x1) == 0x266 && M1(0x2) == 0x1ec && M1(0x4) == 0x3d8 && M1(0x8) == 0x2b9 && M1(0x10) == 0x7b
  {
  }

  lemma Product2()
    ensures After(E1, E1) == E2
  {
    hide After, Map, M1;
    Is1();
    Computed2();
    Product(E1, E1, E2);
  }

  lemma Computed3()
    ensures M1(0x227) == 0x43 && M1(0x16e) == 0x86 && M1(0x2dc) == 0x10c && M1(0xb1) == 0x218 && M1(0x14b) == 0x139
    ensures M1(0x266) == 0x227 && M1(0x1ec) == 0x16e && M1(0x3d8) == 0x2dc && M1(0x2b9) == 0xb1 && M1(0x7b) == 0x14b
  {
  }

  lemma Product3()
    ensures After(E1, E2) == E3
  {
    hide After, Map, M1;
    Is1();
    Computed3();
    Product(E1, E2, E3);
  }

  lemma Computed6()
    ensures M3(0x43) == 0x1ab && M3(0x86) == 0x356 && M3(0x10c) == 0x3a5 && M3(0x218) == 0x26a && M3(0x139) == 0x1f4
    ensures M3(0x227) == 0x2a5 && M3(0x16e) == 0x6a && M3(0x2dc) == 0xd4 && M3(0xb1) == 0x181 && M3(0x14b) == 0x302
  {
  }

  lemma Product6()
    ensures After(E3, E3) == E6
  {
    hide After, Map, M3;
    Is3();
    Computed6();
    Product(E3, E3, E6);
  }

  lemma Computed12()
    ensures M6(0x1ab) == 0x367 && M6(0x356) == 0x3ee && M6(0x3a5) == 0x2fc && M6(0x26a) == 0xf1 && M6(0x1f4) == 0x1cb
    ensures M6(0x2a5) == 0x37d && M6(0x6a) == 0x3f3 && M6(0xd4) == 0x2ef && M6(0x181) == 0xfe && M6(0x302) == 0x1d5
  {
  }

  lemma Product12()
    ensures After(E6, E6) == E12
  {
    hide After, Map, M6;
    Is6();
    Computed12();
    Product(E6, E6, E12);
  }

  lemma Computed24()
    ensures M12(0x367) == 0x3d0 && M12(0x3ee) == 0x2a9 && M12(0x2fc) == 0x72 && M12(0xf1) == 0xcd && M12(0x1cb) == 0x19a
    ensures M12(0x37d) == 0x104 && M12(0x3f3) == 0x208 && M12(0x2ef) == 0x130 && M12(0xfe) == 0x249 && M12(0x1d5) == 0x1b2
  {
  }

  lemma Product24()
    ensures After(E12, E12) == E24
  {
    hide After, Map, M12;
    Is12();
    Computed24();
    Product(E12, E12, E24);
  }

  lemma Computed25()
    ensures M1(0x3d0) == 0x65 && M1(0x2a9) == 0xca && M1(0x72) == 0x194 && M1(0xcd) == 0x301 && M1(0x19a) == 0x322
    ensures M1(0x104) == 0x3d0 && M1(0x208) == 0x2a9 && M1(0x130) == 0x72 && M1(0x249) == 0xcd && M1(0x1b2) == 0x19a
  {
  }

  lemma Product25()
    ensures After(E1, E24) == E25
  {
    hide After, Map, M1;
    Is1();
    Computed25();
    Product(E1, E24, E25);
  }

  lemma Computed26()
    ensures M1(0x65) == 0x1bd && M1(0xca) == 0x353 && M1(0x194) == 0x3af && M1(0x301) == 0x27e && M1(0x322) == 0x1f5
    ensures M1(0x3d0) == 0x65 && M1(0x2a9) == 0xca && M1(0x72) == 0x194 && M1(0xcd) == 0x301 && M1(0x19a) == 0x322
  {
  }

  lemma Product26()
    ensures After(E1, E25) == E26
  {
    hide After, Map, M1;
    Is1();
    Computed26();
    Product(E1, E25, E26);
  }

  lemma Computed31()
    ensures M6(0x65) == 0xc1 && M6(0xca) == 0x182 && M6(0x194) == 0x304 && M6(0x301) == 0x328 && M6(0x322) == 0x370
    ensures M6(0x3d0) == 0x3c9 && M6(0x2a9) == 0x2b2 && M6(0x72) == 0x6d && M6(0xcd) == 0xda && M6(0x19a) == 0x19d
  {
  }

  lemma Product31()
    ensures After(E6, E25) == E31
  {
    hide After, Map, M6;
    Is6();
    Computed31();
    Product(E6, E25, E31);
  }

  lemma Computed33()
    ensures M2(0xc1) == 0x13 && M2(0x182) == 0xf && M2(0x304) == 0x1e && M2(0x328) == 0x15 && M2(0x370) == 0x3
    ensures M2(0x3c9) == 0x260 && M2(0x2b2) == 0x1e0 && M2(0x6d) == 0x3c0 && M2(0xda) == 0x2a0 && M2(0x19d) == 0x60
  {
  }

  lemma Product33()
    ensures After(E2, E31) == E33
  {
    hide After, Map, M2;
    Is2();
    Computed33();
    Product(E2, E31, E33);
  }

  lemma Computed62()
    ensures M31(0xc1) == 0x21e && M31(0x182) == 0x135 && M31(0x304) == 0x243 && M31(0x328) == 0x1a6 && M31(0x370) == 0x34c
    ensures M31(0x3c9) == 0x71 && M31(0x2b2) == 0xcb && M31(0x6d) == 0x196 && M31(0xda) == 0x305 && M31(0x19d) == 0x32a
  {
  }

  lemma Product62()
    ensures After(E31, E31) == E62
  {
    hide After, Map, M31;
    Is31();
    Computed62();
    Product(E31, E31, E62);
  }

  lemma Computed93()
    ensures M31(0x21e) == 0x343 && M31(0x135) == 0x3a6 && M31(0x243) == 0x26c && M31(0x1a6) == 0x1f8 && M31(0x34c) == 0x3d9
    ensures M31(0x71) == 0x2ca && M31(0xcb) == 0xb4 && M31(0x196) == 0x141 && M31(0x305) == 0x282 && M31(0x32a) == 0x24
  {
  }

  lemma Product93()
    ensures After(E31, E62) == E93
  {
    hide After, Map, M31;
    Is31();
    Computed93();
    Product(E31, E62, E93);
  }

  lemma Computed155()
    ensures M62(0x343) == 0x3cf && M62(0x3a6) == 0x2be && M62(0x26c) == 0x75 && M62(0x1f8) == 0xc3 && M62(0x3d9) == 0x186
    ensures M62(0x2ca) == 0x2e4 && M62(0xb4) == 0xe8 && M62(0x141) == 0x1d0 && M62(0x282) == 0x389 && M62(0x24) == 0x232
  {
  }

  lemma Product155()
    ensures After(E62, E93) == E155
  {
    hide After, Map, M62;
    Is62();
    Computed155();
    Product(E62, E93, E155);
  }

  lemma Computed310()
    ensures M155(0x3cf) == 0x144 && M155(0x2be) == 0x288 && M155(0x75) == 0x30 && M155(0xc3) == 0x49 && M155(0x186) == 0x92
    ensures M155(0x2e4) == 0x19b && M155(0xe8) == 0x31f && M155(0x1d0) == 0x337 && M155(0x389) == 0x367 && M155(0x232) == 0x3ee
  {
  }

  lemma Product310()
    ensures After(E155, E155) == E310
  {
    hide After, Map, M155;
    Is155();
    Computed310();
    Product(E155, E155, E310);
  }

  lemma Computed341()
    ensures M31(0x144) == 0x16c && M31(0x288) == 0x2d8 && M31(0x30) == 0xb9 && M31(0x49) == 0x15b && M31(0x92) == 0x29f
    ensures M31(0x19b) == 0x1ac && M31(0x31f) == 0x358 && M31(0x337) == 0x3b9 && M31(0x367) == 0x27b && M31(0x3ee) == 0x1ff
  {
  }

  lemma Product341()
    ensures After(E31, E310) == E341
  {
    hide After, Map, M31;
    Is31();
    Computed341();
    Product(E31, E310, E341);
  }

  lemma Computed682()
    ensures M341(0x16c) == 0x16d && M341(0x2d8) == 0x2da && M341(0xb9) == 0xbd && M341(0x15b) == 0x153 && M341(0x29f) == 0x28f
    ensures M341(0x1ac) == 0x18c && M341(0x358) == 0x318 && M341(0x3b9) == 0x339 && M341(0x27b) == 0x37b && M341(0x1ff) == 0x3ff
  {
  }

  lemma Product682()
    ensures After(E341, E341) == E682
  {
    hide After, Map, M341;
    Is341();
    Computed682();
    Product(E341, E341, E682);
  }

  lemma Computed1023()
    ensures M341(0x16d) == 0x1 && M341(0x2da) == 0x2 && M341(0xbd) == 0x4 && M341(0x153) == 0x8 && M341(0x28f) == 0x10
    ensures M341(0x18c) == 0x20 && M341(0x318) == 0x40 && M341(0x339) == 0x80 && M341(0x37b) == 0x100 && M341(0x3ff) == 0x200
  {
  }

  lemma Product1023()
    ensures After(E341, E682) == E1023
  {
    hide After, Map, M341;
    Is341();
    Computed1023();
    Product(E341, E682, E1023);
  }

  lemma Powers()
    ensures Is(E24, 24) && Is(E25, 25) && Is(E26, 26) && Is(E33, 33) && Is(E93, 93) && Is(E341, 341) && Is(E1023, 1023)
  {
    hide Is, Map, After, Iter;
    FirstPower();
    Product2();
    PowerOf(E1, E1, E2, 1, 1);
    Product3();
    PowerOf(E1, E2, E3, 1, 2);
    Product6();
    PowerOf(E3, E3, E6, 3, 3);
    Product12();
    PowerOf(E6, E6, E12, 6, 6);
    Product24();
    PowerOf(E12, E12, E24, 12, 12);
    Product25();
    PowerOf(E1, E24, E25, 1, 24);
    Product26();
    PowerOf(E1, E25, E26, 1, 25);
    Product31();
    PowerOf(E6, E25, E31, 6, 25);
    Product33();
    PowerOf(E2, E31, E33, 2, 31);
    Product62();
    PowerOf(E31, E31, E62, 31, 31);
    Product93();
    PowerOf(E31, E62, E93, 31, 62);
    Product155();
    PowerOf(E62, E93, E155, 62, 93);
    Product310();
    PowerOf(E155, E155, E310, 155, 155);
    Product341();
    PowerOf(E31, E310, E341, 31, 310);
    Product682();
    PowerOf(E341, E341, E682, 341, 341);
    Product1023();
    PowerOf(E341, E682, E1023, 341, 682);
  }

  // ----- The order of e is 1023 -----

  predicate Element(a: bv32) {
    a < 0x400
  }

  lemma NotOne33(a: bv32)
    requires Element(a) && M33(a) == a
    ensures a == 0
  {
  }

  lemma NotOne93(a: bv32)
    requires Element(a) && M93(a) == a
    ensures a == 0
  {
  }

  lemma NotOne341(a: bv32)
    requires Element(a) && M341(a) == a
    ensures a == 0
  {
  }

  lemma One1023(a: bv32)
    requires Element(a)
    ensures M1023(a) == a
  {
  }

  lemma MapElement(m: Matrix, a: bv32)
    requires forall i :: 0 <= i < 10 ==> Element(m[i])
    ensures Element(Map(m, a))
  {
    hide Has, Element, Xor, Pick, Unit;
    SumElement(m, a, 10);
  }

  lemma {:induction false} SumElement(m: Matrix, a: bv32, n: nat)
    requires n <= 10 && forall i :: 0 <= i < 10 ==> Element(m[i])
    ensures Element(Sum(m, a, n))
  {
    hide Has, Element, Xor, Pick, Unit;
    ZeroElement();
    if n > 0 {
      SumElement(m, a, n - 1);
      PickElement(Has(a, Unit(n - 1)), m[n - 1]);
      XorElement(Sum(m, a, n - 1), Pick(Has(a, Unit(n - 1)), m[n - 1]));
    }
  }

  lemma ZeroElement()
    ensures Element(0)
  {
  }

  lemma PickElement(p: bool, k: bv32)
    requires Element(k)
    ensures Element(Pick(p, k))
  {
  }

  lemma XorElement(a: bv32, b: bv32)
    requires Element(a) && Element(b)
    ensures Element(Xor(a, b))
  {
  }

  lemma {:induction false} IterElement(n: nat, a: bv32)
    requires Element(a)
    ensures Element(Iter(n, a))
  {
    hide Map, Element;
    if n > 0 {
      EElement();
      MapElement(E1, Iter(n - 1, a));
    }
  }

  lemma EElement()
    ensures forall i :: 0 <= i < 10 ==> Element(E1[i])
  {
  }

  lemma {:induction false} IterLinear(n: nat, a: bv32, b: bv32)
    ensures Iter(n, Xor(a, b)) == Xor(Iter(n, a), Iter(n, b))
  {
    hide Map, Xor;
    if n > 0 {
      IterLinear(n - 1, a, b);
      MapLinear(E1, Iter(n - 1, a), Iter(n - 1, b));
    }
  }

  lemma IterZero(n: nat)
    ensures Iter(n, 0) == 0
  {
    hide Xor, Iter;
    IterLinear(n, 0, 0);
    XorUnits(0);
    XorUnits(Iter(n, 0));
  }

  /** Multiplying 1023 times changes nothing; 33, 93 or 341 times changes every element but zero. */
  lemma FullCircle(a: bv32)
    requires Element(a)
    ensures Iter(1023, a) == a
    ensures Iter(33, a) == a || Iter(93, a) == a || Iter(341, a) == a ==> a == 0
  {
    hide Map, Iter, M33, M93, M341, M1023;
    Powers();
    Is33();
    Is93();
    Is341();
    Is1023();
    assert Map(E1023, a) == Iter(1023, a) && Map(E33, a) == Iter(33, a) && Map(E93, a) == Iter(93, a) && Map(E341, a) == Iter(341, a);
    One1023(a);
    if Iter(33, a) == a { NotOne33(a); }
    if Iter(93, a) == a { NotOne93(a); }
    if Iter(341, a) == a { NotOne341(a); }
  }

  lemma {:induction false} Multiple(n: nat, k: nat, a: bv32)
    requires Iter(n, a) == a
    ensures Iter(n * k, a) == a
  {
    hide Map, Iter;
    if k == 0 {
      assert Iter(0, a) == a by { IterNone(a); }
    } else {
      Multiple(n, k - 1, a);
      assert n * k == n + n * (k - 1);
      IterAdd(n, n * (k - 1), a);
    }
  }

  lemma IterNone(a: bv32)
    ensures Iter(0, a) == a
  {
  }

  /** No multiplication makes two elements one. */
  lemma {:induction false} Injective(n: nat, a: bv32, b: bv32)
    requires Element(a) && Element(b) && Iter(n, a) == Iter(n, b)
    ensures a == b
  {
    hide Iter;
    FullCircle(a);
    FullCircle(b);
    if n > 1023 {
      IterAdd(1023, n - 1023, a);
      IterAdd(1023, n - 1023, b);
      IterElement(n - 1023, a);
      IterElement(n - 1023, b);
      FullCircle(Iter(n - 1023, a));
      FullCircle(Iter(n - 1023, b));
      Injective(n - 1023, a, b);
    } else {
      IterAdd(1023 - n, n, a);
      IterAdd(1023 - n, n, b);
    }
  }

  /** Of two multiplications that change nothing, so does their difference. */
  lemma Difference(j: nat, k: nat, a: bv32)
    requires Element(a) && j <= k && Iter(j, a) == a && Iter(k, a) == a
    ensures Iter(k - j, a) == a
  {
    hide Iter;
    IterAdd(j, k - j, a);
    IterElement(k - j, a);
    Injective(j, Iter(k - j, a), a);
  }

  lemma Remainder(j: nat, k: nat, a: bv32)
    requires Element(a) && 0 < j && Iter(j, a) == a && Iter(k, a) == a
    ensures Iter(k % j, a) == a
  {
    hide Iter;
    Multiple(j, k / j, a);
    assert j * (k / j) == k - k % j;
    Difference(j * (k / j), k, a);
  }

  /** A proper divisor of 1023 = 3 * 11 * 31 divides 33, 93 or 341. */
  lemma Divisors(g: nat)
    requires 0 < g < 1023 && 1023 % g == 0
    ensures 33 % g == 0 || 93 % g == 0 || 341 % g == 0
  {
    var q := 1023 / g;
    assert q * g == 1023;
    if g <= 31 {
      SmallDivisors(g);
    } else {
      assert q <= 31 by {
        if q > 31 {
          MulGrows(q, g);
        }
      }
      assert 1023 % q == 0 by { DivisorOf(q, g); }
      SmallDivisors(q);
      assert q == 3 || q == 11 || q == 31;
    }
  }

  lemma MulGrows(q: nat, g: nat)
    requires q > 31 && g > 31
    ensures q * g >= 1024
  {
    assert q * g == 32 * g + (q - 32) * g;
  }

  lemma DivisorOf(q: nat, g: nat)
    requires q > 0 && q * g == 1023
    ensures 1023 % q == 0
  {
    assert (q * g) % q == 0;
  }

  lemma SmallDivisors(g: nat)
    requires 0 < g <= 31 && 1023 % g == 0
    ensures g == 1 || g == 3 || g == 11 || g == 31
  {
  }

  lemma Multiples(d: nat, n: nat, a: bv32)
    requires 0 < d && n % d == 0 && Iter(d, a) == a
    ensures Iter(n, a) == a
  {
    hide Iter;
    Multiple(d, n / d, a);
  }

  /** Fewer than 1023 multiplications, but at least one, change every element but zero. */
  lemma {:induction false} NoShortcut(d: nat, a: bv32)
    requires 0 < d < 1023 && Element(a) && Iter(d, a) == a
    ensures a == 0
    decreases d
  {
    hide Iter;
    FullCircle(a);
    if 1023 % d == 0 {
      Divisors(d);
      var n := if 33 % d == 0 then 33 else if 93 % d == 0 then 93 else 341;
      Multiples(d, n, a);
    } else {
      Remainder(d, 1023, a);
      NoShortcut(1023 % d, a);
    }
  }

  // ----- Remainders at a root -----

  /** A message as a polynomial at e^r, by Horner's rule. */
  function Horner(r: nat, y: bv32, vs: seq<Symbol>): bv32
    decreases |vs|
  {
    if vs == [] then y else Horner(r, Xor(Iter(r, y), vs[0] as bv32), vs[1..])
  }

  // The coefficients of a remainder, from the constant one up.

  function C0(c: bv32): bv32 {
    c & 31
  }

  function C1(c: bv32): bv32 {
    (c >> 5) & 31
  }

  function C2(c: bv32): bv32 {
    (c >> 10) & 31
  }

  function C3(c: bv32): bv32 {
    (c >> 15) & 31
  }

  function C4(c: bv32): bv32 {
    (c >> 20) & 31
  }

  function C5(c: bv32): bv32 {
    (c >> 25) & 31
  }

  /** A remainder at e^r. */
  function Eval(r: nat, c: bv32): bv32 {
    Then(r, Then(r, Then(r, Then(r, Then(r, C5(c), C4(c)), C3(c)), C2(c)), C1(c)), C0(c))
  }

  function Then(r: nat, y: bv32, v: bv32): bv32 {
    Xor(Iter(r, y), v)
  }

  lemma ThenLinear(r: nat, y: bv32, z: bv32, v: bv32, w: bv32)
    ensures Then(r, Xor(y, z), Xor(v, w)) == Xor(Then(r, y, v), Then(r, z, w))
  {
    hide Xor, Iter;
    IterLinear(r, y, z);
    XorSwap(Iter(r, y), Iter(r, z), v, w);
  }

  lemma C0Linear(c: bv32, d: bv32)
    ensures C0(Xor(c, d)) == Xor(C0(c), C0(d))
  {
  }

  lemma C1Linear(c: bv32, d: bv32)
    ensures C1(Xor(c, d)) == Xor(C1(c), C1(d))
  {
  }

  lemma C2Linear(c: bv32, d: bv32)
    ensures C2(Xor(c, d)) == Xor(C2(c), C2(d))
  {
  }

  lemma C3Linear(c: bv32, d: bv32)
    ensures C3(Xor(c, d)) == Xor(C3(c), C3(d))
  {
  }

  lemma C4Linear(c: bv32, d: bv32)
    ensures C4(Xor(c, d)) == Xor(C4(c), C4(d))
  {
  }

  lemma C5Linear(c: bv32, d: bv32)
    ensures C5(Xor(c, d)) == Xor(C5(c), C5(d))
  {
  }

  lemma EvalLinear(r: nat, c: bv32, d: bv32)
    ensures Eval(r, Xor(c, d)) == Xor(Eval(r, c), Eval(r, d))
  {
    hide Xor, Then, C5, C4, C3, C2, C1, C0;
    C5Linear(c, d);
    C4Linear(c, d);
    C3Linear(c, d);
    C2Linear(c, d);
    C1Linear(c, d);
    C0Linear(c, d);
    var y, z := C5(c), C5(d);
    ThenLinear(r, y, z, C4(c), C4(d));
    y, z := Then(r, y, C4(c)), Then(r, z, C4(d));
    ThenLinear(r, y, z, C3(c), C3(d));
    y, z := Then(r, y, C3(c)), Then(r, z, C3(d));
    ThenLinear(r, y, z, C2(c), C2(d));
    y, z := Then(r, y, C2(c)), Then(r, z, C2(d));
    ThenLinear(r, y, z, C1(c), C1(d));
    y, z := Then(r, y, C1(c)), Then(r, z, C1(d));
    ThenLinear(r, y, z, C0(c), C0(d));
  }

  /** Multiplying by x moves the coefficients up. */
  lemma CoefficientsMove(c: bv32, v: bv32)
    requires Small(c) && v < 32
    ensures var d := Xor(Rest(c), v);
            C5(d) == C4(c) && C4(d) == C3(c) && C3(d) == C2(c) && C2(d) == C1(c) && C1(d) == C0(c) && C0(d) == v
    ensures Top(c) == C5(c)
  {
  }

  // ----- The three roots -----

  lemma Root24Bit0()
    ensures M24(0x1d) == 0x2f5 && M24(0x2e3) == 0x2f7 && M24(0x2e3) == 0x2f7 && M24(0x2e2) == 0x127 && M24(0x13a) == 0xb3
    ensures M24(0x1) == 0x3d0 && M24(0x3d0) == 0x159 && M24(0x159) == 0x2c6 && M24(0x2c6) == 0x51 && M24(0x51) == 0x42 && M24(0x42) == 0xa1
  {
  }

  lemma Root24Bit1()
    ensures M24(0x13) == 0xe3 && M24(0xe6) == 0xe7 && M24(0xe6) == 0xe7 && M24(0xe4) == 0x24e && M24(0x25d) == 0x14f
    ensures M24(0x2) == 0x2a9 && M24(0x2a9) == 0x29b && M24(0x29b) == 0xac && M24(0xac) == 0x8b && M24(0x8b) == 0x84 && M24(0x84) == 0x142
  {
  }

  lemma Root24Bit2()
    ensures M24(0xf) == 0x1c6 && M24(0x1cc) == 0x1ce && M24(0x1cc) == 0x1ce && M24(0x1c8) == 0x1bc && M24(0x1b3) == 0x29e
    ensures M24(0x4) == 0x72 && M24(0x72) == 0x3f && M24(0x3f) == 0x158 && M24(0x158) == 0x116 && M24(0x116) == 0x108 && M24(0x108) == 0x284
  {
  }

  lemma Root24Bit3()
    ensures M24(0x1e) == 0x38c && M24(0x398) == 0x39c && M24(0x398) == 0x39c && M24(0x390) == 0x351 && M24(0x34f) == 0x35
    ensures M24(0x8) == 0xcd && M24(0xcd) == 0x57 && M24(0x57) == 0x299 && M24(0x299) == 0x205 && M24(0x205) == 0x210 && M24(0x210) == 0x28
  {
  }

  lemma Root24Bit4()
    ensures M24(0x15) == 0x238 && M24(0x239) == 0x231 && M24(0x239) == 0x231 && M24(0x229) == 0x3ab && M24(0x3be) == 0x43
    ensures M24(0x10) == 0x19a && M24(0x19a) == 0x87 && M24(0x87) == 0x3b && M24(0x3b) == 0x12a && M24(0x12a) == 0x129 && M24(0x129) == 0x50
  {
  }

  lemma Root25Bit0()
    ensures M25(0x1d) == 0x1d2 && M25(0x1c4) == 0x382 && M25(0x396) == 0x359 && M25(0x34c) == 0x16b && M25(0x176) == 0x3c8
    ensures M25(0x1) == 0x65 && M25(0x65) == 0x88 && M25(0x88) == 0x373 && M25(0x373) == 0x3a3 && M25(0x3a3) == 0x25a && M25(0x25a) == 0x3da
  {
  }

  lemma Root25Bit1()
    ensures M25(0x13) == 0x38d && M25(0x388) == 0x224 && M25(0x225) == 0x3bb && M25(0x3b8) == 0x2d6 && M25(0x2c5) == 0x2b0
    ensures M25(0x2) == 0xca && M25(0xca) == 0x110 && M25(0x110) == 0x3ef && M25(0x3ef) == 0x266 && M25(0x266) == 0x1bd && M25(0x1bd) == 0x2bd
  {
  }

  lemma Root25Bit2()
    ensures M25(0xf) == 0x23a && M25(0x230) == 0x168 && M25(0x16a) == 0x27f && M25(0x279) == 0xa5 && M25(0xaa) == 0x69
    ensures M25(0x4) == 0x194 && M25(0x194) == 0x209 && M25(0x209) == 0x2fe && M25(0x2fe) == 0x1ec && M25(0x1ec) == 0x353 && M25(0x353) == 0x73
  {
  }

  lemma Root25Bit3()
    ensures M25(0x1e) == 0x17d && M25(0x169) == 0x2d0 && M25(0x2d4) == 0x1f7 && M25(0x1fb) == 0x14a && M25(0x154) == 0xd2
    ensures M25(0x8) == 0x301 && M25(0x301) == 0x132 && M25(0x132) == 0xf5 && M25(0xf5) == 0x3d8 && M25(0x3d8) == 0x3af && M25(0x3af) == 0xcf
  {
  }

  lemma Root25Bit4()
    ensures M25(0x15) == 0x2d3 && M25(0x2d2) == 0xa9 && M25(0xa1) == 0x3c7 && M25(0x3df) == 0x294 && M25(0x281) == 0x18d
    ensures M25(0x10) == 0x322 && M25(0x322) == 0x24d && M25(0x24d) == 0x1c3 && M25(0x1c3) == 0x2b9 && M25(0x2b9) == 0x27e && M25(0x27e) == 0x19e
  {
  }

  lemma Root26Bit0()
    ensures M26(0x1d) == 0x199 && M26(0x18f) == 0x1aa && M26(0x1be) == 0x187 && M26(0x192) == 0x33 && M26(0x2e) == 0x2e7
    ensures M26(0x1) == 0x1bd && M26(0x1bd) == 0x369 && M26(0x369) == 0x34f && M26(0x34f) == 0x3d6 && M26(0x3d6) == 0x74 && M26(0x74) == 0x2f5
  {
  }

  lemma Root26Bit1()
    ensures M26(0x13) == 0x31b && M26(0x31e) == 0x354 && M26(0x355) == 0x30e && M26(0x30d) == 0x4f && M26(0x5c) == 0xee
    ensures M26(0x2) == 0x353 && M26(0x353) == 0x3f2 && M26(0x3f2) == 0x3be && M26(0x3be) == 0x2a5 && M26(0x2a5) == 0xc1 && M26(0xc1) == 0xe3
  {
  }

  lemma Root26Bit2()
    ensures M26(0xf) == 0x33f && M26(0x335) == 0x3a1 && M26(0x3a3) == 0x33c && M26(0x33a) == 0x9e && M26(0x91) == 0x1dc
    ensures M26(0x4) == 0x3af && M26(0x3af) == 0x2ed && M26(0x2ed) == 0x275 && M26(0x275) == 0x6a && M26(0x6a) == 0x182 && M26(0x182) == 0x1c6
  {
  }

  lemma Root26Bit3()
    ensures M26(0x1e) == 0x377 && M26(0x363) == 0x262 && M26(0x266) == 0x371 && M26(0x37d) == 0x115 && M26(0x10b) == 0x391
    ensures M26(0x8) == 0x27e && M26(0x27e) == 0xfa && M26(0xfa) == 0x1e3 && M26(0x1e3) == 0xd4 && M26(0xd4) == 0x304 && M26(0x304) == 0x38c
  {
  }

  lemma Root26Bit4()
    ensures M26(0x15) == 0x3e7 && M26(0x3e6) == 0x1e4 && M26(0x1ec) == 0x3eb && M26(0x3f3) == 0x203 && M26(0x216) == 0x22b
    ensures M26(0x10) == 0x1f5 && M26(0x1f5) == 0x1dd && M26(0x1dd) == 0x3c6 && M26(0x3c6) == 0x181 && M26(0x181) == 0x328 && M26(0x328) == 0x238
  {
  }

  lemma R24Is()
    ensures forall a: bv32 :: M24(a) == Iter(24, a)
  {
    hide Map, Iter, M24;
    Powers();
    Is24();
    forall a: bv32 ensures M24(a) == Iter(24, a) {
      assert Map(E24, a) == Iter(24, a);
    }
  }

  lemma R25Is()
    ensures forall a: bv32 :: M25(a) == Iter(25, a)
  {
    hide Map, Iter, M25;
    Powers();
    Is25();
    forall a: bv32 ensures M25(a) == Iter(25, a) {
      assert Map(E25, a) == Iter(25, a);
    }
  }

  lemma R26Is()
    ensures forall a: bv32 :: M26(a) == Iter(26, a)
  {
    hide Map, Iter, M26;
    Powers();
    Is26();
    forall a: bv32 ensures M26(a) == Iter(26, a) {
      assert Map(E26, a) == Iter(26, a);
    }
  }

  lemma SixTimes(r: nat, a: bv32)
    ensures Iter(6 * r, a) == Iter(r, Iter(r, Iter(r, Iter(r, Iter(r, Iter(r, a))))))
  {
    hide Iter;
    IterAdd(r, 5 * r, a);
    IterAdd(r, 4 * r, a);
    IterAdd(r, 3 * r, a);
    IterAdd(r, 2 * r, a);
    IterAdd(r, r, a);
  }

  /** x^6 and what it is folded to agree at e^r, for one bit of the coefficient. */
  ghost predicate Agree(r: nat, bit: bv32, folded: bv32) {
    Eval(r, folded) == Iter(6 * r, bit)
  }

  lemma GeneratorCoefficients()
    ensures C5(0x3b6a57b2) == 29 && C4(0x3b6a57b2) == 22 && C3(0x3b6a57b2) == 20 && C2(0x3b6a57b2) == 21 && C1(0x3b6a57b2) == 29 && C0(0x3b6a57b2) == 18
    ensures C5(0x26508e6d) == 19 && C4(0x26508e6d) == 5 && C3(0x26508e6d) == 1 && C2(0x26508e6d) == 3 && C1(0x26508e6d) == 19 && C0(0x26508e6d) == 13
    ensures C5(0x1ea119fa) == 15 && C4(0x1ea119fa) == 10 && C3(0x1ea119fa) == 2 && C2(0x1ea119fa) == 6 && C1(0x1ea119fa) == 15 && C0(0x1ea119fa) == 26
    ensures C5(0x3d4233dd) == 30 && C4(0x3d4233dd) == 20 && C3(0x3d4233dd) == 4 && C2(0x3d4233dd) == 12 && C1(0x3d4233dd) == 30 && C0(0x3d4233dd) == 29
    ensures C5(0x2a1462b3) == 21 && C4(0x2a1462b3) == 1 && C3(0x2a1462b3) == 8 && C2(0x2a1462b3) == 24 && C1(0x2a1462b3) == 21 && C0(0x2a1462b3) == 19
  {
  }

  lemma Roots24()
    ensures Agree(24, 1, 0x3b6a57b2) && Agree(24, 2, 0x26508e6d) && Agree(24, 4, 0x1ea119fa) && Agree(24, 8, 0x3d4233dd) && Agree(24, 16, 0x2a1462b3)
  {
    hide M24, Iter, C5, C4, C3, C2, C1, C0;
    R24Is();
    GeneratorCoefficients();
    Root24Bit0();
    SixTimes(24, 1);
    Root24Bit1();
    SixTimes(24, 2);
    Root24Bit2();
    SixTimes(24, 4);
    Root24Bit3();
    SixTimes(24, 8);
    Root24Bit4();
    SixTimes(24, 16);
  }

  lemma Roots25()
    ensures Agree(25, 1, 0x3b6a57b2) && Agree(25, 2, 0x26508e6d) && Agree(25, 4, 0x1ea119fa) && Agree(25, 8, 0x3d4233dd) && Agree(25, 16, 0x2a1462b3)
  {
    hide M25, Iter, C5, C4, C3, C2, C1, C0;
    R25Is();
    GeneratorCoefficients();
    Root25Bit0();
    SixTimes(25, 1);
    Root25Bit1();
    SixTimes(25, 2);
    Root25Bit2();
    SixTimes(25, 4);
    Root25Bit3();
    SixTimes(25, 8);
    Root25Bit4();
    SixTimes(25, 16);
  }

  lemma Roots26()
    ensures Agree(26, 1, 0x3b6a57b2) && Agree(26, 2, 0x26508e6d) && Agree(26, 4, 0x1ea119fa) && Agree(26, 8, 0x3d4233dd) && Agree(26, 16, 0x2a1462b3)
  {
    hide M26, Iter, C5, C4, C3, C2, C1, C0;
    R26Is();
    GeneratorCoefficients();
    Root26Bit0();
    SixTimes(26, 1);
    Root26Bit1();
    SixTimes(26, 2);
    Root26Bit2();
    SixTimes(26, 4);
    Root26Bit3();
    SixTimes(26, 8);
    Root26Bit4();
    SixTimes(26, 16);
  }

  /** All five bits: e^r is a root of the generator. */
  ghost predicate IsRoot(r: nat) {
    && Agree(r, 1, 0x3b6a57b2) && Agree(r, 2, 0x26508e6d) && Agree(r, 4, 0x1ea119fa)
    && Agree(r, 8, 0x3d4233dd) && Agree(r, 16, 0x2a1462b3)
  }

  lemma SymbolBits(t: bv32)
    requires t < 32
    ensures Xor(Xor(Xor(Pick(Has(t, 1), 1), Pick(Has(t, 2), 2)), Xor(Pick(Has(t, 4), 4), Pick(Has(t, 8), 8))), Pick(Has(t, 16), 16)) == t
  {
  }

  lemma CoefficientsOfZero()
    ensures C5(0) == 0 && C4(0) == 0 && C3(0) == 0 && C2(0) == 0 && C1(0) == 0 && C0(0) == 0
  {
  }

  lemma EvalZero(r: nat)
    ensures Eval(r, 0) == 0
  {
    hide Iter, Xor, C5, C4, C3, C2, C1, C0;
    CoefficientsOfZero();
    IterZero(r);
    XorUnits(0);
  }

  lemma AgreePick(r: nat, p: bool, bit: bv32, folded: bv32)
    requires Agree(r, bit, folded)
    ensures Eval(r, Pick(p, folded)) == Iter(6 * r, Pick(p, bit))
  {
    hide Eval, Iter;
    EvalZero(r);
    IterZero(6 * r);
  }

  lemma FoldAt(r: nat, t: bv32)
    requires IsRoot(r) && t < 32
    ensures Eval(r, Fold(t)) == Iter(6 * r, t)
  {
    hide Eval, Iter, Xor, Pick, Has, Agree;
    SymbolBits(t);
    var n := 6 * r;
    var a1, a2, a4, a8, a16 := Pick(Has(t, 1), 0x3b6a57b2), Pick(Has(t, 2), 0x26508e6d), Pick(Has(t, 4), 0x1ea119fa),
        Pick(Has(t, 8), 0x3d4233dd), Pick(Has(t, 16), 0x2a1462b3);
    var b1, b2, b4, b8, b16 := Pick(Has(t, 1), 1), Pick(Has(t, 2), 2), Pick(Has(t, 4), 4), Pick(Has(t, 8), 8), Pick(Has(t, 16), 16);
    AgreePick(r, Has(t, 1), 1, 0x3b6a57b2);
    AgreePick(r, Has(t, 2), 2, 0x26508e6d);
    AgreePick(r, Has(t, 4), 4, 0x1ea119fa);
    AgreePick(r, Has(t, 8), 8, 0x3d4233dd);
    AgreePick(r, Has(t, 16), 16, 0x2a1462b3);
    EvalLinear(r, a1, a2);
    EvalLinear(r, a4, a8);
    EvalLinear(r, Xor(a1, a2), Xor(a4, a8));
    EvalLinear(r, Xor(Xor(a1, a2), Xor(a4, a8)), a16);
    IterLinear(n, b1, b2);
    IterLinear(n, b4, b8);
    IterLinear(n, Xor(b1, b2), Xor(b4, b8));
    IterLinear(n, Xor(Xor(b1, b2), Xor(b4, b8)), b16);
  }

  lemma Carry(r: nat, k: nat, t: bv32, h: bv32, v: bv32)
    ensures Then(r, Xor(Iter(k * r, t), h), v) == Xor(Iter((k + 1) * r, t), Then(r, h, v))
  {
    hide Iter, Xor;
    IterLinear(r, Iter(k * r, t), h);
    IterAdd(r, k * r, t);
    assert (k + 1) * r == r + k * r;
    XorAssociates(Iter((k + 1) * r, t), Iter(r, h), v);
  }

  /** The part of a remainder at e^r that its leading coefficient has no share in. */
  function Lower(r: nat, c: bv32): bv32 {
    Then(r, Then(r, Then(r, Then(r, C4(c), C3(c)), C2(c)), C1(c)), C0(c))
  }

  lemma EvalSplit(r: nat, c: bv32)
    ensures Eval(r, c) == Xor(Iter(5 * r, C5(c)), Lower(r, c))
  {
    hide Iter, Xor, C5, C4, C3, C2, C1, C0;
    var t, h := C5(c), C4(c);
    assert Then(r, t, h) == Xor(Iter(1 * r, t), h);
    assert Eval(r, c) == Then(r, Then(r, Then(r, Then(r, Xor(Iter(1 * r, t), h), C3(c)), C2(c)), C1(c)), C0(c));
    hide Then;
    Carry(r, 1, t, h, C3(c));
    h := Then(r, h, C3(c));
    Carry(r, 2, t, h, C2(c));
    h := Then(r, h, C2(c));
    Carry(r, 3, t, h, C1(c));
    h := Then(r, h, C1(c));
    Carry(r, 4, t, h, C0(c));
  }

  /** A step of the checksum is a step of Horner's rule. */
  lemma EvalStep(r: nat, c: bv32, v: bv32)
    requires IsRoot(r) && Small(c) && v < 32
    ensures Eval(r, Step(c, v)) == Xor(Iter(r, Eval(r, c)), v)
  {
    hide Iter, Xor, Fold, Rest, Top, IsRoot, Small, C5, C4, C3, C2, C1, C0;
    CoefficientsMove(c, v);
    CoefficientBound(c);
    var t, h, d := C5(c), Lower(r, c), Xor(Rest(c), v);
    assert Eval(r, d) == Then(r, h, v);
    assert Eval(r, d) == Xor(Iter(r, h), v);
    hide Then, Eval, Lower;
    EvalLinear(r, d, Fold(Top(c)));
    FoldAt(r, t);
    EvalSplit(r, c);
    IterLinear(r, Iter(5 * r, t), h);
    IterAdd(r, 5 * r, t);
    XorAssociates(Iter(6 * r, t), Iter(r, h), v);
    XorCancel(Xor(Iter(r, h), v), Iter(6 * r, t));
  }

  lemma CoefficientBound(c: bv32)
    ensures C5(c) < 32
  {
  }

  lemma {:induction false} HornerPoly(r: nat, c: bv32, vs: seq<Symbol>)
    requires IsRoot(r) && Small(c)
    ensures Horner(r, Eval(r, c), vs) == Eval(r, Poly(c, vs))
    decreases |vs|
  {
    hide Iter, Xor, Eval, Step, IsRoot, Small;
    if vs != [] {
      var v := vs[0] as bv32;
      SymbolSmall(vs[0]);
      EvalStep(r, c, v);
      StepSmall(c, v);
      HornerPoly(r, Step(c, v), vs[1..]);
    }
  }

  // ----- Messages with few symbols -----

  /** Multiplication by e^r, `n` times. */
  function Rep(r: nat, n: nat, y: bv32): bv32 {
    if n == 0 then y else Iter(r, Rep(r, n - 1, y))
  }

  lemma {:induction false} RepIs(r: nat, n: nat, y: bv32)
    ensures Rep(r, n, y) == Iter(r * n, y)
  {
    hide Iter;
    if n == 0 {
      IterNone(y);
    } else {
      RepIs(r, n - 1, y);
      IterAdd(r, r * (n - 1), y);
      assert r * n == r + r * (n - 1);
    }
  }

  lemma {:induction false} RepInside(r: nat, n: nat, y: bv32)
    ensures Rep(r, n, Iter(r, y)) == Rep(r, n + 1, y)
  {
    hide Iter;
    if n > 0 {
      RepInside(r, n - 1, y);
    }
  }

  lemma {:induction false} RepZero(r: nat, n: nat)
    ensures Rep(r, n, 0) == 0
  {
    hide Iter;
    if n > 0 {
      RepZero(r, n - 1);
      IterZero(r);
    }
  }

  lemma {:induction false} RepElement(r: nat, n: nat, y: bv32)
    requires Element(y)
    ensures Element(Rep(r, n, y))
  {
    hide Iter, Element;
    if n > 0 {
      RepElement(r, n - 1, y);
      IterElement(r, Rep(r, n - 1, y));
    }
  }

  lemma {:induction false} Jump(r: nat, y: bv32, w: seq<Symbol>, a: nat, b: nat)
    requires a <= b < |w| && forall x :: a <= x < b ==> w[x] == 0
    ensures Horner(r, y, w[a..]) == Horner(r, Xor(Rep(r, b - a + 1, y), w[b] as bv32), w[b + 1..])
    decreases b - a
  {
    hide Iter, Xor, Rep;
    assert w[a..][1..] == w[a + 1..];
    if a < b {
      XorUnits(Iter(r, y));
      Jump(r, Iter(r, y), w, a + 1, b);
      RepInside(r, b - a, y);
    } else {
      RepOne(r, y);
    }
  }

  lemma RepOne(r: nat, y: bv32)
    ensures Rep(r, 1, y) == Iter(r, y) && Rep(r, 0, y) == y
  {
    hide Iter;
    assert Rep(r, 0, y) == y;
  }

  lemma {:induction false} JumpEnd(r: nat, y: bv32, w: seq<Symbol>, a: nat)
    requires a <= |w| && forall x :: a <= x < |w| ==> w[x] == 0
    ensures Horner(r, y, w[a..]) == Rep(r, |w| - a, y)
    decreases |w| - a
  {
    hide Iter, Xor, Rep;
    if a < |w| {
      assert w[a..][1..] == w[a + 1..];
      XorUnits(Iter(r, y));
      JumpEnd(r, Iter(r, y), w, a + 1);
      RepInside(r, |w| - a - 1, y);
    } else {
      RepOne(r, y);
    }
  }

  /** Zero but for three places. */
  ghost predicate Sparse(w: seq<Symbol>, i: nat, j: nat, k: nat) {
    i < j < k < |w| && forall x :: 0 <= x < |w| && x != i && x != j && x != k ==> w[x] == 0
  }

  /** The three symbols at e^r, with the distances between them. */
  function Three(r: nat, m: nat, n: nat, e1: bv32, e2: bv32, e3: bv32): bv32 {
    Xor(Rep(r, n, Xor(Rep(r, m, e1), e2)), e3)
  }

  lemma HornerSparse(r: nat, w: seq<Symbol>, i: nat, j: nat, k: nat)
    requires Sparse(w, i, j, k)
    ensures Horner(r, 0, w) == Rep(r, |w| - k - 1, Three(r, j - i, k - j, w[i] as bv32, w[j] as bv32, w[k] as bv32))
  {
    hide Rep, Xor, Horner;
    assert w[0..] == w;
    var e1, e2 := w[i] as bv32, w[j] as bv32;
    Jump(r, 0, w, 0, i);
    RepZero(r, i + 1);
    XorUnits(e1);
    Jump(r, e1, w, i + 1, j);
    Jump(r, Xor(Rep(r, j - i, e1), e2), w, j + 1, k);
    JumpEnd(r, Three(r, j - i, k - j, e1, e2, w[k] as bv32), w, k + 1);
  }

  lemma ThreeElement(r: nat, m: nat, n: nat, e1: bv32, e2: bv32, e3: bv32)
    requires Element(e1) && Element(e2) && Element(e3)
    ensures Element(Three(r, m, n, e1, e2, e3))
  {
    hide Rep, Xor, Element;
    RepElement(r, m, e1);
    XorElement(Rep(r, m, e1), e2);
    RepElement(r, n, Xor(Rep(r, m, e1), e2));
    XorElement(Rep(r, n, Xor(Rep(r, m, e1), e2)), e3);
  }

  lemma ThreeSpread(r: nat, m: nat, n: nat, e1: bv32, e2: bv32, e3: bv32)
    requires Three(r, m, n, e1, e2, e3) == 0
    ensures Xor(Iter(r * (m + n), e1), Iter(r * n, e2)) == e3
  {
    hide Iter, Xor, Rep;
    RepIs(r, m, e1);
    RepIs(r, n, Xor(Rep(r, m, e1), e2));
    XorZero(Rep(r, n, Xor(Rep(r, m, e1), e2)), e3);
    IterLinear(r * n, Iter(r * m, e1), e2);
    IterAdd(r * n, r * m, e1);
    assert r * n + r * m == r * (m + n);
  }

  /** What such a message with remainder zero says about its three symbols at a root. */
  lemma AtRoot(r: nat, w: seq<Symbol>, i: nat, j: nat, k: nat)
    requires IsRoot(r) && Sparse(w, i, j, k) && Poly(0, w) == 0
    ensures Three(r, j - i, k - j, w[i] as bv32, w[j] as bv32, w[k] as bv32) == 0
  {
    hide Rep, Xor, Eval, IsRoot, Small, Poly, Element, Three, Horner;
    ZeroSmall();
    EvalZero(r);
    HornerPoly(r, 0, w);
    HornerSparse(r, w, i, j, k);
    SymbolElement(w[i]);
    SymbolElement(w[j]);
    SymbolElement(w[k]);
    ThreeElement(r, j - i, k - j, w[i] as bv32, w[j] as bv32, w[k] as bv32);
    RepInjective(r, |w| - k - 1, Three(r, j - i, k - j, w[i] as bv32, w[j] as bv32, w[k] as bv32));
  }

  lemma RepInjective(r: nat, n: nat, y: bv32)
    requires Element(y) && Rep(r, n, y) == 0
    ensures y == 0
  {
    hide Rep, Iter, Element;
    RepIs(r, n, y);
    IterZero(r * n);
    ZeroElement();
    Injective(r * n, y, 0);
  }

  lemma SymbolElement(v: Symbol)
    ensures Element(v as bv32)
  {
  }

  lemma SameMoved(a: nat, b: nat, u: bv32)
    requires 0 < b < a < 1023 && Element(u) && Iter(a, u) == Iter(b, u)
    ensures u == 0
  {
    hide Iter, Element;
    IterAdd(b, a - b, u);
    IterElement(a - b, u);
    Injective(b, Iter(a - b, u), u);
    NoShortcut(a - b, u);
  }

  lemma Twice(a: nat, y: bv32)
    ensures Xor(Iter(2 * a, y), Iter(a, y)) == Iter(a, Xor(Iter(a, y), y))
  {
    hide Iter, Xor;
    IterAdd(a, a, y);
    IterLinear(a, Iter(a, y), y);
  }

  lemma SameTwice(a: nat, b: nat, y1: bv32, y2: bv32, u: bv32)
    requires Xor(Iter(a, y1), y1) == u && Xor(Iter(b, y2), y2) == u
    requires Xor(Iter(2 * a, y1), Iter(a, y1)) == Xor(Iter(2 * b, y2), Iter(b, y2))
    ensures Iter(a, u) == Iter(b, u)
  {
    hide Iter, Xor;
    Twice(a, y1);
    Twice(b, y2);
  }

  lemma Eliminated(a: nat, b: nat, y1: bv32, y2: bv32, u: bv32)
    requires 0 < b < a < 1023 && Element(u) && Xor(Iter(a, y1), y1) == u && Xor(Iter(b, y2), y2) == u
    requires Xor(Iter(2 * a, y1), Iter(2 * b, y2)) == Xor(Iter(a, y1), Iter(b, y2))
    ensures u == 0
  {
    hide Iter, Xor, Element;
    CrossEqual(Iter(2 * a, y1), Iter(2 * b, y2), Iter(a, y1), Iter(b, y2));
    SameTwice(a, b, y1, y2, u);
    SameMoved(a, b, u);
  }

  lemma Unmoved(a: nat, y: bv32)
    requires 0 < a < 1023 && Element(y) && Xor(Iter(a, y), y) == 0
    ensures y == 0
  {
    hide Iter, Xor, Element;
    XorZero(Iter(a, y), y);
    NoShortcut(a, y);
  }

  /** Three symbols that cancel at three roots in a row are zero. */
  lemma Vandermonde(a: nat, b: nat, y1: bv32, y2: bv32)
    requires 0 < b < a < 1023 && Element(y1) && Element(y2)
    requires Xor(Iter(a, y1), Iter(b, y2)) == Xor(y1, y2)
    requires Xor(Iter(2 * a, y1), Iter(2 * b, y2)) == Xor(Iter(a, y1), Iter(b, y2))
    ensures y1 == 0 && y2 == 0
  {
    hide Iter, Xor, Element;
    CrossEqual(Iter(a, y1), Iter(b, y2), y1, y2);
    IterElement(a, y1);
    XorElement(Iter(a, y1), y1);
    Eliminated(a, b, y1, y2, Xor(Iter(a, y1), y1));
    Unmoved(a, y1);
    Unmoved(b, y2);
  }

  lemma CrossEqual(p: bv32, q: bv32, s: bv32, t: bv32)
    requires Xor(p, q) == Xor(s, t)
    ensures Xor(p, s) == Xor(q, t)
  {
    hide Xor;
    XorSwap(p, q, s, t);
    XorUnits(Xor(s, t));
    XorZero(Xor(p, s), Xor(q, t));
  }

  lemma Roots()
    ensures IsRoot(24) && IsRoot(25) && IsRoot(26)
  {
    hide Agree;
    Roots24();
    Roots25();
    Roots26();
  }

  lemma SparseAlive(w: seq<Symbol>, i: nat, j: nat, k: nat)
    requires Sparse(w, i, j, k) && k - i < 1023 && Poly(0, w) == 0
    ensures w[i] == 0 && w[j] == 0 && w[k] == 0
  {
    hide Iter, Xor, IsRoot, Poly, Element, Sparse, Three;
    Roots();
    SparseBounds(w, i, j, k);
    AtRoot(24, w, i, j, k);
    AtRoot(25, w, i, j, k);
    AtRoot(26, w, i, j, k);
    SymbolElement(w[i]);
    SymbolElement(w[j]);
    SymbolElement(w[k]);
    ThreeAlive(j - i, k - j, w[i] as bv32, w[j] as bv32, w[k] as bv32);
    SymbolZero(w[i]);
    SymbolZero(w[j]);
    SymbolZero(w[k]);
  }

  lemma ThreeAlive(m: nat, n: nat, e1: bv32, e2: bv32, e3: bv32)
    requires 0 < m && 0 < n && m + n < 1023 && Element(e1) && Element(e2) && Element(e3)
    requires Three(24, m, n, e1, e2, e3) == 0 && Three(25, m, n, e1, e2, e3) == 0 && Three(26, m, n, e1, e2, e3) == 0
    ensures e1 == 0 && e2 == 0 && e3 == 0
  {
    hide Iter, Xor, Element, Three;
    ThreeSpread(24, m, n, e1, e2, e3);
    ThreeSpread(25, m, n, e1, e2, e3);
    ThreeSpread(26, m, n, e1, e2, e3);
    var a, b := m + n, n;
    IterAdd(a, 24 * a, e1);
    IterAdd(b, 24 * b, e2);
    IterAdd(2 * a, 24 * a, e1);
    IterAdd(2 * b, 24 * b, e2);
    IterElement(24 * a, e1);
    IterElement(24 * b, e2);
    Vandermonde(a, b, Iter(24 * a, e1), Iter(24 * b, e2));
    XorUnits(0);
    ZeroElement();
    IterZero(24 * a);
    IterZero(24 * b);
    Injective(24 * a, e1, 0);
    Injective(24 * b, e2, 0);
  }

  lemma SparseBounds(w: seq<Symbol>, i: nat, j: nat, k: nat)
    requires Sparse(w, i, j, k)
    ensures i < j < k < |w|
  {
  }

  lemma SymbolZero(v: Symbol)
    requires v as bv32 == 0
    ensures v == 0
  {
  }

  lemma {:induction false} XorAt(s: seq<Symbol>, t: seq<Symbol>, x: nat)
    requires |s| == |t| && x < |s|
    ensures XorAll(s, t)[x] == XorSymbol(s[x], t[x])
    decreases |s|
  {
    hide XorSymbol;
    if x > 0 {
      XorAt(s[1..], t[1..], x - 1);
    }
  }

  /**
    Two messages of any length that differ, but only in three symbols at most and these no more
    than 1022 places apart, have different remainders.
  */
  lemma ThreeErrorsDetected(c: bv32, s: seq<Symbol>, t: seq<Symbol>, i: nat, j: nat, k: nat)
    requires |s| == |t| && s != t && i < j < k < |s| && k - i < 1023
    requires forall x :: 0 <= x < |s| && x != i && x != j && x != k ==> s[x] == t[x]
    ensures Poly(c, s) != Poly(c, t)
  {
    hide Xor, Poly, XorAll, XorSymbol;
    if Poly(c, s) == Poly(c, t) {
      var w := XorAll(s, t);
      XorUnits(c);
      PolyLinear(c, c, s, t);
      XorUnits(Poly(c, s));
      forall x | 0 <= x < |s|
        ensures w[x] == 0 <==> s[x] == t[x]
      {
        XorAt(s, t, x);
        XorSymbolZero(s[x], t[x]);
      }
      SparseAlive(w, i, j, k);
      assert false;
    }
  }

  // ----- Strings -----

  /**
    Changing at most three characters after the separator, other than by case and without writing
    another separator, never gives a string that decodes under the same encoding.
  */
  lemma ThreeTyposDetected(str: seq<Byte>, str': seq<Byte>, d: Decoded, d': Decoded, i: nat, j: nat, k: nat)
    requires d.Valid? && d'.Valid? && Encodes(str, d) && Encodes(str', d')
    requires |str'| == |str| && |d.hrp| < i < j < k < |str|
    requires forall x :: 0 <= x < |str| && x != i && x != j && x != k ==> str'[x] == str[x]
    requires LastSeparator(str', |d.hrp|) && LowerAll(str') != LowerAll(str)
    ensures d'.encoding != d.encoding
  {
    hide Value, Lower, Letter, Check, Constant, Encodes, Checksum;
    Short(str, d);
    EncodingShape(str, d);
    EncodingShape(str', d');
    var n := |d.hrp|;
    LastSeparatorUnique(str', n, |d'.hrp|);
    assert d'.hrp == d.hrp;
    var vs, vs' := d.data + Checksum(d.encoding, d.hrp, d.data), d'.data + Checksum(d'.encoding, d'.hrp, d'.data);
    var a, b, c := i - n - 1, j - n - 1, k - n - 1;
    forall x | 0 <= x < |vs| && x != a && x != b && x != c
      ensures vs[x] == vs'[x]
    {
      assert Some(vs[x]) == Value(str[n + 1 + x]) == Value(str'[n + 1 + x]) == Some(vs'[x]);
    }
    EncodedForm(str, d);
    EncodedForm(str', d');
    ErrorsInValues(d.hrp, vs, vs', a, b, c);
    ChecksumIff(d.encoding, d.hrp, d.data, Checksum(d.encoding, d.hrp, d.data));
    ChecksumIff(d'.encoding, d'.hrp, d'.data, Checksum(d'.encoding, d'.hrp, d'.data));
  }

  lemma Short(str: seq<Byte>, d: Decoded)
    requires Encodes(str, d)
    ensures |str| <= 90
  {
  }

  lemma ErrorsInValues(hrp: seq<Byte>, s: seq<Symbol>, t: seq<Symbol>, i: nat, j: nat, k: nat)
    requires |s| == |t| && s != t && i < j < k < |s| && k - i < 1023
    requires forall x :: 0 <= x < |s| && x != i && x != j && x != k ==> s[x] == t[x]
    ensures Check(hrp, s) != Check(hrp, t)
  {
    hide Poly, ExpandPrefix;
    var p := ExpandPrefix(hrp);
    PolyConcat(1, p, s);
    PolyConcat(1, p, t);
    ThreeErrorsDetected(Poly(1, p), s, t, i, j, k);
  }

  // ----- Prefixes -----

  /** The symbols a valid string is checked by: those of its prefix, its data and its checksum. */
  ghost function Checked(d: Decoded): seq<Symbol>
    requires d.Valid?
  {
    ExpandPrefix(d.hrp) + (d.data + Checksum(d.encoding, d.hrp, d.data))
  }

  lemma CheckedIs(d: Decoded)
    requires d.Valid?
    ensures Poly(1, Checked(d)) == Constant(d.encoding)
  {
    hide Poly, ExpandPrefix, Constant, Checksum;
    ChecksumIff(d.encoding, d.hrp, d.data, Checksum(d.encoding, d.hrp, d.data));
  }

  lemma CheckedShape(str: seq<Byte>, str': seq<Byte>, d: Decoded, d': Decoded)
    requires d.Valid? && d'.Valid? && Encodes(str, d) && Encodes(str', d') && |str'| == |str| && LastSeparator(str', |d.hrp|)
    ensures var n := |d.hrp|;
            |d'.hrp| == n && |d'.data| == |d.data| && n + 7 <= |str| <= 90 && |Checked(d)| == |Checked(d')| == n + |str|
  {
    hide Value, Lower, Letter, Encodes, Checksum, ExpandPrefix;
    Short(str, d);
    EncodingShape(str, d);
    EncodingShape(str', d');
    LastSeparatorUnique(str', |d.hrp|, |d'.hrp|);
    ExpandedSize(d.hrp);
    ExpandedSize(d'.hrp);
  }

  /** The symbols determine the string up to case. */
  lemma CheckedDiffer(str: seq<Byte>, str': seq<Byte>, d: Decoded, d': Decoded)
    requires d.Valid? && d'.Valid? && Encodes(str, d) && Encodes(str', d') && |d'.hrp| == |d.hrp| && |d'.data| == |d.data|
    requires LowerAll(str') != LowerAll(str)
    ensures Checked(d) != Checked(d')
  {
    hide Letter, Encodes, Checksum, ExpandPrefix, LowerAll;
    EncodedForm(str, d);
    EncodedForm(str', d');
    if Checked(d) == Checked(d') {
      ExpandedSize(d.hrp);
      ExpandedSize(d'.hrp);
      var n := 2 * |d.hrp| + 1;
      var vs, vs' := d.data + Checksum(d.encoding, d.hrp, d.data), d'.data + Checksum(d'.encoding, d'.hrp, d'.data);
      assert ExpandPrefix(d.hrp) == Checked(d)[..n] && ExpandPrefix(d'.hrp) == Checked(d')[..n];
      assert vs == Checked(d)[n..] && vs' == Checked(d')[n..];
      ExpandInjective(d.hrp, d'.hrp);
      assert false;
    }
  }

  lemma CheckedPrefix(str: seq<Byte>, str': seq<Byte>, d: Decoded, d': Decoded, x: nat)
    requires d.Valid? && d'.Valid? && Encodes(str, d) && Encodes(str', d') && |str'| == |str| && LastSeparator(str', |d.hrp|)
    requires x < |d.hrp| && |d.hrp| < |str| && str[x] == str'[x]
    ensures var n := |d.hrp|;
            && |Checked(d)| == |Checked(d')| > 2 * n
            && Checked(d)[x] == Checked(d')[x] && Checked(d)[n + 1 + x] == Checked(d')[n + 1 + x]
  {
    hide Value, Lower, Letter, Encodes, Checksum, ExpandPrefix;
    CheckedShape(str, str', d, d');
    EncodingShape(str, d);
    EncodingShape(str', d');
    assert d.hrp[x] == d'.hrp[x];
    ExpandSame(d.hrp, d'.hrp, x);
    ExpandSame(d.hrp, d'.hrp, |d.hrp| + 1 + x);
  }

  lemma CheckedMiddle(d: Decoded, d': Decoded)
    requires d.Valid? && d'.Valid? && |d'.hrp| == |d.hrp|
    ensures |Checked(d)| > |d.hrp| && |Checked(d')| > |d.hrp| && Checked(d)[|d.hrp|] == Checked(d')[|d.hrp|]
  {
    hide ExpandPrefix, Checksum;
    ExpandSame(d.hrp, d'.hrp, |d.hrp|);
  }

  lemma CheckedData(str: seq<Byte>, str': seq<Byte>, d: Decoded, d': Decoded, x: nat)
    requires d.Valid? && d'.Valid? && Encodes(str, d) && Encodes(str', d') && |str'| == |str| && LastSeparator(str', |d.hrp|)
    requires |d.hrp| < x < |str| && str[x] == str'[x]
    ensures |Checked(d)| == |Checked(d')| == |d.hrp| + |str| && Checked(d)[|d.hrp| + x] == Checked(d')[|d.hrp| + x]
  {
    hide Value, Lower, Letter, Encodes, Checksum, ExpandPrefix;
    CheckedShape(str, str', d, d');
    EncodingShape(str, d);
    EncodingShape(str', d');
    ExpandedSize(d.hrp);
    ExpandedSize(d'.hrp);
    var n, k := |d.hrp|, x - |d.hrp| - 1;
    var vs, vs' := d.data + Checksum(d.encoding, d.hrp, d.data), d'.data + Checksum(d'.encoding, d'.hrp, d'.data);
    assert Some(vs[k]) == Value(str[n + 1 + k]) == Value(str'[n + 1 + k]) == Some(vs'[k]);
  }

  /** Two valid strings with the separator in one place: where their characters agree, so do their symbols, and not all of these do. */
  lemma CheckedAlike(str: seq<Byte>, str': seq<Byte>, d: Decoded, d': Decoded)
    requires d.Valid? && d'.Valid? && Encodes(str, d) && Encodes(str', d') && |str'| == |str|
    requires LastSeparator(str', |d.hrp|) && LowerAll(str') != LowerAll(str)
    ensures var n := |d.hrp|;
            && |d'.hrp| == n && n + 7 <= |str| <= 90 && |Checked(d)| == |Checked(d')| == n + |str|
            && Checked(d) != Checked(d')
            && (forall x :: 0 <= x < n && str[x] == str'[x] ==>
                  Checked(d)[x] == Checked(d')[x] && Checked(d)[n + 1 + x] == Checked(d')[n + 1 + x])
            && Checked(d)[n] == Checked(d')[n]
            && (forall x :: n < x < |str| && str[x] == str'[x] ==> Checked(d)[n + x] == Checked(d')[n + x])
  {
    hide Encodes, Checked, LowerAll, LastSeparator;
    CheckedShape(str, str', d, d');
    CheckedDiffer(str, str', d, d');
    CheckedMiddle(d, d');
    var n := |d.hrp|;
    forall x | 0 <= x < n && str[x] == str'[x]
      ensures Checked(d)[x] == Checked(d')[x] && Checked(d)[n + 1 + x] == Checked(d')[n + 1 + x]
    {
      CheckedPrefix(str, str', d, d', x);
    }
    forall x | n < x < |str| && str[x] == str'[x]
      ensures Checked(d)[n + x] == Checked(d')[n + x]
    {
      CheckedData(str, str', d, d', x);
    }
  }

  /**
    Changing one character of the prefix and one after the separator, either or both, other than by
    case and without writing another separator, never gives a string that decodes under the same
    encoding.
  */
  lemma PrefixTypoDetected(str: seq<Byte>, str': seq<Byte>, d: Decoded, d': Decoded, p: nat, q: nat)
    requires d.Valid? && d'.Valid? && Encodes(str, d) && Encodes(str', d')
    requires |str'| == |str| && p < |d.hrp| < q < |str|
    requires forall x :: 0 <= x < |str| && x != p && x != q ==> str'[x] == str[x]
    requires LastSeparator(str', |d.hrp|) && LowerAll(str') != LowerAll(str)
    ensures d'.encoding != d.encoding
  {
    hide Encodes, Checked, Poly, Constant, LowerAll;
    CheckedAlike(str, str', d, d');
    CheckedIs(d);
    CheckedIs(d');
    var n, s, t := |d.hrp|, Checked(d), Checked(d');
    forall x | 0 <= x < |s| && x != p && x != n + 1 + p && x != n + q
      ensures s[x] == t[x]
    {
      if n < x <= 2 * n {
        assert str[x - n - 1] == str'[x - n - 1];
      } else if x > 2 * n {
        assert str[x - n] == str'[x - n];
      }
    }
    ThreeErrorsDetected(1, s, t, p, n + 1 + p, n + q);
  }

  /**
    Changing any characters of a prefix of at most two, or up to 5 - n consecutive ones of a longer
    prefix of n characters, and nothing after it, is noticed likewise.
  */
  lemma PrefixBurstDetected(str: seq<Byte>, str': seq<Byte>, d: Decoded, d': Decoded, from: nat, to: nat)
    requires d.Valid? && d'.Valid? && Encodes(str, d) && Encodes(str', d')
    requires |str'| == |str| && from <= to <= |d.hrp| && |d.hrp| + 1 + (to - from) <= 6
    requires forall x :: 0 <= x < |str| && !(from <= x < to) ==> str'[x] == str[x]
    requires LowerAll(str') != LowerAll(str)
    ensures d'.encoding != d.encoding
  {
    hide Encodes, Checked, Poly, Constant, LowerAll;
    EncodingShape(str, d);
    CheckedAlike(str, str', d, d');
    CheckedIs(d);
    CheckedIs(d');
    var n, s, t := |d.hrp|, Checked(d), Checked(d');
    var end := n + 1 + to;
    forall x | 0 <= x < |s| && !(from <= x < end)
      ensures s[x] == t[x]
    {
      if n < x <= 2 * n {
        assert str[x - n - 1] == str'[x - n - 1];
      } else if x > 2 * n {
        assert str[x - n] == str'[x - n];
      }
    }
    Window(s, t, from, end);
    BurstDetected(1, s[..from], s[from..end], t[from..end], s[end..]);
  }
}
