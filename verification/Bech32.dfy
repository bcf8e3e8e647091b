/** Checksummed base-32 strings: a readable prefix, the separator '1', and five-bit symbols with a checksum. */
module Bech32 {

  import opened Basics

  type Byte = bv8

  /** A five-bit symbol. */
  type Symbol = x: bv8 | x < 32

  datatype Encoding = Classic | Modified

  // ----- Exclusive or -----

  function Xor(a: bv32, b: bv32): bv32 {
    a ^ b
  }

  lemma XorUnits(a: bv32)
    ensures Xor(a, a) == 0 && Xor(a, 0) == a == Xor(0, a)
  {
  }

  lemma XorIs(a: bv32, b: bv32)
    ensures Xor(a, b) == a ^ b
  {
  }

  lemma RawAssociates(a: bv32, b: bv32, c: bv32)
    ensures (a ^ b) ^ c == a ^ (b ^ c)
  {
  }

  lemma XorAssociates(a: bv32, b: bv32, c: bv32)
    ensures Xor(Xor(a, b), c) == Xor(a, Xor(b, c))
  {
    hide Xor;
    RawAssociates(a, b, c);
    XorIs(a, b);
    XorIs(b, c);
    XorIs(a ^ b, c);
    XorIs(a, b ^ c);
  }

  lemma XorSwap(a: bv32, b: bv32, c: bv32, d: bv32)
    ensures Xor(Xor(a, b), Xor(c, d)) == Xor(Xor(a, c), Xor(b, d))
  {
    hide Xor;
    XorAssociates(a, b, Xor(c, d));
    XorAssociates(b, c, d);
    XorCancel(b, c);
    XorAssociates(c, b, d);
    XorAssociates(a, c, Xor(b, d));
  }

  lemma RawCancel(a: bv32, b: bv32)
    ensures a ^ (a ^ b) == b && a ^ b == b ^ a
  {
  }

  lemma XorCancel(a: bv32, b: bv32)
    ensures Xor(a, Xor(a, b)) == b && Xor(a, b) == Xor(b, a)
  {
    hide Xor;
    RawCancel(a, b);
    XorIs(a, b);
    XorIs(b, a);
    XorIs(a, a ^ b);
  }

  lemma XorZero(a: bv32, b: bv32)
    requires Xor(a, b) == 0
    ensures a == b
  {
    hide Xor;
    XorCancel(a, b);
    XorUnits(a);
  }

  // ----- The checksum -----

  function Constant(e: Encoding): bv32 {
    if e == Classic then 1 else 0x2bc830a3
  }

  predicate Has(c: bv32, bit: bv32) {
    c & bit != 0
  }

  function Pick(p: bool, k: bv32): bv32 {
    if p then k else 0
  }

  /** The leading coefficient times x^6 modulo the generator. */
  function Fold(c0: bv32): bv32 {
    Xor(Xor(Xor(Pick(Has(c0, 1), 0x3b6a57b2), Pick(Has(c0, 2), 0x26508e6d)),
            Xor(Pick(Has(c0, 4), 0x1ea119fa), Pick(Has(c0, 8), 0x3d4233dd))),
        Pick(Has(c0, 16), 0x2a1462b3))
  }

  function Top(c: bv32): bv32 {
    c >> 25
  }

  function Rest(c: bv32): bv32 {
    (c & 0x1ffffff) << 5
  }

  /** Multiply the remainder by x and bring in the next coefficient. */
  function Step(c: bv32, v: bv32): bv32 {
    Xor(Xor(Rest(c), v), Fold(Top(c)))
  }

  function Poly(c: bv32, vs: seq<Symbol>): bv32
    decreases |vs|
  {
    if vs == [] then c else Poly(Step(c, vs[0] as bv32), vs[1..])
  }

  lemma HasLinear1(a: bv32, b: bv32)
    ensures Has(Xor(a, b), 1) == (Has(a, 1) != Has(b, 1))
  {
  }

  lemma HasLinear2(a: bv32, b: bv32)
    ensures Has(Xor(a, b), 2) == (Has(a, 2) != Has(b, 2))
  {
  }

  lemma HasLinear4(a: bv32, b: bv32)
    ensures Has(Xor(a, b), 4) == (Has(a, 4) != Has(b, 4))
  {
  }

  lemma HasLinear8(a: bv32, b: bv32)
    ensures Has(Xor(a, b), 8) == (Has(a, 8) != Has(b, 8))
  {
  }

  lemma HasLinear16(a: bv32, b: bv32)
    ensures Has(Xor(a, b), 16) == (Has(a, 16) != Has(b, 16))
  {
  }

  lemma PickLinear(p: bool, q: bool, k: bv32)
    ensures Pick(p != q, k) == Xor(Pick(p, k), Pick(q, k))
  {
    hide Xor;
    XorUnits(k);
    XorUnits(0);
  }

  lemma FoldLinear(a: bv32, b: bv32)
    ensures Fold(Xor(a, b)) == Xor(Fold(a), Fold(b))
  {
    hide Xor, Has, Pick;
    HasLinear1(a, b);
    HasLinear2(a, b);
    HasLinear4(a, b);
    HasLinear8(a, b);
    HasLinear16(a, b);
    PickLinear(Has(a, 1), Has(b, 1), 0x3b6a57b2);
    PickLinear(Has(a, 2), Has(b, 2), 0x26508e6d);
    PickLinear(Has(a, 4), Has(b, 4), 0x1ea119fa);
    PickLinear(Has(a, 8), Has(b, 8), 0x3d4233dd);
    PickLinear(Has(a, 16), Has(b, 16), 0x2a1462b3);
    var a1, a2, a4, a8 := Pick(Has(a, 1), 0x3b6a57b2), Pick(Has(a, 2), 0x26508e6d), Pick(Has(a, 4), 0x1ea119fa), Pick(Has(a, 8), 0x3d4233dd);
    var b1, b2, b4, b8 := Pick(Has(b, 1), 0x3b6a57b2), Pick(Has(b, 2), 0x26508e6d), Pick(Has(b, 4), 0x1ea119fa), Pick(Has(b, 8), 0x3d4233dd);
    XorSwap(a1, b1, a2, b2);
    XorSwap(a4, b4, a8, b8);
    XorSwap(Xor(a1, a2), Xor(b1, b2), Xor(a4, a8), Xor(b4, b8));
    XorSwap(Xor(Xor(a1, a2), Xor(a4, a8)), Xor(Xor(b1, b2), Xor(b4, b8)), Pick(Has(a, 16), 0x2a1462b3), Pick(Has(b, 16), 0x2a1462b3));
  }

  lemma ShiftLinear(c: bv32, d: bv32)
    ensures Top(Xor(c, d)) == Xor(Top(c), Top(d)) && Rest(Xor(c, d)) == Xor(Rest(c), Rest(d))
  {
  }

  lemma StepLinear(c: bv32, d: bv32, v: bv32, w: bv32)
    ensures Step(Xor(c, d), Xor(v, w)) == Xor(Step(c, v), Step(d, w))
  {
    hide Xor, Fold, Top, Rest;
    ShiftLinear(c, d);
    FoldLinear(Top(c), Top(d));
    XorSwap(Rest(c), Rest(d), v, w);
    XorSwap(Xor(Rest(c), v), Xor(Rest(d), w), Fold(Top(c)), Fold(Top(d)));
  }

  function XorAll(vs: seq<Symbol>, ws: seq<Symbol>): (r: seq<Symbol>)
    requires |vs| == |ws|
    ensures |r| == |vs|
    decreases |vs|
  {
    if vs == [] then [] else [XorSymbol(vs[0], ws[0])] + XorAll(vs[1..], ws[1..])
  }

  function XorSymbol(a: Symbol, b: Symbol): Symbol {
    SymbolXor(a, b);
    a ^ b
  }

  lemma SymbolXor(a: bv8, b: bv8)
    requires a < 32 && b < 32
    ensures a ^ b < 32
  {
  }

  lemma Widen(a: Symbol, b: Symbol)
    ensures XorSymbol(a, b) as bv32 == Xor(a as bv32, b as bv32)
  {
  }

  /** The checksum is linear over exclusive or. */
  lemma {:induction false} PolyLinear(c: bv32, d: bv32, vs: seq<Symbol>, ws: seq<Symbol>)
    requires |vs| == |ws|
    ensures Poly(Xor(c, d), XorAll(vs, ws)) == Xor(Poly(c, vs), Poly(d, ws))
    decreases |vs|
  {
    hide Xor, Step, XorSymbol;
    if vs != [] {
      var xs := XorAll(vs, ws);
      assert xs[1..] == XorAll(vs[1..], ws[1..]);
      Widen(vs[0], ws[0]);
      StepLinear(c, d, vs[0] as bv32, ws[0] as bv32);
      PolyLinear(Step(c, vs[0] as bv32), Step(d, ws[0] as bv32), vs[1..], ws[1..]);
    }
  }

  lemma {:induction false} PolyConcat(c: bv32, vs: seq<Symbol>, ws: seq<Symbol>)
    ensures Poly(c, vs + ws) == Poly(Poly(c, vs), ws)
    decreases |vs|
  {
    hide Step;
    if vs == [] {
      assert vs + ws == ws;
    } else {
      assert (vs + ws)[1..] == vs[1..] + ws;
      PolyConcat(Step(c, vs[0] as bv32), vs[1..], ws);
    }
  }

  // ----- Remainders are thirty bits wide -----

  predicate Small(c: bv32) {
    c < 0x4000_0000
  }

  lemma XorSmall(a: bv32, b: bv32)
    requires Small(a) && Small(b)
    ensures Small(Xor(a, b))
  {
  }

  lemma PickSmall(p: bool, k: bv32)
    requires Small(k)
    ensures Small(Pick(p, k))
  {
    assert Small(0);
  }

  lemma FoldSmall(t: bv32)
    ensures Small(Fold(t))
  {
    hide Xor, Pick, Has;
    PickSmall(Has(t, 1), 0x3b6a57b2);
    PickSmall(Has(t, 2), 0x26508e6d);
    PickSmall(Has(t, 4), 0x1ea119fa);
    PickSmall(Has(t, 8), 0x3d4233dd);
    PickSmall(Has(t, 16), 0x2a1462b3);
    var a, b := Xor(Pick(Has(t, 1), 0x3b6a57b2), Pick(Has(t, 2), 0x26508e6d)),
        Xor(Pick(Has(t, 4), 0x1ea119fa), Pick(Has(t, 8), 0x3d4233dd));
    XorSmall(Pick(Has(t, 1), 0x3b6a57b2), Pick(Has(t, 2), 0x26508e6d));
    XorSmall(Pick(Has(t, 4), 0x1ea119fa), Pick(Has(t, 8), 0x3d4233dd));
    XorSmall(a, b);
    XorSmall(Xor(a, b), Pick(Has(t, 16), 0x2a1462b3));
  }

  lemma RestSmall(c: bv32)
    ensures Small(Rest(c))
  {
  }

  lemma StepSmall(c: bv32, v: bv32)
    requires Small(v)
    ensures Small(Step(c, v))
  {
    hide Xor, Fold, Rest, Top, Small;
    RestSmall(c);
    XorSmall(Rest(c), v);
    FoldSmall(Top(c));
    XorSmall(Xor(Rest(c), v), Fold(Top(c)));
  }

  lemma SymbolSmall(v: Symbol)
    ensures Small(v as bv32) && v as bv32 < 32
  {
  }

  lemma {:induction false} PolySmall(c: bv32, vs: seq<Symbol>)
    requires Small(c)
    ensures Small(Poly(c, vs))
    decreases |vs|
  {
    hide Step, Small;
    if vs != [] {
      SymbolSmall(vs[0]);
      StepSmall(c, vs[0] as bv32);
      PolySmall(Step(c, vs[0] as bv32), vs[1..]);
    }
  }

  // ----- No remainder dies out -----

  lemma LowBitsOfFold(t: bv32)
    requires t < 32 && Fold(t) & 31 == 0
    ensures t == 0
  {
  }

  lemma LowBitsOfRest(c: bv32)
    ensures Rest(c) & 31 == 0 && (Small(c) ==> Top(c) < 32)
    ensures Rest(c) == 0 && Top(c) == 0 ==> c == 0
  {
  }

  lemma FoldZero()
    ensures Fold(0) == 0
  {
  }

  /** Multiplying by x modulo the generator loses nothing. */
  lemma StepAlive(c: bv32)
    requires Small(c) && Step(c, 0) == 0
    ensures c == 0
  {
    hide Xor, Fold, Rest, Top;
    XorUnits(Rest(c));
    XorZero(Rest(c), Fold(Top(c)));
    LowBitsOfRest(c);
    LowBitsOfFold(Top(c));
    FoldZero();
  }

  // ----- Six symbols are a remainder -----

  function Digit(m: bv32): Symbol {
    LowBits(m);
    (m & 31) as bv8
  }

  lemma LowBits(m: bv32)
    ensures m & 31 < 32
  {
  }

  function Drop(m: bv32): bv32 {
    m >> 5
  }

  /** The remainder without its last 5 - `i` symbols. */
  function Cut(m: bv32, i: nat): bv32
    requires i < 6
    decreases 6 - i
  {
    if i == 5 then m else Drop(Cut(m, i + 1))
  }

  function Digits(m: bv32): (r: seq<Symbol>)
    ensures |r| == 6 && forall i :: 0 <= i < 6 ==> r[i] == Digit(Cut(m, i))
  {
    [Digit(Cut(m, 0)), Digit(Cut(m, 1)), Digit(Cut(m, 2)), Digit(Cut(m, 3)), Digit(Cut(m, 4)), Digit(Cut(m, 5))]
  }

  /** The number takes at most `k` symbols. */
  predicate Fits(c: bv32, k: nat)
    requires k <= 6
  {
    if k == 0 then c == 0 else if k == 1 then c < 0x20 else if k == 2 then c < 0x400
    else if k == 3 then c < 0x8000 else if k == 4 then c < 0x10_0000 else if k == 5 then c < 0x200_0000
    else c < 0x4000_0000
  }

  lemma FitsDrop(c: bv32, k: nat)
    requires k < 6 && Fits(c, k + 1)
    ensures Fits(Drop(c), k)
  {
    if k == 0 {
    } else if k == 1 {
    } else if k == 2 {
    } else if k == 3 {
    } else if k == 4 {
    }
  }

  lemma {:induction false} CutFits(m: bv32, i: nat)
    requires i < 6 && Fits(m, 6)
    ensures Fits(Cut(m, i), i + 1)
    decreases 6 - i
  {
    hide Fits, Drop;
    if i < 5 {
      CutFits(m, i + 1);
      FitsDrop(Cut(m, i + 1), i + 1);
    }
  }

  lemma FitsSmall(c: bv32, k: nat)
    requires k <= 6 && Fits(c, k)
    ensures Small(c) && (k == 0 ==> c == 0)
  {
  }

  lemma SmallFits(c: bv32)
    requires Small(c)
    ensures Fits(c, 6)
  {
  }

  lemma CutNext(m: bv32, i: nat)
    requires i < 6 && Small(m)
    ensures Small(Cut(m, i)) && Drop(Cut(m, i)) == if i == 0 then 0 else Cut(m, i - 1)
  {
    hide Fits, Drop, Small;
    SmallFits(m);
    CutFits(m, i);
    FitsSmall(Cut(m, i), i + 1);
    if i == 0 {
      FitsDrop(Cut(m, 0), 0);
      FitsSmall(Drop(Cut(m, 0)), 0);
    }
  }

  /** While the top five bits are empty a step only shifts. */
  lemma StepShifts(c: bv32, v: bv32)
    requires c < 0x200_0000
    ensures Step(c, v) == Xor(c << 5, v)
  {
    hide Xor, Fold;
    assert Top(c) == 0 && Rest(c) == c << 5;
    FoldZero();
    XorUnits(Xor(c << 5, v));
  }

  lemma RawPush(x: bv32)
    requires x < 0x4000_0000
    ensures Drop(x) < 0x200_0000 && Xor(Drop(x) << 5, x & 31) == x
  {
  }

  lemma DigitWide(m: bv32)
    ensures Digit(m) as bv32 == m & 31
  {
  }

  lemma PushDigit(x: bv32)
    requires Small(x)
    ensures Step(Drop(x), Digit(x) as bv32) == x
  {
    hide Xor, Step, Drop;
    RawPush(x);
    DigitWide(x);
    StepShifts(Drop(x), x & 31);
  }

  lemma RawPop(c: bv32, v: bv32)
    requires c < 0x200_0000 && v < 32
    ensures Drop(Xor(c << 5, v)) == c && Xor(c << 5, v) & 31 == v
  {
  }

  lemma PopDigit(c: bv32, v: Symbol)
    requires c < 0x200_0000
    ensures Drop(Step(c, v as bv32)) == c && Digit(Step(c, v as bv32)) == v
  {
    hide Xor, Step, Digit, Drop;
    SymbolSmall(v);
    StepShifts(c, v as bv32);
    RawPop(c, v as bv32);
    DigitWide(Step(c, v as bv32));
  }

  lemma PolySnoc(c: bv32, s: seq<Symbol>, k: nat)
    requires k < |s|
    ensures Poly(c, s[..k + 1]) == Step(Poly(c, s[..k]), s[k] as bv32)
  {
    hide Step;
    assert s[..k + 1] == s[..k] + [s[k]];
    PolyConcat(c, s[..k], [s[k]]);
    PolyOne(Poly(c, s[..k]), s[k]);
  }

  lemma PolyOne(c: bv32, v: Symbol)
    ensures Poly(c, [v]) == Step(c, v as bv32)
  {
    hide Step;
    assert [v][1..] == [];
  }

  /** The six symbols cut from a remainder pack back into it. */
  lemma {:induction false} PackDigits(m: bv32, k: nat)
    requires Small(m) && k < 6
    ensures Poly(0, Digits(m)[..k + 1]) == Cut(m, k)
  {
    hide Step, Poly, Digit, Small, Cut, Drop, Digits;
    PolySnoc(0, Digits(m), k);
    CutNext(m, k);
    PushDigit(Cut(m, k));
    if k == 0 {
      PolyNone(0);
      assert Digits(m)[..0] == [];
    } else {
      PackDigits(m, k - 1);
    }
  }

  lemma PolyNone(c: bv32)
    ensures Poly(c, []) == c
  {
  }

  lemma RawFits(c: bv32, v: bv32, k: nat)
    requires k < 5 && Fits(c, k) && v < 32
    ensures c < 0x200_0000 && Fits(Xor(c << 5, v), k + 1)
  {
    if k == 0 {
    } else if k == 1 {
    } else if k == 2 {
    } else if k == 3 {
    }
  }

  lemma FitsBelow(c: bv32, k: nat)
    requires k < 6 && Fits(c, k)
    ensures c < 0x200_0000
  {
  }

  lemma FitsNext(c: bv32, v: Symbol, k: nat)
    requires k < 5 && Fits(c, k)
    ensures Fits(Step(c, v as bv32), k + 1)
  {
    hide Step, Xor, Fits;
    SymbolSmall(v);
    RawFits(c, v as bv32, k);
    StepShifts(c, v as bv32);
  }

  lemma ZeroFits()
    ensures Fits(0, 0)
  {
  }

  lemma {:induction false} PrefixFits(s: seq<Symbol>, k: nat)
    requires k <= |s| && k < 6
    ensures Fits(Poly(0, s[..k]), k)
  {
    hide Step, Poly, Xor, Fits;
    if k == 0 {
      PolyNone(0);
      assert s[..0] == [];
      ZeroFits();
    } else {
      PrefixFits(s, k - 1);
      PolySnoc(0, s, k - 1);
      FitsNext(Poly(0, s[..k - 1]), s[k - 1], k - 1);
    }
  }

  /** The remainder of six symbols determines them. */
  lemma {:induction false} DigitsOfPack(s: seq<Symbol>, k: nat)
    requires |s| == 6 && k < 6
    ensures Cut(Poly(0, s), k) == Poly(0, s[..k + 1]) && Digit(Cut(Poly(0, s), k)) == s[k]
    decreases 6 - k
  {
    hide Step, Poly, Xor, Drop, Digit, Cut, Small, Fits;
    var m := Poly(0, s);
    ZeroSmall();
    PolySmall(0, s);
    if k == 5 {
      assert s[..6] == s;
      CutLast(m);
    } else {
      DigitsOfPack(s, k + 1);
      CutNext(m, k + 1);
      PrefixFits(s, k + 1);
      FitsBelow(Poly(0, s[..k + 1]), k + 1);
      PolySnoc(0, s, k + 1);
      PopDigit(Poly(0, s[..k + 1]), s[k + 1]);
    }
    PrefixFits(s, k);
    FitsBelow(Poly(0, s[..k]), k);
    PolySnoc(0, s, k);
    PopDigit(Poly(0, s[..k]), s[k]);
  }

  lemma ZeroSmall()
    ensures Small(0) && Small(1) && Small(Constant(Classic)) && Small(Constant(Modified))
  {
  }

  lemma CutLast(m: bv32)
    ensures Cut(m, 5) == m
  {
  }

  // ----- Checksums -----

  function Zeros(n: nat): (r: seq<Symbol>)
    ensures |r| == n && forall i :: 0 <= i < n ==> r[i] == 0
  {
    seq(n, i => 0)
  }

  lemma {:induction false} XorZeros(s: seq<Symbol>)
    ensures XorAll(Zeros(|s|), s) == s
    decreases |s|
  {
    hide XorSymbol;
    if s != [] {
      assert Zeros(|s|)[1..] == Zeros(|s| - 1);
      XorZeros(s[1..]);
      XorSymbolZero(s[0], s[0]);
    }
  }

  lemma XorSymbolZero(a: Symbol, b: Symbol)
    ensures XorSymbol(0, a) == a && (XorSymbol(a, b) == 0 <==> a == b)
  {
  }

  /** Filling in the last six symbols adds their packed value to the remainder. */
  lemma FillIn(c: bv32, s: seq<Symbol>)
    requires |s| == 6
    ensures Poly(c, s) == Xor(Poly(c, Zeros(6)), Poly(0, s))
  {
    hide Xor, Poly;
    XorZeros(s);
    XorUnits(c);
    PolyLinear(c, 0, Zeros(6), s);
  }

  /** The six symbols that complete a message to a given remainder. */
  function Completion(c: bv32, target: bv32): seq<Symbol> {
    Digits(Xor(Poly(c, Zeros(6)), target))
  }

  /** They do so, and no other six symbols do. */
  lemma Completes(c: bv32, target: bv32, s: seq<Symbol>)
    requires |s| == 6 && Small(c) && Small(target)
    ensures Poly(c, s) == target <==> s == Completion(c, target)
  {
    hide Xor, Poly, Digits, Digit, Cut, Small;
    var q, m := Poly(c, Zeros(6)), Xor(Poly(c, Zeros(6)), target);
    PolySmall(c, Zeros(6));
    XorSmall(q, target);
    FillIn(c, s);
    XorCancel(q, target);
    XorCancel(q, Poly(0, s));
    if s == Completion(c, target) {
      PackDigits(m, 5);
      CutLast(m);
      assert Digits(m)[..6] == Digits(m);
    }
    if Poly(c, s) == target {
      assert Poly(0, s) == m;
      forall k | 0 <= k < 6
        ensures s[k] == Digits(m)[k]
      {
        DigitsOfPack(s, k);
      }
      assert s == Digits(m);
    }
  }

  // ----- Error bursts -----

  lemma {:induction false} ZerosAlive(c: bv32, n: nat)
    requires Small(c) && c != 0
    ensures Poly(c, Zeros(n)) != 0
    decreases n
  {
    hide Step, Small;
    if n > 0 {
      var d := Step(c, 0);
      if d == 0 {
        StepAlive(c);
        assert false;
      }
      ZeroSmall();
      StepSmall(c, 0);
      assert Zeros(n)[1..] == Zeros(n - 1);
      ZerosAlive(d, n - 1);
    }
  }

  lemma {:induction false} ZeroStays(n: nat)
    ensures Poly(0, Zeros(n)) == 0
    decreases n
  {
    hide Step;
    if n > 0 {
      assert Zeros(n)[1..] == Zeros(n - 1);
      StepZero();
      ZeroStays(n - 1);
    }
  }

  lemma StepZero()
    ensures Step(0, 0) == 0
  {
  }

  lemma BurstAlive(w: seq<Symbol>)
    requires |w| <= 6 && Poly(0, w) == 0
    ensures w == Zeros(|w|)
  {
    hide Poly, Small, Completion;
    var z := Zeros(6 - |w|);
    PolyConcat(0, z, w);
    ZeroStays(6 - |w|);
    ZeroStays(6);
    ZeroSmall();
    Completes(0, 0, z + w);
    Completes(0, 0, Zeros(6));
    assert w == (z + w)[|z|..];
  }

  lemma {:induction false} XorSame(s: seq<Symbol>, t: seq<Symbol>)
    requires |s| == |t|
    ensures XorAll(s, t) == Zeros(|s|) <==> s == t
    decreases |s|
  {
    hide XorSymbol;
    if s != [] {
      XorSame(s[1..], t[1..]);
      XorSymbolZero(s[0], t[0]);
      assert Zeros(|s|) == [0] + Zeros(|s| - 1);
      assert s == [s[0]] + s[1..] && t == [t[0]] + t[1..];
      assert XorAll(s, t)[1..] == XorAll(s[1..], t[1..]) && Zeros(|s|)[1..] == Zeros(|s| - 1);
    }
  }

  /** Two messages that differ, but only within at most six consecutive symbols, have different remainders. */
  lemma BurstDetected(c: bv32, pre: seq<Symbol>, s: seq<Symbol>, t: seq<Symbol>, post: seq<Symbol>)
    requires |s| == |t| <= 6 && s != t
    ensures Poly(c, pre + s + post) != Poly(c, pre + t + post)
  {
    hide Xor, Poly, Small, XorAll;
    var d := Poly(c, pre);
    PolyConcat(c, pre + s, post);
    PolyConcat(c, pre + t, post);
    PolyConcat(c, pre, s);
    PolyConcat(c, pre, t);
    var x, y, w := Poly(d, s), Poly(d, t), XorAll(s, t);
    XorUnits(d);
    PolyLinear(d, d, s, t);
    XorSame(s, t);
    if Poly(0, w) == 0 {
      BurstAlive(w);
      assert false;
    }
    if Poly(x, post) == Poly(y, post) {
      XorSame(post, post);
      PolyLinear(x, y, post, post);
      XorUnits(Poly(x, post));
      ZeroSmall();
      PolySmall(0, w);
      ZerosAlive(Poly(0, w), |post|);
      assert false;
    }
  }

  // ----- Text -----

  const SEPARATOR: Byte := 0x31

  /** The alphabet, qpzry9x8gf2tvdw0 and s3jn54khce6mua7l. */
  function Letter(s: Symbol): Byte {
    if s < 16 then FirstLetter(s) else SecondLetter(s)
  }

  function FirstLetter(s: Symbol): Byte {
    if s == 0 then 0x71 else if s == 1 then 0x70 else if s == 2 then 0x7a else if s == 3 then 0x72
    else if s == 4 then 0x79 else if s == 5 then 0x39 else if s == 6 then 0x78 else if s == 7 then 0x38
    else if s == 8 then 0x67 else if s == 9 then 0x66 else if s == 10 then 0x32 else if s == 11 then 0x74
    else if s == 12 then 0x76 else if s == 13 then 0x64 else if s == 14 then 0x77 else 0x30
  }

  function SecondLetter(s: Symbol): Byte {
    if s == 16 then 0x73 else if s == 17 then 0x33 else if s == 18 then 0x6a else if s == 19 then 0x6e
    else if s == 20 then 0x35 else if s == 21 then 0x34 else if s == 22 then 0x6b else if s == 23 then 0x68
    else if s == 24 then 0x63 else if s == 25 then 0x65 else if s == 26 then 0x36 else if s == 27 then 0x6d
    else if s == 28 then 0x75 else if s == 29 then 0x61 else if s == 30 then 0x37 else 0x6c
  }

  function Lower(c: Byte): Byte {
    if 0x41 <= c <= 0x5a then c - 0x41 + 0x61 else c
  }

  function LowerValue(b: Byte): Option<Symbol> {
    if FirstValue(b).Some? then FirstValue(b) else SecondValue(b)
  }

  function FirstValue(b: Byte): Option<Symbol> {
    if b == 0x71 then Some(0) else if b == 0x70 then Some(1) else if b == 0x7a then Some(2) else if b == 0x72 then Some(3)
    else if b == 0x79 then Some(4) else if b == 0x39 then Some(5) else if b == 0x78 then Some(6) else if b == 0x38 then Some(7)
    else if b == 0x67 then Some(8) else if b == 0x66 then Some(9) else if b == 0x32 then Some(10) else if b == 0x74 then Some(11)
    else if b == 0x76 then Some(12) else if b == 0x64 then Some(13) else if b == 0x77 then Some(14) else if b == 0x30 then Some(15) else None
  }

  function SecondValue(b: Byte): Option<Symbol> {
    if b == 0x73 then Some(16) else if b == 0x33 then Some(17) else if b == 0x6a then Some(18) else if b == 0x6e then Some(19)
    else if b == 0x35 then Some(20) else if b == 0x34 then Some(21) else if b == 0x6b then Some(22) else if b == 0x68 then Some(23)
    else if b == 0x63 then Some(24) else if b == 0x65 then Some(25) else if b == 0x36 then Some(26) else if b == 0x6d then Some(27)
    else if b == 0x75 then Some(28) else if b == 0x61 then Some(29) else if b == 0x37 then Some(30) else if b == 0x6c then Some(31) else None
  }

  /** The value of a character of the alphabet, in either case. */
  function Value(c: Byte): Option<Symbol> {
    LowerValue(Lower(c))
  }

  lemma FirstHasValue(s: Symbol)
    requires s < 16
    ensures FirstValue(FirstLetter(s)) == Some(s)
  {
  }

  lemma SecondHasValue(s: Symbol)
    requires s >= 16
    ensures SecondValue(SecondLetter(s)) == Some(s)
  {
  }

  lemma SecondNotFirst(s: Symbol)
    requires s >= 16
    ensures FirstValue(SecondLetter(s)).None?
  {
  }

  lemma LetterHasValue(s: Symbol)
    ensures LowerValue(Letter(s)) == Some(s)
  {
    hide FirstValue, SecondValue, FirstLetter, SecondLetter;
    if s < 16 {
      FirstHasValue(s);
    } else {
      SecondHasValue(s);
      SecondNotFirst(s);
    }
  }

  lemma ValueIsLetter(b: Byte)
    requires LowerValue(b).Some?
    ensures b == Letter(LowerValue(b).value)
  {
  }

  lemma ValueOfLetter(c: Byte, s: Symbol)
    ensures Value(c) == Some(s) <==> Lower(c) == Letter(s)
  {
    hide Lower, Letter, LowerValue;
    LetterHasValue(s);
    if Value(c).Some? {
      ValueIsLetter(Lower(c));
    }
  }

  lemma LetterShape(s: Symbol)
    ensures Letter(s) != SEPARATOR
  {
  }

  lemma LowerSeparator(c: Byte)
    ensures Lower(c) == SEPARATOR <==> c == SEPARATOR
  {
  }

  function High(c: Byte): Symbol {
    ByteParts(c);
    c >> 5
  }

  function Low(c: Byte): Symbol {
    ByteParts(c);
    c & 0x1f
  }

  lemma ByteParts(c: Byte)
    ensures c >> 5 < 32 && c & 0x1f < 32
  {
  }

  function ExpandPrefix(hrp: seq<Byte>): seq<Symbol> {
    seq(|hrp|, i requires 0 <= i < |hrp| => High(hrp[i])) + [0] + seq(|hrp|, i requires 0 <= i < |hrp| => Low(hrp[i]))
  }

  /** A byte of three upper and five lower bits. */
  function Join(high: Byte, low: Byte): Byte {
    (high << 5) | low
  }

  /** Both parts of a character together give it back. */
  lemma PartsJoin(c: Byte)
    ensures Join(High(c), Low(c)) == c
  {
  }

  /** The upper parts of all characters, a zero, and the lower parts. */
  lemma ExpandedParts(hrp: seq<Byte>, i: nat)
    requires i < |hrp|
    ensures var e, n := ExpandPrefix(hrp), |hrp|;
            |e| == 2 * n + 1 && e[n] == 0 && Join(e[i], e[n + 1 + i]) == hrp[i] && e[i] < 8
  {
    hide High, Low, Join;
    PartsJoin(hrp[i]);
    HighBound(hrp[i]);
  }

  lemma HighBound(c: Byte)
    ensures High(c) < 8
  {
  }

  /** Different prefixes are expanded to different symbols. */
  lemma ExpandInjective(p: seq<Byte>, q: seq<Byte>)
    requires ExpandPrefix(p) == ExpandPrefix(q)
    ensures p == q
  {
    hide High, Low, Join;
    assert |ExpandPrefix(p)| == 2 * |p| + 1 && |ExpandPrefix(q)| == 2 * |q| + 1;
    forall i | 0 <= i < |p| ensures p[i] == q[i] {
      ExpandedParts(p, i);
      ExpandedParts(q, i);
    }
  }

  lemma ExpandedSize(hrp: seq<Byte>)
    ensures |ExpandPrefix(hrp)| == 2 * |hrp| + 1
  {
    hide High, Low;
  }

  /** A character that stays keeps both its symbols. */
  lemma ExpandSame(p: seq<Byte>, q: seq<Byte>, x: nat)
    requires |p| == |q| && x < 2 * |p| + 1
    requires x < |p| ==> p[x] == q[x]
    requires x > |p| ==> p[x - |p| - 1] == q[x - |p| - 1]
    ensures |ExpandPrefix(p)| == |ExpandPrefix(q)| == 2 * |p| + 1 && ExpandPrefix(p)[x] == ExpandPrefix(q)[x]
  {
    hide High, Low;
  }

  function Letters(values: seq<Symbol>): (r: seq<Byte>)
    ensures |r| == |values| && forall i :: 0 <= i < |r| ==> r[i] == Letter(values[i])
  {
    seq(|values|, i requires 0 <= i < |values| => Letter(values[i]))
  }

  function LowerAll(str: seq<Byte>): (r: seq<Byte>)
    ensures |r| == |str| && forall i :: 0 <= i < |r| ==> r[i] == Lower(str[i])
  {
    seq(|str|, i requires 0 <= i < |str| => Lower(str[i]))
  }

  /** The remainder of a prefix and its values. */
  function Check(hrp: seq<Byte>, values: seq<Symbol>): bv32 {
    Poly(1, ExpandPrefix(hrp) + values)
  }

  function Checksum(e: Encoding, hrp: seq<Byte>, values: seq<Symbol>): (r: seq<Symbol>)
    ensures |r| == 6
  {
    Completion(Check(hrp, values), Constant(e))
  }

  /** The text of a prefix and values. */
  function Text(e: Encoding, hrp: seq<Byte>, values: seq<Symbol>): seq<Byte> {
    hrp + [SEPARATOR] + Letters(values + Checksum(e, hrp, values))
  }

  predicate UpperLetter(c: Byte) {
    0x41 <= c <= 0x5a
  }

  predicate LowerLetter(c: Byte) {
    0x61 <= c <= 0x7a
  }

  predicate Printable(c: Byte) {
    33 <= c <= 126
  }

  /** Printable characters lie between the blank and DEL; the cases differ in one bit. */
  lemma CharactersAre(c: Byte)
    ensures Printable(c) <==> (' ' as bv8) < c < 127
    ensures UpperLetter(c) <==> ('A' as bv8) <= c <= ('Z' as bv8)
    ensures LowerLetter(c) <==> ('a' as bv8) <= c <= ('z' as bv8)
    ensures UpperLetter(c) <==> LowerLetter(c | 0x20) && c & 0x20 == 0
    ensures Lower(c) == if UpperLetter(c) then c | 0x20 else c
  {
  }

  /** All characters printable, and not both cases among them. */
  ghost predicate Clean(str: seq<Byte>) {
    && (forall i :: 0 <= i < |str| ==> Printable(str[i]))
    && ((forall i :: 0 <= i < |str| ==> !UpperLetter(str[i])) || (forall i :: 0 <= i < |str| ==> !LowerLetter(str[i])))
  }

  datatype Decoded = Invalid | Valid(encoding: Encoding, hrp: seq<Byte>, data: seq<Symbol>)

  /** The string is, up to case, the encoding of the message. */
  ghost predicate Encodes(str: seq<Byte>, d: Decoded)
  {
    && d.Valid? && |str| <= 90 && Clean(str) && d.hrp != []
    && LowerAll(str) == Text(d.encoding, d.hrp, d.data)
  }

  /** Six symbols at the end check out exactly when they are the checksum. */
  lemma ChecksumIff(e: Encoding, hrp: seq<Byte>, values: seq<Symbol>, tail: seq<Symbol>)
    requires |tail| == 6
    ensures Check(hrp, values + tail) == Constant(e) <==> tail == Checksum(e, hrp, values)
  {
    hide Poly, Small, Constant, Completion, ExpandPrefix;
    assert ExpandPrefix(hrp) + (values + tail) == ExpandPrefix(hrp) + values + tail;
    PolyConcat(1, ExpandPrefix(hrp) + values, tail);
    ZeroSmall();
    PolySmall(1, ExpandPrefix(hrp) + values);
    ConstantSmall(e);
    Completes(Check(hrp, values), Constant(e), tail);
  }

  lemma ConstantSmall(e: Encoding)
    ensures Small(Constant(e))
  {
  }

  lemma ConstantsDiffer(e: Encoding, e': Encoding)
    requires Constant(e) == Constant(e')
    ensures e == e'
  {
  }

  /** Where the last separator of a text is. */
  ghost predicate LastSeparator(str: seq<Byte>, pos: nat) {
    pos < |str| && str[pos] == SEPARATOR && forall i :: pos < i < |str| ==> str[i] != SEPARATOR
  }

  lemma LastSeparatorUnique(str: seq<Byte>, i: nat, j: nat)
    requires LastSeparator(str, i) && LastSeparator(str, j)
    ensures i == j
  {
  }

  lemma TextParts(e: Encoding, hrp: seq<Byte>, values: seq<Symbol>)
    ensures var vs, text := values + Checksum(e, hrp, values), Text(e, hrp, values);
            && |text| == |hrp| + 1 + |vs| && text[|hrp|] == SEPARATOR
            && (forall i :: 0 <= i < |hrp| ==> text[i] == hrp[i])
            && forall i :: 0 <= i < |vs| ==> text[|hrp| + 1 + i] == Letter(vs[i])
  {
    hide Letter, Checksum;
  }

  /** The shape every encoding has. */
  lemma EncodingShape(str: seq<Byte>, d: Decoded)
    requires d.Valid? && Encodes(str, d)
    ensures LastSeparator(str, |d.hrp|) && |str| == |d.hrp| + 7 + |d.data|
    ensures forall i :: 0 <= i < |d.hrp| ==> Lower(str[i]) == d.hrp[i]
    ensures var vs := d.data + Checksum(d.encoding, d.hrp, d.data);
            forall i :: 0 <= i < |vs| ==> Value(str[|d.hrp| + 1 + i]) == Some(vs[i])
  {
    hide Lower, Letter, Value, Checksum, Clean, Text;
    var n, vs := |d.hrp|, d.data + Checksum(d.encoding, d.hrp, d.data);
    TextParts(d.encoding, d.hrp, d.data);
    LowerSeparator(str[n]);
    forall i | 0 <= i < |vs|
      ensures Value(str[n + 1 + i]) == Some(vs[i])
    {
      ValueOfLetter(str[n + 1 + i], vs[i]);
    }
    forall i | n < i < |str|
      ensures str[i] != SEPARATOR
    {
      var k := i - n - 1;
      assert LowerAll(str)[n + 1 + k] == Letter(vs[k]);
      LetterShape(vs[k]);
      LowerSeparator(str[i]);
    }
  }

  /** A string of that shape whose last six symbols check out is an encoding. */
  lemma ShapeEncodes(str: seq<Byte>, e: Encoding, pos: nat, vs: seq<Symbol>)
    requires |str| <= 90 && Clean(str) && 0 < pos && LastSeparator(str, pos) && |str| == pos + 1 + |vs| && |vs| >= 6
    requires forall i :: 0 <= i < |vs| ==> Value(str[pos + 1 + i]) == Some(vs[i])
    requires Check(LowerAll(str[..pos]), vs) == Constant(e)
    ensures Encodes(str, Valid(e, LowerAll(str[..pos]), vs[..|vs| - 6]))
  {
    hide Lower, Letter, Value, Checksum, Clean, Text, Check, Constant;
    var hrp, data, tail := LowerAll(str[..pos]), vs[..|vs| - 6], vs[|vs| - 6..];
    assert vs == data + tail;
    ChecksumIff(e, hrp, data, tail);
    TextParts(e, hrp, data);
    LowerSeparator(str[pos]);
    var text := Text(e, hrp, data);
    forall i | 0 <= i < |str|
      ensures LowerAll(str)[i] == text[i]
    {
      if i > pos {
        var k := i - pos - 1;
        assert Value(str[pos + 1 + k]) == Some(vs[k]);
        ValueOfLetter(str[i], vs[k]);
        assert text[|hrp| + 1 + k] == Letter(vs[k]);
      }
    }
    assert LowerAll(str) == text;
  }

  /** A string encodes at most one message. */
  lemma EncodesUnique(str: seq<Byte>, d: Decoded, d': Decoded)
    requires d.Valid? && d'.Valid? && Encodes(str, d) && Encodes(str, d')
    ensures d == d'
  {
    hide Lower, Value, Checksum, Encodes, Check, Constant;
    EncodingShape(str, d);
    EncodingShape(str, d');
    LastSeparatorUnique(str, |d.hrp|, |d'.hrp|);
    assert d.hrp == d'.hrp;
    var c, c' := Checksum(d.encoding, d.hrp, d.data), Checksum(d'.encoding, d'.hrp, d'.data);
    var vs, vs' := d.data + c, d'.data + c';
    forall i | 0 <= i < |vs|
      ensures vs[i] == vs'[i]
    {
      assert Some(vs[i]) == Value(str[|d.hrp| + 1 + i]) == Some(vs'[i]);
    }
    assert vs == vs';
    assert d.data == vs[..|d.data|] == d'.data && c == vs[|d.data|..] == c';
    ChecksumIff(d.encoding, d.hrp, d.data, c);
    ChecksumIff(d'.encoding, d.hrp, d.data, c);
    ConstantsDiffer(d.encoding, d'.encoding);
  }

  // ----- The code -----

  method PolyMod(v: seq<Symbol>) returns (c: bv32)
    ensures c == Poly(1, v)
  {
    hide Step, Poly;
    c := 1;
    PolyNone(1);
    assert v[..0] == [];
    var i := 0;
    while i < |v|
      invariant 0 <= i <= |v| && c == Poly(1, v[..i])
    {
      PolySnoc(1, v, i);
      c := Step(c, v[i] as bv32);
      i := i + 1;
    }
    assert v[..i] == v;
  }

  method ExpandHrp(hrp: seq<Byte>) returns (r: seq<Symbol>)
    ensures r == ExpandPrefix(hrp)
  {
    hide High, Low;
    var n := |hrp|;
    var ret := new Symbol[2 * n + 1](i => 0);
    var i := 0;
    while i < n
      invariant 0 <= i <= n
      invariant forall j :: 0 <= j < i ==> ret[j] == High(hrp[j]) && ret[j + n + 1] == Low(hrp[j])
    {
      ret[i] := High(hrp[i]);
      ret[i + n + 1] := Low(hrp[i]);
      i := i + 1;
    }
    ret[n] := 0;
    r := ret[..];
    forall j | 0 <= j < |r|
      ensures r[j] == ExpandPrefix(hrp)[j]
    {
      if j > n {
        assert r[j] == ret[(j - n - 1) + n + 1];
      }
    }
  }

  method VerifyChecksum(hrp: seq<Byte>, values: seq<Symbol>) returns (e: Option<Encoding>)
    ensures e.Some? ==> Check(hrp, values) == Constant(e.value)
    ensures e.None? ==> forall k :: Check(hrp, values) != Constant(k)
  {
    hide Poly, ExpandPrefix, Constant;
    var prefix := ExpandHrp(hrp);
    var check := PolyMod(prefix + values);
    if check == Constant(Classic) {
      return Some(Classic);
    }
    if check == Constant(Modified) {
      return Some(Modified);
    }
    forall k: Encoding
      ensures check != Constant(k)
    {
      match k
      case Classic =>
      case Modified =>
    }
    return None;
  }

  method CreateChecksum(e: Encoding, hrp: seq<Byte>, values: seq<Symbol>) returns (r: seq<Symbol>)
    ensures r == Checksum(e, hrp, values)
  {
    hide Poly, ExpandPrefix, Constant, Xor, Digit, Cut;
    var prefix := ExpandHrp(hrp);
    var enc := prefix + values;
    var polymod := PolyMod(enc + Zeros(6));
    PolyConcat(1, enc, Zeros(6));
    var m := Xor(polymod, Constant(e));
    r := [];
    var i := 0;
    while i < 6
      invariant 0 <= i <= 6 && r == Digits(m)[..i]
    {
      r := r + [Digit(Cut(m, i))];
      i := i + 1;
    }
  }

  method Encode(e: Encoding, hrp: seq<Byte>, values: seq<Symbol>) returns (ret: seq<Byte>)
    requires forall i :: 0 <= i < |hrp| ==> !UpperLetter(hrp[i])
    ensures ret == Text(e, hrp, values)
  {
    hide Checksum, Letter;
    var checksum := CreateChecksum(e, hrp, values);
    var combined := values + checksum;
    ret := hrp + [SEPARATOR];
    var i := 0;
    while i < |combined|
      invariant 0 <= i <= |combined| && ret == hrp + [SEPARATOR] + Letters(combined)[..i]
    {
      ret := ret + [Letter(combined[i])];
      i := i + 1;
    }
    assert Letters(combined)[..i] == Letters(combined);
  }

  method FindLast(str: seq<Byte>) returns (pos: int)
    ensures pos >= 0 ==> LastSeparator(str, pos)
    ensures pos < 0 ==> forall i :: 0 <= i < |str| ==> str[i] != SEPARATOR
  {
    pos := |str| - 1;
    while pos >= 0 && str[pos] != SEPARATOR
      invariant -1 <= pos < |str| && forall i :: pos < i < |str| ==> str[i] != SEPARATOR
    {
      pos := pos - 1;
    }
  }

  /** The first loop: rejects unprintable characters and mixed case. */
  method CheckCharacters(str: seq<Byte>) returns (clean: bool)
    ensures clean <==> Clean(str)
  {
    hide UpperLetter, LowerLetter, Printable;
    var lower, upper := false, false;
    var i := 0;
    while i < |str|
      invariant 0 <= i <= |str|
      invariant forall j :: 0 <= j < i ==> Printable(str[j])
      invariant lower <==> exists j :: 0 <= j < i && LowerLetter(str[j])
      invariant upper <==> exists j :: 0 <= j < i && UpperLetter(str[j])
    {
      LettersPrint(str[i]);
      if LowerLetter(str[i]) {
        lower := true;
      } else if UpperLetter(str[i]) {
        upper := true;
      } else if !Printable(str[i]) {
        return false;
      }
      i := i + 1;
    }
    clean := !(lower && upper);
  }

  lemma LettersPrint(c: Byte)
    ensures LowerLetter(c) || UpperLetter(c) ==> Printable(c)
    ensures !(LowerLetter(c) && UpperLetter(c))
  {
  }

  method Decode(str: seq<Byte>) returns (d: Decoded)
    ensures d.Valid? ==> Encodes(str, d)
    ensures d.Invalid? ==> forall x :: !Encodes(str, x)
  {
    hide Clean, Encodes, Value, Lower, Check, Constant, Checksum;
    var clean := CheckCharacters(str);
    if !clean {
      Refused(str);
      return Invalid;
    }
    var pos := FindLast(str);
    if |str| > 90 || pos < 0 || pos == 0 || pos + 7 > |str| {
      NoRoom(str, pos);
      return Invalid;
    }
    var values: seq<Symbol> := [];
    var i := 0;
    while i < |str| - 1 - pos
      invariant 0 <= i <= |str| - 1 - pos && |values| == i
      invariant forall j :: 0 <= j < i ==> Value(str[pos + 1 + j]) == Some(values[j])
    {
      var rev := Value(str[i + pos + 1]);
      if rev.None? {
        BadCharacter(str, pos, i);
        return Invalid;
      }
      values := values + [rev.value];
      i := i + 1;
    }
    var hrp := [];
    i := 0;
    while i < pos
      invariant 0 <= i <= pos && hrp == LowerAll(str[..pos])[..i]
    {
      hrp := hrp + [Lower(str[i])];
      i := i + 1;
    }
    assert hrp == LowerAll(str[..pos]);
    var e := VerifyChecksum(hrp, values);
    if e.None? {
      BadChecksum(str, pos, values);
      return Invalid;
    }
    ShapeEncodes(str, e.value, pos, values);
    return Valid(e.value, hrp, values[..|values| - 6]);
  }

  lemma Refused(str: seq<Byte>)
    requires !Clean(str)
    ensures forall x :: !Encodes(str, x)
  {
    hide Clean;
  }

  lemma SeparatorFound(str: seq<Byte>, pos: int, x: Decoded)
    requires x.Valid? && Encodes(str, x)
    requires pos >= 0 ==> LastSeparator(str, pos)
    requires pos < 0 ==> forall i :: 0 <= i < |str| ==> str[i] != SEPARATOR
    ensures 0 < pos == |x.hrp| && pos + 7 <= |str| <= 90
  {
    hide Clean, Text, Checksum;
    EncodingShape(str, x);
    if pos >= 0 {
      LastSeparatorUnique(str, pos, |x.hrp|);
    }
  }

  lemma NoRoom(str: seq<Byte>, pos: int)
    requires pos >= 0 ==> LastSeparator(str, pos)
    requires pos < 0 ==> forall i :: 0 <= i < |str| ==> str[i] != SEPARATOR
    requires |str| > 90 || pos < 0 || pos == 0 || pos + 7 > |str|
    ensures forall x :: !Encodes(str, x)
  {
    hide Encodes;
    forall x
      ensures !Encodes(str, x)
    {
      if Encodes(str, x) {
        EncodesValid(str, x);
        SeparatorFound(str, pos, x);
      }
    }
  }

  lemma EncodesValid(str: seq<Byte>, x: Decoded)
    requires Encodes(str, x)
    ensures x.Valid?
  {
  }

  lemma CharacterHasValue(str: seq<Byte>, pos: nat, i: nat, x: Decoded)
    requires x.Valid? && Encodes(str, x) && LastSeparator(str, pos) && pos + 1 + i < |str|
    ensures Value(str[i + pos + 1]).Some?
  {
    hide Clean, Text, Value, Checksum, Lower;
    EncodingShape(str, x);
    LastSeparatorUnique(str, pos, |x.hrp|);
    var vs := x.data + Checksum(x.encoding, x.hrp, x.data);
    assert Value(str[|x.hrp| + 1 + i]) == Some(vs[i]);
  }

  lemma BadCharacter(str: seq<Byte>, pos: nat, i: nat)
    requires LastSeparator(str, pos) && pos + 1 + i < |str| && Value(str[i + pos + 1]).None?
    ensures forall x :: !Encodes(str, x)
  {
    hide Encodes, Value;
    forall x
      ensures !Encodes(str, x)
    {
      if Encodes(str, x) {
        EncodesValid(str, x);
        CharacterHasValue(str, pos, i, x);
      }
    }
  }

  lemma ValuesCheck(str: seq<Byte>, pos: nat, values: seq<Symbol>, x: Decoded)
    requires x.Valid? && Encodes(str, x) && LastSeparator(str, pos) && |str| == pos + 1 + |values|
    requires forall j :: 0 <= j < |values| ==> Value(str[pos + 1 + j]) == Some(values[j])
    ensures Check(LowerAll(str[..pos]), values) == Constant(x.encoding)
  {
    hide Clean, Text, Value, Checksum, Lower, Check, Constant;
    EncodingShape(str, x);
    LastSeparatorUnique(str, pos, |x.hrp|);
    var c := Checksum(x.encoding, x.hrp, x.data);
    var vs := x.data + c;
    forall i | 0 <= i < |vs|
      ensures vs[i] == values[i]
    {
      assert Some(vs[i]) == Value(str[pos + 1 + i]) == Some(values[i]);
    }
    assert vs == values;
    assert x.hrp == LowerAll(str[..pos]);
    ChecksumIff(x.encoding, x.hrp, x.data, c);
  }

  lemma BadChecksum(str: seq<Byte>, pos: nat, values: seq<Symbol>)
    requires LastSeparator(str, pos) && |str| == pos + 1 + |values|
    requires forall j :: 0 <= j < |values| ==> Value(str[pos + 1 + j]) == Some(values[j])
    requires forall k :: Check(LowerAll(str[..pos]), values) != Constant(k)
    ensures forall x :: !Encodes(str, x)
  {
    hide Encodes, Value, Check, Constant;
    forall x
      ensures !Encodes(str, x)
    {
      if Encodes(str, x) {
        EncodesValid(str, x);
        ValuesCheck(str, pos, values, x);
      }
    }
  }

  // ----- Round trip -----

  lemma LowerCaseLetter(s: Symbol)
    ensures Printable(Letter(s)) && !UpperLetter(Letter(s))
  {
  }

  lemma LowerFixed(c: Byte)
    requires !UpperLetter(c)
    ensures Lower(c) == c
  {
  }

  lemma SeparatorShape()
    ensures Printable(SEPARATOR) && !UpperLetter(SEPARATOR)
  {
  }

  lemma TextEncodes(e: Encoding, hrp: seq<Byte>, values: seq<Symbol>)
    requires hrp != [] && |hrp| + 7 + |values| <= 90
    requires forall i :: 0 <= i < |hrp| ==> Printable(hrp[i]) && !UpperLetter(hrp[i])
    ensures Encodes(Text(e, hrp, values), Valid(e, hrp, values))
  {
    hide Text, Letter, Lower, Printable, UpperLetter, LowerLetter, Checksum;
    var text, vs := Text(e, hrp, values), values + Checksum(e, hrp, values);
    TextParts(e, hrp, values);
    SeparatorShape();
    forall i | 0 <= i < |text|
      ensures Printable(text[i]) && !UpperLetter(text[i]) && Lower(text[i]) == text[i]
    {
      if i > |hrp| {
        var k := i - |hrp| - 1;
        assert text[|hrp| + 1 + k] == Letter(vs[k]);
        LowerCaseLetter(vs[k]);
      }
      LowerFixed(text[i]);
    }
    assert LowerAll(text) == text;
  }

  method RoundTrip(e: Encoding, hrp: seq<Byte>, values: seq<Symbol>) returns (d: Decoded)
    requires hrp != [] && |hrp| + 7 + |values| <= 90
    requires forall i :: 0 <= i < |hrp| ==> Printable(hrp[i]) && !UpperLetter(hrp[i])
    ensures d == Valid(e, hrp, values)
  {
    hide Encodes, Text, Printable, UpperLetter;
    var str := Encode(e, hrp, values);
    TextEncodes(e, hrp, values);
    d := Decode(str);
    EncodesUnique(str, d, Valid(e, hrp, values));
  }

  /**
    Changing at most six consecutive characters after the separator, other than by case and
    without writing another separator, never gives a string that decodes under the same encoding.
  */
  lemma TypoDetected(str: seq<Byte>, str': seq<Byte>, d: Decoded, d': Decoded, from: nat, to: nat)
    requires d.Valid? && d'.Valid? && Encodes(str, d) && Encodes(str', d')
    requires |str'| == |str| && |d.hrp| < from <= to <= |str| && to - from <= 6
    requires forall i :: 0 <= i < |str| && !(from <= i < to) ==> str'[i] == str[i]
    requires LastSeparator(str', |d.hrp|) && LowerAll(str') != LowerAll(str)
    ensures d'.encoding != d.encoding
  {
    hide Value, Lower, Letter, Check, Constant, Encodes, Checksum;
    EncodingShape(str, d);
    EncodingShape(str', d');
    var n := |d.hrp|;
    LastSeparatorUnique(str', n, |d'.hrp|);
    assert d'.hrp == d.hrp;
    var vs, vs' := d.data + Checksum(d.encoding, d.hrp, d.data), d'.data + Checksum(d'.encoding, d'.hrp, d'.data);
    var i, j := from - n - 1, to - n - 1;
    forall k | 0 <= k < |vs| && !(i <= k < j)
      ensures vs[k] == vs'[k]
    {
      assert Some(vs[k]) == Value(str[n + 1 + k]) == Value(str'[n + 1 + k]) == Some(vs'[k]);
    }
    Window(vs, vs', i, j);
    EncodedForm(str, d);
    EncodedForm(str', d');
    BurstInValues(d.hrp, vs[..i], vs[i..j], vs'[i..j], vs[j..]);
    ChecksumIff(d.encoding, d.hrp, d.data, Checksum(d.encoding, d.hrp, d.data));
    ChecksumIff(d'.encoding, d'.hrp, d'.data, Checksum(d'.encoding, d'.hrp, d'.data));
  }

  lemma Window(vs: seq<Symbol>, ws: seq<Symbol>, i: nat, j: nat)
    requires i <= j <= |vs| == |ws| && forall k :: 0 <= k < |vs| && !(i <= k < j) ==> vs[k] == ws[k]
    ensures vs == vs[..i] + vs[i..j] + vs[j..] && ws == vs[..i] + ws[i..j] + vs[j..]
  {
  }

  lemma EncodedForm(str: seq<Byte>, d: Decoded)
    requires d.Valid? && Encodes(str, d)
    ensures LowerAll(str) == d.hrp + [SEPARATOR] + Letters(d.data + Checksum(d.encoding, d.hrp, d.data))
  {
  }

  lemma BurstInValues(hrp: seq<Byte>, a: seq<Symbol>, s: seq<Symbol>, t: seq<Symbol>, b: seq<Symbol>)
    requires |s| == |t| <= 6 && s != t
    ensures Check(hrp, a + s + b) != Check(hrp, a + t + b)
  {
    hide Poly, ExpandPrefix;
    var p := ExpandPrefix(hrp);
    assert p + (a + s + b) == (p + a) + s + b && p + (a + t + b) == (p + a) + t + b;
    BurstDetected(1, p + a, s, t, b);
  }

  // ----- Two known addresses -----

  /** The polynomial along a message whose remainders are given. */
  ghost predicate Runs(vs: seq<Symbol>, cs: seq<bv32>) {
    |cs| == |vs| + 1 && forall i :: 0 <= i < |vs| ==> Step(cs[i], vs[i] as bv32) == cs[i + 1]
  }

  lemma {:induction false} PolyAlong(vs: seq<Symbol>, cs: seq<bv32>)
    requires Runs(vs, cs)
    ensures Poly(cs[0], vs) == cs[|vs|]
    decreases |vs|
  {
    hide Step;
    if vs != [] {
      assert Runs(vs[1..], cs[1..]);
      PolyAlong(vs[1..], cs[1..]);
    }
  }

  function Shown(str: seq<Byte>): (r: string)
    ensures |r| == |str| && forall i :: 0 <= i < |r| ==> r[i] == str[i] as char
  {
    seq(|str|, i requires 0 <= i < |str| => str[i] as char)
  }

  /** The alphabet in the order of the values. */
  lemma FirstHalf()
    ensures Shown(Letters([0, 1, 2, 3, 4, 5, 6, 7])) == "qpzry9x8"
    ensures Shown(Letters([8, 9, 10, 11, 12, 13, 14, 15])) == "gf2tvdw0"
  {
  }

  lemma SecondHalf()
    ensures Shown(Letters([16, 17, 18, 19, 20, 21, 22, 23])) == "s3jn54kh"
    ensures Shown(Letters([24, 25, 26, 27, 28, 29, 30, 31])) == "ce6mua7l"
  {
  }

  lemma PrefixA()
    ensures Check([0x61], []) == 0x8c01
  {
    assert ExpandPrefix([0x61]) + [] == [3, 0, 1];
    PolyAlong([3, 0, 1], [1, 0x23, 0x460, 0x8c01]);
  }

  /** The shortest addresses of the two encodings with prefix a. */
  lemma ShortestClassic()
    ensures Shown(Text(Classic, [0x61], [])) == "a12uel5l"
  {
    hide Poly, Step, Completion, Check, Checksum, Text;
    ClassicTail();
    TextIs(Classic, [0x61], [10, 28, 25, 31, 20, 31]);
  }

  lemma ShortestModified()
    ensures Shown(Text(Modified, [0x61], [])) == "a1lqfn3a"
  {
    hide Poly, Step, Completion, Check, Checksum, Text;
    ModifiedTail();
    TextIs(Modified, [0x61], [31, 0, 9, 19, 17, 29]);
  }

  lemma TextIs(e: Encoding, hrp: seq<Byte>, tail: seq<Symbol>)
    requires Checksum(e, hrp, []) == tail
    ensures Text(e, hrp, []) == hrp + [SEPARATOR] + Letters(tail)
  {
    assert [] + tail == tail;
  }

  lemma ClassicTail()
    ensures Checksum(Classic, [0x61], []) == [10, 28, 25, 31, 20, 31]
  {
    hide Check, Completion;
    PrefixA();
    PolyAlong([10, 28, 25, 31, 20, 31], [0x8c01, 0x11802a, 0x230055c, 0x3d6afc2b, 0x2f84386, 0x24622766, 0x1]);
    Completes(0x8c01, 1, [10, 28, 25, 31, 20, 31]);
  }

  lemma ModifiedTail()
    ensures Checksum(Modified, [0x61], []) == [31, 0, 9, 19, 17, 29]
  {
    hide Check, Completion;
    PrefixA();
    PolyAlong([31, 0, 9, 19, 17, 29], [0x8c01, 0x11803f, 0x23007e0, 0x3d6aabbb, 0x2f2b18a, 0x253c66e3, 0x2bc830a3]);
    Completes(0x8c01, 0x2bc830a3, [31, 0, 9, 19, 17, 29]);
  }
}
