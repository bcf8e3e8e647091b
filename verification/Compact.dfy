/** The compact form of a target, and the work a target stands for. */
module Compact {

  import opened Arithmetic
  import opened Limbs
  import opened ArithUint
  import opened ArithBits

  // ----- The format -----

  function Size(c: nat): nat {
    c / 0x100_0000
  }

  function Word(c: nat): nat {
    c % 0x80_0000
  }

  predicate SignBit(c: nat) {
    c / 0x80_0000 % 2 == 1
  }

  /** The mantissa of a compact number, cut down where the exponent is below three. */
  function Mantissa(c: nat): nat {
    if Size(c) <= 3 then Word(c) / Two(8 * (3 - Size(c))) else Word(c)
  }

  /** The weight of the mantissa's last byte. */
  function Unit(size: nat): (u: nat)
    ensures u > 0
  {
    if size <= 3 then 1 else Two(8 * (size - 3))
  }

  /** The number a compact form stands for, in full width. */
  function Expand(c: nat): nat {
    Mantissa(c) * Unit(Size(c))
  }

  /** How many bytes a number takes. */
  function ByteLen(v: nat): nat {
    if v == 0 then 0 else 1 + ByteLen(v / 256)
  }

  /** The top three bytes of a number of `size` bytes. */
  function TopBytes(v: nat, size: nat): nat {
    if size <= 3 then v * Two(8 * (3 - size)) else v / Two(8 * (size - 3))
  }

  /** The compact form of a number. */
  function Shrink(v: nat): nat {
    var s, m := ByteLen(v), TopBytes(v, ByteLen(v));
    if m < 0x80_0000 then s * 0x100_0000 + m else (s + 1) * 0x100_0000 + m / 256
  }

  lemma {:induction false} ByteLenBounds(v: nat)
    ensures v < Two(8 * ByteLen(v)) && (v > 0 ==> ByteLen(v) > 0 && Two(8 * (ByteLen(v) - 1)) <= v)
  {
    hide Two;
    if v == 0 {
      TwoStep(0);
    } else {
      var n := ByteLen(v / 256);
      ByteLenBounds(v / 256);
      TwoWords();
      TwoAdd(8, 8 * n);
      if n == 0 {
        TwoStep(0);
      } else {
        TwoAdd(8, 8 * (n - 1));
      }
    }
  }

  /** The byte length is the bit length rounded up. */
  lemma BytesFromBits(v: nat, n: nat)
    requires BitLength(v, n)
    ensures (n + 7) / 8 == ByteLen(v)
  {
    hide Two;
    ByteLenBounds(v);
    var s := ByteLen(v);
    NoBits(v, n);
    if v > 0 {
      if n > 8 * s {
        TwoMonotone(8 * s, n - 1);
      } else if n <= 8 * (s - 1) {
        TwoMonotone(n, 8 * (s - 1));
      }
    }
  }

  /** Three bytes hold the top bytes, and the sign bit among them tells the upper half of the size class. */
  lemma TopBytesBounds(v: nat)
    requires v > 0
    ensures var s := ByteLen(v); s > 0 && TopBytes(v, s) < 0x100_0000 && (TopBytes(v, s) < 0x80_0000 <==> v < Two(8 * s - 1))
  {
    hide Two;
    var s := ByteLen(v);
    ByteLenBounds(v);
    TwoWords();
    assert Two(23) == 0x80_0000 by { TwoStep(23); }
    if s <= 3 {
      var p := Two(8 * (3 - s));
      assert Two(8 * s) * p == Two(24) by { TwoAdd(8 * s, 8 * (3 - s)); }
      assert Two(8 * s - 1) * p == Two(23) by { TwoAdd(8 * s - 1, 8 * (3 - s)); }
      Scaled(v, Two(8 * s), p);
      Scaled(v, Two(8 * s - 1), p);
    } else {
      var p := Two(8 * (s - 3));
      assert p * Two(24) == Two(8 * s) by { TwoAdd(8 * (s - 3), 24); }
      assert p * Two(23) == Two(8 * s - 1) by { TwoAdd(8 * (s - 3), 23); }
      QuotientBelow(v, p, Two(24));
      QuotientBelow(v, p, Two(23));
    }
  }

  lemma Scaled(v: nat, w: nat, p: nat)
    requires p > 0
    ensures v * p < w * p <==> v < w
  {
    if v < w {
      MulStrict(v, w, p);
    } else {
      MulMonotone(w, v, p);
    }
  }

  lemma QuotientBelow(v: nat, p: nat, n: nat)
    requires p > 0
    ensures v / p < n <==> v < p * n
  {
    if v < p * n {
      DivLess(v, p, n);
    } else {
      BackDown(n, p);
      QuotientMonotone(p * n, v, p);
    }
  }

  /** The exponent of a compact form gives the size class of the number. */
  lemma SizeClass(v: nat)
    requires v > 0
    ensures var n := Size(Shrink(v));
            n > 0 && v < Two(8 * n - 1) && (n > 1 ==> Two(8 * n - 9) <= v) && !SignBit(Shrink(v))
  {
    hide Two, TopBytes;
    var s, m := ByteLen(v), TopBytes(v, ByteLen(v));
    ByteLenBounds(v);
    TopBytesBounds(v);
    if m < 0x80_0000 {
      Fields(s, m);
      if s > 1 {
        TwoMonotone(8 * s - 9, 8 * (s - 1));
      }
    } else {
      Fields(s + 1, m / 256);
      TwoMonotone(8 * s, 8 * s + 7);
    }
  }

  lemma Fields(s: nat, m: nat)
    requires m < 0x80_0000
    ensures var c := s * 0x100_0000 + m; Size(c) == s && Word(c) == m && !SignBit(c)
  {
    var c := s * 0x100_0000 + m;
    DivUnique(c, 0x100_0000, s, m);
    DivUnique(c, 0x80_0000, 2 * s, m);
  }

  lemma SignedFields(s: nat, m: nat)
    requires m < 0x80_0000
    ensures var c := s * 0x100_0000 + 0x80_0000 + m; Size(c) == s && Word(c) == m && SignBit(c)
  {
    var c := s * 0x100_0000 + 0x80_0000 + m;
    DivUnique(c, 0x100_0000, s, 0x80_0000 + m);
    DivUnique(c, 0x80_0000, 2 * s + 1, m);
  }

  /** Size, sign and word make up the whole number. */
  lemma FieldsOf(c: nat)
    ensures c == Size(c) * 0x100_0000 + (if SignBit(c) then 0x80_0000 else 0) + Word(c) && Word(c) < 0x80_0000
  {
  }

  /** The number a compact form stands for is its word times 256^(size - 3), rounded down. */
  lemma ExpandIs(c: nat)
    ensures Two(24) == 0x100_0000 && Expand(c) == Word(c) * Two(8 * Size(c)) / 0x100_0000
  {
    hide Two, Size, Word;
    TwoWords();
    var n, w := Size(c), Word(c);
    if n <= 3 {
      TwoAdd(8 * n, 8 * (3 - n));
      DivDiv(w * Two(8 * n), Two(8 * n), Two(8 * (3 - n)));
      BackDown(w, Two(8 * n));
    } else {
      TwoAdd(8 * (n - 3), 24);
      MulAssociates(w, Two(8 * (n - 3)), Two(24));
      BackDown(w * Two(8 * (n - 3)), Two(24));
    }
  }

  /** The sign bit changes nothing else. */
  lemma SignOnly(c: nat)
    requires !SignBit(c)
    ensures var s := c + 0x80_0000; SignBit(s) && Size(s) == Size(c) && Word(s) == Word(c) && Mantissa(s) == Mantissa(c) && Expand(s) == Expand(c)
  {
    hide SignBit, Size, Word;
    FieldsOf(c);
    SignedFields(Size(c), Word(c));
  }

  /** The form of a number that is not zero has a mantissa, and is that of a negative one when the sign bit is added. */
  lemma NegativeForm(v: nat)
    ensures var c := Shrink(v);
            && (Word(c) != 0 <==> v > 0) && (v > 0 ==> Mantissa(c) != 0)
            && SignBit(c + 0x80_0000) && Expand(c + 0x80_0000) == Expand(c) && Mantissa(c + 0x80_0000) == Mantissa(c)
  {
    hide Two, SignBit, Size, Word, Expand;
    var c := Shrink(v);
    ExpandShrink(v);
    SignOnly(c);
    MantissaBound(c);
    if v > 0 {
      MantissaIsQuotient(v);
      UnitFits(v);
    } else {
      Fields(0, 0);
      assert c == 0;
    }
  }

  lemma UnitFits(v: nat)
    requires v > 0
    ensures Unit(Size(Shrink(v))) <= v && v / Unit(Size(Shrink(v))) > 0
  {
    hide Two, Shrink, Size;
    var n := Size(Shrink(v));
    SizeClass(v);
    if n > 3 {
      TwoMonotone(8 * (n - 3), 8 * n - 9);
    }
    QuotientBelow(v, Unit(n), 1);
  }

  // ----- Encoding and decoding -----

  /** The mantissa is the number divided by its unit, whatever the size. */
  lemma MantissaIsQuotient(v: nat)
    requires v > 0
    ensures var c := Shrink(v); !SignBit(c) && Mantissa(c) == v / Unit(Size(c))
  {
    hide Two, Size, Word, SignBit, ByteLen, TopBytes, Mantissa, Unit;
    var s, m := ByteLen(v), TopBytes(v, ByteLen(v));
    TopBytesBounds(v);
    if m < 0x80_0000 {
      WholeMantissa(v, s);
    } else {
      ShiftedMantissa(v, s);
    }
  }

  lemma WholeMantissa(v: nat, s: nat)
    requires TopBytes(v, s) < 0x80_0000
    ensures var c := s * 0x100_0000 + TopBytes(v, s); !SignBit(c) && Mantissa(c) == v / Unit(Size(c))
  {
    hide Two, Size, Word, SignBit;
    Fields(s, TopBytes(v, s));
    if s <= 3 {
      BackDown(v, Two(8 * (3 - s)));
    }
  }

  lemma ShiftedMantissa(v: nat, s: nat)
    requires TopBytes(v, s) < 0x100_0000
    ensures var c := (s + 1) * 0x100_0000 + TopBytes(v, s) / 256; !SignBit(c) && Mantissa(c) == v / Unit(Size(c))
  {
    hide Two, Size, Word, SignBit;
    var m := TopBytes(v, s);
    Fields(s + 1, m / 256);
    if s < 3 {
      TwoByte(2 - s);
      BackDown(v, Two(8 * (3 - s)));
      DivDiv(m, 256, Two(8 * (2 - s)));
    } else {
      TwoByte(s - 3);
      DivDiv(v, Two(8 * (s - 3)), 256);
    }
  }

  lemma TwoByte(k: nat)
    ensures Two(8 * (k + 1)) == 256 * Two(8 * k) && Two(8 * 0) == 1
  {
    hide Two;
    TwoWords();
    TwoAdd(8, 8 * k);
    TwoStep(0);
  }

  /** Decoding an encoded number gives back its multiple of the unit below it. */
  lemma ExpandShrink(v: nat)
    ensures var c := Shrink(v);
            !SignBit(c) && Expand(c) == v / Unit(Size(c)) * Unit(Size(c)) && Expand(c) <= v < Expand(c) + Unit(Size(c))
  {
    hide Two, Word, SignBit;
    var c := Shrink(v);
    if v == 0 {
      Fields(0, 0);
      DivUnique(0, Two(24), 0, 0);
    } else {
      MantissaIsQuotient(v);
    }
    hide Size, Mantissa, Unit, Shrink;
    assert v == v / Unit(Size(c)) * Unit(Size(c)) + v % Unit(Size(c));
  }

  lemma BackDown(v: nat, p: nat)
    requires p > 0
    ensures v * p / p == v
  {
    DivUnique(v * p, p, v, 0);
  }

  /** Numbers below 2^23 survive exactly. */
  lemma SmallExact(v: nat)
    requires v < 0x80_0000
    ensures Expand(Shrink(v)) == v
  {
    hide Two;
    ExpandShrink(v);
    if v > 0 {
      var n := Size(Shrink(v));
      SizeClass(v);
      if n > 3 {
        assert Two(23) == 0x80_0000 by { TwoWords(); TwoStep(23); }
        TwoMonotone(23, 8 * n - 9);
      }
    }
  }

  /** Rounding through the compact form keeps the order of numbers. */
  lemma ShrinkMonotone(v: nat, w: nat)
    requires v <= w
    ensures Expand(Shrink(v)) <= Expand(Shrink(w))
  {
    hide Two, Expand, Shrink, SignBit, Size;
    ExpandShrink(v);
    ExpandShrink(w);
    if v > 0 {
      var n, k := Size(Shrink(v)), Size(Shrink(w));
      SizeClass(v);
      SizeClass(w);
      if n == k {
        QuotientMonotone(v, w, Unit(n));
        MulMonotone(v / Unit(n), w / Unit(n), Unit(n));
      } else if n > k {
        TwoMonotone(8 * k - 1, 8 * n - 9);
      } else {
        TwoMonotone(8 * n - 1, 8 * k - 9);
        FloorAbove(w, k);
      }
    }
  }

  lemma QuotientMonotone(v: nat, w: nat, d: nat)
    requires v <= w && d > 0
    ensures v / d <= w / d
  {
    if w / d < v / d {
      MulStrict(w / d, v / d, d);
      assert false;
    }
  }

  /** The bottom of a size class is a multiple of the class's unit. */
  lemma FloorAbove(w: nat, k: nat)
    requires k > 1 && Two(8 * k - 9) <= w
    ensures Two(8 * k - 9) <= w / Unit(k) * Unit(k)
  {
    hide Two;
    if k > 3 {
      TwoAdd(8 * (k - 3), 15);
      BackDown(Two(15), Unit(k));
      QuotientMonotone(Two(8 * k - 9), w, Unit(k));
      MulMonotone(Two(15), w / Unit(k), Unit(k));
    }
  }

  // ----- On limb arrays -----

  method Assign(a: array<Limb>, x: nat)
    requires a.Length >= 2 && x < BASE * BASE
    modifies a
    ensures Val(a[..]) == x
  {
    a[0], a[1] := x % BASE, x / BASE;
    var i := 2;
    while i < a.Length
      invariant 2 <= i <= a.Length && a[0] as nat == x % BASE && a[1] as nat == x / BASE
      invariant forall j :: 2 <= j < i ==> a[j] == 0
    {
      a[i] := 0;
      i := i + 1;
    }
    LowLimbs(a[..]);
    ValZeros(a[2..]);
  }

  lemma LowLimbs(s: seq<Limb>)
    requires |s| >= 2
    ensures Val(s) == s[0] as nat + BASE * s[1] as nat + BASE * BASE * Val(s[2..])
  {
    hide Val;
    ValStep(s);
    ValStep(s[1..]);
    assert s[1..][1..] == s[2..];
  }

  method Low64(a: array<Limb>) returns (x: nat)
    requires a.Length >= 2
    ensures x == Val(a[..]) % (BASE * BASE)
  {
    hide Or;
    TwoWords();
    OrDisjoint(a[0], a[1], 32);
    x := Or(a[0], a[1] as nat * BASE);
    LowLimbs(a[..]);
    DivUnique(Val(a[..]), BASE * BASE, Val(a[2..]), x);
  }

  method EqualTo(a: array<Limb>, x: nat) returns (equal: bool)
    requires a.Length >= 2 && x < BASE * BASE
    ensures equal <==> Val(a[..]) == x
  {
    ghost var s := a[..];
    ghost var high := Val(s[2..]);
    LowLimbs(s);
    var i := a.Length - 1;
    while i >= 2
      invariant 1 <= i < a.Length && forall j :: i < j < a.Length ==> a[j] == 0
    {
      if a[i] != 0 {
        HighLimb(s[2..], i - 2);
        return false;
      }
      i := i - 1;
    }
    ValZeros(s[2..]);
    return a[1] as nat == x / BASE && a[0] as nat == x % BASE;
  }

  lemma {:induction false} HighLimb(s: seq<Limb>, i: nat)
    requires i < |s| && s[i] != 0
    ensures Val(s) > 0
  {
    if i > 0 {
      HighLimb(s[1..], i - 1);
    }
  }

  /** The overflow flag is set exactly when the number does not fit. */
  lemma OverflowTest(c: nat)
    requires c < BASE
    ensures Expand(c) >= Limit(8)
       <==> Mantissa(c) != 0 && (Size(c) > 34 || (Mantissa(c) > 0xff && Size(c) > 33) || (Mantissa(c) > 0xffff && Size(c) > 32))
  {
    hide Two, Limit;
    var n, m := Size(c), Mantissa(c);
    LimitIsTwo(8);
    TwoWords();
    MantissaBound(c);
    if n <= 3 {
      TwoMonotone(24, 256);
    } else {
      var u := Two(8 * (n - 3));
      if n > 34 {
        TwoMonotone(256, 8 * (n - 3));
        if m > 0 {
          MulMonotone(1, m, u);
        }
      } else {
        assert u * Two(8 * (35 - n)) == Limit(8) by { TwoAdd(8 * (n - 3), 8 * (35 - n)); }
        Scaled(m, Two(8 * (35 - n)), u);
        if n <= 32 {
          TwoMonotone(24, 8 * (35 - n));
        }
      }
    }
  }

  lemma MantissaBound(c: nat)
    ensures Mantissa(c) <= Word(c) < 0x80_0000
  {
    hide Two;
    if Size(c) <= 3 {
      DivShrinks(Word(c), Two(8 * (3 - Size(c))));
    }
  }

  lemma DivShrinks(v: nat, p: nat)
    requires p > 0
    ensures v / p <= v
  {
    MulMonotone(1, p, v / p);
  }

  lemma ExpandCases(c: nat)
    requires c < BASE
    ensures if Size(c) <= 3 then Expand(c) == Mantissa(c) == Word(c) / Two(8 * (3 - Size(c)))
            else Mantissa(c) == Word(c) && Expand(c) == Two(8 * (Size(c) - 3)) * Word(c)
  {
  }

  method SetCompact(a: array<Limb>, c: nat) returns (negative: bool, overflow: bool)
    requires a.Length == 8 && c < BASE
    modifies a
    ensures Val(a[..]) == Expand(c) % Limit(8)
    ensures negative <==> Mantissa(c) != 0 && SignBit(c)
    ensures overflow <==> Expand(c) >= Limit(8)
  {
    hide Val, Limit, Two, SignBit, Size, Word, Mantissa, Unit, Expand;
    var size, word := Size(c), Word(c);
    MantissaBound(c);
    OverflowTest(c);
    ExpandCases(c);
    if size <= 3 {
      word := word / Two(8 * (3 - size));
      Assign(a, word);
      ValBound(a[..]);
      DivUnique(word, Limit(8), 0, word);
    } else {
      Assign(a, word);
      ShiftLeft(a, 8 * (size - 3));
    }
    negative := word != 0 && SignBit(c);
    overflow := word != 0 && (size > 34 || (word > 0xff && size > 33) || (word > 0xffff && size > 32));
  }

  lemma ByteLenZero()
    ensures ByteLen(0) == 0
  {
  }

  /** What the encoder reads off: the low 64 bits are enough, and bit 23 is the sign bit of the top bytes. */
  lemma ReadTop(v: nat)
    requires v < Limit(8)
    ensures var s, m := ByteLen(v), TopBytes(v, ByteLen(v));
            && s <= 32 && m < 0x100_0000 && (BitSet(m, 23) <==> m >= 0x80_0000)
            && m == if s <= 3 then v % (BASE * BASE) * Two(8 * (3 - s)) else v / Two(8 * (s - 3)) % (BASE * BASE)
  {
    hide Two, Limit, BitSet, ByteLen;
    var s, m := ByteLen(v), TopBytes(v, ByteLen(v));
    ByteLenBounds(v);
    TwoWords();
    assert Two(23) == 0x80_0000 by { TwoStep(23); }
    if v == 0 {
      assert s == 0 by { ByteLenZero(); }
      TopBit(0, 23);
    } else {
      TopBytesBounds(v);
      TopBit(m, 23);
      LimitIsTwo(8);
      if s > 32 {
        TwoMonotone(256, 8 * (s - 1));
        assert false;
      }
      if s <= 3 {
        TwoMonotone(8 * s, 24);
      }
    }
  }

  /** Putting the fields of a compact number together. */
  lemma Assemble(size: nat, m: nat, negative: bool)
    requires m < 0x80_0000 && size < 256
    ensures var c := size * 0x100_0000 + m;
            && Or(m, size * 0x100_0000) == c < BASE && Word(c) == m
            && Or(c, 0) == c && Or(c, 0x80_0000) == c + 0x80_0000 < BASE
  {
    hide Two, Or;
    var c := size * 0x100_0000 + m;
    TwoWords();
    assert Two(23) == 0x80_0000 by { TwoStep(23); }
    Fields(size, m);
    OrDisjoint(m, size, 24);
    OrZero(c);
    OrZero(size);
    OrDisjoint(m, 1, 23);
    OrSplit(m, size, 0x80_0000, 0, 24);
  }

  lemma ShrinkCases(v: nat)
    ensures var s, m := ByteLen(v), TopBytes(v, ByteLen(v));
            Shrink(v) == if m < 0x80_0000 then s * 0x100_0000 + m else (s + 1) * 0x100_0000 + m / 256
  {
  }

  method GetCompact(a: array<Limb>, negative: bool) returns (c: nat)
    requires a.Length == 8
    ensures var s := Shrink(Val(a[..])); c == s + (if negative && Word(s) != 0 then 0x80_0000 else 0) < BASE
  {
    hide Val, Limit, Two, SignBit, Or, BitSet, BitLength, Shrink, Word, ByteLen, TopBytes;
    ghost var v := Val(a[..]);
    var bits := Bits(a);
    BytesFromBits(v, bits);
    ValBound(a[..]);
    ReadTop(v);
    ShrinkCases(v);
    var size := (bits + 7) / 8;
    var compact: nat;
    if size <= 3 {
      var low := Low64(a);
      compact := low * Two(8 * (3 - size));
    } else {
      var bn := new Limb[8];
      CopyTo(bn, a);
      ShiftRight(bn, 8 * (size - 3));
      compact := Low64(bn);
    }
    if BitSet(compact, 23) {
      compact := compact / 256;
      size := size + 1;
    }
    Assemble(size, compact, negative);
    c := Or(compact, size * 0x100_0000);
    c := Or(c, if negative && Word(c) != 0 then 0x80_0000 else 0);
  }

  /** Encoding a negative number and decoding it: the rounded number, with the negative flag raised unless it is zero. */
  method SignRoundTrip(a: array<Limb>, negative: bool) returns (b: array<Limb>, negative': bool, overflow: bool)
    requires a.Length == 8
    ensures fresh(b) && b.Length == 8 && Val(b[..]) == Expand(Shrink(Val(a[..])))
    ensures !overflow && (negative' <==> negative && Val(a[..]) > 0)
  {
    hide Val, Limit, Expand, Shrink, SignBit, Word, Mantissa;
    ghost var v := Val(a[..]);
    var c := GetCompact(a, negative);
    NegativeForm(v);
    ExpandShrink(v);
    ValBound(a[..]);
    b := new Limb[8];
    negative', overflow := SetCompact(b, c);
    DivUnique(Expand(c), Limit(8), 0, Expand(c));
  }

  // ----- Work -----

  lemma ProofFormula(t: nat, m: nat)
    requires t < m
    ensures (m - 1 - t) / (t + 1) + 1 == m / (t + 1)
  {
    MoreQuotient(m - 1 - t, t + 1, 1);
  }

  /** A decoded target is never all ones, so adding one to it cannot wrap to zero. */
  lemma TargetNotFull(c: nat)
    requires c < BASE && Expand(c) < Limit(8)
    ensures Expand(c) + 1 < Limit(8)
  {
    hide Two, Limit;
    LimitIsTwo(8);
    TwoByte(31);
    MantissaBound(c);
    if Size(c) <= 3 {
      TwoWords();
      TwoMonotone(24, 256);
    } else {
      TwoByte(Size(c) - 4);
      MulAssociates(Mantissa(c), 256, Two(8 * (Size(c) - 4)));
      EvenNotLast(Mantissa(c) * Two(8 * (Size(c) - 4)), Two(8 * 31));
    }
  }

  lemma EvenNotLast(x: nat, y: nat)
    requires 256 * x < 256 * y
    ensures 256 * x + 1 < 256 * y
  {
  }

  /** The target a compact number sets, or zero where it sets none. */
  function Target(c: nat): nat {
    if (Mantissa(c) != 0 && SignBit(c)) || Expand(c) >= Limit(8) then 0 else Expand(c)
  }

  method GetBlockProof(c: nat) returns (proof: array<Limb>)
    requires c < BASE
    ensures fresh(proof) && proof.Length == 8
    ensures Val(proof[..]) == if Target(c) == 0 then 0 else Limit(8) / (Target(c) + 1)
  {
    hide Val, Limit, Expand, Mantissa, SignBit;
    var target := new Limb[8];
    var negative, overflow := SetCompact(target, c);
    ghost var t := Val(target[..]);
    if negative || overflow {
      proof := new Limb[8](i => 0);
      ValZeros(proof[..]);
      return;
    }
    DivUnique(Expand(c), Limit(8), 0, Expand(c));
    var none := EqualTo(target, 0);
    if none {
      return target;
    }
    proof := Complement(target);
    TargetNotFull(c);
    DivUnique(t + 1, Limit(8), 0, t + 1);
    Increment(target);
    var ok := DivBy(proof, target);
    ProofFormula(t, Limit(8));
    ProofFits(t, Limit(8));
    Increment(proof);
  }

  lemma ProofFits(t: nat, m: nat)
    requires 0 < t && t + 1 < m
    ensures (m / (t + 1)) % m == m / (t + 1)
  {
    DivLess(m, t + 1, m);
    DivUnique(m / (t + 1), m, 0, m / (t + 1));
  }
}
