/** Comparison, bit length, shifts and shift-and-subtract division of the limb arrays. */
module ArithBits {

  import opened Arithmetic
  import opened Limbs
  import opened ArithUint

  // ----- Powers of two -----

  function Two(k: nat): (p: nat)
    ensures p > 0
  {
    PowPositive(2, k);
    Pow(2, k)
  }

  lemma TwoStep(k: nat)
    ensures Two(0) == 1 && Two(k + 1) == 2 * Two(k)
  {
  }

  lemma TwoAdd(j: nat, k: nat)
    ensures Two(j + k) == Two(j) * Two(k)
  {
    PowAdd(2, j, k);
  }

  lemma TwoMonotone(j: nat, k: nat)
    requires j <= k
    ensures Two(j) <= Two(k)
  {
    PowMonotone(2, j, k);
  }

  lemma TwoWords()
    ensures Two(8) == 0x100 && Two(16) == 0x1_0000 && Two(24) == 0x100_0000 && Two(32) == BASE
  {
    assert Two(8) == 0x100;
    TwoAdd(8, 8);
    TwoAdd(8, 16);
    TwoAdd(16, 16);
  }

  lemma {:induction false} LimitIsTwo(k: nat)
    ensures Limit(k) == Two(32 * k)
  {
    hide Two, Limit;
    if k == 0 {
      LimitStep(0);
      TwoStep(0);
    } else {
      LimitIsTwo(k - 1);
      LimitStep(k - 1);
      TwoWords();
      TwoAdd(32, 32 * (k - 1));
    }
  }

  // ----- Comparison -----

  lemma DecidedAt(s: seq<Limb>, t: seq<Limb>, i: nat)
    requires i < |s| == |t| && s[i] < t[i] && forall j :: i < j < |s| ==> s[j] == t[j]
    ensures Val(s) < Val(t)
  {
    hide Val, Limit;
    SameTail(s, t, i + 1);
    PrefixStep(s, i);
    PrefixStep(t, i);
    ValBound(s[..i]);
    MulStrict(s[i], t[i], Limit(i));
  }

  method CompareTo(a: array<Limb>, b: array<Limb>) returns (r: int)
    requires a.Length == b.Length
    ensures r == if Val(a[..]) < Val(b[..]) then -1 else if Val(a[..]) > Val(b[..]) then 1 else 0
  {
    hide Val, Limit;
    var i := a.Length - 1;
    while i >= 0
      invariant -1 <= i < a.Length && forall j :: i < j < a.Length ==> a[j] == b[j]
    {
      if a[i] < b[i] {
        DecidedAt(a[..], b[..], i);
        return -1;
      }
      if a[i] > b[i] {
        DecidedAt(b[..], a[..], i);
        return 1;
      }
      i := i - 1;
    }
    assert a[..] == b[..];
    return 0;
  }

  // ----- Bit length -----

  ghost predicate BitLength(v: nat, n: nat) {
    v < Two(n) && (n > 0 ==> Two(n - 1) <= v)
  }

  lemma TopLimb(s: seq<Limb>, pos: nat, n: nat)
    requires pos < |s| && (forall j :: pos < j < |s| ==> s[j] == 0)
    requires Two(n) <= s[pos] < Two(n + 1)
    ensures BitLength(Val(s), 32 * pos + n + 1)
  {
    hide Val, Limit, Two;
    var l, p, p', x: nat := Limit(pos), Two(n), Two(n + 1), s[pos];
    ValSplit(s, pos + 1);
    ValZeros(s[pos + 1..]);
    PrefixStep(s, pos);
    ValBound(s[..pos]);
    assert Val(s) == Val(s[..pos]) + x * l;
    assert p * l <= Val(s) < p' * l by {
      MulMonotone(p, x, l);
      MulStrict(x, p', l);
    }
    LimitIsTwo(pos);
    assert Two(32 * pos + n) == p * l by { TwoAdd(n, 32 * pos); }
    assert Two(32 * pos + n + 1) == p' * l by { TwoAdd(n + 1, 32 * pos); }
  }

  predicate BitSet(x: nat, k: nat) {
    x / Two(k) % 2 == 1
  }

  lemma TopBit(x: nat, k: nat)
    requires x < Two(k + 1)
    ensures BitSet(x, k) <==> Two(k) <= x
  {
    var p := Two(k);
    if p <= x {
      DivUnique(x, p, 1, x - p);
    } else {
      DivUnique(x, p, 0, x);
    }
  }

  method Bits(a: array<Limb>) returns (n: nat)
    ensures BitLength(Val(a[..]), n) && n <= 32 * a.Length
  {
    hide Val, Limit, Two, BitSet, BitLength;
    var pos := a.Length - 1;
    while pos >= 0
      invariant -1 <= pos < a.Length
      invariant forall j :: pos < j < a.Length ==> a[j] == 0
    {
      if a[pos] != 0 {
        TwoWords();
        var nbits := 31;
        while nbits > 0
          invariant 0 <= nbits <= 31 && a[pos] < Two(nbits + 1)
        {
          TopBit(a[pos], nbits);
          if BitSet(a[pos], nbits) {
            TopLimb(a[..], pos, nbits);
            return 32 * pos + nbits + 1;
          }
          nbits := nbits - 1;
        }
        TwoStep(0);
        TopLimb(a[..], pos, 0);
        return 32 * pos + 1;
      }
      pos := pos - 1;
    }
    ValZeros(a[..]);
    ZeroBits();
    return 0;
  }

  lemma ZeroBits()
    ensures BitLength(0, 0)
  {
    TwoStep(0);
  }

  lemma BitLengthUnique(v: nat, m: nat, n: nat)
    requires BitLength(v, m) && BitLength(v, n)
    ensures m == n
  {
    hide Two;
    if m < n {
      TwoMonotone(m, n - 1);
    } else if n < m {
      TwoMonotone(n, m - 1);
    }
  }

  // ----- Bitwise or -----

  function Or(x: nat, y: nat): nat
    decreases x + y
  {
    if x == 0 && y == 0 then 0
    else (if x % 2 == 1 || y % 2 == 1 then 1 else 0) + 2 * Or(x / 2, y / 2)
  }

  lemma {:induction false} OrZero(x: nat)
    ensures Or(x, 0) == x == Or(0, x)
  {
    if x > 0 {
      OrZero(x / 2);
    }
  }

  /** On numbers that share no bit, or is addition. */
  lemma {:induction false} OrDisjoint(x: nat, c: nat, k: nat)
    requires x < Two(k)
    ensures Or(x, c * Two(k)) == x + c * Two(k) == Or(c * Two(k), x)
  {
    hide Two;
    if k == 0 {
      TwoStep(0);
      OrZero(c);
    } else {
      TwoStep(k - 1);
      MulAssociates(c, 2, Two(k - 1));
      assert (c * Two(k)) / 2 == c * Two(k - 1) && (c * Two(k)) % 2 == 0;
      OrDisjoint(x / 2, c, k - 1);
    }
  }

  /** Or works on the low bits and the high bits apart. */
  lemma {:induction false} OrSplit(x: nat, h: nat, y: nat, g: nat, k: nat)
    requires x < Two(k) && y < Two(k)
    ensures Or(x + h * Two(k), y + g * Two(k)) == Or(x, y) + Or(h, g) * Two(k)
  {
    hide Two, Or;
    if k == 0 {
      TwoStep(0);
      OrZero(0);
    } else {
      TwoStep(k - 1);
      MulAssociates(h, 2, Two(k - 1));
      MulAssociates(g, 2, Two(k - 1));
      MulAssociates(Or(h, g), 2, Two(k - 1));
      var u, v := x + h * Two(k), y + g * Two(k);
      assert u / 2 == x / 2 + h * Two(k - 1) && u % 2 == x % 2;
      assert v / 2 == y / 2 + g * Two(k - 1) && v % 2 == y % 2;
      OrSplit(x / 2, h, y / 2, g, k - 1);
      OrStep(u, v);
      OrStep(x, y);
    }
  }

  lemma OrStep(x: nat, y: nat)
    ensures Or(x, y) == (if x % 2 == 1 || y % 2 == 1 then 1 else 0) + 2 * Or(x / 2, y / 2)
  {
  }

  // ----- Shifts -----

  /** A limb shifted left: what stays in it and what passes into the next. */
  lemma ShlParts(x: Limb, k: nat)
    requires k <= 32
    ensures x * Two(k) / BASE == x / Two(32 - k) < Two(k)
    ensures x * Two(k) % BASE == x % Two(32 - k) * Two(k) <= BASE - Two(k)
  {
    hide Two;
    var p, t := Two(32 - k), Two(k);
    TwoWords();
    TwoAdd(32 - k, k);
    var q, r := x / p, x % p;
    assert x * t == q * BASE + r * t by {
      assert x as nat == q * p + r;
      MulDistributes(q * p, r, t);
      MulAssociates(q, p, t);
    }
    MulStrict(r, p, t);
    MulMonotone(0, r, t);
    DivUnique(x * t, BASE, q, r * t);
    DivLess(x, p, t);
  }

  /** The effect of one round of the left shift on the limbs. */
  ghost predicate ShlRound(u: seq<Limb>, w: seq<Limb>, x: Limb, t: nat, s: nat) {
    && |w| == |u|
    && if t >= |u| then w == u
       else
         && w[t] as nat == u[t] as nat + x * Two(s) % BASE
         && (t + 1 < |u| ==> u[t + 1] == 0 && w[t + 1] as nat == x * Two(s) / BASE)
         && forall j :: 0 <= j < |u| && j != t && j != t + 1 ==> w[j] == u[j]
  }

  /** What one round of the left shift adds, and what it drops past the top. */
  lemma ShlGain(u: seq<Limb>, w: seq<Limb>, x: Limb, t: nat, s: nat) returns (q: int)
    requires ShlRound(u, w, x, t, s) && s < 32
    ensures |w| == |u| && Val(w) - Val(u) == Limit(t) * (x * Two(s)) - q * Limit(|u|)
  {
    hide Val, Limit, Two;
    var lo, hi, l := x * Two(s) % BASE, x * Two(s) / BASE, Limit(t);
    if t >= |u| {
      q := Limit(t - |u|) * (x * Two(s));
      LimitAdd(t - |u|, |u|);
      MulAssociates(Limit(t - |u|), x * Two(s), Limit(|u|));
    } else {
      var v := u[t := w[t]];
      ValUpdate(u, t, w[t]);
      MulDistributes(u[t], lo, l);
      LimitStep(t);
      MulDistributes(lo, BASE * hi, l);
      MulAssociates(l, BASE, hi);
      if t + 1 < |u| {
        q := 0;
        ValUpdate(v, t + 1, w[t + 1]);
        assert w == v[t + 1 := w[t + 1]];
      } else {
        q := hi;
        assert w == v;
      }
    }
  }

  lemma ShlStep(u: seq<Limb>, w: seq<Limb>, x: seq<Limb>, i: nat, k: nat, s: nat)
    requires i < |x| == |u| && s < 32 && ShlRound(u, w, x[i], i + k, s)
    requires Val(u) == Limit(k) * Two(s) * Val(x[..i]) % Limit(|u|)
    ensures Val(w) == Limit(k) * Two(s) * Val(x[..i + 1]) % Limit(|u|)
  {
    hide Val, Limit, Two, ShlRound;
    var c := Limit(k) * Two(s);
    PrefixStep(x, i);
    MulDistributes(Val(x[..i]), Limit(i) * x[i], c);
    LimitAdd(i, k);
    FourFactors(Limit(k), Two(s), Limit(i), x[i]);
    var q := ShlGain(u, w, x[i], i + k, s);
    ValBound(w);
    ModStep(Val(u), Val(w), c * Val(x[..i]), c * Val(x[..i + 1]), Limit(|u|), q);
  }

  lemma ShlOr(x: Limb, y: nat, s: nat)
    requires s < 32 && y < Two(s)
    ensures Or(y, x * Two(s) % BASE) == y + x * Two(s) % BASE < BASE
    ensures Or(0, x / Two(32 - s)) == x * Two(s) / BASE < Two(s) <= BASE
  {
    hide Two, Or;
    ShlParts(x, s);
    OrDisjoint(y, x % Two(32 - s), s);
    OrZero(x / Two(32 - s));
    TwoWords();
    TwoMonotone(s, 32);
  }

  method ShiftLeft(a: array<Limb>, shift: nat)
    modifies a
    ensures Val(a[..]) == Two(shift) * old(Val(a[..])) % Limit(a.Length)
  {
    hide Val, Limit, Two, Or, ShlRound;
    var c := new Limb[a.Length];
    CopyTo(c, a);
    Clear(a);
    ghost var x := c[..];
    var k, s := shift / 32, shift % 32;
    var i: nat := 0;
    ShlStart(a[..], x, k, s);
    while i < a.Length
      invariant i <= a.Length && c[..] == x
      invariant forall j :: i + k < j < a.Length ==> a[j] == 0
      invariant i + k < a.Length ==> a[i + k] < Two(s)
      invariant Val(a[..]) == Limit(k) * Two(s) * Val(x[..i]) % Limit(a.Length)
    {
      ghost var u := a[..];
      ShlRow(a, c[i], i + k, s);
      ShlStep(u, a[..], x, i, k, s);
      i := i + 1;
    }
    assert x[..i] == x;
    LimitIsTwo(k);
    TwoAdd(32 * k, s);
  }

  lemma ShlStart(u: seq<Limb>, x: seq<Limb>, k: nat, s: nat)
    requires |u| == |x| && forall j :: 0 <= j < |u| ==> u[j] == 0
    ensures Val(u) == Limit(k) * Two(s) * Val(x[..0]) % Limit(|u|)
  {
    hide Val, Limit, Two;
    ValZeros(u);
    ValZeros(x[..0]);
    DivUnique(0, Limit(|u|), 0, 0);
  }

  method Clear(a: array<Limb>)
    modifies a
    ensures forall j :: 0 <= j < a.Length ==> a[j] == 0
  {
    var i := 0;
    while i < a.Length
      invariant 0 <= i <= a.Length && forall j :: 0 <= j < i ==> a[j] == 0
    {
      a[i] := 0;
      i := i + 1;
    }
  }

  /** One round of the left shift: limb `x` goes to place `t` and its overhang to the next. */
  method ShlRow(a: array<Limb>, x: Limb, t: nat, s: nat)
    requires s < 32 && (forall j :: t < j < a.Length ==> a[j] == 0) && (t < a.Length ==> a[t] < Two(s))
    modifies a
    ensures ShlRound(old(a[..]), a[..], x, t, s)
    ensures (forall j :: t + 1 < j < a.Length ==> a[j] == 0) && (t + 1 < a.Length ==> a[t + 1] < Two(s))
  {
    hide Two, Or;
    ghost var u := a[..];
    TwoStep(0);
    if t + 1 < a.Length && s != 0 {
      ShlOr(x, a[t], s);
      a[t + 1] := Or(a[t + 1], x / Two(32 - s));
    }
    if t < a.Length {
      ShlOr(x, a[t], s);
      a[t] := Or(a[t], x * Two(s) % BASE);
    }
  }

  /** The effect of one round of the right shift on the limbs. */
  ghost predicate ShrRound(u: seq<Limb>, w: seq<Limb>, x: Limb, t: int, s: nat)
    requires s < 32 && t < |u|
  {
    && |w| == |u|
    && if t < 0 then w == u
       else
         && u[t] == 0 && w[t] as nat == x / Two(s)
         && (t > 0 ==> w[t - 1] as nat == u[t - 1] as nat + x * Two(32 - s) % BASE)
         && forall j :: 0 <= j < |u| && j != t && j != t - 1 ==> w[j] == u[j]
  }

  lemma ShrGain(u: seq<Limb>, w: seq<Limb>, x: Limb, t: int, s: nat)
    requires s < 32 && t < |u| && ShrRound(u, w, x, t, s)
    ensures Val(w) - Val(u)
         == if t < 0 then 0 else if t == 0 then x / Two(s) else Limit(t - 1) * (x * Two(32 - s))
  {
    hide Val, Limit, Two;
    if t >= 0 {
      var v := u[t := w[t]];
      ValUpdate(u, t, w[t]);
      if t == 0 {
        LimitStep(0);
        assert w == v;
      } else {
        var n := x * Two(32 - s);
        var l, lo, hi := Limit(t - 1), n % BASE, x / Two(s);
        assert n == lo + BASE * hi by { ShlParts(x, 32 - s); }
        ValUpdate(v, t - 1, w[t - 1]);
        assert w == v[t - 1 := w[t - 1]];
        LimitStep(t - 1);
        MulDistributes(u[t - 1], lo, l);
        MulDistributes(lo, BASE * hi, l);
        MulAssociates(l, BASE, hi);
      }
    }
  }

  lemma SmallQuotient(s: seq<Limb>, k: nat, p: nat)
    requires |s| <= k && p > 0
    ensures Limit(k) * p > 0 && Val(s) / (Limit(k) * p) == 0
  {
    hide Val, Limit;
    ValBound(s);
    LimitAdd(|s|, k - |s|);
    MulMonotone(1, Limit(k - |s|), Limit(|s|));
    MulMonotone(1, p, Limit(k));
    DivUnique(Val(s), Limit(k) * p, 0, Val(s));
  }

  lemma MoreQuotient(v: nat, d: nat, m: nat)
    requires d > 0
    ensures (v + m * d) / d == v / d + m
  {
    MulDistributes(v / d, m, d);
    DivUnique(v + m * d, d, v / d + m, v % d);
  }

  lemma ShrStep(u: seq<Limb>, w: seq<Limb>, x: seq<Limb>, i: nat, k: nat, s: nat)
    requires i < |x| == |u| && s < 32 && ShrRound(u, w, x[i], i - k, s)
    requires Limit(k) * Two(s) > 0 && Val(u) == Val(x[..i]) / (Limit(k) * Two(s))
    ensures Val(w) == Val(x[..i + 1]) / (Limit(k) * Two(s))
  {
    hide Val, Limit, Two, ShrRound;
    var t, d := i - k, Limit(k) * Two(s);
    ShrGain(u, w, x[i], t, s);
    if t < 0 {
      SmallQuotient(x[..i], k, Two(s));
      SmallQuotient(x[..i + 1], k, Two(s));
    } else if t == 0 {
      SmallQuotient(x[..i], k, Two(s));
      ValSplit(x[..i + 1], i);
      assert x[..i + 1][i..] == [x[i]];
      assert Val([x[i]]) == x[i] by { OneLimb(x[i]); }
      DivDiv(Val(x[..i + 1]), Limit(k), Two(s));
    } else {
      var m := Limit(t - 1) * (x[i] * Two(32 - s));
      PrefixStep(x, i);
      ShrWeights(x[i], t, k, s);
      MoreQuotient(Val(x[..i]), d, m);
    }
  }

  lemma OneLimb(x: Limb)
    ensures Val([x]) == x
  {
    ValStep([x]);
    ValZeros([x][1..]);
  }

  lemma ShrWeights(x: Limb, t: nat, k: nat, s: nat)
    requires s < 32 && t > 0
    ensures Limit(t - 1) * (x * Two(32 - s)) * (Limit(k) * Two(s)) == Limit(t + k) * x
  {
    hide Limit, Two;
    var l, p := Limit(t - 1), Two(32 - s);
    TwoWords();
    TwoAdd(32 - s, s);
    LimitStep(t - 1);
    LimitAdd(t, k);
    calc {
      l * (x * p) * (Limit(k) * Two(s));
      { FourFactors(l, x * p, Limit(k), Two(s)); }
      Limit(k) * l * (Two(s) * (x * p));
      { MulAssociates(x, p, Two(s)); }
      Limit(k) * l * (x * BASE);
      { FourFactors(Limit(k), l, x, BASE); }
      x * Limit(k) * (BASE * l);
      { MulAssociates(x, Limit(k), BASE * l); }
      Limit(t + k) * x;
    }
  }

  lemma ShrOr(x: Limb, y: nat, s: nat)
    requires s < 32 && y < Two(32 - s)
    ensures Or(y, x * Two(32 - s) % BASE) == y + x * Two(32 - s) % BASE < BASE
    ensures Or(0, x / Two(s)) == x / Two(s) < Two(32 - s) <= BASE
  {
    hide Two, Or;
    ShlParts(x, 32 - s);
    OrDisjoint(y, x % Two(s), 32 - s);
    OrZero(x / Two(s));
    TwoWords();
    TwoMonotone(32 - s, 32);
  }

  /** One round of the right shift: limb `x` goes to place `t` and its low bits to the one below. */
  method ShrRow(a: array<Limb>, x: Limb, t: int, s: nat)
    requires s < 32 && t < a.Length && (forall j :: 0 <= j < a.Length && t <= j ==> a[j] == 0)
    requires t > 0 ==> a[t - 1] < Two(32 - s)
    modifies a
    ensures ShrRound(old(a[..]), a[..], x, t, s)
    ensures (forall j :: 0 <= j < a.Length && t < j ==> a[j] == 0) && (t >= 0 ==> a[t] < Two(32 - s))
  {
    hide Two, Or;
    TwoStep(0);
    TwoWords();
    if t - 1 >= 0 && s != 0 {
      ShrOr(x, a[t - 1], s);
      a[t - 1] := Or(a[t - 1], x * Two(32 - s) % BASE);
    }
    if t >= 0 {
      ShrOr(x, 0, s);
      a[t] := Or(a[t], x / Two(s));
    }
  }

  method ShiftRight(a: array<Limb>, shift: nat)
    modifies a
    ensures Val(a[..]) == old(Val(a[..])) / Two(shift)
  {
    hide Val, Limit, Two, Or, ShrRound;
    var c := new Limb[a.Length];
    CopyTo(c, a);
    Clear(a);
    ghost var x := c[..];
    var k, s := shift / 32, shift % 32;
    var i: nat := 0;
    SmallQuotient(x[..0], k, Two(s));
    ValZeros(a[..]);
    while i < a.Length
      invariant i <= a.Length && c[..] == x
      invariant forall j :: 0 <= j < a.Length && i - k <= j ==> a[j] == 0
      invariant i - k > 0 ==> a[i - k - 1] < Two(32 - s)
      invariant Val(a[..]) == Val(x[..i]) / (Limit(k) * Two(s))
    {
      ghost var u := a[..];
      ShrRow(a, c[i], i - k, s);
      ShrStep(u, a[..], x, i, k, s);
      i := i + 1;
    }
    assert x[..i] == x;
    LimitIsTwo(k);
    TwoAdd(32 * k, s);
  }

  // ----- Division -----

  /** How many of the bits below `n` lie in limb `j`. */
  function Span(n: nat, j: nat): nat
    requires 32 * j < n
  {
    if 32 * j + 32 <= n then 32 else n - 32 * j
  }

  /** The quotient so far has only bits above `n` set. */
  ghost predicate ClearBelow(a: seq<Limb>, n: nat) {
    forall j :: 0 <= j < |a| && 32 * j < n ==> a[j] % Two(Span(n, j)) == 0
  }

  lemma ClearAtStart(a: seq<Limb>, n: nat)
    requires forall j :: 0 <= j < |a| ==> a[j] == 0
    ensures ClearBelow(a, n)
  {
    forall j | 0 <= j < |a| && 32 * j < n
      ensures a[j] % Two(Span(n, j)) == 0
    {
      DivUnique(0, Two(Span(n, j)), 0, 0);
    }
  }

  /** A multiple of twice `p` leaves room for one `p` below any larger multiple. */
  lemma RoomFor(x: nat, p: nat, c: nat, t: nat)
    requires p > 0 && x == c * (2 * p) && x < t * (2 * p)
    ensures x + p < t * (2 * p) && (x + p) % p == 0 && x % p == 0
  {
    if c >= t {
      MulMonotone(t, c, 2 * p);
      assert false;
    }
    MulStrict(c, t, 2 * p);
    MulAssociates(c, 2, p);
    DivUnique(x, p, 2 * c, 0);
    MulDistributes(2 * c, 1, p);
    DivUnique(x + p, p, 2 * c + 1, 0);
  }

  /** The bit set at `k` was clear, so setting it adds its weight. */
  lemma FreeBit(x: Limb, k: nat)
    requires k < 32 && x % Two(k + 1) == 0
    ensures Or(x, Two(k)) == x + Two(k) < BASE && (x + Two(k)) % Two(k) == 0 && x % Two(k) == 0
  {
    hide Two, Or;
    var c := x / Two(k + 1);
    TwoStep(k);
    OrDisjoint(Two(k), c, k + 1);
    TwoWords();
    TwoAdd(31 - k, k + 1);
    RoomFor(x, Two(k), c, Two(31 - k));
  }

  lemma ClearKept(a: seq<Limb>, b: seq<Limb>, n: nat)
    requires n < 32 * |a| && |b| == |a| && ClearBelow(a, n + 1)
    requires forall j :: 0 <= j < |a| && j != n / 32 ==> b[j] == a[j]
    requires b[n / 32] as nat % Two(n % 32) == 0
    ensures ClearBelow(b, n)
  {
    hide Two;
    forall j | 0 <= j < |b| && 32 * j < n
      ensures b[j] % Two(Span(n, j)) == 0
    {
      if j < n / 32 {
        assert a[j] % Two(Span(n + 1, j)) == 0;
      }
    }
  }

  lemma TopClear(a: seq<Limb>, n: nat)
    requires n < 32 * |a| && ClearBelow(a, n + 1)
    ensures a[n / 32] % Two(n % 32 + 1) == 0
  {
    hide Two;
    var j := n / 32;
    assert a[j] % Two(Span(n + 1, j)) == 0;
  }

  method SetBit(a: array<Limb>, n: nat)
    requires n < 32 * a.Length && ClearBelow(a[..], n + 1)
    modifies a
    ensures Val(a[..]) == old(Val(a[..])) + Two(n) && ClearBelow(a[..], n)
  {
    hide Two, Or, Val, Limit, ClearBelow;
    var j, k := n / 32, n % 32;
    ghost var s := a[..];
    TopClear(s, n);
    FreeBit(a[j], k);
    a[j] := Or(a[j], Two(k));
    assert a[..] == s[j := a[j]];
    ClearKept(s, a[..], n);
    ValUpdate(s, j, a[j]);
    MulDistributes(s[j], Two(k), Limit(j));
    LimitIsTwo(j);
    TwoAdd(32 * j, k);
  }

  lemma SkipBit(a: seq<Limb>, n: nat)
    requires n < 32 * |a| && ClearBelow(a, n + 1)
    ensures ClearBelow(a, n)
  {
    hide Two, Or, ClearBelow;
    TopClear(a, n);
    FreeBit(a[n / 32], n % 32);
    ClearKept(a, a, n);
  }

  /** Aligning the divisor with the dividend keeps it within the width and makes it too big to go in twice. */
  lemma Aligned(n: nat, d: nat, nb: nat, db: nat)
    requires BitLength(n, nb) && BitLength(d, db) && 0 < db <= nb
    ensures d * Two(nb - db) < Two(nb) && n < d * Two(nb - db + 1)
  {
    hide Two;
    var s := nb - db;
    TwoAdd(db, s);
    TwoAdd(db - 1, s + 1);
    MulStrict(d, Two(db), Two(s));
    MulMonotone(Two(db - 1), d, Two(s + 1));
  }

  lemma WidthLimit(n: nat, w: nat)
    requires n <= 32 * w
    ensures Two(n) <= Limit(w)
  {
    LimitIsTwo(w);
    TwoMonotone(n, 32 * w);
  }

  /** Long division under way: what is left and what the quotient accounts for, with bits below `p` to come. */
  ghost predicate Dividing(total: nat, d: nat, num: nat, quot: nat, p: nat) {
    total == num + quot * d && num < d * p
  }

  lemma DividingStart(total: nat, d: nat, p: nat)
    requires total < d * p
    ensures Dividing(total, d, total, 0, p)
  {
  }

  /** One round: where the shifted divisor fits it is taken away, and what is left is below it either way. */
  lemma DividingStep(total: nat, d: nat, num: nat, quot: nat, k: nat)
    requires Dividing(total, d, num, quot, Two(k + 1))
    ensures if num >= d * Two(k) then Dividing(total, d, num - d * Two(k), quot + Two(k), Two(k))
            else Dividing(total, d, num, quot, Two(k))
  {
    hide Two;
    TwoStep(k);
    MulDistributes(quot, Two(k), d);
    MulAssociates(d, 2, Two(k));
  }

  lemma DividingEnd(total: nat, d: nat, num: nat, quot: nat)
    requires Dividing(total, d, num, quot, Two(0))
    ensures d > 0 && quot == total / d && num == total % d
  {
    TwoStep(0);
    DivUnique(total, d, quot, num);
  }

  lemma SubExact(x: nat, y: nat, m: nat)
    requires y <= x < m
    ensures (x - y) % m == x - y
  {
    DivUnique(x - y, m, 0, x - y);
  }

  lemma ShiftBack(d: nat, k: nat)
    ensures d * Two(k + 1) / Two(1) == d * Two(k)
  {
    hide Two;
    TwoStep(k);
    TwoStep(0);
    MulAssociates(d, 2, Two(k));
  }

  method DivBy(a: array<Limb>, b: array<Limb>) returns (ok: bool)
    requires a.Length == b.Length
    modifies a
    ensures ok <==> old(Val(b[..])) != 0
    ensures Val(a[..]) == if ok then old(Val(a[..])) / old(Val(b[..])) else 0
  {
    hide Val, Limit, Two, BitLength, ClearBelow, Dividing;
    var w := a.Length;
    var num, div := new Limb[w], new Limb[w];
    CopyTo(div, b);
    CopyTo(num, a);
    ghost var n, d := Val(num[..]), Val(div[..]);
    Clear(a);
    ValZeros(a[..]);
    var numBits := Bits(num);
    var divBits := Bits(div);
    NoBits(d, divBits);
    if divBits == 0 {
      return false;
    }
    if divBits > numBits {
      ShorterIsLess(n, d, numBits, divBits);
      return true;
    }
    var shift: int := numBits - divBits;
    AlignedFits(n, d, numBits, divBits, w);
    ShiftLeft(div, shift);
    ClearAtStart(a[..], shift + 1);
    DividingStart(n, d, Two(shift + 1));
    while shift >= 0
      invariant -1 <= shift < 32 * w
      invariant Dividing(n, d, Val(num[..]), Val(a[..]), Two(shift + 1))
      invariant shift >= 0 ==> Val(div[..]) == d * Two(shift)
      invariant ClearBelow(a[..], shift + 1)
    {
      DividingStep(n, d, Val(num[..]), Val(a[..]), shift);
      ValBound(num[..]);
      var c := CompareTo(num, div);
      if c >= 0 {
        SubExact(Val(num[..]), Val(div[..]), Limit(w));
        SubFrom(num, div);
        SetBit(a, shift);
      } else {
        SkipBit(a[..], shift);
      }
      if shift > 0 {
        ShiftBack(d, shift - 1);
      }
      ShiftRight(div, 1);
      shift := shift - 1;
    }
    DividingEnd(n, d, Val(num[..]), Val(a[..]));
    return true;
  }

  lemma AlignedFits(n: nat, d: nat, nb: nat, db: nat, w: nat)
    requires BitLength(n, nb) && BitLength(d, db) && 0 < db <= nb <= 32 * w
    ensures Two(nb - db) * d % Limit(w) == d * Two(nb - db) && n < d * Two(nb - db + 1)
  {
    hide Two, Limit, BitLength;
    Aligned(n, d, nb, db);
    WidthLimit(nb, w);
    DivUnique(d * Two(nb - db), Limit(w), 0, d * Two(nb - db));
  }

  lemma NoBits(v: nat, n: nat)
    requires BitLength(v, n)
    ensures n == 0 <==> v == 0
  {
    TwoStep(0);
  }

  lemma ShorterIsLess(n: nat, d: nat, nb: nat, db: nat)
    requires BitLength(n, nb) && BitLength(d, db) && nb < db
    ensures d > 0 && n / d == 0
  {
    TwoMonotone(nb, db - 1);
    DivUnique(n, d, 0, n);
  }
}
