/** The unsigned big integer of the proof-of-work code: an array of 32-bit limbs, changed in place. */
module ArithUint {

  import opened Arithmetic
  import opened Positional
  import opened Limbs

  // ----- Carrying -----

  lemma PrefixStep(s: seq<Limb>, i: nat)
    requires i < |s|
    ensures Val(s[..i + 1]) == Val(s[..i]) + Limit(i) * s[i]
  {
    NumPrefix(BASE, s, i);
  }

  /** Writing the low half of `n` and carrying the high half loses nothing. */
  lemma CarryStep(r: seq<Limb>, carry: nat, n: nat, total: nat, more: nat)
    requires Val(r) + carry * Limit(|r|) == total && n == carry + more
    ensures Val(r + [n % BASE]) + n / BASE * Limit(|r| + 1) == total + more * Limit(|r|)
  {
    CarryOut(BASE, r, carry, n, total, more);
  }

  /** What is left when the last carry is dropped. */
  lemma DropCarry(r: seq<Limb>, carry: nat, total: nat)
    requires Val(r) + carry * Limit(|r|) == total
    ensures Val(r) == total % Limit(|r|)
  {
    hide Val, Limit;
    ValBound(r);
    DivUnique(total, Limit(|r|), carry, Val(r));
  }

  lemma ProductStep(p: int, l: int, x: int, f: int)
    ensures f * (p + l * x) == f * p + (f * x) * l
    ensures (p + l * x) * f == p * f + l * (x * f)
  {
    MulDistributes(p, l * x, f);
    MulAssociates(f, x, l);
    MulAssociates(l, x, f);
  }

  lemma AddStep(r: seq<Limb>, carry: nat, x: seq<Limb>, y: seq<Limb>)
    requires |r| < |x| == |y|
    requires Val(r) + carry * Limit(|r|) == Val(x[..|r|]) + Val(y[..|r|])
    ensures var n: nat := carry + x[|r|] as nat + y[|r|] as nat;
            Val(r + [n % BASE]) + n / BASE * Limit(|r| + 1) == Val(x[..|r| + 1]) + Val(y[..|r| + 1])
  {
    hide Val, Limit;
    var i, more: nat := |r|, x[|r|] as nat + y[|r|] as nat;
    CarryStep(r, carry, carry + more, Val(x[..i]) + Val(y[..i]), more);
    PrefixStep(x, i);
    PrefixStep(y, i);
    MulDistributes(x[i], y[i], Limit(i));
  }

  lemma ScaleStep(r: seq<Limb>, carry: nat, f: nat, x: seq<Limb>)
    requires |r| < |x|
    requires Val(r) + carry * Limit(|r|) == f * Val(x[..|r|])
    ensures var n: nat := carry + f * x[|r|] as nat;
            Val(r + [n % BASE]) + n / BASE * Limit(|r| + 1) == f * Val(x[..|r| + 1])
  {
    hide Val, Limit;
    var i, more: nat := |r|, f * x[|r|] as nat;
    CarryStep(r, carry, carry + more, f * Val(x[..i]), more);
    PrefixStep(x, i);
    ProductStep(Val(x[..i]), Limit(i), x[i], f);
  }

  /** A product of limbs with a limb and a carry added still fits the 64-bit accumulator. */
  lemma Fits64(n: nat, carry: Limb, c: Limb, x: nat, y: nat)
    requires x < BASE && y < BASE && n == carry as nat + c as nat + x * y
    ensures n < 0x1_0000_0000_0000_0000 && n / BASE < BASE
  {
    MulMonotone(x, BASE - 1, y);
    MulMonotone(y, BASE - 1, BASE - 1);
    assert (BASE - 1) * (BASE - 1) + 2 * (BASE - 1) < BASE * BASE;
    assert x * y <= (BASE - 1) * (BASE - 1);
    DivLess(n, BASE, BASE);
  }

  // ----- Addition, negation, subtraction -----

  method AddTo(a: array<Limb>, b: array<Limb>)
    requires a.Length == b.Length
    modifies a
    ensures Val(a[..]) == (old(Val(a[..])) + old(Val(b[..]))) % Limit(a.Length)
  {
    hide Val, Limit;
    ghost var x, y := a[..], b[..];
    var carry: nat, i: nat := 0, 0;
    LimitStep(0);
    assert Val(a[..0]) == Val(x[..0]) == Val(y[..0]) == 0 by { ValZeros(a[..0]); }
    while i < a.Length
      invariant i <= a.Length && carry <= 1
      invariant forall j :: i <= j < a.Length ==> a[j] == x[j] && b[j] == y[j]
      invariant Val(a[..i]) + carry * Limit(i) == Val(x[..i]) + Val(y[..i])
    {
      var n: nat := carry + a[i] as nat + b[i] as nat;
      ghost var r := a[..i];
      AddStep(r, carry, x, y);
      a[i] := n % BASE;
      carry := n / BASE;
      assert a[..i + 1] == r + [n % BASE];
      i := i + 1;
    }
    assert a[..] == a[..i] && x == x[..i] && y == y[..i];
    DropCarry(a[..], carry, Val(x) + Val(y));
  }

  method MulBy32(a: array<Limb>, b: Limb)
    modifies a
    ensures Val(a[..]) == (b * old(Val(a[..]))) % Limit(a.Length)
  {
    hide Val, Limit;
    ghost var x := a[..];
    var carry: nat, i: nat := 0, 0;
    LimitStep(0);
    assert Val(a[..0]) == Val(x[..0]) == 0 by { ValZeros(a[..0]); }
    while i < a.Length
      invariant i <= a.Length && carry < BASE
      invariant forall j :: i <= j < a.Length ==> a[j] == x[j]
      invariant Val(a[..i]) + carry * Limit(i) == b * Val(x[..i])
    {
      var n: nat := carry + b as nat * a[i] as nat;
      Fits64(n, carry, 0, b, a[i]);
      ghost var r := a[..i];
      ScaleStep(r, carry, b, x);
      a[i] := n % BASE;
      carry := n / BASE;
      assert a[..i + 1] == r + [n % BASE];
      i := i + 1;
    }
    assert a[..] == a[..i] && x == x[..i];
    DropCarry(a[..], carry, b * Val(x));
  }

  /** A new value in one limb changes the number by that limb's weight. */
  lemma ValUpdate(s: seq<Limb>, i: nat, x: Limb)
    requires i < |s|
    ensures Val(s[i := x]) == Val(s) + Limit(i) * x - Limit(i) * s[i]
  {
    hide Val, Limit;
    var t := s[i := x];
    ValSplit(s, i + 1);
    ValSplit(t, i + 1);
    assert t[i + 1..] == s[i + 1..] && t[..i] == s[..i];
    PrefixStep(s, i);
    PrefixStep(t, i);
  }

  method Increment(a: array<Limb>)
    modifies a
    ensures Val(a[..]) == (old(Val(a[..])) + 1) % Limit(a.Length)
  {
    hide Val, Limit;
    ghost var x := a[..];
    var i: nat := 0;
    LimitStep(0);
    assert Val(a[..0]) == Val(x[..0]) == 0 by { ValZeros(a[..0]); }
    while i < a.Length
      invariant i <= a.Length
      invariant forall j :: i <= j < a.Length ==> a[j] == x[j]
      invariant Val(a[..i]) + Limit(i) == Val(x[..i]) + 1
    {
      ghost var r := a[..i];
      a[i] := if a[i] == BASE - 1 then 0 else a[i] + 1;
      assert a[..i + 1] == r + [a[i]];
      IncrementStep(r, a[i], x);
      if a[i] != 0 {
        SameTail(a[..], x, i + 1);
        DropCarry(a[..], 0, Val(x) + 1);
        return;
      }
      i := i + 1;
    }
    assert a[..] == a[..i] && x == x[..i];
    DropCarry(a[..], 1, Val(x) + 1);
  }

  lemma IncrementStep(r: seq<Limb>, limb: Limb, x: seq<Limb>)
    requires |r| < |x| && Val(r) + Limit(|r|) == Val(x[..|r|]) + 1
    requires limb == if x[|r|] == BASE - 1 then 0 else x[|r|] + 1
    ensures Val(r + [limb]) + (if limb == 0 then Limit(|r| + 1) else 0) == Val(x[..|r| + 1]) + 1
  {
    hide Val, Limit;
    var n: nat := 1 + x[|r|] as nat;
    assert limb == n % BASE && n / BASE == if limb == 0 then 1 else 0;
    CarryStep(r, 1, n, Val(x[..|r|]) + 1, x[|r|]);
    PrefixStep(x, |r|);
  }

  /** Numbers that agree above limb `k` differ by what they differ by below it. */
  lemma SameTail(s: seq<Limb>, t: seq<Limb>, k: nat)
    requires k <= |s| == |t| && forall j :: k <= j < |s| ==> s[j] == t[j]
    ensures Val(s) - Val(s[..k]) == Val(t) - Val(t[..k])
  {
    hide Val, Limit;
    ValSplit(s, k);
    ValSplit(t, k);
    assert s[k..] == t[k..];
  }

  lemma {:induction false} ValComplement(s: seq<Limb>, t: seq<Limb>)
    requires |s| == |t| && forall i :: 0 <= i < |s| ==> t[i] as nat == BASE - 1 - s[i]
    ensures Val(s) + Val(t) == Limit(|s|) - 1
  {
    hide Limit;
    if s == [] {
      LimitStep(0);
    } else {
      ValComplement(s[1..], t[1..]);
      LimitStep(|s| - 1);
    }
  }

  method Complement(a: array<Limb>) returns (r: array<Limb>)
    ensures fresh(r) && r.Length == a.Length && Val(r[..]) == Limit(a.Length) - 1 - Val(a[..])
  {
    hide Val, Limit;
    r := new Limb[a.Length];
    var i := 0;
    while i < a.Length
      invariant 0 <= i <= a.Length
      invariant forall j :: 0 <= j < i ==> r[j] as nat == BASE - 1 - a[j]
    {
      r[i] := BASE - 1 - a[i];
      i := i + 1;
    }
    ValComplement(a[..], r[..]);
  }

  method Negate(a: array<Limb>) returns (r: array<Limb>)
    ensures fresh(r) && r.Length == a.Length && Val(r[..]) == (Limit(a.Length) - Val(a[..])) % Limit(a.Length)
  {
    r := Complement(a);
    Increment(r);
  }

  lemma SubIsAddNegated(x: nat, y: nat, m: nat)
    requires m > 0
    ensures (x + (m - y) % m) % m == (x - y) % m
  {
    var q, r := (m - y) / m, (m - y) % m;
    var c, d := (x + r) / m, (x + r) % m;
    assert (m - y) == q * m + r && x + r == c * m + d;
    assert x - y == (c + q - 1) * m + d;
    DivUnique(x - y, m, c + q - 1, d);
  }

  method SubFrom(a: array<Limb>, b: array<Limb>)
    requires a.Length == b.Length
    modifies a
    ensures Val(a[..]) == (old(Val(a[..])) - old(Val(b[..]))) % Limit(a.Length)
  {
    hide Val, Limit;
    var n := Negate(b);
    SubIsAddNegated(Val(a[..]), Val(b[..]), Limit(a.Length));
    AddTo(a, n);
  }

  // ----- Multiplication -----

  /** A number below the modulus that keeps step with a total is the total's remainder. */
  lemma ModStep(v0: int, v1: int, t0: int, t1: int, m: int, q: int)
    requires m > 0 && v0 == t0 % m && 0 <= v1 < m && v1 - v0 == t1 - t0 - q * m
    ensures v1 == t1 % m
  {
    var c := t0 / m;
    assert t0 == c * m + v0;
    assert t1 == (c + q) * m + v1;
    DivUnique(t1, m, c + q, v1);
  }

  lemma MulAddStep(r: seq<Limb>, carry: nat, f: nat, x: seq<Limb>, y: seq<Limb>)
    requires |r| < |x| && |r| < |y|
    requires Val(r) + carry * Limit(|r|) == Val(x[..|r|]) + f * Val(y[..|r|])
    ensures var n: nat := carry + x[|r|] as nat + f * y[|r|] as nat;
            Val(r + [n % BASE]) + n / BASE * Limit(|r| + 1) == Val(x[..|r| + 1]) + f * Val(y[..|r| + 1])
  {
    hide Val, Limit;
    var i, xi: nat, fy: nat := |r|, x[|r|], f * y[|r|] as nat;
    CarryStep(r, carry, carry + xi + fy, Val(x[..i]) + f * Val(y[..i]), xi + fy);
    PrefixStep(x, i);
    PrefixStep(y, i);
    MulDistributes(xi, fy, Limit(i));
    ProductStep(Val(y[..i]), Limit(i), y[i], f);
  }

  /** One row of the schoolbook product, added in at limb `j`; what passes the top is lost. */
  method AddRow(acc: array<Limb>, j: nat, f: Limb, b: array<Limb>)
    requires j <= acc.Length == b.Length && acc != b
    modifies acc
    ensures acc[..j] == old(acc[..j])
    ensures Val(acc[j..]) == (old(Val(acc[j..])) + f * Val(b[..acc.Length - j])) % Limit(acc.Length - j)
  {
    hide Val, Limit;
    ghost var w, x, y := acc.Length - j, acc[j..], b[..acc.Length - j];
    var carry: nat, i: nat := 0, 0;
    LimitStep(0);
    assert Val(acc[j..j]) == Val(x[..0]) == Val(y[..0]) == 0 by { ValZeros(x[..0]); assert acc[j..j] == x[..0] == y[..0]; }
    while i + j < acc.Length
      invariant i + j <= acc.Length && carry < BASE
      invariant acc[..j] == old(acc[..j])
      invariant forall k :: i <= k < w ==> acc[j + k] == x[k]
      invariant Val(acc[j..j + i]) + carry * Limit(i) == Val(x[..i]) + f * Val(y[..i])
    {
      var n: nat := carry + acc[i + j] as nat + f as nat * b[i] as nat;
      Fits64(n, carry, acc[i + j], f, b[i]);
      ghost var r := acc[j..j + i];
      MulAddStep(r, carry, f, x, y);
      acc[i + j] := n % BASE;
      carry := n / BASE;
      assert acc[j..j + (i + 1)] == r + [n % BASE];
      i := i + 1;
    }
    assert acc[j..] == acc[j..j + i] && x == x[..i] && y == y[..i];
    DropCarry(acc[j..], carry, Val(x) + f * Val(y));
  }

  lemma RowAdds(s: seq<Limb>, t: seq<Limb>, j: nat, f: nat, y: seq<Limb>) returns (q: int)
    requires j <= |s| == |t| == |y| && t[..j] == s[..j]
    requires Val(t[j..]) == (Val(s[j..]) + f * Val(y[..|s| - j])) % Limit(|s| - j)
    ensures Val(t) - Val(s) == Limit(j) * (f * Val(y)) - q * Limit(|s|)
  {
    hide Val, Limit;
    var l, m := Limit(j), Limit(|s| - j);
    ValSplit(s, j);
    ValSplit(t, j);
    ValSplit(y, |s| - j);
    LimitAdd(j, |s| - j);
    var upper, low, high := Val(s[j..]), Val(y[..|s| - j]), Val(y[|s| - j..]);
    var total := upper + f * low;
    q := total / m + f * high;
    RowArithmetic(l, m, f, upper, low, high, total / m, Val(t[j..]));
  }

  lemma RowArithmetic(l: int, m: int, f: int, s: int, low: int, high: int, q: int, r: int)
    requires s + f * low == q * m + r
    ensures r * l - s * l == l * (f * (high * m + low)) - (q + f * high) * (l * m)
  {
    var fl, fh := f * low, f * high;
    assert f * (high * m + low) == fh * m + fl;
    assert l * (fh * m + fl) == fh * (l * m) + fl * l;
    assert (q + fh) * (l * m) == q * (l * m) + fh * (l * m);
    assert q * (l * m) == q * m * l;
    assert (r - s) * l == (fl - q * m) * l;
  }

  /** The accumulator after `j` rows is the product by the first `j` limbs, within the width. */
  lemma MulStep(s: seq<Limb>, t: seq<Limb>, j: nat, x: seq<Limb>, y: seq<Limb>)
    requires j < |s| == |t| == |y| == |x| && t[..j] == s[..j]
    requires Val(s) == Val(x[..j]) * Val(y) % Limit(|s|)
    requires Val(t[j..]) == (Val(s[j..]) + x[j] as nat * Val(y[..|s| - j])) % Limit(|s| - j)
    ensures Val(t) == Val(x[..j + 1]) * Val(y) % Limit(|s|)
  {
    hide Val, Limit;
    var q := RowAdds(s, t, j, x[j], y);
    PrefixStep(x, j);
    ValBound(t);
    var v, f: nat := Val(y), x[j];
    ProductStep(Val(x[..j]), Limit(j), f, v);
    ModStep(Val(s), Val(t), Val(x[..j]) * v, Val(x[..j + 1]) * v, Limit(|s|), q);
  }

  method CopyTo(a: array<Limb>, b: array<Limb>)
    requires a.Length == b.Length
    modifies a
    ensures a[..] == old(b[..])
  {
    var i := 0;
    while i < a.Length
      invariant 0 <= i <= a.Length
      invariant forall j :: 0 <= j < a.Length ==> b[j] == old(b[j])
      invariant forall j :: 0 <= j < i ==> a[j] == old(b[j])
    {
      a[i] := b[i];
      i := i + 1;
    }
  }

  method MulBy(a: array<Limb>, b: array<Limb>)
    requires a.Length == b.Length
    modifies a
    ensures Val(a[..]) == (old(Val(a[..])) * old(Val(b[..]))) % Limit(a.Length)
  {
    hide Val, Limit;
    ghost var x, y, m := a[..], b[..], Limit(a.Length);
    var acc := new Limb[a.Length](i => 0);
    var j: nat := 0;
    assert Val(acc[..]) == Val(x[..0]) == 0 by { ValZeros(acc[..]); ValZeros(x[..0]); }
    assert 0 == 0 * Val(y) && 0 == 0 % m by { DivUnique(0, m, 0, 0); }
    while j < a.Length
      invariant j <= a.Length && a[..] == x && b[..] == y
      invariant Val(acc[..]) == Val(x[..j]) * Val(y) % m
    {
      ghost var s := acc[..];
      AddRow(acc, j, a[j], b);
      assert y[..acc.Length - j] == b[..acc.Length - j];
      assert s[..j] == acc[..][..j] && acc[j..] == acc[..][j..];
      MulStep(s, acc[..], j, x, y);
      j := j + 1;
    }
    assert x[..j] == x;
    CopyTo(a, acc);
  }
}
