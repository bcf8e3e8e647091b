/** Numbers written as digits in some base, least significant first. */
module Positional {

  import opened Arithmetic

  /** The number a sequence of digits stands for. */
  function Num(b: nat, s: seq<nat>): nat {
    if s == [] then 0 else s[0] + b * Num(b, s[1..])
  }

  ghost predicate DigitsBelow(b: nat, s: seq<nat>) {
    forall i :: 0 <= i < |s| ==> s[i] < b
  }

  lemma {:induction false} NumConcat(b: nat, s: seq<nat>, t: seq<nat>)
    ensures Num(b, s + t) == Num(b, s) + Pow(b, |s|) * Num(b, t)
  {
    hide Pow, Num;
    if s == [] {
      PowStep(b, 0);
      NumStep(b, 0, []);
      assert s + t == t;
    } else {
      assert s == [s[0]] + s[1..] && s + t == [s[0]] + (s[1..] + t);
      NumStep(b, s[0], s[1..]);
      NumStep(b, s[0], s[1..] + t);
      NumConcat(b, s[1..], t);
      PowStep(b, |s| - 1);
      var p, u, v := Pow(b, |s| - 1), Num(b, s[1..]), Num(b, t);
      MulDistributes(u, p * v, b);
      MulAssociates(b, p, v);
    }
  }

  lemma NumOne(b: nat, x: nat)
    ensures Num(b, [x]) == x
  {
  }

  lemma NumPrefix(b: nat, s: seq<nat>, i: nat)
    requires i < |s|
    ensures Num(b, s[..i + 1]) == Num(b, s[..i]) + Pow(b, i) * s[i]
  {
    hide Num;
    assert s[..i + 1] == s[..i] + [s[i]];
    NumConcat(b, s[..i], [s[i]]);
    NumOne(b, s[i]);
  }

  lemma {:induction false} NumBound(b: nat, s: seq<nat>)
    requires DigitsBelow(b, s)
    ensures Num(b, s) < Pow(b, |s|)
  {
    if s != [] {
      NumBound(b, s[1..]);
      assert s[0] < b;
      MulStrict(Num(b, s[1..]), Pow(b, |s| - 1), b);
    }
  }

  lemma {:induction false} NumZeros(b: nat, s: seq<nat>)
    requires forall i :: 0 <= i < |s| ==> s[i] == 0
    ensures Num(b, s) == 0
  {
    if s != [] {
      NumZeros(b, s[1..]);
    }
  }

  /** The digits of a number without leading zeros. */
  function Digits(b: nat, v: nat): (s: seq<nat>)
    requires b > 1
  {
    if v == 0 then [] else
      DivSmaller(v, b);
      [v % b] + Digits(b, v / b)
  }

  /** A number has only one way to be written without leading zeros. */
  lemma {:induction false} DigitsUnique(b: nat, s: seq<nat>)
    requires b > 1 && DigitsBelow(b, s) && (s != [] ==> s[|s| - 1] > 0)
    ensures Digits(b, Num(b, s)) == s && (Num(b, s) == 0 <==> s == [])
  {
    if s != [] {
      var v := Num(b, s[1..]);
      DigitsUnique(b, s[1..]);
      DivUnique(Num(b, s), b, v, s[0]);
      if |s| > 1 {
        MulStrict(0, v, b);
      }
      assert s == [s[0]] + s[1..];
    }
  }

  lemma DigitsStep(b: nat, v: nat)
    requires b > 1 && v > 0
    ensures Digits(b, v) == [v % b] + Digits(b, v / b)
  {
  }

  lemma NumStep(b: nat, x: nat, s: seq<nat>)
    ensures Num(b, []) == 0 && Num(b, [x] + s) == x + b * Num(b, s)
  {
    assert ([x] + s)[1..] == s;
  }

  lemma {:induction false} DigitsNum(b: nat, v: nat)
    requires b > 1
    ensures var s := Digits(b, v); Num(b, s) == v && DigitsBelow(b, s) && (s != [] ==> s[|s| - 1] > 0)
  {
    hide Num;
    if v == 0 {
      NumStep(b, 0, []);
    } else {
      var q, r := v / b, v % b;
      DivSmaller(v, b);
      DigitsNum(b, q);
      DigitsStep(b, v);
      NumStep(b, r, Digits(b, q));
    }
  }

  /** A number below a power of the base takes no more digits than the power. */
  lemma {:induction false} DigitsFit(b: nat, v: nat, k: nat)
    requires b > 1 && v < Pow(b, k)
    ensures |Digits(b, v)| <= k
    decreases k
  {
    if v > 0 {
      if k == 0 {
        assert false;
      }
      DivLess(v, b, Pow(b, k - 1));
      DivSmaller(v, b);
      DigitsFit(b, v / b, k - 1);
    }
  }

  /** Writing the low part of `n` and carrying the rest loses nothing. */
  lemma CarryOut(b: nat, r: seq<nat>, carry: nat, n: nat, total: nat, more: nat)
    requires b > 0 && Num(b, r) + carry * Pow(b, |r|) == total && n == carry + more
    ensures Num(b, r + [n % b]) + n / b * Pow(b, |r| + 1) == total + more * Pow(b, |r|)
  {
    hide Num, Pow;
    var p, h, l := Pow(b, |r|), n / b, n % b;
    PowStep(b, |r|);
    assert n == h * b + l;
    NumConcat(b, r, [l]);
    NumOne(b, l);
    MulAssociates(h, b, p);
    MulDistributes(h * b, l, p);
    MulDistributes(carry, more, p);
  }
}
