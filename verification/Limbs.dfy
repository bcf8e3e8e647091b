/** Numbers as sequences of 32-bit limbs, least significant first. */
module Limbs {

  import opened Arithmetic
  import opened Positional

  const BASE: nat := 0x1_0000_0000

  type Limb = x: nat | x < BASE

  /** The number a sequence of limbs stands for. */
  function Val(s: seq<Limb>): nat {
    Num(BASE, s)
  }

  /** One more than the largest number of `k` limbs. */
  function Limit(k: nat): (p: nat)
    ensures p > 0
  {
    PowPositive(BASE, k);
    Pow(BASE, k)
  }

  lemma LimitStep(k: nat)
    ensures Limit(0) == 1 && Limit(k + 1) == BASE * Limit(k)
  {
    PowStep(BASE, k);
  }

  lemma LimitAdd(j: nat, k: nat)
    ensures Limit(j + k) == Limit(j) * Limit(k)
  {
    PowAdd(BASE, j, k);
  }

  lemma ValStep(s: seq<Limb>)
    requires s != []
    ensures Val(s) == s[0] as nat + BASE * Val(s[1..])
  {
  }

  lemma ValBound(s: seq<Limb>)
    ensures Val(s) < Limit(|s|)
  {
    NumBound(BASE, s);
  }

  /** Cutting a number in two divides it by a power of the base. */
  lemma ValSplit(s: seq<Limb>, k: nat)
    requires k <= |s|
    ensures Val(s) == Val(s[k..]) * Limit(k) + Val(s[..k])
    ensures Val(s[..k]) == Val(s) % Limit(k) && Val(s[k..]) == Val(s) / Limit(k)
  {
    hide Num, Pow;
    assert s == s[..k] + s[k..];
    NumConcat(BASE, s[..k], s[k..]);
    ValBound(s[..k]);
    DivUnique(Val(s), Limit(k), Val(s[k..]), Val(s[..k]));
  }

  lemma ValZeros(s: seq<Limb>)
    requires forall i :: 0 <= i < |s| ==> s[i] == 0
    ensures Val(s) == 0
  {
    NumZeros(BASE, s);
  }
}
