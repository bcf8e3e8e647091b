/** Base 58 strings of bytes. Numbers are big-endian in both forms; buffers are indexed from their last place. */
module Base58 {

  import opened Arithmetic
  import opened Basics
  import opened Positional

  // ----- Buffer sizes -----

  lemma {:induction false} EncodeRoom(n: nat)
    ensures Pow(256, n) <= Pow(58, n * 138 / 100 + 1)
  {
    hide Pow;
    if n < 8 {
      SmallEncodeRoom(n);
    } else {
      EncodeRoom(n - 8);
      EncodeBlock();
      PowAdd(256, 8, n - 8);
      PowAdd(58, 11, (n - 8) * 138 / 100 + 1);
      MulMonotone(Pow(256, n - 8), Pow(58, (n - 8) * 138 / 100 + 1), Pow(256, 8));
      PowPositive(58, (n - 8) * 138 / 100 + 1);
      MulMonotone(Pow(256, 8), Pow(58, 11), Pow(58, (n - 8) * 138 / 100 + 1));
      PowMonotone(58, 11 + ((n - 8) * 138 / 100 + 1), n * 138 / 100 + 1);
    }
  }

  lemma EncodeBlock()
    ensures Pow(256, 8) <= Pow(58, 11)
  {
  }

  lemma SmallEncodeRoom(n: nat)
    requires n < 8
    ensures Pow(256, n) <= Pow(58, n * 138 / 100 + 1)
  {
    assert Pow(256, 0) <= Pow(58, 1) && Pow(256, 1) <= Pow(58, 2) && Pow(256, 2) <= Pow(58, 3) && Pow(256, 3) <= Pow(58, 5);
    assert Pow(256, 4) <= Pow(58, 6) && Pow(256, 5) <= Pow(58, 7) && Pow(256, 6) <= Pow(58, 9) && Pow(256, 7) <= Pow(58, 10);
  }

  /** Bounds on powers multiply. */
  lemma BoundsMultiply(x: nat, a: nat, b: nat, y: nat, x': nat, a': nat, b': nat, y': nat)
    requires x * a <= b * y && x' * a' <= b' * y'
    ensures (x * x') * (a * a') <= (b * b') * (y * y')
  {
    MulMonotone(x * a, b * y, x' * a');
    MulMonotone(x' * a', b' * y', b * y);
    FourFactors(x, a, x', a');
    FourFactors(b, y, b', y');
  }

  lemma FifteenDigits()
    ensures Pow(58, 15) * 25 <= 23 * Pow(256, 11)
  {
    PowAdd(58, 8, 7);
    PowAdd(256, 6, 5);
    assert Pow(58, 7) == 2207984167552 && Pow(58, 8) == 128063081718016;
    assert Pow(256, 5) == 0x100_0000_0000 && Pow(256, 6) == 0x1_0000_0000_0000;
  }

  lemma ElevenDigits()
    ensures Pow(58, 11) * 8 <= 11 * Pow(256, 8)
  {
  }

  lemma DecodeBlock()
    ensures Pow(58, 71) <= Pow(256, 52)
  {
    hide Pow;
    FifteenDigits();
    ElevenDigits();
    PowAdd(58, 15, 15);
    PowAdd(256, 11, 11);
    PowAdd(58, 30, 30);
    PowAdd(256, 22, 22);
    PowAdd(58, 60, 11);
    PowAdd(256, 44, 8);
    BoundsMultiply(Pow(58, 15), 25, 23, Pow(256, 11), Pow(58, 15), 25, 23, Pow(256, 11));
    BoundsMultiply(Pow(58, 30), 625, 529, Pow(256, 22), Pow(58, 30), 625, 529, Pow(256, 22));
    BoundsMultiply(Pow(58, 60), 390625, 279841, Pow(256, 44), Pow(58, 11), 8, 11, Pow(256, 8));
  }

  lemma SmallDecodeRoom(n: nat)
    requires n <= 15
    ensures Pow(58, n) <= Pow(256, n * 733 / 1000 + 1)
  {
    if n < 8 {
      assert Pow(58, 0) <= Pow(256, 1) && Pow(58, 1) <= Pow(256, 1) && Pow(58, 2) <= Pow(256, 2) && Pow(58, 3) <= Pow(256, 3);
      assert Pow(58, 4) <= Pow(256, 3) && Pow(58, 5) <= Pow(256, 4) && Pow(58, 6) <= Pow(256, 5) && Pow(58, 7) <= Pow(256, 6);
    } else {
      LargerDecodeRoom(n);
    }
  }

  lemma MiddleDecodeRoom()
    ensures Pow(58, 8) <= Pow(256, 6) && Pow(58, 9) <= Pow(256, 7) && Pow(58, 10) <= Pow(256, 8) && Pow(58, 11) <= Pow(256, 9)
  {
  }

  lemma LargestDecodeRoom()
    ensures Pow(58, 12) <= Pow(256, 9) && Pow(58, 13) <= Pow(256, 10) && Pow(58, 14) <= Pow(256, 11) && Pow(58, 15) <= Pow(256, 11)
  {
  }

  lemma LargerDecodeRoom(n: nat)
    requires 8 <= n <= 15
    ensures Pow(58, n) <= Pow(256, n * 733 / 1000 + 1)
  {
    hide Pow;
    MiddleDecodeRoom();
    LargestDecodeRoom();
  }

  lemma FirstBlocks(n: nat)
    requires 16 <= n < 43
    ensures 11 + (n - 15) * 733 / 1000 <= n * 733 / 1000
  {
  }

  lemma LaterBlocks(n: nat)
    requires 43 <= n < 71
    ensures 11 + (n - 15) * 733 / 1000 <= n * 733 / 1000
  {
  }

  lemma LongBlocks(n: nat)
    requires n >= 71
    ensures 52 + (n - 71) * 733 / 1000 <= n * 733 / 1000
  {
  }

  lemma {:induction false} DecodeRoom(n: nat)
    ensures Pow(58, n) <= Pow(256, n * 733 / 1000 + 1)
  {
    hide Pow;
    if n <= 15 {
      SmallDecodeRoom(n);
    } else if n < 71 {
      if n < 43 {
        FirstBlocks(n);
      } else {
        LaterBlocks(n);
      }
      DecodeRoom(n - 15);
      SmallDecodeRoom(15);
      RoomStep(n, 15, 11);
    } else {
      LongBlocks(n);
      DecodeRoom(n - 71);
      DecodeBlock();
      RoomStep(n, 71, 52);
    }
  }

  lemma RoomStep(n: nat, k: nat, m: nat)
    requires k <= n && Pow(58, k) <= Pow(256, m) && m + (n - k) * 733 / 1000 <= n * 733 / 1000
    requires Pow(58, n - k) <= Pow(256, (n - k) * 733 / 1000 + 1)
    ensures Pow(58, n) <= Pow(256, n * 733 / 1000 + 1)
  {
    hide Pow;
    var e := (n - k) * 733 / 1000 + 1;
    PowAdd(58, k, n - k);
    PowAdd(256, m, e);
    MulMonotone(Pow(58, k), Pow(256, m), Pow(58, n - k));
    MulMonotone(Pow(58, n - k), Pow(256, e), Pow(256, m));
    PowMonotone(256, m + e, n * 733 / 1000 + 1);
  }

  // ----- Multiply and add in place -----

  /** The number of a big-endian sequence of digits. */
  function Big(b: nat, s: seq<nat>): nat {
    if s == [] then 0 else Big(b, s[..|s| - 1]) * b + s[|s| - 1]
  }

  function Reversed(s: seq<nat>): (r: seq<nat>)
    ensures |r| == |s| && forall i :: 0 <= i < |s| ==> r[i] == s[|s| - 1 - i]
  {
    seq(|s|, i requires 0 <= i < |s| => s[|s| - 1 - i])
  }

  lemma {:induction false} BigReversed(b: nat, s: seq<nat>)
    ensures Big(b, s) == Num(b, Reversed(s))
  {
    hide Num;
    if s == [] {
      NumStep(b, 0, []);
      assert Reversed(s) == [];
    } else {
      var t := s[..|s| - 1];
      BigReversed(b, t);
      assert Reversed(s) == [s[|s| - 1]] + Reversed(t);
      NumStep(b, s[|s| - 1], Reversed(t));
    }
  }

  lemma BigPrefix(b: nat, s: seq<nat>, i: nat)
    requires i < |s|
    ensures Big(b, s[..i + 1]) == Big(b, s[..i]) * b + s[i]
  {
    assert s[..i + 1][..i] == s[..i];
  }

  lemma BigBound(b: nat, s: seq<nat>)
    requires DigitsBelow(b, s)
    ensures Big(b, s) < Pow(b, |s|)
  {
    hide Num;
    BigReversed(b, s);
    NumBound(b, Reversed(s));
  }

  /** A buffer holding a number: its digits up to `length`, zeros beyond. */
  ghost predicate Holds(s: seq<nat>, b: nat, length: nat, v: nat)
    requires b > 1
  {
    length <= |s| && s[..length] == Digits(b, v) && forall i :: length <= i < |s| ==> s[i] == 0
  }

  lemma HoldsValue(s: seq<nat>, b: nat, length: nat, v: nat, k: nat)
    requires b > 1 && Holds(s, b, length, v) && length <= k <= |s|
    ensures Num(b, s[..k]) == v && DigitsBelow(b, s) && (length > 0 ==> s[length - 1] > 0)
  {
    hide Num, Digits;
    DigitsNum(b, v);
    assert s[..k] == s[..length] + s[length..k];
    NumConcat(b, s[..length], s[length..k]);
    NumZeros(b, s[length..k]);
    forall i | 0 <= i < |s|
      ensures s[i] < b
    {
      assert i < length ==> s[i] == s[..length][i];
    }
    assert length > 0 ==> s[length - 1] == s[..length][length - 1];
  }

  lemma ValueHeld(s: seq<nat>, b: nat, length: nat, v: nat)
    requires b > 1 && length <= |s| && DigitsBelow(b, s) && (forall i :: length <= i < |s| ==> s[i] == 0)
    requires Num(b, s[..length]) == v && (length > 0 ==> s[length - 1] > 0)
    ensures Holds(s, b, length, v)
  {
    hide Num, Digits;
    DigitsUnique(b, s[..length]);
  }

  /** The places `r` written so far and the carry account for the same places of `was`, multiplied, and `ch`. */
  ghost predicate Carried(b: nat, r: seq<nat>, carry: nat, was: seq<nat>, factor: nat, ch: nat) {
    |r| <= |was| && Num(b, r) + carry * Pow(b, |r|) == factor * Num(b, was[..|r|]) + ch
  }

  lemma CarriedStart(b: nat, was: seq<nat>, factor: nat, ch: nat)
    ensures Carried(b, [], ch, was, factor, ch)
  {
    PowStep(b, 0);
    assert was[..0] == [];
  }

  function Scaled(factor: nat, x: nat, carry: nat): nat {
    carry + factor * x
  }

  function Kept(n: nat, b: nat): nat
    requires b > 0
  {
    n % b
  }

  function Passed(n: nat, b: nat): nat
    requires b > 0
  {
    n / b
  }

  /** One place: the digit kept and the carry passed on. */
  lemma CarriedStep(b: nat, r: seq<nat>, carry: nat, was: seq<nat>, factor: nat, ch: nat)
    requires b > 1 && factor > 0 && |r| < |was| && Carried(b, r, carry, was, factor, ch)
    ensures var n := Scaled(factor, was[|r|], carry);
            && Carried(b, r + [Kept(n, b)], Passed(n, b), was, factor, ch)
            && Kept(n, b) < b && (Passed(n, b) == 0 && (carry > 0 || was[|r|] > 0) ==> Kept(n, b) > 0)
  {
    hide Num, Pow;
    var n := Scaled(factor, was[|r|], carry);
    var i := |r|;
    var x, p := was[i], Pow(b, i);
    CarryOut(b, r, carry, n, factor * Num(b, was[..i]) + ch, factor * x);
    NumPrefix(b, was, i);
    MulDistributes(Num(b, was[..i]), p * x, factor);
    MulAssociates(factor, x, p);
    KeptDigit(b, carry, factor, x, n);
  }

  lemma KeptDigit(b: nat, carry: nat, factor: nat, x: nat, n: nat)
    requires b > 1 && factor > 0 && n == carry + factor * x
    ensures n % b < b && (n / b == 0 && (carry > 0 || x > 0) ==> n % b > 0)
  {
    assert n == n / b * b + n % b;
    if x > 0 {
      MulMonotone(1, x, factor);
    }
  }

  lemma NoCarry(x: nat, carry: nat, p: nat, total: nat)
    requires x + carry * p == total < p
    ensures carry == 0 && x == total
  {
    if carry > 0 {
      MulMonotone(1, carry, p);
      assert false;
    }
  }

  lemma CarriedEnd(s: seq<nat>, b: nat, i: nat, length: nat, was: seq<nat>, v: nat, factor: nat, ch: nat, carry: nat, w: nat)
    requires b > 1 && i <= |s| == |was| && Holds(was, b, length, v) && Carried(b, s[..i], carry, was, factor, ch)
    requires (carry == 0 && i >= length) || i == |s|
    requires w == Scaled(factor, v, ch) && w < Pow(b, |s|)
    ensures carry == 0 && length <= i && Num(b, s[..i]) == w
  {
    hide Num, Pow, Holds;
    HoldsShape(was, b, length, v);
    HoldsValue(was, b, length, v, i);
    var r := s[..i];
    assert |r| == i && Num(b, r) + carry * Pow(b, i) == w;
    if carry > 0 {
      NoCarry(Num(b, r), carry, Pow(b, i), w);
    }
  }

  lemma HoldsShape(s: seq<nat>, b: nat, length: nat, v: nat)
    requires b > 1 && Holds(s, b, length, v)
    ensures length <= |s| && forall i :: length <= i < |s| ==> s[i] == 0
  {
  }

  /** The number held is multiplied by `factor` and `ch` is added; there is room for it, so no carry is left. */
  method MulAdd(a: array<nat>, b: nat, factor: nat, ch: nat, length: nat, ghost v: nat, ghost w: nat) returns (i: nat)
    requires b > 1 && factor > 0 && Holds(a[..], b, length, v) && w == Scaled(factor, v, ch) && w < Pow(b, a.Length)
    modifies a
    ensures Holds(a[..], b, i, w) && length <= i
  {
    hide Num, Pow, Holds, Carried, Scaled, Kept, Passed;
    ghost var was := a[..];
    HoldsShape(was, b, length, v);
    HoldsValue(was, b, length, v, length);
    var carry: nat := ch;
    i := 0;
    assert a[..0] == [];
    CarriedStart(b, was, factor, ch);
    while (carry != 0 || i < length) && i < a.Length
      invariant i <= a.Length && DigitsBelow(b, a[..]) && a.Length == |was|
      invariant forall j :: i <= j < a.Length ==> a[j] == was[j]
      invariant Carried(b, a[..i], carry, was, factor, ch)
      invariant i > 0 && carry == 0 && i >= length ==> a[i - 1] > 0
      decreases a.Length - i
    {
      ghost var r, c := a[..i], carry;
      carry := Scaled(factor, a[i], carry);
      CarriedStep(b, r, c, was, factor, ch);
      a[i], carry := Kept(carry, b), Passed(carry, b);
      assert a[..i + 1] == r + [a[i]];
      i := i + 1;
    }
    CarriedEnd(a[..], b, i, length, was, v, factor, ch, carry, w);
    assert carry == 0;
    ValueHeld(a[..], b, i, w);
  }

  // ----- Characters -----

  const ONE: nat := 0x31

  /** The alphabet: the digits from 1, then upper and lower case without I, O and l. */
  function Letter(d: nat): nat
    requires d < 58
  {
    if d < 9 then 0x31 + d else if d < 17 then 0x41 + (d - 9) else if d < 22 then 0x4a + (d - 17)
    else if d < 33 then 0x50 + (d - 22) else if d < 44 then 0x61 + (d - 33) else 0x6d + (d - 44)
  }

  function Value(c: nat): Option<nat> {
    if 0x31 <= c <= 0x39 then Some(c - 0x31) else if 0x41 <= c <= 0x48 then Some(c - 0x41 + 9)
    else if 0x4a <= c <= 0x4e then Some(c - 0x4a + 17) else if 0x50 <= c <= 0x5a then Some(c - 0x50 + 22)
    else if 0x61 <= c <= 0x6b then Some(c - 0x61 + 33) else if 0x6d <= c <= 0x7a then Some(c - 0x6d + 44) else None
  }

  predicate IsSpace(c: nat) {
    c == 0x20 || 0x09 <= c <= 0x0d
  }

  lemma LetterValue(d: nat)
    requires d < 58
    ensures Value(Letter(d)) == Some(d) && !IsSpace(Letter(d)) && Letter(d) != 0 && (Letter(d) == ONE <==> d == 0)
  {
  }

  lemma ValueLetter(c: nat)
    requires Value(c).Some?
    ensures Value(c).value < 58 && Letter(Value(c).value) == c && (c == ONE <==> Value(c).value == 0)
  {
  }

  /** The digits stand in the order of their characters: all letters and digits except 0, O, I and l. */
  lemma AlphabetIs(c: nat, d: nat)
    requires d < 57
    ensures Letter(d) < Letter(d + 1)
    ensures Value(c).Some? <==>
              && ('0' as nat <= c <= '9' as nat || 'A' as nat <= c <= 'Z' as nat || 'a' as nat <= c <= 'z' as nat)
              && c !in {'0' as nat, 'O' as nat, 'I' as nat, 'l' as nat}
    ensures IsSpace(c) <==> c in {' ' as nat, '\t' as nat, '\n' as nat, 11, 12, '\r' as nat}
  {
  }

  function Letters(s: seq<nat>): (r: seq<nat>)
    requires DigitsBelow(58, s)
    ensures |r| == |s| && forall i :: 0 <= i < |s| ==> r[i] == Letter(s[i])
  {
    seq(|s|, i requires 0 <= i < |s| => Letter(s[i]))
  }

  ghost predicate AllValues(s: seq<nat>) {
    forall i :: 0 <= i < |s| ==> Value(s[i]).Some?
  }

  ghost function Values(s: seq<nat>): (r: seq<nat>)
    requires AllValues(s)
    ensures |r| == |s| && forall i :: 0 <= i < |s| ==> r[i] == Value(s[i]).value
  {
    seq(|s|, i requires 0 <= i < |s| => Value(s[i]).value)
  }

  function Repeat(c: nat, n: nat): (r: seq<nat>)
    ensures |r| == n && forall i :: 0 <= i < n ==> r[i] == c
  {
    seq(n, i => c)
  }

  // ----- The two forms -----

  /** How many elements at the start equal `c`. */
  function Leading(s: seq<nat>, c: nat): (n: nat)
    ensures n <= |s| && (forall i :: 0 <= i < n ==> s[i] == c) && (n < |s| ==> s[n] != c)
  {
    if s == [] || s[0] != c then 0 else 1 + Leading(s[1..], c)
  }

  lemma LeadingIs(s: seq<nat>, c: nat, n: nat)
    requires n <= |s| && (forall i :: 0 <= i < n ==> s[i] == c) && (n < |s| ==> s[n] != c)
    ensures Leading(s, c) == n
  {
  }

  /** The big-endian digits of a number. */
  function Written(b: nat, v: nat): (r: seq<nat>)
    requires b > 1
    ensures DigitsBelow(b, r) && Big(b, r) == v && (r != [] ==> r[0] > 0)
  {
    DigitsNum(b, v);
    BigReversed(b, Reversed(Digits(b, v)));
    assert Reversed(Reversed(Digits(b, v))) == Digits(b, v);
    Reversed(Digits(b, v))
  }

  lemma WrittenUnique(b: nat, s: seq<nat>)
    requires b > 1 && DigitsBelow(b, s) && (s != [] ==> s[0] > 0)
    ensures Written(b, Big(b, s)) == s
  {
    hide Digits, Num;
    BigReversed(b, s);
    DigitsUnique(b, Reversed(s));
    assert Reversed(Reversed(s)) == s;
  }

  /** The text of a byte string. */
  ghost function Encoded(x: seq<nat>): seq<nat> {
    var z := Leading(x, 0);
    Repeat(ONE, z) + Letters(Written(58, Big(256, x[z..])))
  }

  /** The part of a string after leading spaces. */
  function Trimmed(s: seq<nat>): (r: seq<nat>)
    ensures |r| <= |s| && (r != [] ==> !IsSpace(r[0])) && r == s[|s| - |r|..]
    ensures forall i :: 0 <= i < |s| - |r| ==> IsSpace(s[i])
  {
    if s == [] || !IsSpace(s[0]) then s else Trimmed(s[1..])
  }

  /** The length of the word at the start of a string. */
  function Word(s: seq<nat>): (n: nat)
    ensures n <= |s| && (forall i :: 0 <= i < n ==> !IsSpace(s[i])) && (n < |s| ==> IsSpace(s[n]))
  {
    if s == [] || IsSpace(s[0]) then 0 else 1 + Word(s[1..])
  }

  /** The digits of a string: the word after leading spaces and ones, where only spaces follow it. */
  ghost predicate Parses(str: seq<nat>, z: nat, body: seq<nat>) {
    var t := Trimmed(str);
    && 0 !in str && z == Leading(t, ONE) && body == t[z..][..Word(t[z..])] && AllValues(body)
    && forall i :: z + |body| <= i < |t| ==> IsSpace(t[i])
  }

  /** The bytes of a string, where it is the text of a byte string of at most `max` bytes. */
  ghost predicate Decodes(str: seq<nat>, max: nat, x: seq<nat>) {
    exists z, body :: Parses(str, z, body) && AllValues(body) && x == Repeat(0, z) + Written(256, Big(58, Values(body))) && |x| <= max
  }

  lemma DecodesUnique(str: seq<nat>, max: nat, x: seq<nat>, y: seq<nat>)
    requires Decodes(str, max, x) && Decodes(str, max, y)
    ensures x == y
  {
    hide Written;
  }

  // ----- Round trips -----

  lemma LettersRead(ds: seq<nat>)
    requires DigitsBelow(58, ds)
    ensures AllValues(Letters(ds)) && Values(Letters(ds)) == ds
    ensures forall i :: 0 <= i < |ds| ==> !IsSpace(Letters(ds)[i]) && Letters(ds)[i] != 0
    ensures ds != [] && ds[0] > 0 ==> Letters(ds)[0] != ONE
  {
    hide Letter, Value, IsSpace;
    forall i | 0 <= i < |ds|
      ensures Value(Letters(ds)[i]) == Some(ds[i]) && !IsSpace(Letters(ds)[i]) && Letters(ds)[i] != 0
    {
      LetterValue(ds[i]);
    }
    if ds != [] {
      LetterValue(ds[0]);
    }
  }

  lemma DecodeOfEncode(x: seq<nat>, max: nat)
    requires DigitsBelow(256, x) && |x| <= max
    ensures Decodes(Encoded(x), max, x)
  {
    hide Written, Letters, Big, Parses, Leading, IsSpace, AllValues, Values;
    var z := Leading(x, 0);
    var rest := x[z..];
    var ds := Written(58, Big(256, rest));
    LettersRead(ds);
    PlainText(Encoded(x), z, Letters(ds));
    WrittenUnique(256, rest);
    assert x == Repeat(0, z) + rest;
  }

  lemma OneShape()
    ensures !IsSpace(ONE) && ONE != 0
  {
  }

  lemma NoSpaces(s: seq<nat>)
    requires forall i :: 0 <= i < |s| ==> !IsSpace(s[i])
    ensures Trimmed(s) == s && Word(s) == |s|
  {
  }

  /** A string of ones and a word that does not start with one parses as just that. */
  lemma PlainText(str: seq<nat>, z: nat, body: seq<nat>)
    requires str == Repeat(ONE, z) + body && AllValues(body) && (body != [] ==> body[0] != ONE)
    requires forall i :: 0 <= i < |body| ==> !IsSpace(body[i]) && body[i] != 0
    ensures Parses(str, z, body)
  {
    hide Value, Trimmed, Word, Leading, IsSpace;
    forall i | 0 <= i < |str|
      ensures !IsSpace(str[i]) && str[i] != 0
    {
      OneShape();
    }
    NoSpaces(str);
    NoSpaces(body);
    LeadingIs(str, ONE, z);
    assert str[z..] == body;
  }

  lemma ParsesPlain(str: seq<nat>, z: nat, body: seq<nat>)
    requires Parses(str, z, body) && forall i :: 0 <= i < |str| ==> !IsSpace(str[i])
    ensures z == Leading(str, ONE) && body == str[z..] && AllValues(body)
  {
    hide Trimmed, Word, Leading, IsSpace, AllValues;
    NoSpaces(str);
    NoSpaces(str[z..]);
  }

  lemma WordEncodes(z: nat, body: seq<nat>, x: seq<nat>)
    requires AllValues(body) && (body != [] ==> body[0] != ONE)
    requires x == Repeat(0, z) + Written(256, Big(58, Values(body)))
    ensures Encoded(x) == Repeat(ONE, z) + body
  {
    hide Written, Letter, Value, Big, Leading;
    var vs := Values(body);
    var bytes := Written(256, Big(58, vs));
    LeadingIs(x, 0, z);
    assert x[z..] == bytes;
    forall i | 0 <= i < |body|
      ensures vs[i] < 58 && Letter(vs[i]) == body[i] && (body[i] == ONE <==> vs[i] == 0)
    {
      ValueLetter(body[i]);
    }
    WrittenUnique(58, vs);
    assert Letters(vs) == body;
  }

  lemma EncodeOfDecode(str: seq<nat>, max: nat, x: seq<nat>)
    requires Decodes(str, max, x) && forall i :: 0 <= i < |str| ==> !IsSpace(str[i])
    ensures Encoded(x) == str
  {
    hide Written, Big, Encoded, Parses, IsSpace, Value, Leading, Values;
    var z, body :| Parses(str, z, body) && AllValues(body) && x == Repeat(0, z) + Written(256, Big(58, Values(body))) && |x| <= max;
    ParsesPlain(str, z, body);
    WordEncodes(z, body, x);
    assert str == Repeat(ONE, z) + body;
  }

  // ----- The code -----

  lemma EmptyHolds(s: seq<nat>, b: nat)
    requires b > 1 && forall i :: 0 <= i < |s| ==> s[i] == 0
    ensures Holds(s, b, 0, Big(b, [])) && Big(b, []) == 0
  {
  }

  /** The next number is the last one times the base and the next digit, and the buffer has room for it. */
  lemma NextByte(s: seq<nat>, k: nat)
    requires DigitsBelow(256, s) && k < |s|
    ensures Big(256, s[..k + 1]) == Scaled(256, Big(256, s[..k]), s[k]) < Pow(58, |s| * 138 / 100 + 1)
  {
    hide Pow, Big;
    BigPrefix(256, s, k);
    BigBound(256, s[..k + 1]);
    PowMonotone(256, k + 1, |s|);
    EncodeRoom(|s|);
  }

  /** The buffer from its last place down is the number as written. */
  lemma HeldIsWritten(s: seq<nat>, b: nat, length: nat, v: nat)
    requires b > 1 && Holds(s, b, length, v)
    ensures length <= |s| && |Written(b, v)| == length && (length > 0 ==> s[length - 1] > 0)
    ensures forall i :: 0 <= i < length ==> Written(b, v)[i] == s[length - 1 - i]
  {
    hide Num, Digits;
    HoldsValue(s, b, length, v, length);
    assert s[..length] == Digits(b, v);
  }

  method Encode(input: seq<nat>) returns (str: seq<nat>)
    requires DigitsBelow(256, input)
    ensures str == Encoded(input)
  {
    hide Holds, Written, Big, Scaled, Pow, Letter;
    var zeroes, rest := 0, input;
    while rest != [] && rest[0] == 0
      invariant 0 <= zeroes <= |input| && rest == input[zeroes..] && forall i :: 0 <= i < zeroes ==> input[i] == 0
    {
      rest := rest[1..];
      zeroes := zeroes + 1;
    }
    LeadingIs(input, 0, zeroes);
    var size := |rest| * 138 / 100 + 1;
    var b58 := new nat[size](i => 0);
    var length: nat, k: nat := 0, 0;
    EmptyHolds(b58[..], 58);
    assert rest[..0] == [];
    EmptyBig(256, 58);
    while k < |rest|
      invariant k <= |rest| && Holds(b58[..], 58, length, Big(256, rest[..k]))
    {
      NextByte(rest, k);
      length := MulAdd(b58, 58, 256, rest[k], length, Big(256, rest[..k]), Big(256, rest[..k + 1]));
      k := k + 1;
    }
    assert rest[..k] == rest;
    HoldsShape(b58[..], 58, length, Big(256, rest));
    var it := length;
    while it > 0 && b58[it - 1] == 0
      invariant 0 <= it <= length && forall j :: it <= j < length ==> b58[j] == 0
    {
      it := it - 1;
    }
    ghost var ds := Written(58, Big(256, rest));
    HeldIsWritten(b58[..], 58, length, Big(256, rest));
    str := Repeat(ONE, zeroes);
    while it > 0
      invariant 0 <= it <= length == |ds| && str == Repeat(ONE, zeroes) + Letters(ds)[..length - it]
    {
      it := it - 1;
      assert ds[length - 1 - it] == b58[it];
      str := str + [Letter(b58[it])];
    }
  }

  lemma EmptyBig(b: nat, b': nat)
    ensures Big(b, []) == 0 == Big(b', [])
  {
  }

  lemma NextSymbol(s: seq<nat>, k: nat, n: nat)
    requires k < |s| <= n && DigitsBelow(58, s)
    ensures Big(58, s[..k + 1]) == Scaled(58, Big(58, s[..k]), s[k]) < Pow(256, n * 733 / 1000 + 1)
  {
    hide Pow, Big;
    BigPrefix(58, s, k);
    BigBound(58, s[..k + 1]);
    PowMonotone(58, k + 1, n);
    DecodeRoom(n);
  }

  lemma ValuesBelow(s: seq<nat>)
    requires AllValues(s)
    ensures DigitsBelow(58, Values(s))
  {
    hide Letter, Value;
    forall i | 0 <= i < |s|
      ensures Values(s)[i] < 58
    {
      ValueLetter(s[i]);
    }
  }

  lemma {:induction false} BigGrows(b: nat, s: seq<nat>, k: nat)
    requires b > 0 && k <= |s|
    ensures Big(b, s[..k]) <= Big(b, s)
    decreases |s|
  {
    if k == |s| {
      assert s[..k] == s;
    } else {
      var t := s[..|s| - 1];
      BigGrows(b, t, k);
      assert t[..k] == s[..k];
      MulMonotone(1, b, Big(b, t));
    }
  }

  /** A larger number takes no fewer digits. */
  lemma WrittenGrows(b: nat, v: nat, w: nat)
    requires b > 1 && v <= w
    ensures |Written(b, v)| <= |Written(b, w)|
  {
    hide Num, Pow;
    DigitsNum(b, w);
    NumBound(b, Digits(b, w));
    DigitsFit(b, v, |Digits(b, w)|);
  }

  /** No reading of a string is longer than its ones and the bytes of any prefix of its word allow. */
  lemma TooLong(str: seq<nat>, max: nat, z: nat, k: nat)
    requires var t := Trimmed(str); z <= Leading(t, ONE) && (k > 0 ==> z == Leading(t, ONE))
    requires var u := Trimmed(str)[z..]; k <= Word(u) && AllValues(u[..k]) && z + |Written(256, Big(58, Values(u[..k])))| > max
    ensures forall x :: !Decodes(str, max, x)
  {
    hide Written, Big, Value, Trimmed, Word, Leading, IsSpace;
    forall x
      ensures !Decodes(str, max, x)
    {
      if Decodes(str, max, x) {
        LongEnough(str, max, z, k, x);
      }
    }
  }

  lemma LongEnough(str: seq<nat>, max: nat, z: nat, k: nat, x: seq<nat>)
    requires var t := Trimmed(str); z <= Leading(t, ONE) && (k > 0 ==> z == Leading(t, ONE))
    requires var u := Trimmed(str)[z..]; k <= Word(u) && AllValues(u[..k])
    requires Decodes(str, max, x)
    ensures z + |Written(256, Big(58, Values(Trimmed(str)[z..][..k])))| <= |x| <= max
  {
    hide Written, Big, Value, Trimmed, Word, Leading, IsSpace;
    var n, body :| Parses(str, n, body) && AllValues(body) && x == Repeat(0, n) + Written(256, Big(58, Values(body))) && |x| <= max;
    var u := Trimmed(str)[z..];
    var vs, ws := Values(u[..k]), Values(body);
    if k == 0 {
      assert vs == [] == ws[..0];
    } else {
      assert u[..k] == body[..k];
      assert vs == ws[..k];
    }
    BigGrows(58, ws, |vs|);
    WrittenGrows(256, Big(58, vs), Big(58, ws));
  }

  /** What a string is after leading spaces: `z` ones and then `u`. */
  ghost predicate Splits(str: seq<nat>, z: nat, u: seq<nat>) {
    var t := Trimmed(str);
    z == Leading(t, ONE) && u == t[z..]
  }

  lemma DecodesShape(str: seq<nat>, max: nat, z: nat, u: seq<nat>, x: seq<nat>)
    requires Splits(str, z, u) && Decodes(str, max, x)
    ensures 0 !in str && AllValues(u[..Word(u)]) && forall i :: Word(u) <= i < |u| ==> IsSpace(u[i])
  {
    hide Written, Big, Value, Trimmed, Word, Leading, IsSpace, AllValues;
    var t := Trimmed(str);
    forall i | Word(u) <= i < |u|
      ensures IsSpace(u[i])
    {
      assert u[i] == t[z + i];
    }
  }

  lemma NoDecode(str: seq<nat>, max: nat, z: nat, u: seq<nat>)
    requires Splits(str, z, u)
    requires 0 in str || !AllValues(u[..Word(u)]) || exists i :: Word(u) <= i < |u| && !IsSpace(u[i])
    ensures forall x :: !Decodes(str, max, x)
  {
    hide Splits, Decodes, Word, IsSpace, AllValues;
    forall x
      ensures !Decodes(str, max, x)
    {
      if Decodes(str, max, x) {
        DecodesShape(str, max, z, u, x);
      }
    }
  }

  lemma YesDecode(str: seq<nat>, max: nat, z: nat, u: seq<nat>, x: seq<nat>)
    requires Splits(str, z, u) && 0 !in str && AllValues(u[..Word(u)]) && (forall i :: Word(u) <= i < |u| ==> IsSpace(u[i]))
    requires x == Repeat(0, z) + Written(256, Big(58, Values(u[..Word(u)]))) && |x| <= max
    ensures Decodes(str, max, x)
  {
    hide Written, Big, Value, Trimmed, Word, Leading, IsSpace, AllValues;
    var t, body := Trimmed(str), u[..Word(u)];
    forall i | z + |body| <= i < |t|
      ensures IsSpace(t[i])
    {
      assert t[i] == u[i - z];
    }
    assert Parses(str, z, body);
  }

  lemma TrimStep(s: seq<nat>)
    ensures s != [] && IsSpace(s[0]) ==> Trimmed(s) == Trimmed(s[1..])
    ensures s == [] || !IsSpace(s[0]) ==> Trimmed(s) == s
  {
  }

  lemma WordIs(s: seq<nat>, n: nat)
    requires n <= |s| && (forall i :: 0 <= i < n ==> !IsSpace(s[i])) && (n < |s| ==> IsSpace(s[n]))
    ensures Word(s) == n
  {
  }

  /** Taking in one more character of the word. */
  lemma TakeCharacter(u: seq<nat>, k: nat)
    requires k < |u| && AllValues(u[..k]) && Value(u[k]).Some?
    ensures AllValues(u[..k + 1]) && Values(u[..k + 1]) == Values(u[..k]) + [Value(u[k]).value]
    ensures Big(58, Values(u[..k + 1])) == Scaled(58, Big(58, Values(u[..k])), Value(u[k]).value)
         < Pow(256, |u| * 733 / 1000 + 1)
  {
    hide Value, Big, Scaled, Pow;
    var vs := Values(u[..k + 1]);
    assert vs == Values(u[..k]) + [Value(u[k]).value];
    ValuesBelow(u[..k + 1]);
    assert vs[..k + 1] == vs && vs[..k] == Values(u[..k]);
    NextSymbol(vs, k, |u|);
  }

  method SkipSpaces(str: seq<nat>) returns (psz: seq<nat>)
    ensures psz == Trimmed(str)
  {
    hide Trimmed, IsSpace;
    psz := str;
    while psz != [] && IsSpace(psz[0])
      invariant Trimmed(psz) == Trimmed(str)
    {
      TrimStep(psz);
      psz := psz[1..];
    }
    TrimStep(psz);
  }

  /** Reads the word at the start of a string into a buffer, giving up at a bad character or past `limit` bytes. */
  method ReadWord(u: seq<nat>, limit: nat) returns (ok: bool, b256: array<nat>, length: nat, k: nat)
    ensures k <= Word(u)
    ensures ok ==> k == Word(u) && AllValues(u[..k]) && Holds(b256[..], 256, length, Big(58, Values(u[..k]))) && length <= limit
    ensures !ok ==> !AllValues(u[..Word(u)]) || (AllValues(u[..k]) && |Written(256, Big(58, Values(u[..k])))| > limit)
  {
    hide Holds, Written, Big, Scaled, Pow, Value, IsSpace, Word, AllValues, Values;
    var size := |u| * 733 / 1000 + 1;
    b256 := new nat[size](i => 0);
    length, k := 0, 0;
    NoneTaken(u);
    EmptyHolds(b256[..], 256);
    while k < |u| && !IsSpace(u[k])
      invariant k <= |u| && (forall i :: 0 <= i < k ==> !IsSpace(u[i])) && AllValues(u[..k])
      invariant Holds(b256[..], 256, length, Big(58, Values(u[..k]))) && length <= limit
    {
      WordAtLeast(u, k + 1);
      var carry := Value(u[k]);
      if carry.None? {
        BadDigit(u, k);
        return false, b256, length, k;
      }
      TakeCharacter(u, k);
      length := MulAdd(b256, 256, 58, carry.value, length, Big(58, Values(u[..k])), Big(58, Values(u[..k + 1])));
      k := k + 1;
      if length > limit {
        HeldIsWritten(b256[..], 256, length, Big(58, Values(u[..k])));
        return false, b256, length, k;
      }
    }
    WordIs(u, k);
    ok := true;
  }

  method SkipOnes(str: seq<nat>, t: seq<nat>, max: nat) returns (ok: bool, zeroes: nat, psz: seq<nat>)
    requires t == Trimmed(str)
    ensures ok ==> Splits(str, zeroes, psz) && zeroes <= max
    ensures !ok ==> forall x :: !Decodes(str, max, x)
  {
    hide Decodes, Trimmed, Leading, Written, Big, Values, AllValues;
    zeroes, psz := 0, t;
    while psz != [] && psz[0] == ONE
      invariant zeroes <= |t| && psz == t[zeroes..] && zeroes <= Leading(t, ONE) && zeroes <= max
    {
      zeroes := zeroes + 1;
      if zeroes > max {
        NoneTaken(t[zeroes..]);
        TooLong(str, max, zeroes, 0);
        return false, zeroes, psz;
      }
      psz := psz[1..];
    }
    LeadingIs(t, ONE, zeroes);
    ok := true;
  }

  lemma SomeSplit(str: seq<nat>)
    ensures exists z, u :: Splits(str, z, u)
  {
    var t := Trimmed(str);
    assert Splits(str, Leading(t, ONE), t[Leading(t, ONE)..]);
  }

  lemma NullRefused(str: seq<nat>, max: nat)
    requires 0 in str
    ensures forall x :: !Decodes(str, max, x)
  {
    hide Splits, Decodes;
    SomeSplit(str);
    var z, u :| Splits(str, z, u);
    NoDecode(str, max, z, u);
  }

  method Decode(str: seq<nat>, max: nat) returns (r: Option<seq<nat>>)
    ensures r.Some? ==> Decodes(str, max, r.value)
    ensures r.None? ==> forall x :: !Decodes(str, max, x)
  {
    hide Holds, Written, Big, IsSpace, Decodes, Word, AllValues, Values, Splits;
    if 0 in str {
      NullRefused(str, max);
      return None;
    }
    var t := SkipSpaces(str);
    var ok, zeroes, psz := SkipOnes(str, t, max);
    if !ok {
      return None;
    }
    var good, b256, length, k := ReadWord(psz, max - zeroes);
    if !good {
      WordRefused(str, max, zeroes, psz, k);
      return None;
    }
    var i := k;
    while i < |psz| && IsSpace(psz[i])
      invariant k <= i <= |psz| && forall j :: k <= j < i ==> IsSpace(psz[j])
    {
      i := i + 1;
    }
    if i < |psz| {
      NoDecode(str, max, zeroes, psz);
      return None;
    }
    var vch := Emit(b256, length, zeroes, Big(58, Values(psz[..k])));
    YesDecode(str, max, zeroes, psz, vch);
    return Some(vch);
  }

  lemma WordRefused(str: seq<nat>, max: nat, z: nat, u: seq<nat>, k: nat)
    requires Splits(str, z, u) && z <= max && k <= Word(u)
    requires !AllValues(u[..Word(u)]) || (AllValues(u[..k]) && |Written(256, Big(58, Values(u[..k])))| > max - z)
    ensures forall x :: !Decodes(str, max, x)
  {
    hide Written, Big, Value, Trimmed, Word, Leading, IsSpace, AllValues, Decodes;
    if AllValues(u[..Word(u)]) {
      TooLong(str, max, z, k);
    } else {
      NoDecode(str, max, z, u);
    }
  }

  /** The leading zeros and the bytes in the buffer, from its first place to its last. */
  method Emit(b256: array<nat>, length: nat, zeroes: nat, ghost v: nat) returns (vch: seq<nat>)
    requires Holds(b256[..], 256, length, v)
    ensures vch == Repeat(0, zeroes) + Written(256, v) && |vch| == zeroes + length
  {
    hide Holds, Written, Big;
    vch := Repeat(0, zeroes);
    ghost var bytes := Written(256, v);
    HeldIsWritten(b256[..], 256, length, v);
    var it := length;
    while it > 0
      invariant 0 <= it <= length == |bytes| && vch == Repeat(0, zeroes) + bytes[..length - it]
    {
      it := it - 1;
      assert bytes[length - 1 - it] == b256[it];
      vch := vch + [b256[it]];
    }
  }

  lemma NoneTaken(u: seq<nat>)
    ensures AllValues(u[..0]) && Values(u[..0]) == [] && Big(58, []) == 0 == Big(256, []) && |Written(256, 0)| == 0
  {
    DigitsNum(256, 0);
  }

  lemma WordAtLeast(u: seq<nat>, k: nat)
    requires k <= |u| && forall i :: 0 <= i < k ==> !IsSpace(u[i])
    ensures k <= Word(u)
  {
    if Word(u) < k {
      assert false;
    }
  }

  lemma BadDigit(u: seq<nat>, k: nat)
    requires k < |u| && (forall i :: 0 <= i <= k ==> !IsSpace(u[i])) && Value(u[k]).None?
    ensures !AllValues(u[..Word(u)])
  {
    WordAtLeast(u, k + 1);
    assert u[..Word(u)][k] == u[k];
  }
}
