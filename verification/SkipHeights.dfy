/** Where the skip pointers of block headers lead (src/chain.cpp:70-83), and how many steps a walk along them takes. */
module SkipHeights {

  import opened Arithmetic

  function And(x: nat, y: nat): nat {
    if x == 0 || y == 0 then 0 else (x % 2) * (y % 2) + 2 * And(x / 2, y / 2)
  }

  lemma {:induction false} AndBound(x: nat, y: nat)
    ensures And(x, y) <= y
  {
    if x != 0 && y != 0 {
      AndBound(x / 2, y / 2);
      assert (x % 2) * (y % 2) <= y % 2;
    }
  }

  lemma {:induction false} AndSelf(x: nat)
    ensures And(x, x) == x
  {
    if x != 0 {
      AndSelf(x / 2);
    }
  }

  /** The number without its lowest one bit. */
  function InvertLowestOne(n: nat): nat {
    if n == 0 then 0 else And(n, n - 1)
  }

  lemma InvertLower(n: nat)
    ensures InvertLowestOne(n) <= n && (n > 0 ==> InvertLowestOne(n) < n)
  {
    if n > 0 {
      AndBound(n, n - 1);
    }
  }

  /** An odd number loses its last bit, an even one what its half loses. */
  lemma InvertIs(n: nat)
    ensures n % 2 == 1 ==> InvertLowestOne(n) == n - 1
    ensures n % 2 == 0 ==> InvertLowestOne(n) == 2 * InvertLowestOne(n / 2)
  {
    if n % 2 == 1 {
      AndSelf(n / 2);
      assert (n - 1) / 2 == n / 2;
    } else if n > 0 {
      assert (n - 1) / 2 == n / 2 - 1;
    }
  }

  function SkipHeight(height: nat): nat {
    if height < 2 then 0
    else if height % 2 == 1 then InvertLowestOne(InvertLowestOne(height - 1)) + 1
    else InvertLowestOne(height)
  }

  lemma SkipLower(height: nat)
    ensures height > 0 ==> SkipHeight(height) < height
  {
    if height >= 2 {
      InvertLower(height);
      InvertLower(height - 1);
      InvertLower(InvertLowestOne(height - 1));
    }
  }

  // ----- The walk to an ancestor -----

  /** Whether the walk follows the skip pointer: not where the block before has a better one. */
  predicate TakesSkip(walk: nat, height: nat)
    requires walk > 0
  {
    var skip, skipPrev := SkipHeight(walk), SkipHeight(walk - 1);
    skip == height || (skip > height && !(skipPrev < skip - 2 && skipPrev >= height))
  }

  function NextHeight(walk: nat, height: nat): (next: nat)
    requires walk > height
    ensures height <= next < walk
  {
    SkipLower(walk);
    if TakesSkip(walk, height) then SkipHeight(walk) else walk - 1
  }

  /** Steps from one height down to another with all skip pointers in place. */
  function Steps(walk: nat, height: nat): nat
    requires height <= walk
    decreases walk
  {
    if walk == height then 0 else 1 + Steps(NextHeight(walk, height), height)
  }

  // ----- The highest bit in which two heights differ -----

  /** Its position. */
  function Level(w: nat, h: nat): nat
    requires w > h
  {
    if w / 2 == h / 2 then 0 else 1 + Level(w / 2, h / 2)
  }

  /** The one bits of the upper height below it. */
  function Ones(w: nat, h: nat): nat
    requires w > h
  {
    if w / 2 == h / 2 then 0 else w % 2 + Ones(w / 2, h / 2)
  }

  lemma {:induction false} OnesBound(w: nat, h: nat)
    requires w > h
    ensures Ones(w, h) <= Level(w, h) && (w % 2 == 1 && Level(w, h) > 0 ==> Ones(w, h) > 0)
  {
    if w / 2 != h / 2 {
      OnesBound(w / 2, h / 2);
    }
  }

  /** Clearing the lowest one bit takes one of them away. */
  lemma {:induction false} ClearOne(w: nat, h: nat)
    requires w > h && Ones(w, h) > 0
    ensures var c := InvertLowestOne(w); c > h && Level(c, h) == Level(w, h) && Ones(c, h) == Ones(w, h) - 1
  {
    InvertIs(w);
    if w % 2 == 0 {
      ClearOne(w / 2, h / 2);
    }
  }

  /** Where there is none left, clearing the lowest bit goes to the other height or past it. */
  lemma {:induction false} ClearLast(w: nat, h: nat)
    requires w > h && Ones(w, h) == 0
    ensures InvertLowestOne(w) <= h
  {
    InvertIs(w);
    if w / 2 != h / 2 {
      ClearLast(w / 2, h / 2);
    }
  }

  lemma {:induction false} ClearPast(w: nat, h: nat)
    requires w <= h
    ensures InvertLowestOne(w) <= h
  {
    InvertLower(w);
  }

  lemma AddOne(w: nat, h: nat)
    requires w > h && w % 2 == 0 && Level(w, h) > 0
    ensures Level(w + 1, h) == Level(w, h) && Ones(w + 1, h) == Ones(w, h) + 1
  {
    assert (w + 1) / 2 == w / 2;
  }

  /** Where there is none left, one step back leads to a lower level. */
  lemma {:induction false} StepBelow(w: nat, h: nat)
    requires w - 1 > h && Ones(w, h) == 0
    ensures Level(w - 1, h) < Level(w, h)
  {
    OnesBound(w, h);
    assert w / 2 != h / 2;
    assert w % 2 == 0 && (w - 1) / 2 == w / 2 - 1;
    if w / 2 - 1 != h / 2 {
      StepBelow(w / 2, h / 2);
    }
  }

  // ----- The bound -----

  /** What is left to do: a square for the level, and two steps for each bit on the way to it. */
  function Work(w: nat, h: nat): nat
    requires w >= h
  {
    if w == h then 0 else Level(w, h) * Level(w, h) + 1 + 2 * Ones(w, h)
  }

  lemma OneStep(w: nat, h: nat)
    requires h <= w <= h + 1
    ensures Steps(w, h) == w - h
  {
    if w > h {
      var next := NextHeight(w, h);
      assert next == h;
      assert Steps(next, h) == 0;
    }
  }

  /** From an odd height the skip pointer is taken whenever it does not lead too far. */
  lemma OddTakesSkip(w: nat, h: nat)
    requires w > h && w % 2 == 1
    ensures TakesSkip(w, h) <==> SkipHeight(w) >= h
  {
    if w >= 3 {
      var c := InvertLowestOne(w - 1);
      InvertLower(c);
      assert SkipHeight(w - 1) == c && SkipHeight(w) <= c + 1;
    }
  }

  /** The skip height of the height before an even one, by the number of zeros at its end. */
  lemma SkipBefore(w: nat)
    requires w % 2 == 0 && w >= 4
    ensures SkipHeight(w - 1) == InvertLowestOne(InvertLowestOne(w - 2)) + 1
    ensures w % 8 == 0 || InvertLowestOne(w - 2) == InvertLowestOne(w) || w - 2 == InvertLowestOne(w)
    ensures w % 8 == 0 ==> InvertLowestOne(InvertLowestOne(w - 2)) >= InvertLowestOne(w)
  {
    hide InvertLowestOne;
    if w % 4 == 2 {
      Halved(w / 2);
      InvertIs(w / 2);
    } else if w % 8 == 4 {
      TwiceOdd(w / 8);
    } else {
      Eights(w / 8 - 1);
    }
  }

  /** From an even height it is passed over only where the height before skips two or three bits more. */
  lemma EvenPasses(w: nat, h: nat)
    requires w > h && w % 2 == 0 && SkipHeight(w) > h && !TakesSkip(w, h)
    ensures w >= 4 && SkipHeight(w - 1) >= h
    ensures SkipHeight(w - 1) == InvertLowestOne(InvertLowestOne(InvertLowestOne(w))) + 1
         || SkipHeight(w - 1) == InvertLowestOne(InvertLowestOne(w)) + 1
  {
    hide InvertLowestOne;
    SkipLower(w);
    SkipBefore(w);
  }

  lemma TwiceOdd(k: nat)
    ensures InvertLowestOne(8 * k + 2) == InvertLowestOne(8 * k + 4) == 8 * k
  {
    hide InvertLowestOne;
    Halved(4 * k + 2);
    Halved(2 * k + 1);
    Halved(4 * k + 1);
    InvertIs(2 * k + 1);
    InvertIs(4 * k + 1);
  }

  lemma Halved(n: nat)
    ensures InvertLowestOne(2 * n) == 2 * InvertLowestOne(n)
  {
    hide InvertLowestOne;
    InvertIs(2 * n);
  }

  lemma Eights(k: nat)
    ensures InvertLowestOne(InvertLowestOne(8 * k + 6)) == 8 * k && InvertLowestOne(8 * k + 8) <= 8 * k
  {
    hide InvertLowestOne;
    Halved(4 * k + 3);
    InvertIs(4 * k + 3);
    TwiceOdd(k);
    Halved(4 * k + 4);
    Halved(2 * k + 2);
    Halved(k + 1);
    InvertLower(k + 1);
  }

  /** Clearing several bits and adding one leaves less work by what was cleared, or almost none. */
  lemma ClearAndAdd(w: nat, h: nat, c: nat, n: nat)
    requires w > h && Ones(w, h) > 0 && 2 <= n <= 3 && c + 1 >= h
    requires c == if n == 2 then InvertLowestOne(InvertLowestOne(w)) else InvertLowestOne(InvertLowestOne(InvertLowestOne(w)))
    requires c % 2 == 0
    ensures if Ones(w, h) >= n then c > h && Work(c + 1, h) == Work(w, h) - 2 * n + 2 else c <= h
  {
    OnesBound(w, h);
    ClearOne(w, h);
    var x := InvertLowestOne(w);
    if Ones(w, h) >= 2 {
      ClearOne(x, h);
      var y := InvertLowestOne(x);
      if n == 3 {
        if Ones(w, h) >= 3 {
          ClearOne(y, h);
        } else {
          ClearLast(y, h);
        }
      }
    } else {
      ClearLast(x, h);
      ClearPast(InvertLowestOne(x), h);
    }
    if Ones(w, h) >= n {
      AddOne(c, h);
    }
  }

  lemma InvertEven(n: nat)
    ensures InvertLowestOne(n) % 2 == 0
  {
    InvertIs(n);
  }

  /** The walk takes no more steps than there is work. */
  lemma {:induction false} StepsBound(w: nat, h: nat)
    requires w >= h
    ensures Steps(w, h) <= Work(w, h)
    decreases w
  {
    if w > h {
      if w <= h + 1 {
        OneStep(w, h);
      } else if w % 2 == 1 {
        OddSteps(w, h);
      } else if Ones(w, h) > 0 {
        EvenSteps(w, h);
      } else {
        LastSteps(w, h);
      }
    }
  }

  lemma OddSteps(w: nat, h: nat)
    requires w > h + 1 && w % 2 == 1
    ensures Steps(w, h) <= Work(w, h)
    decreases w, 0
  {
    OddTakesSkip(w, h);
    OnesBound(w, h);
    InvertIs(w);
    assert Level(w, h) > 0;
    assert Level(w, h) * Level(w, h) >= 1;
    var next := NextHeight(w, h);
    if TakesSkip(w, h) {
      var c := next - 1;
      InvertEven(InvertLowestOne(w - 1));
      ClearAndAdd(w, h, c, 3);
      if Ones(w, h) >= 3 {
        StepsBound(next, h);
      } else {
        OneStep(next, h);
      }
    } else {
      ClearOne(w, h);
      StepsBound(next, h);
    }
  }

  lemma EvenSteps(w: nat, h: nat)
    requires w > h + 1 && w % 2 == 0 && Ones(w, h) > 0
    ensures Steps(w, h) <= Work(w, h)
    decreases w, 0
  {
    hide InvertLowestOne;
    ClearOne(w, h);
    if TakesSkip(w, h) {
      SkipLower(w);
      StepsBound(SkipHeight(w), h);
    } else {
      EvenPasses(w, h);
      SkipLower(w - 1);
      TwoSteps(w, h);
      var next := SkipHeight(w - 1);
      var n := if next == InvertLowestOne(InvertLowestOne(w)) + 1 then 2 else 3;
      InvertEven(InvertLowestOne(w));
      InvertEven(InvertLowestOne(InvertLowestOne(w)));
      ClearAndAdd(w, h, next - 1, n);
      if Ones(w, h) >= n {
        StepsBound(next, h);
      } else {
        OneStep(next, h);
        SomeWork(w, h);
      }
    }
  }

  lemma TwoSteps(w: nat, h: nat)
    requires w > h + 1 && w % 2 == 0 && !TakesSkip(w, h) && SkipHeight(w - 1) >= h
    ensures Steps(w, h) == 2 + Steps(SkipHeight(w - 1), h)
  {
    hide InvertLowestOne;
    OddTakesSkip(w - 1, h);
    assert NextHeight(w, h) == w - 1;
    assert NextHeight(w - 1, h) == SkipHeight(w - 1);
  }

  lemma SomeWork(w: nat, h: nat)
    requires w > h && Ones(w, h) > 0
    ensures Work(w, h) >= 4
  {
    OnesBound(w, h);
    MulMonotone(1, Level(w, h), Level(w, h));
  }

  lemma LastSteps(w: nat, h: nat)
    requires w > h + 1 && w % 2 == 0 && Ones(w, h) == 0
    ensures Steps(w, h) <= Work(w, h)
    decreases w, 0
  {
    ClearLast(w, h);
    var next := NextHeight(w, h);
    if next == h {
      assert Steps(next, h) == 0;
    } else {
      assert next == w - 1;
      StepBelow(w, h);
      OnesBound(w - 1, h);
      StepsBound(w - 1, h);
      Squares(Level(w - 1, h), Level(w, h));
    }
  }

  lemma Squares(p: nat, q: nat)
    requires p < q
    ensures p * p + 1 + 2 * p <= q * q
  {
    MulMonotone(p + 1, q, p + 1);
    MulMonotone(p + 1, q, q);
    assert (p + 1) * (p + 1) == p * p + 2 * p + 1;
  }

  /** The number of bits of a height. */
  function BitLength(n: nat): nat {
    if n == 0 then 0 else 1 + BitLength(n / 2)
  }

  lemma {:induction false} LevelBound(w: nat, h: nat)
    requires w > h
    ensures Level(w, h) < BitLength(w)
  {
    if w / 2 != h / 2 {
      LevelBound(w / 2, h / 2);
    }
  }

  /** Any ancestor is reached in at most as many steps as the square of the number of bits of the height. */
  lemma SkipListShort(w: nat, h: nat)
    requires w >= h
    ensures Steps(w, h) <= BitLength(w) * BitLength(w)
  {
    StepsBound(w, h);
    if w > h {
      LevelBound(w, h);
      OnesBound(w, h);
      Squares(Level(w, h), BitLength(w));
    }
  }
}
