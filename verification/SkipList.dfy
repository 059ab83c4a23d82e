/**
 The skip list over block heights (src/chain.cpp): to which height a block's skip
 pointer leads, and how many turns the walk to an ancestor takes, which is at most
 quadratic in the number of bits of the height.
 */
module SkipList {
  import opened Numbers

  /** Bitwise and. */
  function And(a: nat, b: nat): nat {
    if a == 0 || b == 0 then 0 else 2 * And(a / 2, b / 2) + (a % 2) * (b % 2)
  }

  function InvertLowestOne(n: nat): nat {
    if n == 0 then 0 else And(n, n - 1)
  }

  lemma {:induction false} AndSelf(a: nat)
    ensures And(a, a) == a
  {
    if a > 0 {
      AndSelf(a / 2);
    }
  }

  lemma ClearOnce(n: nat)
    requires n > 0
    ensures InvertLowestOne(n) == if n % 2 == 1 then n - 1 else 2 * InvertLowestOne(n / 2)
  {
    if n % 2 == 1 {
      AndSelf(n / 2);
    } else {
      assert (n - 1) / 2 == n / 2 - 1;
    }
  }

  /** Clearing the lowest set bit leaves a smaller number, and one that is even unless nothing is left to clear. */
  lemma {:induction false} InvertLowestOneLess(n: nat)
    requires n > 0
    ensures InvertLowestOne(n) < n && InvertLowestOne(n) % 2 == 0
  {
    hide InvertLowestOne;
    ClearOnce(n);
    if n % 2 == 0 {
      InvertLowestOneLess(n / 2);
    }
  }

  /** What is cleared is the lowest set bit: a power of two, below which n has only zeros. */
  lemma {:induction false} LowestOne(n: nat) returns (k: nat)
    requires n > 0
    ensures InvertLowestOne(n) == n - Pow2(k) && n % Pow2(k + 1) == Pow2(k)
  {
    hide InvertLowestOne;
    ClearOnce(n);
    if n % 2 == 1 {
      k := 0;
      assert Pow2(1) == 2;
    } else {
      var j := LowestOne(n / 2);
      k := j + 1;
      DoubleMod(n / 2, Pow2(j + 1));
    }
  }

  lemma DoubleMod(a: nat, m: nat)
    requires m > 0
    ensures (2 * a) % (2 * m) == 2 * (a % m)
  {
    var q := a / m;
    assert 2 * a == (2 * m) * q + 2 * (a % m);
    DivModUnique(2 * a, 2 * m, q, 2 * (a % m));
  }

  function GetSkipHeight(height: int): (skip: int)
    ensures height >= 1 ==> 0 <= skip < height
    ensures height < 2 ==> skip == 0
  {
    if height < 2 then 0
    else if height % 2 == 1 then
      InvertLowestOneLess(height - 1);
      var once := InvertLowestOne(height - 1);
      assert once > 0 ==> InvertLowestOne(once) < once by { if once > 0 { InvertLowestOneLess(once); } }
      InvertLowestOne(once) + 1
    else
      InvertLowestOneLess(height);
      InvertLowestOne(height)
  }

  // ---- The walk

  /** Where GetAncestor goes next, with every skip pointer built. */
  function Down(h: nat, target: nat): (n: nat)
    requires target < h
    ensures target <= n < h
  {
    var skip, skipPrev := GetSkipHeight(h), GetSkipHeight(h - 1);
    if skip == target || (skip > target && !(skipPrev < skip - 2 && skipPrev >= target)) then skip else h - 1
  }

  /** The turns of its loop. */
  ghost function Turns(h: nat, target: nat): nat
    requires target <= h
    decreases h
  {
    if h == target then 0 else 1 + Turns(Down(h, target), target)
  }

  lemma TurnsNext(h: nat, target: nat)
    requires target < h
    ensures Turns(h, target) == 1 + Turns(Down(h, target), target)
  {
  }

  lemma TurnsEnd(h: nat)
    ensures Turns(h, h) == 0
  {
  }

  lemma {:induction false} TurnsWithin(h: nat, target: nat)
    requires target <= h
    ensures Turns(h, target) <= h - target
    decreases h
  {
    hide Down;
    if target < h {
      TurnsWithin(Down(h, target), target);
    }
  }

  // ---- Bits

  /** The number of set bits. */
  ghost function Bits(n: nat): nat {
    if n == 0 then 0 else n % 2 + Bits(n / 2)
  }

  lemma ClearedZero()
    ensures InvertLowestOne(0) == 0 && Bits(0) == 0 && Bits(1) == 1
  {
  }

  /** n is a multiple of 2^k. */
  ghost predicate Multiple(n: nat, k: nat) {
    k == 0 || (n % 2 == 0 && Multiple(n / 2, k - 1))
  }

  /** The lowest set bit of n is 2^k. */
  ghost predicate LowAt(n: nat, k: nat) {
    if k == 0 then n % 2 == 1 else n % 2 == 0 && LowAt(n / 2, k - 1)
  }

  lemma {:induction false} ClearsLow(n: nat, k: nat)
    requires LowAt(n, k)
    ensures n >= Pow2(k) && InvertLowestOne(n) == n - Pow2(k) && Multiple(n - Pow2(k), k + 1)
  {
    hide InvertLowestOne;
    if k > 0 {
      ClearsLow(n / 2, k - 1);
      assert (n - Pow2(k)) / 2 == n / 2 - Pow2(k - 1);
    }
    ClearOnce(n);
  }

  lemma {:induction false} LowIsMultiple(y: nat, k: nat)
    requires LowAt(y, k)
    ensures Multiple(y, k)
  {
    if k > 0 {
      LowIsMultiple(y / 2, k - 1);
    }
  }

  lemma {:induction false} MultipleLess(x: nat, k: nat, m: nat)
    requires Multiple(x, k) && m <= k
    ensures Multiple(x, m)
  {
    if m > 0 {
      MultipleLess(x / 2, k - 1, m - 1);
    }
  }

  lemma {:induction false} BelowMultiple(x: nat, m: nat)
    requires Multiple(x, m + 1) && x > 0
    ensures x >= Pow2(m + 1) && LowAt(x - Pow2(m), m)
  {
    if m > 0 {
      BelowMultiple(x / 2, m - 1);
      assert (x - Pow2(m)) / 2 == x / 2 - Pow2(m - 1);
    }
  }

  /** Some bit is the lowest, and not below k in a multiple of 2^k. */
  lemma {:induction false} SomeLow(n: nat, k: nat) returns (j: nat)
    requires n > 0 && Multiple(n, k)
    ensures j >= k && LowAt(n, j)
  {
    if n % 2 == 1 {
      j := 0;
    } else {
      j := SomeLow(n / 2, if k == 0 then 0 else k - 1);
      j := j + 1;
    }
  }

  // ---- Skips

  lemma EvenSkip(y: nat, k: nat)
    requires LowAt(y, k) && k >= 1
    ensures y >= Pow2(k) && GetSkipHeight(y) == y - Pow2(k)
  {
    ClearsLow(y, k);
  }

  /** From the odd height y + 1 the skip clears the two lowest bits of y. */
  lemma OddSkip(y: nat, m: nat)
    requires LowAt(y, m) && m >= 1
    ensures y >= Pow2(m) && GetSkipHeight(y + 1) == InvertLowestOne(y - Pow2(m)) + 1
  {
    ClearsLow(y, m);
  }

  /** Within 2^k below a multiple x of it, skips from odd heights double their length twice. */
  lemma ClimbSkip(x: nat, k: nat, m: nat)
    requires Multiple(x, k) && x > 0 && 1 <= m && m + 2 <= k
    ensures x >= Pow2(m + 2) && GetSkipHeight(x - Pow2(m) + 1) == x - Pow2(m + 2) + 1
  {
    hide Multiple, LowAt, GetSkipHeight, InvertLowestOne;
    MultipleLess(x, k, m + 1);
    MultipleLess(x, k, m + 2);
    BelowMultiple(x, m);
    BelowMultiple(x, m + 1);
    OddSkip(x - Pow2(m), m);
    ClearsLow(x - Pow2(m + 1), m + 1);
  }

  /** From an odd height the skip is taken if it does not pass the target. */
  lemma OddDown(y: nat, m: nat, target: nat)
    requires LowAt(y, m) && m >= 1 && target <= y
    ensures Down(y + 1, target) == if GetSkipHeight(y + 1) >= target then GetSkipHeight(y + 1) else y
  {
    OddSkip(y, m);
    EvenSkip(y, m);
    var z := y - Pow2(m);
    if z > 0 {
      InvertLowestOneLess(z);
    }
  }

  /** So it is from a multiple of eight. */
  lemma EvenDown(y: nat, k: nat, target: nat)
    requires LowAt(y, k) && k >= 3 && target < y
    ensures y >= Pow2(k) && Down(y, target) == if y - Pow2(k) >= target then y - Pow2(k) else y - 1
  {
    EvenSkip(y, k);
    ClearsLow(y, k);
    LowIsMultiple(y, k);
    ClimbSkip(y, k, 1);
    Pow2Mono(3, k);
    assert Pow2(1) == 2 && Pow2(3) == 8;
  }

  // ---- Below a multiple

  /** Below a height with a low bit of 2 or 4, the skip of the predecessor leads no further up. */
  lemma PrevSkip(y: nat, m: nat)
    requires LowAt(y, m) && 1 <= m <= 2 && y > Pow2(m)
    ensures GetSkipHeight(y - 1) <= GetSkipHeight(y + 1)
  {
    hide LowAt, GetSkipHeight, InvertLowestOne;
    ClearedZero();
    ClearsLow(y, m);
    OddSkip(y, m);
    var z := y - Pow2(m);
    assert Pow2(1) == 2 && Pow2(2) == 4;
    if m == 1 {
      var n := SomeLow(z, 2);
      OddSkip(z, n);
      ClearsLow(z, n);
      if z - Pow2(n) > 0 {
        InvertLowestOneLess(z - Pow2(n));
      }
    } else {
      LowIsMultiple(y, 2);
      BelowMultiple(y, 1);
      OddSkip(y - 2, 1);
    }
  }

  lemma SkipFits(y: nat, m: nat, target: nat)
    requires LowAt(y, m) && m >= 1 && target + Pow2(m) < y && GetSkipHeight(y + 1) < target
    ensures Down(y, target) == y - Pow2(m)
  {
    if m >= 3 {
      EvenDown(y, m, target);
    } else {
      EvenSkip(y, m);
      OddSkip(y, m);
      PrevSkip(y, m);
    }
  }

  /** The most turns that a target at most 2^k below a multiple of 2^k costs. */
  function Limit(k: nat): nat
    requires k >= 3
  {
    ((k + 3) / 2) * ((k + 4) / 2) - 4
  }

  lemma LimitStep(k: nat)
    requires k >= 3
    ensures Limit(k) >= 5 && Limit(k + 1) == Limit(k) + (k + 4) / 2
  {
    var q := (k + 3) / 2;
    if k % 2 == 0 {
      assert (k + 4) / 2 == q + 1 && (k + 5) / 2 == q + 1;
    } else {
      assert (k + 4) / 2 == q && (k + 5) / 2 == q + 1;
    }
  }

  lemma {:induction false} LimitMono(a: nat, b: nat)
    requires 3 <= a <= b
    ensures 5 <= Limit(a) <= Limit(b)
    decreases b - a
  {
    hide Limit;
    LimitStep(a);
    if a < b {
      LimitMono(a + 1, b);
    }
  }

  /** From a multiple of 2^k, a target at most 2^k below. */
  lemma {:induction false} FromMultiple(x: nat, k: nat, target: nat)
    requires Multiple(x, k) && k >= 3 && target <= x <= target + Pow2(k)
    ensures Turns(x, target) <= Limit(k)
    decreases k, 1
  {
    hide GetSkipHeight, Limit;
    LimitStep(k);
    if x > target {
      var j := SomeLow(x, k);
      EvenSkip(x, j);
      Pow2Mono(k, j);
      if Down(x, target) == x - 1 {
        Climb(x, k, 1, target);
      } else {
        assert Down(x, target) == target;
      }
    }
  }

  /** From 2^m - 1 below it, with the skips that get longer and longer until one would pass the target. */
  lemma {:induction false} Climb(x: nat, k: nat, m: nat, target: nat)
    requires Multiple(x, k) && x > 0 && k >= 3 && 1 <= m <= k && m % 2 == 1
    requires Pow2(m) <= x && target <= x - Pow2(m) + 1 && x <= target + Pow2(k)
    ensures Turns(x - Pow2(m) + 1, target) <= Limit(k) - 1 - (m - 1) / 2
    decreases k, 0, k - m
  {
    hide GetSkipHeight, Limit, Down;
    var h := x - Pow2(m) + 1;
    LimitLeaves(k, m);
    if target == h {
    } else if m == k {
      TurnsWithin(h, target);
    } else {
      MultipleLess(x, k, m + 1);
      BelowMultiple(x, m);
      OddDown(x - Pow2(m), m, target);
      if GetSkipHeight(h) < target {
        if m == 1 {
          OvershotFirst(x, k, target);
        } else {
          Overshot(x, k, m, target);
        }
      } else if m + 2 <= k {
        ClimbSkip(x, k, m);
        Climb(x, k, m + 2, target);
      } else {
        LastSkip(x, k, m, target);
        TurnsWithin(1, target);
      }
    }
  }

  /** What the limit leaves for the rest of a climb. */
  lemma {:induction false} LimitLeaves(k: nat, m: nat)
    requires k >= 3 && 1 <= m <= k && m % 2 == 1
    ensures Limit(k) >= 5 && Limit(k) - 1 - (m - 1) / 2 >= 2
    ensures m + 1 < k && m >= 3 ==> 2 + Limit(m + 1) <= Limit(k) - 1 - (m - 1) / 2
    ensures m + 1 == k && m >= 3 ==> 1 + Limit(m) <= Limit(k) - 1 - (m - 1) / 2
  {
    hide Limit;
    LimitStep(k);
    LimitTwice(k);
    if 3 <= m < k {
      LimitStep(m);
      LimitStep(m + 1);
    }
    if 3 <= m && m + 2 <= k {
      LimitMono(m + 2, k);
    }
  }

  lemma {:induction false} LimitTwice(k: nat)
    requires k >= 3
    ensures Limit(k) >= k + 2
  {
    hide Limit;
    if k == 3 {
      LimitStep(3);
    } else {
      LimitTwice(k - 1);
      LimitStep(k - 1);
    }
  }

  /** The skip out of the upper half leads to height 1 or past the target. */
  lemma LastSkip(x: nat, k: nat, m: nat, target: nat)
    requires Multiple(x, k) && x > 0 && 1 <= m && m + 1 == k
    requires Pow2(m) <= x && x <= target + Pow2(k)
    ensures GetSkipHeight(x - Pow2(m) + 1) == 1 || GetSkipHeight(x - Pow2(m) + 1) < target
  {
    hide Multiple, LowAt, GetSkipHeight, InvertLowestOne;
    BelowMultiple(x, m);
    OddSkip(x - Pow2(m), m);
    ClearedZero();
    var z := x - Pow2(k);
    if z > 0 {
      ClearsLow(x - Pow2(m), m);
      var j := SomeLow(z, k);
      ClearsLow(z, j);
      Pow2Mono(1, j);
    }
  }

  /** Where the first skip would pass the target, it is at most six below. */
  lemma OvershotFirst(x: nat, k: nat, target: nat)
    requires Multiple(x, k) && x > 0 && k >= 3 && target < x - 1 && GetSkipHeight(x - 1) < target
    ensures Turns(x - 1, target) <= 4
  {
    hide GetSkipHeight, Down;
    assert Pow2(1) == 2 && Pow2(3) == 8;
    MultipleLess(x, k, 2);
    BelowMultiple(x, 1);
    ClimbSkip(x, k, 1);
    OddDown(x - 2, 1, target);
    if target + 2 < x - 2 {
      SkipFits(x - 2, 1, target);
      TurnsWithin(x - 4, target);
    } else {
      TurnsWithin(x - 2, target);
    }
  }

  /** Where a later one would, one or two steps lead to a smaller multiple just above it. */
  lemma Overshot(x: nat, k: nat, m: nat, target: nat)
    requires Multiple(x, k) && x > 0 && 3 <= m < k && m % 2 == 1
    requires Pow2(m) <= x && target < x - Pow2(m) + 1 && x <= target + Pow2(k)
    requires GetSkipHeight(x - Pow2(m) + 1) < target
    ensures Turns(x - Pow2(m) + 1, target) <= Limit(k) - 1 - (m - 1) / 2
    decreases k, 0, 0
  {
    hide GetSkipHeight, Limit, Down;
    var h, y := x - Pow2(m) + 1, x - Pow2(m);
    MultipleLess(x, k, m + 1);
    BelowMultiple(x, m);
    OddDown(y, m, target);
    assert Down(h, target) == y;
    LimitLeaves(k, m);
    if y <= target + Pow2(m) {
      LowIsMultiple(y, m);
      FromMultiple(y, m, target);
      LimitMono(m, m + 1);
    } else {
      ClimbSkip(x, k, m);
      EvenDown(y, m, target);
      ClearsLow(y, m);
      FromMultiple(y - Pow2(m), m + 1, target);
    }
  }

  // ---- From anywhere

  lemma {:induction false} BitsWithin(n: nat, width: nat)
    requires n < Pow2(width)
    ensures Bits(n) <= width
  {
    if n > 0 {
      BitsWithin(n / 2, width - 1);
    }
  }

  lemma {:induction false} ClearsOne(n: nat)
    requires n > 0
    ensures Bits(InvertLowestOne(n)) == Bits(n) - 1
  {
    hide InvertLowestOne;
    ClearOnce(n);
    if n % 2 == 0 {
      ClearsOne(n / 2);
    }
  }

  lemma LowWithin(n: nat, k: nat, width: nat)
    requires LowAt(n, k) && n < Pow2(width)
    ensures k < width
  {
    ClearsLow(n, k);
    if k >= width {
      Pow2Mono(width, k);
    }
  }

  lemma BitsOdd(n: nat)
    requires n % 2 == 0
    ensures Bits(n + 1) == Bits(n) + 1
  {
    assert (n + 1) / 2 == n / 2;
  }

  lemma SkipTwice(y: nat)
    requires 0 < y && y % 2 == 0
    ensures GetSkipHeight(y + 1) == InvertLowestOne(InvertLowestOne(y)) + 1
  {
    hide InvertLowestOne;
  }

  lemma OddSkipBits(y: nat)
    requires 0 < y && y % 2 == 0
    ensures 1 <= GetSkipHeight(y + 1) < y + 1 && Bits(GetSkipHeight(y + 1)) < Bits(y + 1)
    ensures InvertLowestOne(y) > 0 ==> Bits(GetSkipHeight(y + 1)) + 1 < Bits(y + 1)
  {
    hide Bits, InvertLowestOne, GetSkipHeight;
    var once := InvertLowestOne(y);
    SkipTwice(y);
    ClearsOne(y);
    InvertLowestOneLess(y);
    BitsOdd(y);
    if once > 0 {
      ClearsOne(once);
      InvertLowestOneLess(once);
      BitsOdd(InvertLowestOne(once));
    } else {
      ClearedZero();
    }
  }

  /** A target that the lowest bit covers. */
  lemma FromLow(y: nat, m: nat, width: nat, target: nat)
    requires LowAt(y, m) && width >= 4 && target <= y < Pow2(width) && y <= target + Pow2(m)
    ensures Turns(y, target) <= Limit(width - 1)
  {
    hide Turns, Limit;
    LowWithin(y, m, width);
    if m >= 3 {
      LowIsMultiple(y, m);
      FromMultiple(y, m, target);
      LimitMono(m, width - 1);
    } else {
      Pow2Mono(m, 2);
      assert Pow2(2) == 4;
      TurnsWithin(y, target);
      LimitMono(3, width - 1);
    }
  }

  /** The skip from y + 1 would pass the target, so from y one step leads to a multiple just above it. */
  lemma NearBelow(y: nat, m: nat, width: nat, target: nat)
    requires LowAt(y, m) && m >= 1 && width >= 4 && target <= y < Pow2(width) && GetSkipHeight(y + 1) < target
    ensures Turns(y, target) <= 1 + Limit(width - 1)
  {
    hide GetSkipHeight, Limit, Down;
    if y <= target + Pow2(m) {
      FromLow(y, m, width, target);
    } else {
      ClearsLow(y, m);
      var z := y - Pow2(m);
      var n := SomeLow(z, m + 1);
      OddSkip(y, m);
      ClearsLow(z, n);
      SkipFits(y, m, target);
      FromLow(z, n, width, target);
    }
  }

  /** From a multiple of eight, every turn clears a bit until a multiple close to the target is reached. */
  lemma {:induction false} FromEight(h: nat, width: nat, target: nat)
    requires Multiple(h, 3) && h > 0 && width >= 4 && target <= h < Pow2(width)
    ensures Turns(h, target) + 1 <= Bits(h) + Limit(width - 1)
    decreases h
  {
    hide GetSkipHeight, Limit, Down, Bits;
    var j := SomeLow(h, 3);
    ClearsLow(h, j);
    ClearsOne(h);
    if h <= target + Pow2(j) {
      FromLow(h, j, width, target);
    } else {
      EvenDown(h, j, target);
      MultipleLess(h - Pow2(j), j + 1, 3);
      FromEight(h - Pow2(j), width, target);
    }
  }

  /** From an odd height, every turn clears two. */
  lemma {:induction false} FromOdd(h: nat, width: nat, target: nat)
    requires h % 2 == 1 && width >= 4 && target <= h < Pow2(width)
    ensures Turns(h, target) <= Bits(h) / 2 + 2 + Limit(width - 1)
    decreases h
  {
    hide GetSkipHeight, Limit, Down, Bits, InvertLowestOne;
    if h == 1 {
      TurnsWithin(h, target);
      LimitMono(3, width - 1);
    } else if target < h {
      var y := h - 1;
      var m := SomeLow(y, 1);
      OddDown(y, m, target);
      OddSkipBits(y);
      if GetSkipHeight(h) < target {
        NearBelow(y, m, width, target);
      } else if InvertLowestOne(y) > 0 {
        SkipTwice(y);
        InvertLowestOneLess(InvertLowestOne(y));
        FromOdd(GetSkipHeight(h), width, target);
      } else {
        SkipTwice(y);
        ClearedZero();
        TurnsWithin(1, target);
        LimitMono(3, width - 1);
      }
    }
  }

  /** Where the walk prefers the predecessor, it takes the predecessor's skip next. */
  lemma TwoSteps(h: nat, j: nat, target: nat)
    requires LowAt(h, j) && j >= 1 && target < h
    requires Down(h, target) != GetSkipHeight(h) >= target
    ensures var p := GetSkipHeight(h - 1);
      h > 2 && Down(h, target) == h - 1 && target <= p < h - 1 && Down(h - 1, target) == p && Bits(p) < Bits(h)
  {
    hide Bits, InvertLowestOne, GetSkipHeight;
    EvenSkip(h, j);
    ClearsOne(h);
    ClearsLow(h, j);
    assert Pow2(1) == 2 && Pow2(2) == 4;
    if j >= 3 {
      EvenDown(h, j, target);
    }
    var m := SomeLow(h - 2, 1);
    OddDown(h - 2, m, target);
    OddSkipBits(h - 2);
    BitsOdd(h - 2);
    if j == 2 {
      LowIsMultiple(h, 2);
      BelowMultiple(h, 1);
      ClearsLow(h - 2, 1);
      ClearsOne(h - 2);
    }
  }

  /** Where it prefers the skip, the predecessor's skip would pass the target. */
  lemma OneStep(h: nat, j: nat, target: nat)
    requires LowAt(h, j) && 1 <= j <= 2 && h > target + Pow2(j) && Down(h, target) == h - Pow2(j)
    ensures h >= 3 && GetSkipHeight(h - 1) < target
    ensures j == 2 ==> GetSkipHeight(h - 1) == InvertLowestOne(h - 4) + 1
  {
    hide InvertLowestOne, LowAt, GetSkipHeight;
    assert Pow2(1) == 2 && Pow2(2) == 4;
    ClearsLow(h, j);
    EvenSkip(h, j);
    var s := h - Pow2(j);
    var a := SomeLow(s, j + 1);
    ClearsLow(s, a);
    Pow2Mono(j + 1, a);
    assert Pow2(3) == 8;
    if j == 1 {
      OddSkip(s, a);
      ClearedZero();
      if s - Pow2(a) > 0 {
        InvertLowestOneLess(s - Pow2(a));
      }
    } else {
      LowIsMultiple(h, 2);
      BelowMultiple(h, 1);
      OddSkip(h - 2, 1);
    }
  }

  lemma FromSkipped(h: nat, j: nat, width: nat, target: nat)
    requires LowAt(h, j) && 1 <= j <= 2 && width >= 4 && target + Pow2(j) < h < Pow2(width)
    requires Down(h, target) == h - Pow2(j)
    ensures Turns(h, target) <= 2 + Limit(width - 1)
  {
    hide GetSkipHeight, Limit, Down, InvertLowestOne, LowAt;
    assert Pow2(1) == 2 && Pow2(2) == 4;
    OneStep(h, j, target);
    ClearsLow(h, j);
    var s := h - Pow2(j);
    var a := SomeLow(s, j + 1);
    if j == 1 {
      NearBelow(s, a, width, target);
    } else {
      ClearsLow(s, a);
      FromLow(s, a, width, target);
    }
  }

  lemma OddSkipOdd(y: nat)
    requires y > 0 && y % 2 == 0
    ensures GetSkipHeight(y + 1) % 2 == 1
  {
    hide InvertLowestOne, GetSkipHeight;
    SkipTwice(y);
    ClearedZero();
    if InvertLowestOne(y) > 0 {
      InvertLowestOneLess(InvertLowestOne(y));
    }
  }

  lemma {:induction false} MultipleBits(h: nat, k: nat, width: nat)
    requires Multiple(h, k) && h < Pow2(width) && k <= width
    ensures Bits(h) <= width - k
  {
    if k == 0 {
      BitsWithin(h, width);
    } else {
      MultipleBits(h / 2, k - 1, width - 1);
    }
  }

  lemma FromPreferred(h: nat, j: nat, width: nat, target: nat)
    requires LowAt(h, j) && j >= 1 && width >= 4 && target < h < Pow2(width)
    requires Down(h, target) != GetSkipHeight(h) >= target
    ensures Turns(h, target) <= width / 2 + 3 + Limit(width - 1)
  {
    hide GetSkipHeight, Limit, Down, Bits, LowAt;
    TwoSteps(h, j, target);
    LowIsMultiple(h, j);
    MultipleLess(h, j, 1);
    MultipleBits(h, 1, width);
    OddSkipOdd(h - 2);
    FromOdd(GetSkipHeight(h - 1), width, target);
  }

  /** From another even height, one or two turns lead close to the target or to an odd height with fewer bits. */
  lemma FromEven(h: nat, j: nat, width: nat, target: nat)
    requires LowAt(h, j) && 1 <= j <= 2 && width >= 4 && target < h < Pow2(width)
    ensures Turns(h, target) <= width / 2 + 3 + Limit(width - 1)
  {
    hide GetSkipHeight, Limit, Down, Bits;
    EvenSkip(h, j);
    ClearsLow(h, j);
    var s := h - Pow2(j);
    if h <= target + Pow2(j) {
      FromLow(h, j, width, target);
    } else if Down(h, target) == s {
      FromSkipped(h, j, width, target);
    } else {
      FromPreferred(h, j, width, target);
    }
  }

  /** The walk from any height below 2^width to any target takes at most quadratically many turns in the width. */
  lemma TurnsBound(h: nat, width: nat, target: nat)
    requires width >= 4 && target <= h < Pow2(width)
    ensures Turns(h, target) <= ((width + 2) / 2) * ((width + 3) / 2) - 4 + Max(width - 4, width / 2 + 3)
  {
    hide Turns, Bits, GetSkipHeight, LowAt;
    if h == target {
      TurnsWithin(h, target);
      LimitStep(width - 1);
    } else if h % 2 == 1 {
      FromOdd(h, width, target);
      BitsWithin(h, width);
    } else {
      var j := SomeLow(h, 1);
      if j < 3 {
        FromEven(h, j, width, target);
      } else {
        LowIsMultiple(h, j);
        MultipleLess(h, j, 3);
        FromEight(h, width, target);
        MultipleBits(h, 3, width);
      }
    }
  }

  /** Over 2^18 blocks no walk takes more than 110 turns. */
  lemma TurnsOver18(h: nat, target: nat)
    requires target <= h < Pow2(18)
    ensures Turns(h, target) <= 110
  {
    hide Turns, Pow2;
    TurnsBound(h, 18, target);
  }
}
