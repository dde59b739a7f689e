/** The primality test behind the baud-rate search (uart.c). */
module UartPrime {
  import opened Word32
  import DivMod

  // ------------------------- divisibility

  ghost predicate Divides(d: nat, n: nat)
    requires d != 0
  {
    n % d == 0
  }

  ghost predicate IsPrime(n: nat)
  {
    2 <= n && forall d {:trigger Divides(d, n)} :: 2 <= d < n ==> !Divides(d, n)
  }

  ghost predicate NoDivisorBelow(n: nat, bound: nat)
  {
    forall d {:trigger Divides(d, n)} :: 2 <= d < bound ==> !Divides(d, n)
  }

  lemma MultipleIsDivisible(d: nat, k: nat)
    requires d != 0
    ensures Divides(d, d * k)
  {
    DivMod.Unique(d, k, 0);
  }

  lemma DividesTransitive(a: nat, b: nat, n: nat)
    requires a != 0 && b != 0 && Divides(a, b) && Divides(b, n)
    ensures Divides(a, n)
  {
    var p, q := b / a, n / b;
    assert b == a * p && n == b * q;
    assert n == a * (p * q);
    MultipleIsDivisible(a, p * q);
  }

  lemma DividesDifference(d: nat, x: nat, y: nat)
    requires d != 0 && Divides(d, x) && Divides(d, y) && y <= x
    ensures Divides(d, x - y)
  {
    var p, q := x / d, y / d;
    assert x - y == d * (p - q);
    DivMod.Unique(d, p - q, 0);
  }

  /** The least positive `x` whose product with `p` is a multiple of `d`. */
  lemma LeastCoMultiplier(d: nat, p: nat, from: nat) returns (x: nat)
    requires 1 <= from <= d
    requires forall y: nat {:trigger p * y} :: 1 <= y < from ==> !Divides(d, p * y)
    ensures 1 <= x <= d && Divides(d, p * x)
    ensures forall y: nat {:trigger p * y} :: 1 <= y < x ==> !Divides(d, p * y)
    decreases d - from
  {
    if Divides(d, p * from) {
      x := from;
    } else {
      MultipleIsDivisible(d, p);
      x := LeastCoMultiplier(d, p, from + 1);
    }
  }

  /** Then that `x` divides every `y` whose product with `p` is one. */
  lemma LeastCoMultiplierDivides(d: nat, p: nat, x: nat, y: nat)
    requires 1 <= d && 1 <= x && Divides(d, p * x) && Divides(d, p * y)
    requires forall z: nat {:trigger p * z} :: 1 <= z < x ==> !Divides(d, p * z)
    ensures Divides(x, y)
  {
    var a, b := y / x, y % x;
    RemainderProduct(p, x, y, a, b);
    var q := (p * x) / d;
    assert a * (p * x) == d * (a * q) by {
      assert p * x == d * q;
    }
    MultipleIsDivisible(d, a * q);
    DividesDifference(d, p * y, a * (p * x));
  }

  lemma RemainderProduct(p: nat, x: nat, y: nat, a: nat, b: nat)
    requires y == x * a + b
    ensures p * b == p * y - a * (p * x) && a * (p * x) <= p * y
  {
    assert p * y == p * (x * a) + p * b;
    assert p * (x * a) == a * (p * x);
    assert p * b >= 0;
  }

  /** A prime square has no proper divisor below its root. */
  lemma PrimeSquareHasNoSmallDivisor(p: nat, d: nat)
    requires IsPrime(p) && 2 <= d < p
    ensures !Divides(d, p * p)
  {
    if Divides(d, p * p) {
      var x := LeastCoMultiplier(d, p, 1);
      assert p * 1 == p;
      LeastCoMultiplierDivides(d, p, x, p);
      assert false;
    }
  }

  // ------------------------- what the loop decides

  /** The loop's `i` in round `k`: 5, 11, 17, ... */
  function LoopIndex(k: nat): nat
  {
    6 * k + 5
  }

  /** `i * i` as the source computes it: an unsigned 32-bit product. */
  function WrappedSquare(i: nat): u32
  {
    Wrap(i * i)
  }

  /** The guard of the loop fails in round `k`. */
  ghost predicate GuardFailsAt(n: nat, k: nat)
  {
    n <= WrappedSquare(LoopIndex(k))
  }

  /** The loop leaves through its guard in round `k`, and nothing below its index divides `n`. */
  ghost predicate StopsAt(n: nat, k: nat)
  {
    LoopIndex(k) <= n && GuardFailsAt(n, k) && NoDivisorBelow(n, LoopIndex(k))
  }

  ghost predicate Accepts(n: nat)
  {
    n <= 3 || (n % 2 != 0 && n % 3 != 0 && exists k :: StopsAt(n, k))
  }

  /** Some loop index up to `n` has a (wrapped) square of at least `n`. */
  ghost predicate GuardFails(n: nat)
  {
    exists k :: GuardFailsAt(n, k) && LoopIndex(k) <= n
  }

  ghost predicate PrimeSquareRoot(n: nat, p: nat)
  {
    IsPrime(p) && p % 6 == 5 && n == p * p
  }

  /** `n` is the square of a prime congruent to 5 modulo 6. */
  ghost predicate IsSkippedSquare(n: nat)
  {
    exists p :: PrimeSquareRoot(n, p)
  }

  /** The last square that does not wrap is that of 65531. */
  const LAST_EXACT: nat := 65531 * 65531

  lemma NotDivisibleByMultiple(d: nat, m: nat, n: nat)
    requires d != 0 && m != 0 && !Divides(d, n)
    ensures !Divides(d * m, n)
  {
    if Divides(d * m, n) {
      MultipleIsDivisible(d, m);
      DividesTransitive(d, d * m, n);
    }
  }

  /** One round of the loop rules out six candidates although it divides by two of them. */
  lemma SixCandidates(n: nat, k: nat)
    requires !Divides(2, n) && !Divides(3, n)
    requires NoDivisorBelow(n, LoopIndex(k)) && !Divides(LoopIndex(k), n) && !Divides(LoopIndex(k) + 2, n)
    ensures NoDivisorBelow(n, LoopIndex(k + 1))
  {
    NotDivisibleByMultiple(2, 3 * k + 3, n);
    NotDivisibleByMultiple(2, 3 * k + 4, n);
    NotDivisibleByMultiple(2, 3 * k + 5, n);
    NotDivisibleByMultiple(3, 2 * k + 3, n);
  }

  lemma NonDivisorDiffers(d: nat, n: nat)
    requires d != 0 && !Divides(d, n)
    ensures d != n
  {
  }

  lemma NextIndexInRange(n: nat, k: nat)
    requires !Divides(2, n) && !Divides(3, n)
    requires LoopIndex(k) <= n && n != LoopIndex(k) && n != LoopIndex(k) + 2
    ensures LoopIndex(k + 1) <= n
  {
    MultipleIsDivisible(2, 3 * k + 3);
    MultipleIsDivisible(2, 3 * k + 4);
    MultipleIsDivisible(2, 3 * k + 5);
    MultipleIsDivisible(3, 2 * k + 3);
  }

  lemma FirstIndexInRange(n: nat)
    requires n > 3 && n % 2 != 0 && n % 3 != 0
    ensures LoopIndex(0) <= n && NoDivisorBelow(n, LoopIndex(0)) && !Divides(2, n) && !Divides(3, n)
  {
    NotDivisibleByMultiple(2, 2, n);
  }

  /** The loop, as written, including the wrap of `i * i`. */
  method UartIsPrime(n: u32) returns (r: nat)
    ensures r == 0 || r == 1
    ensures r == 1 <==> Accepts(n)
  {
    if n <= 3 {
      return 1;
    } else if n % 2 == 0 || n % 3 == 0 {
      return 0;
    }
    FirstIndexInRange(n);
    var i: u32 := 5;
    ghost var k := 0;
    while WrappedSquare(i) < n
      invariant i == LoopIndex(k) <= n
      invariant NoDivisorBelow(n, i)
      invariant forall j :: 0 <= j < k ==> !GuardFailsAt(n, j)
      decreases n - i
    {
      if n % i == 0 || n % (i + 2) == 0 {
        RejectsDivisor(n, k, if n % i == 0 then i else i + 2);
        return 0;
      }
      NonDivisorDiffers(i, n);
      NonDivisorDiffers(i + 2, n);
      NextIndexInRange(n, k);
      SixCandidates(n, k);
      i := i + 6;
      k := k + 1;
    }
    assert StopsAt(n, k);
    r := 1;
  }

  lemma RejectsDivisor(n: nat, k: nat, d: nat)
    requires n > 3 && 2 <= d <= LoopIndex(k) + 2 && Divides(d, n)
    requires forall j :: 0 <= j <= k ==> !GuardFailsAt(n, j)
    ensures !Accepts(n)
  {
    forall j: nat
      ensures !StopsAt(n, j)
    {
      if j > k {
        assert LoopIndex(j) > d;
      }
    }
  }

  // ------------------------- what acceptance means

  /** Whatever the wrap does, a number that is accepted is a small number, a prime, or a skipped square. */
  lemma AcceptedIsPrimeOrSquare(n: nat, k: nat)
    requires StopsAt(n, k)
    ensures IsPrime(n) || PrimeSquareRoot(n, LoopIndex(k))
  {
    var i := LoopIndex(k);
    WrapLowers(i * i);
    if !IsPrime(n) {
      var d :| 2 <= d < n && Divides(d, n);
      SmallestFactors(n, d, i);
      forall m | 2 <= m < i
        ensures !Divides(m, i)
      {
        if Divides(m, i) {
          DividesTransitive(m, i, n);
        }
      }
      IndexResidue(k);
    }
  }

  lemma IndexResidue(k: nat)
    ensures LoopIndex(k) % 6 == 5
  {
  }

  lemma WrapLowers(x: nat)
    ensures Wrap(x) <= x
  {
  }

  /** With no divisor below `i` and `n <= i * i`, a proper divisor can only be `i`, and `n` its square. */
  lemma SmallestFactors(n: nat, d: nat, i: nat)
    requires 2 <= d < n && Divides(d, n)
    requires 5 <= i && n <= i * i && NoDivisorBelow(n, i)
    ensures d == i && n == i * i
  {
    var e := n / d;
    assert n == d * e && n == e * d;
    assert e != 0;
    MultipleIsDivisible(e, d);
    assert e != 1;
    assert d >= i && e >= i;
    if d > i {
      DivMod.ProductMonotone(i + 1, i, d, e);
    } else if e > i {
      DivMod.ProductMonotone(i, i + 1, d, e);
    }
  }

  /** A prime is accepted exactly when the guard of the loop can fail at all. */
  lemma PrimeAccepted(n: nat)
    requires IsPrime(n) && n > 3
    ensures Accepts(n) <==> GuardFails(n)
  {
    PrimeResidue(n);
    if GuardFails(n) {
      var k :| GuardFailsAt(n, k) && LoopIndex(k) <= n;
      assert StopsAt(n, k);
    }
    if Accepts(n) {
      var k :| StopsAt(n, k);
      assert GuardFailsAt(n, k);
    }
  }

  lemma PrimeResidue(n: nat)
    requires IsPrime(n) && n > 3
    ensures n % 2 != 0 && n % 3 != 0
  {
    assert !Divides(2, n) && !Divides(3, n);
  }

  lemma ExactSquare(i: nat)
    requires i <= 65531
    ensures WrappedSquare(i) == i * i <= LAST_EXACT
  {
    DivMod.ProductMonotone(i, i, 65531, 65531);
  }

  /** The round whose index is the last one not above `n`, or 65531 if that is smaller. */
  lemma LastRound(n: nat) returns (k: nat)
    requires n > 3 && n % 2 != 0 && n % 3 != 0
    ensures LoopIndex(k) <= n && LoopIndex(k) <= 65531
    ensures LoopIndex(k) < 65531 ==> n <= LoopIndex(k) + 2
  {
    k := if n >= 65531 then 10921 else (n - 5) / 6;
  }

  lemma SmallGuardFails(n: nat)
    requires IsPrime(n) && 3 < n <= LAST_EXACT
    ensures GuardFails(n)
  {
    PrimeResidue(n);
    var k := LastRound(n);
    var i := LoopIndex(k);
    ExactSquare(i);
    DivMod.ProductMonotone(5, i, i, i);
    assert GuardFailsAt(n, k);
  }

  lemma SkippedSquareAccepted(n: nat, p: nat)
    requires PrimeSquareRoot(n, p) && n <= LAST_EXACT
    ensures Accepts(n)
  {
    if p > 65531 {
      DivMod.ProductMonotone(65532, 65532, p, p);
    }
    ExactSquare(p);
    DivMod.ProductMonotone(1, p, p, p);
    DivMod.ProductMonotone(5, 5, p, p);
    forall d | 2 <= d < p
      ensures !Divides(d, n)
    {
      PrimeSquareHasNoSmallDivisor(p, d);
    }
    assert !Divides(2, n) && !Divides(3, n);
    var k := p / 6;
    assert p == LoopIndex(k);
    assert StopsAt(n, k);
  }

  /** Exactly what the test accepts while `i * i` cannot wrap. */
  lemma AcceptsExactly(n: nat)
    requires n <= LAST_EXACT
    ensures Accepts(n) <==> n <= 3 || IsPrime(n) || IsSkippedSquare(n)
  {
    if n > 3 {
      if Accepts(n) {
        var k :| StopsAt(n, k);
        AcceptedIsPrimeOrSquare(n, k);
      }
      if IsPrime(n) {
        SmallGuardFails(n);
        PrimeAccepted(n);
      }
      if IsSkippedSquare(n) {
        var p :| PrimeSquareRoot(n, p);
        SkippedSquareAccepted(n, p);
      }
    }
  }

  /** An index that ends the loop for every argument between `LAST_EXACT` and its wrapped square. */
  lemma HighestWrappedSquare()
    ensures LoopIndex(5786075) == 34716455 && WrappedSquare(34716455) == 0xFFFF_FFF1
  {
    assert 34716455 * 34716455 == 280614 * 0x1_0000_0000 + 0xFFFF_FFF1;
  }

  lemma AcceptedAboveIsPrime(n: nat)
    requires LAST_EXACT < n < TWO_TO_THE_32
    ensures Accepts(n) ==> IsPrime(n)
  {
    if Accepts(n) {
      var k :| StopsAt(n, k);
      AcceptedIsPrimeOrSquare(n, k);
      assert GuardFailsAt(n, k);
      var i := LoopIndex(k);
      if k <= 10921 {
        ExactSquare(i);
      } else {
        DivMod.ProductMonotone(65537, 65537, i, i);
      }
    }
  }

  lemma NoSkippedSquareAbove(n: nat)
    requires LAST_EXACT < n < TWO_TO_THE_32
    ensures !IsSkippedSquare(n)
  {
    forall p
      ensures !PrimeSquareRoot(n, p)
    {
      if PrimeSquareRoot(n, p) {
        if p <= 65531 {
          ExactSquare(p);
        } else {
          assert p >= 65537;
          DivMod.ProductMonotone(65537, 65537, p, p);
        }
      }
    }
  }

  /** The prime that no wrapped square reaches. */
  const UNREACHED: nat := 0xFFFF_FFFB

  /** All other numbers near the top have a small divisor. */
  lemma TopIsComposite(n: nat)
    requires 0xFFFF_FFF1 < n < TWO_TO_THE_32 && n != UNREACHED
    ensures !IsPrime(n)
  {
    var d := if n % 2 == 0 then 2 else if n % 3 == 0 then 3 else if n % 5 == 0 then 5 else if n % 13 == 0 then 13 else 9241;
    assert n % d == 0;
    assert Divides(d, n);
  }

  /** Exactly what the test accepts above that: every prime but one. */
  lemma AcceptsExactlyWhenWrapping(n: nat)
    requires LAST_EXACT < n < TWO_TO_THE_32
    ensures Accepts(n) <==> IsPrime(n) && n != UNREACHED
  {
    AcceptedAboveIsPrime(n);
    if n == UNREACHED {
      TopOfRangeRejected(n);
    } else if IsPrime(n) {
      if n > 0xFFFF_FFF1 {
        TopIsComposite(n);
      }
      HighestWrappedSquare();
      assert GuardFailsAt(n, 5786075);
      PrimeAccepted(n);
    }
  }

  /**
   * Exactly what the test accepts, for every 32-bit argument: with one exception the numbers up to 3, the primes, and
   * the squares of primes congruent to 5 modulo 6.
   */
  lemma AcceptsMeans(n: u32)
    ensures Accepts(n) <==> n != UNREACHED && (n <= 3 || IsPrime(n) || IsSkippedSquare(n))
  {
    if n <= LAST_EXACT {
      AcceptsExactly(n);
    } else {
      NoSkippedSquareAbove(n);
      AcceptsExactlyWhenWrapping(n);
    }
  }

  /** No loop index has a wrapped square above this. */
  lemma TopOfRangeRejected(n: nat)
    requires 0xFFFF_FFF9 < n < TWO_TO_THE_32
    ensures !Accepts(n)
  {
    forall k: nat
      ensures !GuardFailsAt(n, k)
    {
      IndexSquareBelowTop(k);
    }
  }

  lemma IndexSquareBelowTop(k: nat)
    ensures WrappedSquare(LoopIndex(k)) <= 0xFFFF_FFF9
  {
    var h := 3 * k + 2;
    OddSquareResidue(h);
    assert LoopIndex(k) == 2 * h + 1;
    WrappedResidueOneBelowTop((2 * h + 1) * (2 * h + 1));
  }

  lemma WrappedResidueOneBelowTop(x: nat)
    requires x % 8 == 1
    ensures Wrap(x) <= 0xFFFF_FFF9
  {
  }

  lemma OddSquareResidue(h: nat)
    ensures (2 * h + 1) * (2 * h + 1) % 8 == 1
  {
    if h > 0 {
      OddSquareResidue(h - 1);
      NextOddSquare(h);
      AddEights((2 * (h - 1) + 1) * (2 * (h - 1) + 1), h);
    }
  }

  lemma NextOddSquare(h: nat)
    requires h > 0
    ensures (2 * h + 1) * (2 * h + 1) == (2 * (h - 1) + 1) * (2 * (h - 1) + 1) + 8 * h
  {
  }

  lemma AddEights(x: nat, h: nat)
    requires x % 8 == 1
    ensures (x + 8 * h) % 8 == 1
  {
  }

  /** The number after an accepted one (above 3) is never accepted: it is even. */
  lemma SuccessorOfAcceptedRejected(n: nat)
    requires n > 3 && Accepts(n)
    ensures !Accepts(n + 1)
  {
    EvenSuccessor(n);
  }

  lemma EvenSuccessor(n: nat)
    requires n % 2 != 0
    ensures (n + 1) % 2 == 0
  {
  }

  lemma RejectsEven(n: nat)
    requires n > 3 && n % 2 == 0
    ensures !Accepts(n)
  {
  }
}
