/** That 4294967291 is prime: Pocklington's criterion, and its certificate. */
module PrimeCertificate {
  import opened UartPrime
  import DivMod

  // ------------------------- powers modulo n

  /** Powers of `a` modulo `n`. */
  datatype Ring = Ring(a: nat, n: nat)

  function Power(g: Ring, k: nat): (v: nat)
    requires g.n > 1
    ensures v < g.n
    decreases k, g
  {
    if k == 0 then 1 else Power(g, k - 1) * g.a % g.n
  }

  lemma Absorb(x: nat, y: nat, n: nat)
    requires n != 0
    ensures x % n * y % n == x * y % n
  {
    var q, r := x / n, x % n;
    var s, u := r * y / n, r * y % n;
    assert x * y == n * (q * y + s) + u by {
      assert x * y == (n * q + r) * y == n * q * y + r * y;
      assert n * q * y == n * (q * y);
    }
    DivMod.Unique(n, q * y + s, u);
  }

  lemma Small(x: nat, n: nat)
    requires x < n
    ensures x % n == x
  {
  }

  lemma {:induction false} PowerAdd(g: Ring, j: nat, k: nat)
    requires g.n > 1
    ensures Power(g, j + k) == Power(g, j) * Power(g, k) % g.n
  {
    if k == 0 {
      Small(Power(g, j), g.n);
    } else {
      PowerAdd(g, j, k - 1);
      PowerAddStep(Power(g, j), Power(g, k - 1), g.a, g.n);
    }
  }

  lemma PowerAddStep(x: nat, y: nat, a: nat, n: nat)
    requires n != 0
    ensures x * y % n * a % n == x * (y * a % n) % n
  {
    Absorb(x * y, a, n);
    Absorb(y * a, x, n);
    assert x * y * a == y * a * x;
    assert (y * a % n) * x == x * (y * a % n);
  }

  lemma PowerPastOrder(g: Ring, k: nat, t: nat)
    requires g.n > 1 && Power(g, t) == 1
    ensures Power(g, k + t) == Power(g, k)
  {
    PowerAdd(g, k, t);
    Small(Power(g, k), g.n);
  }

  lemma {:induction false} PowerOfMultiple(g: Ring, t: nat, u: nat, k: nat)
    requires g.n > 1 && Power(g, t) == 1 && k == t * u
    ensures Power(g, k) == 1
  {
    if u > 0 {
      assert t * u == t * (u - 1) + t;
      PowerOfMultiple(g, t, u - 1, k - t);
      PowerPastOrder(g, k - t, t);
    }
  }

  /** Powers modulo a divisor. */
  lemma {:induction false} Reduce(g: Ring, d: nat, k: nat)
    requires g.n > 1 && d > 1 && Divides(d, g.n)
    ensures Power(Ring(g.a, d), k) == Power(g, k) % d
  {
    if k == 0 {
      Small(1, d);
    } else {
      Reduce(g, d, k - 1);
      ReduceStep(Power(g, k - 1), g.a, d, g.n);
    }
  }

  lemma ReduceStep(x: nat, a: nat, d: nat, n: nat)
    requires d > 1 && n > 1 && Divides(d, n)
    ensures x % d * a % d == x * a % n % d
  {
    Absorb(x, a, d);
    var c := n / d;
    assert n == c * d;
    DivMod.CoarserResidue(x * a, c, d);
  }

  // ------------------------- orders

  ghost predicate IsOrder(g: Ring, t: nat)
    requires g.n > 1
  {
    1 <= t && Power(g, t) == 1 && forall s {:trigger Power(g, s)} :: 1 <= s < t ==> Power(g, s) != 1
  }

  lemma FindOrder(g: Ring, from: nat, k: nat) returns (t: nat)
    requires g.n > 1 && 1 <= from <= k && Power(g, k) == 1
    requires forall s {:trigger Power(g, s)} :: 1 <= s < from ==> Power(g, s) != 1
    ensures IsOrder(g, t)
    decreases k - from
  {
    if Power(g, from) == 1 {
      t := from;
    } else {
      t := FindOrder(g, from + 1, k);
    }
  }

  lemma {:induction false} OrderDivides(g: Ring, t: nat, k: nat) returns (u: nat)
    requires g.n > 1 && IsOrder(g, t) && Power(g, k) == 1
    ensures k == t * u
  {
    if k < t {
      u := 0;
    } else {
      PowerPastOrder(g, k - t, t);
      var v := OrderDivides(g, t, k - t);
      u := v + 1;
      OneMore(t, v);
    }
  }

  lemma OneMore(t: nat, v: nat)
    ensures t * (v + 1) == t * v + t
  {
  }

  lemma PowersDiffer(g: Ring, t: nat, i: nat, j: nat)
    requires g.n > 1 && IsOrder(g, t) && i < j < t
    ensures Power(g, i) != Power(g, j)
  {
    PowerAdd(g, i, t - j);
    PowerAdd(g, j, t - j);
  }

  lemma PowersArePositive(g: Ring, t: nat, i: nat)
    requires g.n > 1 && IsOrder(g, t) && i < t
    ensures Power(g, i) >= 1
  {
    PowerAdd(g, i, t - i);
    Small(0, g.n);
  }

  function Below(n: nat): (s: set<nat>)
    ensures |s| == n && forall x: nat :: x in s <==> x < n
  {
    if n == 0 then {} else Below(n - 1) + {n - 1}
  }

  ghost function FirstPowers(g: Ring, t: nat): set<nat>
    requires g.n > 1
  {
    set i: nat | i < t :: Power(g, i)
  }

  lemma NewPower(g: Ring, t: nat, k: nat)
    requires g.n > 1 && IsOrder(g, t) && k < t
    ensures Power(g, k) !in FirstPowers(g, k)
  {
    forall i: nat | i < k
      ensures Power(g, i) != Power(g, k)
    {
      PowersDiffer(g, t, i, k);
    }
  }

  lemma {:induction false} CountPowers(g: Ring, t: nat, k: nat)
    requires g.n > 1 && IsOrder(g, t) && k <= t
    ensures |FirstPowers(g, k)| == k
  {
    if k == 0 {
      assert FirstPowers(g, 0) == {};
    } else {
      CountPowers(g, t, k - 1);
      NewPower(g, t, k - 1);
      assert FirstPowers(g, k) == FirstPowers(g, k - 1) + {Power(g, k - 1)};
    }
  }

  lemma SubsetIsSmaller(s: set<nat>, t: set<nat>)
    requires s <= t
    ensures |s| <= |t|
  {
    assert |t| == |s| + |t - s| by {
      assert t == s + (t - s);
    }
  }

  /** The powers up to the order are different and not 0, so the order is below the modulus. */
  lemma OrderIsSmall(g: Ring, t: nat)
    requires g.n > 1 && IsOrder(g, t)
    ensures t < g.n
  {
    var s := FirstPowers(g, t);
    CountPowers(g, t, t);
    forall x | x in s + {0}
      ensures x in Below(g.n)
    {
    }
    if 0 in s {
      var i: nat :| i < t && 0 == Power(g, i);
      PowersArePositive(g, t, i);
    }
    SubsetIsSmaller(s + {0}, Below(g.n));
  }

  // ------------------------- the criterion

  /** A prime that divides a product divides a factor. */
  lemma Euclid(r: nat, x: nat, u: nat)
    requires IsPrime(r) && Divides(r, u * x) && !Divides(r, u)
    ensures Divides(r, x)
  {
    var y := LeastCoMultiplier(r, u, 1);
    MultipleIsDivisible(r, u);
    assert u * r == r * u;
    LeastCoMultiplierDivides(r, u, y, r);
    assert u * 1 == u;
    assert y == r;
    LeastCoMultiplierDivides(r, u, y, x);
  }

  lemma Cancel(r: nat, m: nat, t: nat, u: nat, v: nat)
    requires r > 0 && r * m == t * u && u == r * v
    ensures m == t * v
  {
    assert t * u == r * (t * v);
    assert r * (m - t * v) == 0;
  }

  lemma SharedFactor(r: nat, m: nat, t: nat, u: nat) returns (v: nat)
    requires r > 0 && r * m == t * u && Divides(r, u)
    ensures m == t * v
  {
    v := u / r;
    Cancel(r, m, t, u, v);
  }

  /** The order has every factor `r` of the exponent that the power at `m` proves missing from the cofactor. */
  lemma CofactorLacks(g: Ring, t: nat, r: nat, m: nat, u: nat)
    requires g.n > 1 && Power(g, t) == 1 && r > 0 && r * m == t * u && Power(g, m) != 1
    ensures !Divides(r, u)
  {
    if Divides(r, u) {
      var v := SharedFactor(r, m, t, u);
      PowerOfMultiple(g, t, v, m);
    }
  }

  /** So the order is a multiple of the prime `r`, even of its square when that divides the exponent. */
  lemma FactorOfOrder(r: nat, m: nat, t: nat, u: nat)
    requires IsPrime(r) && t >= 1 && r * m == t * u && !Divides(r, u)
    ensures t >= r && Divides(r, t)
    ensures Divides(r, m) ==> t >= r * r
  {
    MultipleIsDivisible(r, m);
    assert t * u == u * t;
    Euclid(r, t, u);
    var v := t / r;
    assert t == r * v;
    DivMod.ProductAtLeast(r, v);
    if Divides(r, m) {
      assert u * t == t * u;
      Cancel(r, m, u, t, v);
      Euclid(r, v, u);
      var w := v / r;
      assert v == r * w;
      DivMod.ProductAtLeast(r, w);
      DivMod.ProductMonotone(r, r, r, v);
    }
  }

  /** What the certificate says of one number `n`: `w` is the power at `m`, and `w - 1` has the inverse `s`. */
  ghost predicate Certified(g: Ring, r: nat, m: nat, w: nat, s: nat, c: nat)
  {
    && g.n > 1 && IsPrime(r) && g.n == r * m + 1
    && Power(g, g.n - 1) == 1 && Power(g, m) == w && w >= 1 && (w - 1) * s == g.n * c + 1
  }

  lemma DivisorIsLarge(g: Ring, r: nat, m: nat, w: nat, s: nat, c: nat, d: nat)
    requires Certified(g, r, m, w, s, c) && d > 1 && Divides(d, g.n)
    ensures d > r
    ensures Divides(r, m) ==> d > r * r
  {
    var h := Ring(g.a, d);
    var k := g.n - 1;
    Reduce(g, d, k);
    Small(1, d);
    Reduce(g, d, m);
    NotOne(g.n, w, s, c, d);
    var t := FindOrder(h, 1, k);
    var u := OrderDivides(h, t, k);
    CofactorLacks(h, t, r, m, u);
    FactorOfOrder(r, m, t, u);
    OrderIsSmall(h, t);
  }

  lemma NoFactorOfOne(d: nat, x: int)
    requires d > 1
    ensures d * x != 1
  {
    if x >= 1 {
      DivMod.ProductAtLeast(d, x);
    } else {
      assert d * -x >= 0;
    }
  }

  lemma NotOne(n: nat, w: nat, s: nat, c: nat, d: nat)
    requires d > 1 && Divides(d, n) && w >= 1 && (w - 1) * s == n * c + 1
    ensures w % d != 1
  {
    if w % d == 1 {
      var q, e := w / d, n / d;
      CommonFactor(d, q, e, s, c);
      assert w - 1 == d * q && n == d * e;
      NoFactorOfOne(d, q * s - e * c);
    }
  }

  lemma CommonFactor(d: int, q: int, e: int, s: int, c: int)
    ensures (d * q) * s - (d * e) * c == d * (q * s - e * c)
  {
  }

  lemma TooLarge(n: nat, d: nat, e: nat, f: nat)
    requires d > f && e > f && f * f >= n
    ensures d * e > n
  {
    DivMod.ProductMonotone(f + 1, f + 1, d, e);
    assert (f + 1) * (f + 1) == f * f + 2 * f + 1;
  }

  lemma Codivisor(n: nat, d: nat) returns (e: nat)
    requires 2 <= d < n && Divides(d, n)
    ensures e > 1 && Divides(e, n) && e * d == n
  {
    e := n / d;
    assert n == e * d;
    MultipleIsDivisible(e, d);
  }

  /** Pocklington: no divisor is small enough to leave room for another. */
  lemma Pocklington(g: Ring, r: nat, m: nat, w: nat, s: nat, c: nat)
    requires Certified(g, r, m, w, s, c)
    requires r * r >= g.n || (Divides(r, m) && r * r * (r * r) >= g.n)
    ensures IsPrime(g.n)
  {
    forall d | 2 <= d < g.n
      ensures !Divides(d, g.n)
    {
      if Divides(d, g.n) {
        var e := Codivisor(g.n, d);
        DivisorIsLarge(g, r, m, w, s, c, d);
        DivisorIsLarge(g, r, m, w, s, c, e);
        TooLarge(g.n, e, d, if r * r >= g.n then r else r * r);
      }
    }
  }

  // ------------------------- the certificates

  lemma SmallPowers(g: Ring)
    requires g.a == 2 && g.n > 8
    ensures Power(g, 0) == 1 && Power(g, 1) == 2 && Power(g, 2) == 4 && Power(g, 3) == 8
  {
    Small(2, g.n);
    Small(4, g.n);
    Small(8, g.n);
    assert Power(g, 1) == Power(g, 0) * 2 % g.n;
    assert Power(g, 2) == Power(g, 1) * 2 % g.n;
    assert Power(g, 3) == Power(g, 2) * 2 % g.n;
  }

  lemma QuadProduct(v: nat, x: nat, n: nat)
    requires n != 0
    ensures (v * v % n) * (v * v % n) % n * x % n == v * v * v * v * x % n
  {
    var y := v * v;
    var z := y % n;
    Absorb(y, z, n);
    Absorb(y, y, n);
    assert y * z == z * y;
    assert z * z % n == y * y % n;
    Absorb(y * y, x, n);
    assert y * y == v * v * v * v;
  }

  lemma QuadPower(g: Ring, k: nat, k2: nat, k3: nat, e: nat, k4: nat)
    requires g.n > 1 && k2 == k + k && k3 == k2 + k2 && k4 == k3 + e
    ensures var y := Power(g, k) * Power(g, k) % g.n;
            Power(g, k4) == y * y % g.n * Power(g, e) % g.n
  {
    PowerAdd(g, k, k);
    PowerAdd(g, k2, k2);
    PowerAdd(g, k3, e);
  }

  /** One base-4 digit `e` of an exponent: the fourth power, times `x`, the power at `e`. */
  lemma Quad(g: Ring, k: nat, v: nat, e: nat, x: nat, c: nat, w: nat, k4: nat)
    requires g.n > 1 && Power(g, k) == v && Power(g, e) == x && k4 == 4 * k + e
    requires v * v * v * v * x == g.n * c + w && w < g.n
    ensures Power(g, k4) == w
  {
    QuadPower(g, k, 2 * k, 4 * k, e, k4);
    QuadProduct(v, x, g.n);
    DivMod.Unique(g.n, c, w);
  }

  lemma PowerOf22605091(g: Ring)
    requires g.a == 2 && g.n == 22605091
    ensures Power(g, 124890) == 13954217
  {
    SmallPowers(g);
    Quad(g, 1, 2, 3, 8, 0, 128, 7);
    Quad(g, 7, 128, 2, 4, 47, 11302547, 30);
    Quad(g, 30, 11302547, 1, 2, 1443873090844286482870, 14128192, 121);
    Quad(g, 121, 14128192, 3, 8, 14100356087729506263034, 19377874, 487);
    Quad(g, 487, 19377874, 3, 8, 49900883858302509317537, 20502141, 1951);
    Quad(g, 1951, 20502141, 1, 2, 15632217891939538560414, 6576648, 7805);
    Quad(g, 7805, 6576648, 2, 4, 331033635124178059475, 20761639, 31222);
    Quad(g, 31222, 20761639, 2, 4, 32877612534849489053417, 13954217, 124890);
  }

  lemma FermatOf22605091(g: Ring)
    requires g.a == 2 && g.n == 22605091
    ensures Power(g, 22605090) == 1
  {
    SmallPowers(g);
    Quad(g, 1, 2, 1, 2, 0, 32, 5);
    Quad(g, 5, 32, 1, 2, 0, 2097152, 21);
    Quad(g, 21, 2097152, 2, 4, 3422735721583083526, 15364398, 86);
    Quad(g, 86, 15364398, 0, 1, 2465221432436486542440, 1417176, 344);
    Quad(g, 344, 1417176, 3, 8, 1427509091768423886, 9440982, 1379);
    Quad(g, 1379, 9440982, 2, 4, 1405796345859684371246, 4214518, 5518);
    Quad(g, 5518, 4214518, 3, 8, 111654281039991499168, 16623520, 22075);
    Quad(g, 22075, 16623520, 1, 2, 6756405347343985532272, 12323248, 88301);
    Quad(g, 88301, 12323248, 0, 1, 1020221554000094565917, 1122569, 353204);
    Quad(g, 353204, 1122569, 2, 4, 280999735602955735, 3661599, 1412818);
    Quad(g, 1412818, 3661599, 0, 1, 7952009011685751050, 118051, 5651272);
    Quad(g, 5651272, 118051, 2, 4, 34366271188833, 1, 22605090);
  }

  lemma PowerOf4294967291(g: Ring)
    requires g.a == 2 && g.n == 4294967291
    ensures Power(g, 190) == 1073745729
  {
    SmallPowers(g);
    Quad(g, 2, 4, 3, 8, 0, 2048, 11);
    Quad(g, 11, 2048, 3, 8, 32768, 163840, 47);
    Quad(g, 47, 163840, 2, 4, 671088640781, 1073745729, 190);
  }

  lemma FermatOf4294967291(g: Ring)
    requires g.a == 2 && g.n == 4294967291
    ensures Power(g, 4294967290) == 1
  {
    SmallPowers(g);
    Quad(g, 3, 8, 3, 8, 0, 32768, 15);
    Quad(g, 15, 32768, 3, 8, 2147483650, 2147483658, 63);
    Quad(g, 63, 2147483658, 3, 8, 39614082041118797996069247510, 2147678958, 255);
    Quad(g, 255, 2147678958, 3, 8, 39628494603754829271468999079, 3026704579, 1023);
    Quad(g, 1023, 3026704579, 3, 8, 156318457668439173334673906113, 1942866765, 4095);
    Quad(g, 4095, 1942866765, 3, 8, 26540078504372459270614627072, 3031303048, 16383);
    Quad(g, 16383, 3031303048, 3, 8, 157270602668626803682219277077, 1153410921, 65535);
    Quad(g, 65535, 1153410921, 3, 8, 3296600825092109292048983009, 1576914029, 262143);
    Quad(g, 262143, 1576914029, 3, 8, 11517605361194506458163343321, 2212816837, 1048575);
    Quad(g, 1048575, 2212816837, 3, 8, 44659308610713489539362231060, 3033467628, 4194303);
    Quad(g, 4194303, 3033467628, 3, 8, 157720296550084834385114977130, 1290348818, 16777215);
    Quad(g, 16777215, 1290348818, 3, 8, 5163671902132985297928931212, 4113184316, 67108863);
    Quad(g, 67108863, 4113184316, 3, 8, 533141894322105001817868502376, 1430430472, 268435455);
    Quad(g, 268435455, 1430430472, 2, 4, 3899124866228759270990419134, 110536630, 1073741822);
    Quad(g, 1073741822, 110536630, 2, 4, 139035278112960689442189, 1, 4294967290);
  }

  lemma SmallPrime()
    ensures IsPrime(181)
  {
    forall d | 2 <= d < 14
      ensures !Divides(d, 181)
    {
      assert d == 2 || d == 3 || d == 4 || d == 5 || d == 6 || d == 7 || d == 8 || d == 9 || d == 10 || d == 11 || d == 12
          || d == 13;
    }
    forall d | 2 <= d < 181
      ensures !Divides(d, 181)
    {
      if Divides(d, 181) {
        SmallestFactors(181, d, 14);
      }
    }
  }

  lemma MiddlePrime(g: Ring)
    requires g.a == 2 && g.n == 22605091
    ensures IsPrime(g.n)
  {
    SmallPrime();
    PowerOf22605091(g);
    FermatOf22605091(g);
    assert 690 * 181 == 124890;
    MultipleIsDivisible(181, 690);
    Pocklington(g, 181, 124890, 13954217, 19569746, 12080485);
  }

  lemma TopPrime(g: Ring)
    requires g.a == 2 && g.n == 4294967291
    ensures IsPrime(g.n)
  {
    MiddlePrime(Ring(2, 22605091));
    PowerOf4294967291(g);
    FermatOf4294967291(g);
    Pocklington(g, 22605091, 190, 1073745729, 1771216906, 442805837);
  }

  /** The test rejects a prime: the one number of 32 bits on which it errs that way. */
  lemma PrimeRejected()
    ensures IsPrime(UNREACHED) && !Accepts(UNREACHED)
  {
    TopPrime(Ring(2, UNREACHED));
    TopOfRangeRejected(UNREACHED);
  }
}
