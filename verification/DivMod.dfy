/** Division facts the verifier needs spelled out. */
module DivMod {

  /** Quotient and remainder are unique. */
  lemma Unique(d: nat, q: int, r: nat)
    requires r < d
    ensures (d * q + r) / d == q
    ensures (d * q + r) % d == r
  {
    var n := d * q + r;
    var q', r' := n / d, n % d;
    assert n == d * q' + r';
    assert d * (q - q') == r' - r && d * (q' - q) == r - r';
    if q > q' {
      ProductAtLeast(d, q - q');
    } else if q < q' {
      ProductAtLeast(d, q' - q);
    }
  }

  lemma ProductAtLeast(d: nat, k: int)
    requires k >= 1
    ensures d * k >= d
  {
    assert d * k == d * (k - 1) + d;
    assert d * (k - 1) >= 0;
  }

  lemma ProductMonotone(a: nat, b: nat, c: nat, d: nat)
    requires a <= c && b <= d
    ensures a * b <= c * d
  {
    assert a * b <= c * b by { assert (c - a) * b >= 0; }
    assert c * b <= c * d by { assert c * (d - b) >= 0; }
  }

  /** Multiplying the dividend before dividing: the remainder carries the lost digits. */
  lemma ScaledQuotient(k: nat, n: nat, m: nat)
    requires m != 0
    ensures (k * n) / m == k * (n / m) + (k * (n % m)) / m
  {
    var q, r := n / m, n % m;
    var s, t := (k * r) / m, (k * r) % m;
    ScaledSplit(k, n, m, q, r, s, t);
    Unique(m, k * q + s, t);
  }

  lemma ScaledSplit(k: nat, n: nat, m: nat, q: nat, r: nat, s: nat, t: nat)
    requires n == m * q + r && k * r == m * s + t
    ensures k * n == m * (k * q + s) + t
  {
    assert k * n == k * (m * q) + k * r;
    assert k * (m * q) == m * (k * q);
    assert m * (k * q + s) == m * (k * q) + m * s;
  }

  /** A residue modulo a multiple of `m` determines the residue modulo `m`. */
  lemma CoarserResidue(n: nat, c: nat, m: nat)
    requires c != 0 && m != 0 && c * m != 0
    ensures n % m == n % (c * m) % m
  {
    var q, r := n / (c * m), n % (c * m);
    CoarserSplit(n, c, m, q, r, r / m, r % m);
    Unique(m, c * q + r / m, r % m);
  }

  lemma CoarserSplit(n: nat, c: nat, m: nat, q: nat, r: nat, q': nat, r': nat)
    requires n == c * m * q + r && r == m * q' + r'
    ensures n == m * (c * q + q') + r'
  {
    assert c * m * q == m * (c * q);
  }

  /** A block of `b` that starts below a multiple of `b` ends at or below it. */
  lemma SameBlock(x: nat, n: nat, b: nat)
    requires b != 0 && n % b == 0 && x < n
    ensures x - x % b + b <= n
  {
    var p, q := x / b, n / b;
    assert x == b * p + x % b && n == b * q;
    if p >= q {
      ProductMonotone(b, q, b, p);
    } else {
      ProductMonotone(b, p + 1, b, q);
      assert b * (p + 1) == b * p + b;
    }
  }

  /** Dividing in two steps is dividing once. */
  lemma NestedQuotient(x: nat, a: nat, b: nat)
    requires a != 0 && b != 0 && a * b != 0
    ensures x / (a * b) == x / a / b
  {
    var q := x / a;
    var p := q / b;
    var r := a * (q % b) + x % a;
    assert x == a * q + x % a;
    assert q == b * p + q % b;
    assert x == a * b * p + r by {
      assert a * (b * p) == a * b * p;
    }
    assert a * (q % b) <= a * (b - 1) by {
      ProductMonotone(a, q % b, a, b - 1);
    }
    assert a * (b - 1) == a * b - a;
    Unique(a * b, p, r);
  }
}
