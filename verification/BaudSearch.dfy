/** The search for the UART clock divider and bit width (uart.c). */
module BaudSearch {
  import opened Word32
  import opened UartPrime
  import DivMod

  // ------------------------- the thirteen candidates

  /** Candidate `j` is the bit width `bwpc == j + 3`, so one bit takes `j + 4` divided clocks. */
  const CANDIDATES: nat := 13

  function Clocks(j: nat): nat
  {
    j + 4
  }

  /** Ten times the quotient, truncated: `(10 * primeInt) / (i + 1)` in 32 bits. */
  function Scaled(n: u32, j: nat): nat
  {
    Wrap(10 * n) / Clocks(j)
  }

  function Dec(n: u32, j: nat): nat
  {
    Scaled(n, j) % 10
  }

  function Quot(n: u32, j: nat): nat
  {
    Scaled(n, j) / 10
  }

  /** The ratios for which `10 * n` fits in 32 bits. */
  predicate InRange(n: nat)
  {
    10 * n < TWO_TO_THE_32
  }

  /** A table of the thirteen quotients or decimals. */
  type Table = s: seq<nat> | |s| == CANDIDATES witness seq(CANDIDATES, _ => 0)

  function Quots(n: u32): (q: Table)
    ensures forall j :: 0 <= j < CANDIDATES ==> q[j] == Quot(n, j)
  {
    seq(CANDIDATES, j requires 0 <= j => Quot(n, j))
  }

  function Decs(n: u32): (d: Table)
    ensures forall j :: 0 <= j < CANDIDATES ==> d[j] == Dec(n, j) < 10
  {
    seq(CANDIDATES, j requires 0 <= j => Dec(n, j))
  }

  // ------------------------- what the two scans look for

  /** The last candidate with the smallest decimal among those whose quotient is not 1; candidate 0 if there is none. */
  ghost predicate LastMin(quots: Table, decs: Table, p: nat)
  {
    && p < CANDIDATES
    && (quots[p] == 1 ==> p == 0)
    && (forall j :: 0 <= j < CANDIDATES && quots[j] != 1 ==>
          quots[p] != 1 && decs[p] <= decs[j] && (j > p ==> decs[p] < decs[j]))
  }

  /** The last candidate with the largest decimal. */
  ghost predicate LastMax(decs: Table, p: nat)
  {
    && p < CANDIDATES
    && forall j :: 0 <= j < CANDIDATES ==> decs[j] <= decs[p] && (j > p ==> decs[j] < decs[p])
  }

  /** Whether the final decision falls on the smallest decimal (round down) or the largest (round up). */
  predicate TakesMin(decMin: nat, decMax: nat)
  {
    if decMin < 5 && decMax >= 5 then decMin < 10 - decMax as int else decMin < 5
  }

  ghost predicate PicksFrom(quots: Table, decs: Table, pMin: nat, pMax: nat, div: int, bwpc: nat)
  {
    && LastMin(quots, decs, pMin) && LastMax(decs, pMax)
    && if TakesMin(decs[pMin], decs[pMax]) then
         bwpc == pMin + 3 && div + 1 == quots[pMin]
       else
         bwpc == pMax + 3 && div == quots[pMax]
  }

  /** The divider before it is cut down to 16 bits, and the bit width. */
  ghost predicate PicksIn(quots: Table, decs: Table, div: int, bwpc: nat)
  {
    exists pMin, pMax :: PicksFrom(quots, decs, pMin, pMax, div, bwpc)
  }

  ghost predicate Picks(n: u32, div: int, bwpc: nat)
  {
    PicksIn(Quots(n), Decs(n), div, bwpc)
  }

  function Ratio(baudrate: u32, pclk: u32): (n: u32)
    requires baudrate != 0
    ensures n * baudrate <= pclk < n * baudrate + baudrate
  {
    pclk / baudrate
  }

  /** The decimal of `pclk / baudrate`, as an `unsigned char` computed in 32 bits. */
  function FirstDecimal(baudrate: u32, pclk: u32): nat
    requires baudrate != 0
  {
    Wrap(Wrap(10 * pclk) / baudrate - 10 * Ratio(baudrate, pclk)) % 0x100
  }

  ghost function AdjustedBy(n: u32, primeDec: nat): u32
  {
    var up := Wrap(n + 1);
    if Accepts(n) || (primeDec > 5 && !Accepts(up)) then up else n
  }

  /** The ratio after the primality adjustment. */
  ghost function Adjusted(baudrate: u32, pclk: u32): u32
    requires baudrate != 0
  {
    AdjustedBy(Ratio(baudrate, pclk), FirstDecimal(baudrate, pclk))
  }

  // ------------------------- the search itself

  method AdjustRatio(baudrate: u32, pclk: u32) returns (primeInt: u32)
    requires baudrate != 0
    ensures primeInt == Adjusted(baudrate, pclk)
  {
    var primeDec := FirstDecimal(baudrate, pclk);
    primeInt := Ratio(baudrate, pclk);
    primeInt := AdjustBy(primeInt, primeDec);
  }

  method AdjustBy(ratio: u32, primeDec: nat) returns (primeInt: u32)
    ensures primeInt == AdjustedBy(ratio, primeDec)
  {
    primeInt := ratio;
    var prime := UartIsPrime(primeInt);
    if prime == 1 {
      primeInt := Wrap(primeInt + 1);
    } else if primeDec > 5 {
      WrapBack(primeInt);
      primeInt := Wrap(primeInt + 1);
      prime := UartIsPrime(primeInt);
      if prime == 1 {
        primeInt := Wrap(primeInt - 1);
      }
    }
  }

  method FillCandidates(n: u32) returns (dInt: array<nat>, dDec: array<nat>)
    ensures fresh(dInt) && fresh(dDec)
    ensures dInt[..] == Quots(n) && dDec[..] == Decs(n)
  {
    dInt, dDec := new nat[CANDIDATES], new nat[CANDIDATES];
    for i := 3 to 16
      invariant forall j :: 0 <= j < i - 3 ==> dInt[j] == Quots(n)[j] && dDec[j] == Decs(n)[j]
    {
      var dIntDec := Wrap(10 * n) / (i + 1);
      assert dIntDec == Scaled(n, i - 3);
      assert dIntDec / 10 == Quots(n)[i - 3];
      assert dIntDec - 10 * (dIntDec / 10) == Decs(n)[i - 3];
      dDec[i - 3] := dIntDec - 10 * (dIntDec / 10);
      dInt[i - 3] := dIntDec / 10;
    }
  }

  method ScanCandidates(dInt: array<nat>, dDec: array<nat>) returns (positionMin: nat, positionMax: nat)
    requires dInt.Length == dDec.Length == CANDIDATES
    requires forall j :: 0 <= j < CANDIDATES ==> dDec[j] < 10
    ensures LastMin(dInt[..], dDec[..], positionMin) && LastMax(dDec[..], positionMax)
  {
    positionMin, positionMax := 0, 0;
    var min: u32, max: u32 := 0xffff_ffff, 0;
    for j := 0 to CANDIDATES
      invariant positionMin < CANDIDATES && positionMax < CANDIDATES
      invariant min == 0xffff_ffff ==> positionMin == 0 && forall k :: 0 <= k < j ==> dInt[k] == 1
      invariant min != 0xffff_ffff ==> min == dDec[positionMin] && dInt[positionMin] != 1
      invariant forall k :: 0 <= k < j && dInt[k] != 1 ==>
                  min <= dDec[k] && (k > positionMin ==> min < dDec[k])
      invariant if j == 0 then max == 0 else max == dDec[positionMax]
      invariant forall k :: 0 <= k < j ==> dDec[k] <= max && (k > positionMax ==> dDec[k] < max)
    {
      if dDec[j] <= min && dInt[j] != 1 {
        min, positionMin := dDec[j], j;
      }
      if dDec[j] >= max {
        max, positionMax := dDec[j], j;
      }
    }
  }

  /** The final decision, cut down to an `unsigned short`. */
  method Decide(dInt: array<nat>, dDec: array<nat>, positionMin: nat, positionMax: nat) returns (div: nat, bwpc: nat)
    requires dInt.Length == dDec.Length == CANDIDATES
    requires LastMin(dInt[..], dDec[..], positionMin) && LastMax(dDec[..], positionMax)
    ensures exists d :: PicksFrom(dInt[..], dDec[..], positionMin, positionMax, d, bwpc) && div == d % 0x1_0000
  {
    var minimum: int, maximum: int := dInt[positionMin], dInt[positionMax];
    ghost var d: int;
    WrapThenCut(minimum - 1);
    if dDec[positionMin] < 5 && dDec[positionMax] >= 5 {
      if dDec[positionMin] < 10 - dDec[positionMax] as int {
        bwpc, div, d := positionMin + 3, Wrap(minimum - 1) % 0x1_0000, minimum - 1;
      } else {
        bwpc, div, d := positionMax + 3, maximum % 0x1_0000, maximum;
      }
    } else if dDec[positionMin] < 5 && dDec[positionMax] < 5 {
      bwpc, div, d := positionMin + 3, Wrap(minimum - 1) % 0x1_0000, minimum - 1;
    } else {
      bwpc, div, d := positionMax + 3, maximum % 0x1_0000, maximum;
    }
    assert PicksFrom(dInt[..], dDec[..], positionMin, positionMax, d, bwpc);
  }

  /** The tie rules leave one outcome. */
  lemma PicksUnique(quots: Table, decs: Table, div: int, bwpc: nat, div': int, bwpc': nat)
    requires PicksIn(quots, decs, div, bwpc) && PicksIn(quots, decs, div', bwpc')
    ensures div == div' && bwpc == bwpc'
  {
    var a, b :| PicksFrom(quots, decs, a, b, div, bwpc);
    var a', b' :| PicksFrom(quots, decs, a', b', div', bwpc');
    assert a == a';
    assert b == b';
  }

  // ------------------------- what the decision is good for

  /** In tenths, how far candidate `j` is from a whole quotient when it is rounded down, or up. */
  function Distance(decs: Table, j: nat, down: bool): int
    requires j < CANDIDATES
  {
    if down then decs[j] else 10 - decs[j] as int
  }

  /** The rule of three branches compares those distances, and rounds up when they are equal. */
  lemma TakesMinIfNearer(lo: nat, hi: nat)
    requires lo <= hi <= 10
    ensures TakesMin(lo, hi) <==> lo < 10 - hi as int
  {
  }

  /** No candidate comes nearer a whole quotient than the pick, rounded down (if its quotient is not 1) or up. */
  ghost predicate IsNearest(quots: Table, decs: Table, down: bool, p: nat)
  {
    && p < CANDIDATES && (down ==> quots[p] != 1)
    && forall j: nat {:trigger decs[j]} :: j < CANDIDATES ==>
         && Distance(decs, p, down) <= Distance(decs, j, false)
         && (quots[j] != 1 ==> Distance(decs, p, down) <= Distance(decs, j, true))
         && (down ==> Distance(decs, p, down) < Distance(decs, j, false))
         && (j > p && (!down || quots[j] != 1) ==> Distance(decs, p, down) < Distance(decs, j, down))
  }

  lemma NearestDown(quots: Table, decs: Table, pMin: nat, pMax: nat)
    requires LastMin(quots, decs, pMin) && LastMax(decs, pMax)
    requires quots[pMin] != 1 && decs[pMin] < 10 - decs[pMax] as int
    ensures IsNearest(quots, decs, true, pMin)
  {
    forall j: nat | j < CANDIDATES
      ensures decs[pMin] < 10 - decs[j] as int
      ensures quots[j] != 1 ==> decs[pMin] <= decs[j] && (j > pMin ==> decs[pMin] < decs[j])
    {
      assert decs[j] <= decs[pMax];
    }
  }

  lemma NearestUp(quots: Table, decs: Table, pMin: nat, pMax: nat)
    requires LastMin(quots, decs, pMin) && LastMax(decs, pMax)
    requires decs[pMin] >= 10 - decs[pMax] as int
    ensures IsNearest(quots, decs, false, pMax)
  {
    forall j: nat | j < CANDIDATES
      ensures decs[j] <= decs[pMax] && (j > pMax ==> decs[j] < decs[pMax])
      ensures quots[j] != 1 ==> 10 - decs[pMax] as int <= decs[j]
    {
      assert quots[j] != 1 ==> decs[pMin] <= decs[j];
    }
  }

  /**
   * What the search promises: the pick is a nearest candidate, rounding up if one is as near that way, and of those the
   * one with the most clocks.
   */
  lemma PickIsNearest(quots: Table, decs: Table, div: int, bwpc: nat)
    requires PicksIn(quots, decs, div, bwpc)
    requires (forall j :: 0 <= j < CANDIDATES ==> decs[j] <= 9) && exists j :: 0 <= j < CANDIDATES && quots[j] != 1
    ensures exists down, p: nat :: IsNearest(quots, decs, down, p) && bwpc + 1 == Clocks(p)
                              && div + 1 == quots[p] + if down then 0 else 1
  {
    var pMin: nat, pMax: nat :| PicksFrom(quots, decs, pMin, pMax, div, bwpc);
    var j :| 0 <= j < CANDIDATES && quots[j] != 1;
    assert quots[pMin] != 1 && decs[pMin] <= decs[pMax];
    TakesMinIfNearer(decs[pMin], decs[pMax]);
    if TakesMin(decs[pMin], decs[pMax]) {
      NearestDown(quots, decs, pMin, pMax);
    } else {
      NearestUp(quots, decs, pMin, pMax);
    }
  }

  // ------------------------- the pick as a function

  /** Where the first scan stands after `k` candidates, and where the second one does. */
  function MinUpTo(quots: Table, decs: Table, k: nat): (p: nat)
    requires k <= CANDIDATES
    ensures p < CANDIDATES
  {
    if k == 0 then 0
    else
      var p := MinUpTo(quots, decs, k - 1);
      if quots[k - 1] != 1 && (quots[p] == 1 || decs[k - 1] <= decs[p]) then k - 1 else p
  }

  function MaxUpTo(decs: Table, k: nat): (p: nat)
    requires k <= CANDIDATES
    ensures p < CANDIDATES
  {
    if k == 0 then 0
    else
      var p := MaxUpTo(decs, k - 1);
      if decs[k - 1] >= decs[p] then k - 1 else p
  }

  lemma {:induction false} MinUpToIsLast(quots: Table, decs: Table, k: nat)
    requires k <= CANDIDATES
    ensures var p := MinUpTo(quots, decs, k);
            && (k == 0 ==> p == 0) && (k > 0 ==> p < k) && (quots[p] == 1 ==> p == 0)
            && forall j :: 0 <= j < k && quots[j] != 1 ==>
                 quots[p] != 1 && decs[p] <= decs[j] && (j > p ==> decs[p] < decs[j])
  {
    if k > 0 {
      MinUpToIsLast(quots, decs, k - 1);
    }
  }

  lemma {:induction false} MaxUpToIsLast(decs: Table, k: nat)
    requires k <= CANDIDATES
    ensures var p := MaxUpTo(decs, k);
            && (k == 0 ==> p == 0) && (k > 0 ==> p < k)
            && forall j :: 0 <= j < k ==> decs[j] <= decs[p] && (j > p ==> decs[j] < decs[p])
  {
    if k > 0 {
      MaxUpToIsLast(decs, k - 1);
    }
  }

  datatype Pick = Pick(div: int, bwpc: nat)

  function PickOf(quots: Table, decs: Table): Pick
  {
    var pMin, pMax := MinUpTo(quots, decs, CANDIDATES), MaxUpTo(decs, CANDIDATES);
    if TakesMin(decs[pMin], decs[pMax]) then Pick((quots[pMin] as int) - 1, pMin + 3) else Pick(quots[pMax], pMax + 3)
  }

  /** The pick, computed from the adjusted ratio. */
  function Search(n: u32): Pick
  {
    PickOf(Quots(n), Decs(n))
  }

  lemma PickOfIsPick(quots: Table, decs: Table)
    ensures PicksIn(quots, decs, PickOf(quots, decs).div, PickOf(quots, decs).bwpc)
  {
    var pMin, pMax, pick := MinUpTo(quots, decs, CANDIDATES), MaxUpTo(decs, CANDIDATES), PickOf(quots, decs);
    MinUpToIsLast(quots, decs, CANDIDATES);
    MaxUpToIsLast(decs, CANDIDATES);
    assert PicksFrom(quots, decs, pMin, pMax, pick.div, pick.bwpc);
  }

  /** What the search picks is this function of the ratio. */
  lemma SearchExactly(n: u32, div: int, bwpc: nat)
    ensures Picks(n, div, bwpc) <==> Search(n) == Pick(div, bwpc)
  {
    PickOfIsPick(Quots(n), Decs(n));
    if Picks(n, div, bwpc) {
      PicksUnique(Quots(n), Decs(n), div, bwpc, Search(n).div, Search(n).bwpc);
    }
  }

  lemma PickExists(n: u32)
    ensures exists p: Pick :: Picks(n, p.div, p.bwpc)
  {
    PickOfIsPick(Quots(n), Decs(n));
    assert Picks(n, Search(n).div, Search(n).bwpc);
  }

  /** That pick by its properties: what the theorems speak of. */
  ghost function Picked(n: u32): (p: Pick)
    ensures Picks(n, p.div, p.bwpc)
  {
    PickExists(n);
    var p: Pick :| Picks(n, p.div, p.bwpc);
    p
  }

  /** The divider before it is cut to 16 bits, and the bit width. */
  ghost function Divider(n: u32): int
  {
    Picked(n).div
  }

  ghost function Width(n: u32): nat
  {
    Picked(n).bwpc
  }

  lemma PickIsComputed(n: u32)
    ensures Pick(Divider(n), Width(n)) == Search(n)
  {
    SearchExactly(n, Divider(n), Width(n));
  }

  lemma PickIsUnique(n: u32, div: int, bwpc: nat)
    requires Picks(n, div, bwpc)
    ensures div == Divider(n) && bwpc == Width(n)
  {
    PicksUnique(Quots(n), Decs(n), div, bwpc, Divider(n), Width(n));
  }

  // ------------------------- digits are residues

  /** The quotient is exact, and the decimal is the scaled remainder. */
  lemma Digit(n: u32, j: nat)
    requires InRange(n)
    ensures Quot(n, j) == n / Clocks(j)
    ensures Dec(n, j) == (10 * (n % Clocks(j))) / Clocks(j)
  {
    var m := Clocks(j);
    var r := n % m;
    DivMod.ScaledQuotient(10, n, m);
    assert Scaled(n, j) == 10 * (n / m) + (10 * r) / m;
    ScaledRemainderIsDigit(r, m);
  }

  lemma ScaledRemainderIsDigit(r: nat, m: nat)
    requires r < m
    ensures 0 <= (10 * r) / m <= 9
  {
    var s := (10 * r) / m;
    assert 10 * r == m * s + (10 * r) % m;
    if s >= 10 {
      DivMod.ProductMonotone(m, 10, m, s);
    }
  }

  /** The remainder is bracketed by its digit. */
  lemma DigitBracket(n: u32, j: nat)
    requires InRange(n)
    ensures var m, r := Clocks(j), n % Clocks(j);
            && n == m * Quot(n, j) + r && r < m
            && Dec(n, j) <= 9
            && m * Dec(n, j) <= 10 * r < m * Dec(n, j) + m
  {
    Digit(n, j);
    var m, r := Clocks(j), n % Clocks(j);
    ScaledRemainderIsDigit(r, m);
    QuotientBracket(10 * r, m);
    QuotientBracket(n, m);
  }

  lemma QuotientBracket(x: nat, m: nat)
    requires m != 0
    ensures m * (x / m) <= x < m * (x / m) + m
    ensures x == m * (x / m) + x % m
  {
  }

  // ------------------------- what the decimals of one ratio force on each other

  /** Every decimal is at most `hi`, and at least `lo` unless its quotient of 1 excludes it. */
  ghost predicate Within(n: u32, lo: nat, hi: nat)
  {
    && InRange(n) && n >= 4
    && forall j {:trigger Dec(n, j)} :: 0 <= j < CANDIDATES ==>
         Dec(n, j) <= hi && (Quot(n, j) != 1 ==> lo <= Dec(n, j))
  }

  lemma LowAtMost(n: u32, lo: nat, hi: nat, m: nat, r: nat)
    requires Within(n, lo, hi) && 4 <= m <= 16 && n / m != 1 && n % m == r
    ensures lo <= (10 * r) / m
  {
    Digit(n, m - 4);
  }

  lemma HighAtLeast(n: u32, lo: nat, hi: nat, m: nat, r: nat)
    requires Within(n, lo, hi) && 4 <= m <= 16 && n % m == r
    ensures hi >= (10 * r) / m
  {
    Digit(n, m - 4);
  }

  /** Ratios 4 to 7, whose quotients by 4 are excluded, have a decimal of 8. */
  lemma TinyRatioHasEight(n: u32, lo: nat, hi: nat)
    requires Within(n, lo, hi) && n < 8
    ensures hi >= 8
  {
    if n == 4 {
      HighAtLeast(n, lo, hi, 5, 4);
    } else if n == 5 {
      HighAtLeast(n, lo, hi, 6, 5);
    } else if n == 6 {
      HighAtLeast(n, lo, hi, 7, 6);
    } else {
      HighAtLeast(n, lo, hi, 8, 7);
    }
  }

  /** Division by 4 and 8 leaves no room in the middle: some decimal is at most 2 or at least 7. */
  lemma SomeDecimalIsExtreme(n: u32, lo: nat, hi: nat)
    requires Within(n, lo, hi)
    ensures lo <= 2 || hi >= 7
  {
    if n < 8 {
      TinyRatioHasEight(n, lo, hi);
    } else if n % 4 == 0 {
      LowAtMost(n, lo, hi, 4, 0);
    } else if n % 4 == 1 {
      LowAtMost(n, lo, hi, 4, 1);
    } else if n % 4 == 3 {
      HighAtLeast(n, lo, hi, 4, 3);
    } else {
      DivMod.CoarserResidue(n, 2, 4);
      TwoModuloFour(n, lo, hi, n % 8);
    }
  }

  lemma TwoModuloFour(n: u32, lo: nat, hi: nat, s: nat)
    requires Within(n, lo, hi) && n >= 8 && n % 8 == s && s % 4 == 2
    ensures lo <= 2 || hi >= 7
  {
    if n == 10 {
      LowAtMost(n, lo, hi, 5, 0);
    } else if s == 6 {
      HighAtLeast(n, lo, hi, 8, 6);
    } else {
      LowAtMost(n, lo, hi, 8, 2);
    }
  }

  lemma SixteenIsNeverBest(n: u32)
    requires n >= 8 && n % 16 % 4 == 0
    ensures !Within(n, 2, 7)
  {
    DivMod.CoarserResidue(n, 4, 4);
    if Within(n, 2, 7) {
      LowAtMost(n, 2, 7, 4, 0);
    }
  }

  lemma FifteenIsNeverBest(n: u32, lo: nat)
    requires n >= 10 && lo >= 2
    requires n % 15 == 4 || (n % 15 == 11 && lo >= 3)
    ensures !Within(n, lo, 7)
  {
    DivMod.CoarserResidue(n, 3, 5);
    if Within(n, lo, 7) {
      if n % 15 == 4 {
        HighAtLeast(n, lo, 7, 5, 4);
      } else {
        LowAtMost(n, lo, 7, 5, 1);
      }
    }
  }

  /** Even ratios have a decimal below 2 or above 7 at 4, 6 or 12 clocks, while 12 clocks are not excluded. */
  lemma EvenIsNeverBetween(n: u32, s: nat)
    requires n >= 24 && n % 12 == s && s % 2 == 0
    ensures !Within(n, 2, 7)
  {
    if Within(n, 2, 7) {
      if s == 2 {
        LowAtMost(n, 2, 7, 12, 2);
      } else if s == 10 {
        HighAtLeast(n, 2, 7, 12, 10);
      } else if s == 6 {
        DivMod.CoarserResidue(n, 2, 6);
        LowAtMost(n, 2, 7, 6, 0);
      } else {
        DivMod.CoarserResidue(n, 3, 4);
        LowAtMost(n, 2, 7, 4, 0);
      }
    }
  }

  lemma FourteenIsNeverBest(n: u32)
    requires n % 14 % 2 == 0 && (n < 24 ==> n == 18 || n == 10)
    ensures !Within(n, 2, 7)
  {
    if n >= 24 {
      DivMod.CoarserResidue(n, 7, 2);
      DivMod.CoarserResidue(n, 6, 2);
      EvenIsNeverBetween(n, n % 12);
    } else if Within(n, 2, 7) {
      if n == 10 {
        LowAtMost(n, 2, 7, 5, 0);
      } else {
        LowAtMost(n, 2, 7, 6, 0);
      }
    }
  }

  /** Rounding down by 4 needs 14, 15 or 16 clocks and a decimal of 2; another candidate always does better. */
  lemma NeverFourBelow(n: u32, m: nat)
    requires n >= 4 && 14 <= m <= 16 && n % m == 4
    ensures !Within(n, 2, 7)
  {
    if n < 8 {
      if Within(n, 2, 7) {
        TinyRatioHasEight(n, 2, 7);
      }
    } else if m == 16 {
      SixteenIsNeverBest(n);
    } else if m == 15 {
      FifteenIsNeverBest(n, 2);
    } else {
      FourteenIsNeverBest(n);
    }
  }

  /** Rounding up by 4 needs 14, 15 or 16 clocks and a decimal of 7; another candidate always does better. */
  lemma NeverFourAbove(n: u32, m: nat)
    requires 14 <= m <= 16 && n % m == m - 4
    ensures !Within(n, 3, 7)
  {
    if m == 16 {
      SixteenIsNeverBest(n);
    } else if m == 15 {
      FifteenIsNeverBest(n, 3);
    } else {
      FourteenIsNeverBest(n);
    }
  }

  // ------------------------- the two decisions

  ghost predicate Extremes(n: u32, pMin: nat, pMax: nat)
  {
    InRange(n) && n >= 4 && LastMin(Quots(n), Decs(n), pMin) && LastMax(Decs(n), pMax)
  }

  lemma ExtremesBound(n: u32, pMin: nat, pMax: nat)
    requires Extremes(n, pMin, pMax)
    ensures Within(n, Dec(n, pMin), Dec(n, pMax))
  {
    forall j | 0 <= j < CANDIDATES
      ensures Dec(n, j) <= Dec(n, pMax) && (Quot(n, j) != 1 ==> Dec(n, pMin) <= Dec(n, j))
    {
      assert Decs(n)[j] == Dec(n, j) && Quots(n)[j] == Quot(n, j);
    }
  }

  /** There is always a candidate with a quotient other than 1, so the smallest decimal is a real minimum. */
  lemma MinIsReal(n: u32, pMin: nat, pMax: nat)
    requires Extremes(n, pMin, pMax)
    ensures Quot(n, pMin) != 1
    ensures Dec(n, pMin) <= Dec(n, pMax)
  {
    var j := if n >= 8 then 0 else 12;
    Digit(n, j);
    assert Quots(n)[j] == Quot(n, j) != 1;
    assert Quots(n)[pMin] == Quot(n, pMin);
    assert Decs(n)[pMin] <= Decs(n)[pMax];
  }

  /** Which decimals each decision can rest on. */
  lemma DecisionDigits(n: u32, lo: nat, hi: nat)
    requires Within(n, lo, hi) && lo <= hi
    ensures TakesMin(lo, hi) ==> lo <= 2 && lo + hi < 10
    ensures !TakesMin(lo, hi) ==> hi >= 7 && lo + hi >= 10
  {
    SomeDecimalIsExtreme(n, lo, hi);
  }

  /** A decimal of at most 2 comes from a remainder of at most 3, or of 4 at 14 clocks or more. */
  lemma SmallDecimalRemainder(d: nat, m: nat, r: nat)
    requires 4 <= m <= 16 && r < m && d <= 2 && m * d <= 10 * r < m * d + m
    ensures r <= 3 || (r == 4 && d == 2 && m >= 14)
    ensures 2 * r <= m
    ensures d == 0 ==> r <= 1
  {
  }

  /** And the same at the upper end. */
  lemma LargeDecimalRemainder(d: nat, m: nat, r: nat)
    requires 4 <= m <= 16 && r < m && 7 <= d <= 9 && m * d <= 10 * r < m * d + m
    ensures m - r <= 3 || (m - r == 4 && d == 7 && m >= 14)
    ensures 2 * (m - r) <= m
  {
  }

  /** Narrowing the range of decimals keeps nothing but the true extremes. */
  lemma WithinWidens(n: u32, lo: nat, hi: nat, lo': nat, hi': nat)
    requires Within(n, lo, hi) && lo' <= lo && hi <= hi'
    ensures Within(n, lo', hi')
  {
  }

  /** When the smallest decimal decides, rounding down loses at most 3. */
  lemma RoundsDown(n: u32, lo: nat, hi: nat, m: nat)
    requires Within(n, lo, hi) && lo <= hi && TakesMin(lo, hi) && 4 <= m <= 16
    requires m * lo <= 10 * (n % m) < m * lo + m
    ensures n % m <= 3 && 2 * (n % m) <= m && n >= m
    ensures lo == 0 ==> n % m <= 1
  {
    DecisionDigits(n, lo, hi);
    SmallDecimalRemainder(lo, m, n % m);
    if n % m == 4 {
      WithinWidens(n, lo, hi, 2, 7);
      NeverFourBelow(n, m);
    }
    if n < m {
      SmallRatioIsItsRemainder(n, m);
    }
  }

  lemma SmallRatioIsItsRemainder(n: nat, m: nat)
    requires n < m
    ensures n % m == n
  {
  }

  /** When the largest decimal decides, rounding up adds at most 3. */
  lemma RoundsUp(n: u32, lo: nat, hi: nat, m: nat)
    requires Within(n, lo, hi) && lo <= hi <= 9 && !TakesMin(lo, hi) && 4 <= m <= 16
    requires m * hi <= 10 * (n % m) < m * hi + m
    ensures m - n % m <= 3 && 2 * (m - n % m) <= m
  {
    DecisionDigits(n, lo, hi);
    LargeDecimalRemainder(hi, m, n % m);
    if m - n % m == 4 {
      WithinWidens(n, lo, hi, 3, 7);
      NeverFourAbove(n, m);
    }
  }

  /** `div` is what the extremes `lo` and `hi` decide on, at a width of `m` clocks with decimal `d`. */
  ghost predicate Decided(n: u32, lo: nat, hi: nat, m: nat, div: int)
  {
    && Within(n, lo, hi) && lo <= hi <= 9 && 4 <= m <= 16
    && DecidedFor(n, TakesMin(lo, hi), if TakesMin(lo, hi) then lo else hi, m, div)
  }

  predicate DecidedFor(n: u32, down: bool, d: nat, m: nat, div: int)
    requires m != 0
  {
    && div == (if down then -1 else 0) + n / m
    && m * d <= 10 * (n % m) < m * d + m
  }

  /** Every pick is decided by two extremes. */
  lemma PickIsDecided(n: u32, div: int, bwpc: nat) returns (lo: nat, hi: nat)
    requires n >= 4 && InRange(n) && Picks(n, div, bwpc)
    ensures Decided(n, lo, hi, bwpc + 1, div)
  {
    var pMin, pMax :| PicksFrom(Quots(n), Decs(n), pMin, pMax, div, bwpc);
    lo, hi := Dec(n, pMin), Dec(n, pMax);
    ExtremesBound(n, pMin, pMax);
    MinIsReal(n, pMin, pMax);
    var p := if TakesMin(lo, hi) then pMin else pMax;
    DigitBracket(n, p);
    Digit(n, p);
  }

  lemma DecidedProduct(n: u32, lo: nat, hi: nat, m: nat, div: int)
    requires Decided(n, lo, hi, m, div)
    ensures div >= 0
    ensures Abs(Miss(div + 1, m, n)) <= 3 && 2 * Abs(Miss(div + 1, m, n)) <= m
    ensures lo == 0 ==> -1 <= Miss(div + 1, m, n) <= 0
  {
    if TakesMin(lo, hi) {
      RoundsDown(n, lo, hi, m);
      MissDown(n, m);
    } else {
      RoundsUp(n, lo, hi, m);
      MissUp(n, m);
    }
  }

  lemma MissDown(n: nat, m: nat)
    requires 0 < m <= n
    ensures n / m >= 1
    ensures Miss(n / m, m, n) == -(n % m)
  {
  }

  lemma MissUp(n: nat, m: nat)
    requires 0 < m
    ensures Miss(n / m + 1, m, n) == m - n % m
  {
  }

  /** How far `n` bit periods are from `pclk`. */
  function Miss(n: int, baudrate: int, pclk: int): int
  {
    n * baudrate - pclk
  }

  function Abs(x: int): nat
  {
    if x < 0 then -x else x
  }

  // ------------------------- the adjusted ratio

  /** The adjustment keeps the ratio at 4 or more, off every accepted number, and within one of `pclk / baudrate`. */
  lemma AdjustedRatio(baudrate: u32, pclk: u32)
    requires baudrate != 0 && Ratio(baudrate, pclk) >= 3
    ensures var n := Adjusted(baudrate, pclk);
            && (n == Ratio(baudrate, pclk) || n == Ratio(baudrate, pclk) + 1)
            && 4 <= n && !Accepts(n)
            && Abs(Miss(n, baudrate, pclk)) <= baudrate
  {
    var ratio, primeDec := Ratio(baudrate, pclk), FirstDecimal(baudrate, pclk);
    AdjustedByBounds(ratio, primeDec);
    MissOfRatio(AdjustedBy(ratio, primeDec), ratio, baudrate, pclk);
  }

  lemma MissOfRatio(n: nat, ratio: nat, baudrate: nat, pclk: nat)
    requires n == ratio || n == ratio + 1
    requires ratio * baudrate <= pclk < ratio * baudrate + baudrate
    ensures Abs(Miss(n, baudrate, pclk)) <= baudrate
  {
    assert (ratio + 1) * baudrate == ratio * baudrate + baudrate;
  }

  /** The increment never wraps: the largest ratio is not accepted, and 0, to which it would wrap, is. */
  lemma AdjustedByBounds(ratio: u32, primeDec: nat)
    requires ratio >= 3
    ensures var n := AdjustedBy(ratio, primeDec);
            (n == ratio || n == ratio + 1) && 4 <= n && !Accepts(n)
  {
    if ratio == 0xffff_ffff {
      TopOfRangeRejected(ratio);
    } else if Accepts(ratio) {
      if ratio == 3 {
        RejectsEven(4);
      } else {
        SuccessorOfAcceptedRejected(ratio);
      }
    }
  }

  lemma TinyAdjusted(ratio: u32, primeDec: nat)
    requires ratio <= 2
    ensures AdjustedBy(ratio, primeDec) == ratio + 1
  {
  }

  lemma AdjustedIsNear(baudrate: u32, pclk: u32)
    requires baudrate != 0
    ensures Adjusted(baudrate, pclk) <= 3 <==> Ratio(baudrate, pclk) <= 2
    ensures Ratio(baudrate, pclk) <= Adjusted(baudrate, pclk) <= Ratio(baudrate, pclk) + 1
  {
    if Ratio(baudrate, pclk) <= 2 {
      TinyAdjusted(Ratio(baudrate, pclk), FirstDecimal(baudrate, pclk));
    } else {
      AdjustedByBounds(Ratio(baudrate, pclk), FirstDecimal(baudrate, pclk));
    }
  }

  lemma FirstDigit(p: nat, b: nat)
    requires b != 0
    ensures Wrap((10 * p) / b - 10 * (p / b)) % 0x100 == 10 * (p % b) / b <= 9
  {
    DivMod.ScaledQuotient(10, p, b);
    ScaledRemainderIsDigit(p % b, b);
    SmallDifference(10 * (p % b) / b);
  }

  lemma SmallDifference(d: nat)
    requires d <= 9
    ensures Wrap(d) % 0x100 == d
  {
  }

  lemma FitsUnwrapped(x: nat)
    requires x < TWO_TO_THE_32
    ensures Wrap(x) == x
  {
  }

  /** While ten times the clock fits 32 bits, the first decimal is the digit after the point. */
  lemma FirstDecimalIsDigit(baudrate: u32, pclk: u32)
    requires baudrate != 0 && 10 * pclk < TWO_TO_THE_32
    ensures FirstDecimal(baudrate, pclk) == 10 * (pclk % baudrate) / baudrate <= 9
  {
    FitsUnwrapped(10 * pclk);
    FirstDigit(pclk, baudrate);
  }

  lemma DigitAboveFive(r: nat, baudrate: nat)
    requires r < baudrate
    ensures 10 * r / baudrate > 5 <==> 10 * r >= 6 * baudrate
  {
    var q := 10 * r / baudrate;
    QuotientBracket(10 * r, baudrate);
    if q > 5 {
      DivMod.ProductMonotone(baudrate, 6, baudrate, q);
    } else {
      DivMod.ProductMonotone(baudrate, q + 1, baudrate, 6);
      assert baudrate * (q + 1) == baudrate * q + baudrate;
    }
  }

  /** Whether the clock is at least six tenths of a baud above a multiple, so that the ratio is nearer its successor. */
  predicate NearerNext(baudrate: u32, pclk: u32)
    requires baudrate != 0
  {
    10 * (pclk % baudrate) >= 6 * baudrate
  }

  lemma AdjustedByExactly(ratio: u32, primeDec: nat)
    requires ratio < 0xffff_ffff
    ensures AdjustedBy(ratio, primeDec) ==
            if Accepts(ratio) || (primeDec > 5 && !Accepts(ratio + 1)) then ratio + 1 else ratio
  {
  }

  lemma RatioIsSmall(baudrate: u32, pclk: u32)
    requires baudrate != 0
    ensures Ratio(baudrate, pclk) <= pclk
  {
    DivMod.ProductMonotone(Ratio(baudrate, pclk), 1, Ratio(baudrate, pclk), baudrate);
  }

  /** When the ratio goes up by one: it is accepted itself, or it is nearer its successor and that is not accepted. */
  lemma AdjustedExactly(baudrate: u32, pclk: u32)
    requires baudrate != 0 && 10 * pclk < TWO_TO_THE_32
    ensures var ratio := Ratio(baudrate, pclk);
            Adjusted(baudrate, pclk) ==
            if Accepts(ratio) || (NearerNext(baudrate, pclk) && !Accepts(ratio + 1)) then ratio + 1 else ratio
  {
    FirstDecimalIsDigit(baudrate, pclk);
    DigitAboveFive(pclk % baudrate, baudrate);
    RatioIsSmall(baudrate, pclk);
    AdjustedByExactly(Ratio(baudrate, pclk), FirstDecimal(baudrate, pclk));
  }

  lemma RoundedMiss(n: nat, ratio: nat, r: nat, baudrate: nat, pclk: nat)
    requires r < baudrate && pclk == ratio * baudrate + r
    requires n == if 10 * r >= 6 * baudrate then ratio + 1 else ratio
    ensures 10 * Abs(Miss(n, baudrate, pclk)) < 6 * baudrate
  {
    assert (ratio + 1) * baudrate == ratio * baudrate + baudrate;
  }

  lemma RatioRemainder(baudrate: u32, pclk: u32)
    requires baudrate != 0
    ensures pclk == Ratio(baudrate, pclk) * baudrate + pclk % baudrate
  {
  }

  /** So with no accepted number in the way, the adjusted ratio is less than six tenths of a baud off. */
  lemma AdjustedIsRounded(baudrate: u32, pclk: u32)
    requires baudrate != 0 && 10 * pclk < TWO_TO_THE_32
    requires !Accepts(Ratio(baudrate, pclk)) && !Accepts(Ratio(baudrate, pclk) + 1)
    ensures 10 * Abs(Miss(Adjusted(baudrate, pclk), baudrate, pclk)) < 6 * baudrate
  {
    AdjustedExactly(baudrate, pclk);
    RatioRemainder(baudrate, pclk);
    RoundedMiss(Adjusted(baudrate, pclk), Ratio(baudrate, pclk), pclk % baudrate, baudrate, pclk);
  }

  // ------------------------- the product of divider and width

  /** While ten times the ratio fits 32 bits, the product is within 3 of any ratio from 4 up, and within half a bit width. */
  lemma ProductNearRatio(n: u32)
    requires n >= 4 && InRange(n)
    ensures 3 <= Width(n) <= 15 && Divider(n) >= 0
    ensures Abs(Miss(Divider(n) + 1, Width(n) + 1, n)) <= 3
    ensures 2 * Abs(Miss(Divider(n) + 1, Width(n) + 1, n)) <= Width(n) + 1
  {
    var lo, hi := PickIsDecided(n, Divider(n), Width(n));
    DecidedProduct(n, lo, hi, Width(n) + 1, Divider(n));
  }

  lemma WrapDrops(x: nat)
    requires x >= TWO_TO_THE_32
    ensures Wrap(x) <= x - TWO_TO_THE_32
  {
  }

  lemma ScaleDown(y: nat, m: nat, s: nat, q: nat)
    requires m * s <= y && 10 * q <= s
    ensures 10 * (q * m) <= y
  {
    DivMod.ProductMonotone(m, 10 * q, m, s);
    assert m * (10 * q) == 10 * (q * m);
  }

  lemma QuotientProduct(y: nat, m: nat)
    requires m != 0
    ensures 10 * (y / m / 10 * m) <= y
  {
    QuotientBracket(y, m);
    QuotientBracket(y / m, 10);
    ScaleDown(y, m, y / m, y / m / 10);
  }

  /** One candidate's product is at most a tenth of what the scaling leaves. */
  lemma CandidateProduct(n: u32, j: nat)
    requires j < CANDIDATES
    ensures 10 * (Quot(n, j) * Clocks(j)) <= Wrap(10 * n)
  {
    QuotientProduct(Wrap(10 * n), Clocks(j));
  }

  lemma PickIsCandidate(quots: Table, decs: Table, div: int, bwpc: nat) returns (j: nat)
    requires PicksIn(quots, decs, div, bwpc)
    ensures j < CANDIDATES && bwpc + 1 == Clocks(j) && (div + 1 == quots[j] || div == quots[j])
  {
    var pMin: nat, pMax: nat :| PicksFrom(quots, decs, pMin, pMax, div, bwpc);
    j := if TakesMin(decs[pMin], decs[pMax]) then pMin else pMax;
  }

  lemma PickProduct(n: u32) returns (j: nat)
    ensures j < CANDIDATES && Width(n) + 1 == Clocks(j)
    ensures Divider(n) + 1 == Quot(n, j) || Divider(n) == Quot(n, j)
  {
    j := PickIsCandidate(Quots(n), Decs(n), Divider(n), Width(n));
    assert Quots(n)[j] == Quot(n, j);
  }

  lemma WidthInRange(n: u32)
    ensures 3 <= Width(n) <= 15
  {
    var j := PickProduct(n);
  }

  lemma FarMiss(q: nat, m: nat, d: int, y: nat, n: nat)
    requires 4 <= m <= 16 && 10 * (q * m) <= y <= 10 * n - TWO_TO_THE_32 && (d + 1 == q || d == q)
    ensures Miss(d + 1, m, n) < -3
  {
    assert (q + 1) * m == q * m + m;
  }

  /** Once the scaling wraps, the product falls far short. */
  lemma ProductFarFromRatio(n: u32)
    requires !InRange(n)
    ensures Miss(Divider(n) + 1, Width(n) + 1, n) < -3
  {
    var j := PickProduct(n);
    CandidateProduct(n, j);
    WrapDrops(10 * n);
    FarMiss(Quot(n, j), Clocks(j), Divider(n), Wrap(10 * n), n);
  }

  /** For every 32-bit ratio: the product is within 3 exactly when ten times the ratio fits 32 bits. */
  lemma NearExactly(n: u32)
    requires n >= 4
    ensures Abs(Miss(Divider(n) + 1, Width(n) + 1, n)) <= 3 <==> InRange(n)
  {
    if InRange(n) {
      ProductNearRatio(n);
    } else {
      ProductFarFromRatio(n);
    }
  }

  lemma ExactDecision(n: u32, m: nat, lo: nat, hi: nat, clocks: nat, div: int)
    requires Decided(n, lo, hi, clocks, div)
    requires 4 <= m <= 16 && n % m == 0 && n / m >= 2
    ensures -1 <= Miss(div + 1, clocks, n) <= 0
  {
    LowAtMost(n, lo, hi, m, 0);
    DecidedProduct(n, lo, hi, clocks, div);
  }

  /** With an exact bit width on offer (and a divider left over), the product falls short by at most 1, in the same range. */
  lemma ExactWidthLosesAtMostOne(n: u32, m: nat)
    requires n >= 4 && 4 <= m <= 16 && n % m == 0 && n / m >= 2
    ensures -1 <= Miss(Divider(n) + 1, Width(n) + 1, n) <= 0 <==> InRange(n)
  {
    if InRange(n) {
      var lo, hi := PickIsDecided(n, Divider(n), Width(n));
      ExactDecision(n, m, lo, hi, Width(n) + 1, Divider(n));
    } else {
      ProductFarFromRatio(n);
    }
  }

  lemma MissesAdd(p: int, n: int, baudrate: nat, pclk: int)
    requires -3 <= p - n <= 3 && Abs(Miss(n, baudrate, pclk)) <= baudrate
    ensures Abs(Miss(p, baudrate, pclk)) <= 4 * baudrate
  {
    var e := p - n;
    assert Miss(p, baudrate, pclk) == Miss(n, baudrate, pclk) + e * baudrate;
    assert e * baudrate <= 3 * baudrate by { assert (3 - e) * baudrate >= 0; }
    assert 0 <= e * baudrate + 3 * baudrate by { assert (e + 3) * baudrate >= 0; }
  }

  // ------------------------- underflow

  lemma QuotientBetween(y: nat, m: nat, q: nat)
    requires 4 <= m <= 16 && m * q <= y < m * q + m
    ensures 4 * q <= y < 16 * q + 16
  {
    DivMod.ProductMonotone(4, q, m, q);
    DivMod.ProductMonotone(m, q + 1, 16, q + 1);
    assert m * (q + 1) == m * q + m;
  }

  lemma ScaledBounds(n: u32, j: nat)
    requires j < CANDIDATES
    ensures Wrap(10 * n) / 16 <= Scaled(n, j) <= Wrap(10 * n) / 4
    ensures j == 12 ==> Scaled(n, j) == Wrap(10 * n) / 16
  {
    QuotientBracket(Wrap(10 * n), Clocks(j));
    QuotientBetween(Wrap(10 * n), Clocks(j), Scaled(n, j));
  }

  /** From 32 to 159 some candidate's scaled quotient is 8 or 9. */
  lemma SomeDecimalIsHigh(n: u32) returns (j: nat)
    requires 32 <= Wrap(10 * n) < 160
    ensures j < CANDIDATES && Dec(n, j) >= 8
  {
    var y := Wrap(10 * n);
    j := if y < 136 then y / 8 - 4 else 12;
    var m := Clocks(j);
    QuotientBracket(y, m);
    if y / m < 8 {
      DivMod.ProductMonotone(m, y / m, m, 7);
    } else if y / m > 9 {
      DivMod.ProductMonotone(m, 10, m, y / m);
    }
  }

  lemma LowUnderflows(quots: Table, decs: Table, pMin: nat, pMax: nat, d: int, bwpc: nat)
    requires PicksFrom(quots, decs, pMin, pMax, d, bwpc)
    requires forall j :: 0 <= j < CANDIDATES ==> quots[j] == 0 && decs[j] <= 7
    requires decs[12] <= 1
    ensures d == -1
  {
    assert decs[pMin] <= decs[12];
  }

  lemma MiddleStays(quots: Table, decs: Table, pMin: nat, pMax: nat, d: int, bwpc: nat, j: nat)
    requires PicksFrom(quots, decs, pMin, pMax, d, bwpc)
    requires j < CANDIDATES && decs[j] >= 8
    requires forall k :: 0 <= k < CANDIDATES && quots[k] == 0 ==> decs[k] >= 2
    ensures d >= 0
  {
    assert decs[j] <= decs[pMax];
  }

  lemma HighStays(quots: Table, decs: Table, pMin: nat, pMax: nat, d: int, bwpc: nat)
    requires PicksFrom(quots, decs, pMin, pMax, d, bwpc)
    requires forall k :: 0 <= k < CANDIDATES ==> quots[k] >= 1
    ensures d >= 0
  {
  }

  /** For every 32-bit ratio: the divider underflows exactly when ten times the ratio, in 32 bits, is below 32. */
  lemma PickUnderflowsExactly(n: u32)
    ensures Divider(n) < 0 <==> Wrap(10 * n) < 32
    ensures Divider(n) < 0 ==> Divider(n) == -1
  {
    var y, quots, decs := Wrap(10 * n), Quots(n), Decs(n);
    var pMin, pMax :| PicksFrom(quots, decs, pMin, pMax, Divider(n), Width(n));
    forall j | 0 <= j < CANDIDATES
      ensures y < 32 ==> quots[j] == 0 && decs[j] <= 7 && (j == 12 ==> decs[j] <= 1)
      ensures y >= 32 && quots[j] == 0 ==> decs[j] >= 2
      ensures y >= 160 ==> quots[j] >= 1
    {
      ScaledBounds(n, j);
      assert quots[j] == Quot(n, j) && decs[j] == Dec(n, j);
    }
    if y < 32 {
      LowUnderflows(quots, decs, pMin, pMax, Divider(n), Width(n));
    } else if y < 160 {
      var j := SomeDecimalIsHigh(n);
      MiddleStays(quots, decs, pMin, pMax, Divider(n), Width(n), j);
    } else {
      HighStays(quots, decs, pMin, pMax, Divider(n), Width(n));
    }
  }

  lemma TenfoldBelow(n: u32)
    requires InRange(n)
    ensures Wrap(10 * n) < 32 <==> n <= 3
  {
  }

  /** The same for clock and baud rate; while the scaling does not wrap, it is when their ratio is below 3. */
  lemma UnderflowsExactly(baudrate: u32, pclk: u32)
    requires baudrate != 0
    ensures var n := Adjusted(baudrate, pclk);
            && (Divider(n) < 0 <==> Wrap(10 * n) < 32)
            && (InRange(n) ==> (Divider(n) < 0 <==> Ratio(baudrate, pclk) < 3))
            && (Divider(n) < 0 ==> Register(Divider(n)) == 0xffff)
  {
    var n := Adjusted(baudrate, pclk);
    PickUnderflowsExactly(n);
    AdjustedIsNear(baudrate, pclk);
    if InRange(n) {
      TenfoldBelow(n);
    }
  }

  lemma WholeDecimalIsZero(n: u32)
    ensures FirstDecimal(1, n) == 0
  {
    var k := 10 * n / TWO_TO_THE_32;
    assert Wrap(10 * n) - 10 * n == TWO_TO_THE_32 * -k;
  }

  /** It underflows at large ratios as well, where the scaling wraps: 429496730 clocks a bit give the register 0xFFFF. */
  lemma LargeRatioUnderflows(n: u32)
    requires n > 3 && n % 2 == 0 && Wrap(10 * n) < 32
    ensures Ratio(1, n) == n && Adjusted(1, n) == n && Divider(n) == -1
    ensures Wrap(10 * 429496730) == 4
  {
    RejectsEven(n);
    WholeDecimalIsZero(n);
    PickUnderflowsExactly(n);
  }

  // ------------------------- the divider register

  /** `*div` is an `unsigned short`. */
  function Register(d: int): nat
  {
    d % 0x1_0000
  }

  lemma CutLowers(d: nat, m: nat)
    requires d >= 0x1_0000 && m >= 4
    ensures (Register(d) + 1) * m <= (d + 1) * m - 0x4_0000
  {
    var q := d / 0x1_0000;
    assert d == 0x1_0000 * q + Register(d);
    DivMod.ProductMonotone(0x1_0000, 4, d - Register(d), m);
    assert (d + 1) * m - (Register(d) + 1) * m == (d - Register(d)) * m;
  }

  lemma CutMiss(d: nat, m: nat, n: int)
    requires d >= 0x1_0000 && m >= 4 && Miss(d + 1, m, n) <= 3
    ensures Miss(Register(d) + 1, m, n) < -0x3_0000
  {
    CutLowers(d, m);
  }

  /** What is stored keeps the product near the ratio exactly when this holds. */
  ghost predicate Storable(n: u32)
  {
    InRange(n) && 0 <= Divider(n) < 0x1_0000
  }

  lemma RegisterProduct(d: int, m: nat)
    requires 4 <= m <= 16
    ensures (Register(d) + 1) * m <= 0x10_0000
    ensures d == -1 ==> (Register(d) + 1) * m >= 0x4_0000
  {
    DivMod.ProductMonotone(Register(d) + 1, m, 0x1_0000, 16);
    if d == -1 {
      DivMod.ProductMonotone(0x1_0000, 4, Register(d) + 1, m);
    }
  }

  /** How far off the stored product is when it is not near: it exceeds a ratio of at most 3, or falls short. */
  lemma CutExactly(n: u32)
    ensures Abs(Miss(Register(Divider(n)) + 1, Width(n) + 1, n)) <= 3 <==> Storable(n)
    ensures !Storable(n) && InRange(n) && n <= 3 ==> Miss(Register(Divider(n)) + 1, Width(n) + 1, n) > 0x3_0000
    ensures !Storable(n) && InRange(n) && n >= 4 ==> Miss(Register(Divider(n)) + 1, Width(n) + 1, n) < -0x3_0000
  {
    WidthInRange(n);
    PickUnderflowsExactly(n);
    RegisterProduct(Divider(n), Width(n) + 1);
    if InRange(n) && n >= 4 {
      ProductNearRatio(n);
      if Divider(n) >= 0x1_0000 {
        CutMiss(Divider(n), Width(n) + 1, n);
      } else {
        assert Register(Divider(n)) == Divider(n);
      }
    }
  }

  /** The divider fits its register whenever the ratio is at most 2^18, and above 2^20 + 3 nothing storable is near. */
  lemma DividerFits(n: u32)
    ensures n <= 0x4_0000 ==> Divider(n) < 0x1_0000
    ensures n > 0x10_0003 ==> !Storable(n)
  {
    WidthInRange(n);
    PickUnderflowsExactly(n);
    RegisterProduct(Divider(n), Width(n) + 1);
    if n <= 0x4_0000 && Divider(n) >= 0x1_0000 {
      ProductNearRatio(n);
      DivMod.ProductMonotone(0x1_0001, 4, Divider(n) + 1, Width(n) + 1);
    }
    CutExactly(n);
  }

  lemma FarOff(p: int, n: int, baudrate: nat, pclk: int)
    requires baudrate != 0 && Abs(Miss(n, baudrate, pclk)) <= baudrate
    requires p - n < -5 || p - n > 5
    ensures Abs(Miss(p, baudrate, pclk)) > 4 * baudrate
  {
    var e := p - n;
    assert Miss(p, baudrate, pclk) == Miss(n, baudrate, pclk) + e * baudrate;
    if e > 5 {
      assert e * baudrate >= 6 * baudrate by { assert (e - 6) * baudrate >= 0; }
    } else {
      assert e * baudrate <= -6 * baudrate by { assert (-6 - e) * baudrate >= 0; }
    }
  }

  /** Above what the register and the width can reach. */
  lemma OutOfReach(n: u32)
    requires !InRange(n)
    ensures Miss(Register(Divider(n)) + 1, Width(n) + 1, n) < -5
  {
    WidthInRange(n);
    RegisterProduct(Divider(n), Width(n) + 1);
  }

  lemma AdjustedMiss(baudrate: u32, pclk: u32)
    requires baudrate != 0
    ensures Abs(Miss(Adjusted(baudrate, pclk), baudrate, pclk)) <= baudrate
  {
    AdjustedIsNear(baudrate, pclk);
    MissOfRatio(Adjusted(baudrate, pclk), Ratio(baudrate, pclk), baudrate, pclk);
  }

  /** For every clock and baud rate: the rate that is stored meets the bound exactly when the pick is storable. */
  lemma BaudErrorExactly(baudrate: u32, pclk: u32)
    requires baudrate != 0
    ensures var n := Adjusted(baudrate, pclk);
            Abs(Miss((Register(Divider(n)) + 1) * (Width(n) + 1), baudrate, pclk)) <= 4 * baudrate <==> Storable(n)
  {
    var n := Adjusted(baudrate, pclk);
    var p := (Register(Divider(n)) + 1) * (Width(n) + 1);
    AdjustedMiss(baudrate, pclk);
    CutExactly(n);
    if Storable(n) {
      MissesAdd(p, n, baudrate, pclk);
    } else {
      if !InRange(n) {
        OutOfReach(n);
      }
      FarOff(p, n, baudrate, pclk);
    }
  }

  lemma StorableByRatio(n: u32, ratio: nat)
    requires ratio <= n <= ratio + 1 && (n <= 3 <==> ratio <= 2)
    ensures 3 <= ratio < 0x4_0000 ==> Storable(n)
    ensures ratio < 3 || ratio > 0x10_0003 ==> !Storable(n)
  {
    PickUnderflowsExactly(n);
    DividerFits(n);
    if InRange(n) {
      TenfoldBelow(n);
    }
  }

  /**
   * The same by the ratio of clock to baud rate alone: from 3 up to 2^18 the bound holds; below 3 and above 2^20 + 3 it
   * fails. In between it depends on which width the search picks.
   */
  lemma BaudErrorBound(baudrate: u32, pclk: u32)
    requires baudrate != 0
    ensures var n, ratio := Adjusted(baudrate, pclk), Ratio(baudrate, pclk);
            var miss := Abs(Miss((Register(Divider(n)) + 1) * (Width(n) + 1), baudrate, pclk));
            && (3 <= ratio < 0x4_0000 ==> miss <= 4 * baudrate)
            && (ratio < 3 || ratio > 0x10_0003 ==> miss > 4 * baudrate)
  {
    AdjustedIsNear(baudrate, pclk);
    StorableByRatio(Adjusted(baudrate, pclk), Ratio(baudrate, pclk));
    BaudErrorExactly(baudrate, pclk);
  }

  /** What storing `div` and `bwpc` means for the rate. */
  ghost predicate MeetsTheRate(baudrate: u32, pclk: u32, div: nat, bwpc: nat)
    requires baudrate != 0
  {
    var miss := Abs(Miss((div + 1) * (bwpc + 1), baudrate, pclk));
    && 3 <= bwpc <= 15
    && (miss <= 4 * baudrate <==> Storable(Adjusted(baudrate, pclk)))
    && (Ratio(baudrate, pclk) < 3 ==> div == 0xffff)
    && (3 <= Ratio(baudrate, pclk) < 0x4_0000 ==> miss <= 4 * baudrate)
    && (Ratio(baudrate, pclk) > 0x10_0003 ==> miss > 4 * baudrate)
  }

  lemma StoredMeetsTheRate(baudrate: u32, pclk: u32)
    requires baudrate != 0
    ensures var n := Adjusted(baudrate, pclk); MeetsTheRate(baudrate, pclk, Register(Divider(n)), Width(n))
  {
    WidthInRange(Adjusted(baudrate, pclk));
    AdjustedIsNear(baudrate, pclk);
    UnderflowsExactly(baudrate, pclk);
    BaudErrorExactly(baudrate, pclk);
    BaudErrorBound(baudrate, pclk);
  }

  /** The same adjustment in terms of the two numbers alone. */
  ghost predicate AdjustsTo(baudrate: u32, pclk: u32, n: u32)
    requires baudrate != 0
  {
    var ratio := Ratio(baudrate, pclk);
    && n == (if Accepts(ratio) || (NearerNext(baudrate, pclk) && !Accepts(ratio + 1)) then ratio + 1 else ratio)
    && (!Accepts(ratio) && !Accepts(ratio + 1) ==> 10 * Abs(Miss(n, baudrate, pclk)) < 6 * baudrate)
  }

  lemma AdjustsExactly(baudrate: u32, pclk: u32)
    requires baudrate != 0 && 10 * pclk < TWO_TO_THE_32
    ensures AdjustsTo(baudrate, pclk, Adjusted(baudrate, pclk))
  {
    AdjustedExactly(baudrate, pclk);
    if !Accepts(Ratio(baudrate, pclk)) && !Accepts(Ratio(baudrate, pclk) + 1) {
      AdjustedIsRounded(baudrate, pclk);
    }
  }

  lemma DecidedIsPicked(n: u32, positionMin: nat, positionMax: nat, d: int, bwpc: nat)
    requires PicksFrom(Quots(n), Decs(n), positionMin, positionMax, d, bwpc)
    ensures d == Divider(n) && bwpc == Width(n)
  {
    assert PicksIn(Quots(n), Decs(n), d, bwpc);
    PickIsUnique(n, d, bwpc);
  }

  /** `uart_cal_div_and_bwpc`: what it stores, and what that means for the rate. */
  method CalDivAndBwpc(baudrate: u32, pclk: u32) returns (div: nat, bwpc: nat)
    requires baudrate != 0
    ensures div == Register(Divider(Adjusted(baudrate, pclk))) && bwpc == Width(Adjusted(baudrate, pclk))
    ensures 10 * pclk < TWO_TO_THE_32 ==> AdjustsTo(baudrate, pclk, Adjusted(baudrate, pclk))
    ensures MeetsTheRate(baudrate, pclk, div, bwpc)
  {
    var n := AdjustRatio(baudrate, pclk);
    var dInt, dDec := FillCandidates(n);
    var positionMin, positionMax := ScanCandidates(dInt, dDec);
    div, bwpc := Decide(dInt, dDec, positionMin, positionMax);
    ghost var d :| PicksFrom(Quots(n), Decs(n), positionMin, positionMax, d, bwpc) && div == d % 0x1_0000;
    DecidedIsPicked(n, positionMin, positionMax, d, bwpc);
    StoredMeetsTheRate(baudrate, pclk);
    if 10 * pclk < TWO_TO_THE_32 {
      AdjustsExactly(baudrate, pclk);
    }
  }

  lemma TableEntry(n: u32, m: nat, q: nat, d: nat)
    requires InRange(n) && 4 <= m <= 16
    requires n / m == q && (10 * (n % m)) / m == d
    ensures Quots(n)[m - 4] == q && Decs(n)[m - 4] == d
  {
    Digit(n, m - 4);
  }

  /** The bound of 3 is reached: a ratio of 213 is served by 14 * 15 == 210. */
  lemma BoundIsReached()
    ensures Picks(213, 13, 14) && Miss(13 + 1, 14 + 1, 213) == -3
  {
    TableEntry(213, 4, 53, 2);
    TableEntry(213, 5, 42, 6);
    TableEntry(213, 6, 35, 5);
    TableEntry(213, 7, 30, 4);
    TableEntry(213, 8, 26, 6);
    TableEntry(213, 9, 23, 6);
    TableEntry(213, 10, 21, 3);
    TableEntry(213, 11, 19, 3);
    TableEntry(213, 12, 17, 7);
    TableEntry(213, 13, 16, 3);
    TableEntry(213, 14, 15, 2);
    TableEntry(213, 15, 14, 2);
    TableEntry(213, 16, 13, 3);
    TiesOf213(Quots(213), Decs(213));
  }

  lemma TiesOf213(quots: Table, decs: Table)
    requires quots == [53, 42, 35, 30, 26, 23, 21, 19, 17, 16, 15, 14, 13]
    requires decs == [2, 6, 5, 4, 6, 6, 3, 3, 7, 3, 2, 2, 3]
    ensures PicksIn(quots, decs, 13, 14)
  {
    assert PicksFrom(quots, decs, 11, 8, 13, 14);
  }
}
