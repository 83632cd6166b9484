/** How the spaces of a justified line are distributed over its gaps. */
module GapProofs {
  import opened Arith
  import opened PyString
  import opened Justify

  /** Each of the first |gaps| words followed by its gap. */
  function Weave(words: seq<string>, gaps: seq<nat>): string
    requires |gaps| <= |words|
  {
    if gaps == [] then "" else
      var k := |gaps| - 1;
      Weave(words, gaps[..k]) + words[k] + Spaces(gaps[k])
  }

  function Gaps(bullet: bool, total: int, n: nat, k: nat): (gaps: seq<nat>)
    requires 0 < n <= total
    ensures |gaps| == k
    ensures forall i | 0 <= i < k :: gaps[i] == Gap(bullet, total, n, i)
  {
    seq(k, i requires 0 <= i < k => Gap(bullet, total, n, i))
  }

  lemma GapsPrefix(bullet: bool, total: int, n: nat, k: nat, m: nat)
    requires 0 < n <= total && m <= k
    ensures Gaps(bullet, total, n, k)[..m] == Gaps(bullet, total, n, m)
  {
  }

  lemma {:induction false} SpreadIsWeave(words: seq<string>, bullet: bool, total: int, n: nat, k: nat)
    requires 0 < n <= total && k <= |words|
    ensures Spread(words, bullet, total, n, k) == Weave(words, Gaps(bullet, total, n, k))
  {
    if k == 0 {
    } else {
      SpreadIsWeave(words, bullet, total, n, k - 1);
      GapsPrefix(bullet, total, n, k, k - 1);
      WeaveSnoc(words, Gaps(bullet, total, n, k));
    }
  }

  lemma WeaveSnoc(words: seq<string>, gaps: seq<nat>)
    requires 0 < |gaps| <= |words|
    ensures var k := |gaps| - 1; Weave(words, gaps) == Weave(words, gaps[..k]) + words[k] + Spaces(gaps[k])
  {
  }

  lemma {:induction false} SumOfGaps(bullet: bool, total: int, n: nat, k: nat)
    requires 0 < n <= total
    ensures Sum(Gaps(bullet, total, n, k)) == Placed(bullet, total, n, k)
  {
    if k == 0 {
    } else {
      SumOfGaps(bullet, total, n, k - 1);
      GapsPrefix(bullet, total, n, k, k - 1);
    }
  }

  /** An even gap is total / n rounded down or up. */
  lemma {:induction false} EvenGap(total: int, n: nat, k: nat, q: nat)
    requires 0 < n <= total && n * q <= total < n * q + n
    ensures q <= Quota(total, n, k + 1) - Quota(total, n, k) <= q + 1
  {
    assert (k + 1) * total == k * total + total;
    assert n * (q + 1) == n * q + n;
    SomeSpaces(total, k);
    CeilShift(k * total, n, q);
    CeilShift(k * total, n, q + 1);
    CeilMonotone(k * total + n * q, (k + 1) * total, n);
    CeilMonotone((k + 1) * total, k * total + n * (q + 1), n);
  }

  lemma {:induction false} CeilShift(a: int, b: int, q: nat)
    requires a >= 0 && b > 0
    ensures CeilDiv(a + b * q, b) == CeilDiv(a, b) + q
    decreases q
  {
    if q == 0 {
    } else {
      CeilShift(a, b, q - 1);
      assert b * q == b * (q - 1) + b;
      MulMonotone(b, 0, q - 1);
    }
  }

  lemma CeilWhole(n: nat, total: int)
    requires n > 0 && total >= 0
    ensures Quota(total, n, n) == total
  {
    SomeSpaces(total, n);
    assert n * (total - 1) == n * total - n;
    CeilUnique(n * total, n, total);
  }

  /** From index `from` on, no two gaps differ by more than one. */
  ghost predicate Level(gaps: seq<nat>, from: nat) {
    forall i, j | from <= i < |gaps| && from <= j < |gaps| :: gaps[i] <= gaps[j] + 1
  }

  /** total / n rounded down. */
  ghost predicate IsFloor(q: nat, total: int, n: nat) {
    n * q <= total < n * q + n
  }

  lemma FloorOf(total: int, n: nat) returns (q: nat)
    requires 0 < n <= total
    ensures IsFloor(q, total, n) && q >= 1
  {
    var c := CeilDiv(total + 1, n);
    CeilBounds(total + 1, n);
    if c <= 1 { MulMonotone(n, c, 1); }
    q := c - 1;
    assert n * (c - 1) == n * c - n;
  }

  /** All gaps that are evenly distributed are total / n rounded down or up. */
  lemma EvenlyLevel(bullet: bool, total: int, n: nat, from: nat)
    requires 0 < n <= total && (bullet ==> from >= 2)
    ensures Level(Gaps(bullet, total, n, n), from)
  {
    var q := FloorOf(total, n);
    forall i | from <= i < n ensures q <= Gap(bullet, total, n, i) <= q + 1 {
      EvenGap(total, n, i, q);
      EvenlyPlaced(bullet, total, n, i);
    }
  }

  lemma EvenlyPlaced(bullet: bool, total: int, n: nat, k: nat)
    requires 0 < n <= total && (bullet ==> k >= 2)
    ensures Gap(bullet, total, n, k) == Quota(total, n, k + 1) - Quota(total, n, k)
  {
    QuotaStart(total, n);
  }

  lemma QuotaStart(total: int, n: nat)
    requires 0 < n <= total
    ensures Quota(total, n, 0) == 0
  {
    assert 0 * total == 0;
  }

  /** Without a bullet: the first k gaps hold ceil(k * total / n) spaces, and no two gaps differ by
      more than one. */
  lemma {:induction false} EvenGaps(total: int, n: nat)
    requires 0 < n <= total
    ensures forall k | 0 <= k <= n :: Sum(Gaps(false, total, n, n)[..k]) == CeilDiv(k * total, n)
    ensures Level(Gaps(false, total, n, n), 0)
  {
    QuotaStart(total, n);
    forall k | 0 <= k <= n ensures Sum(Gaps(false, total, n, n)[..k]) == CeilDiv(k * total, n) {
      GapsPrefix(false, total, n, n, k);
      SumOfGaps(false, total, n, k);
    }
    EvenlyLevel(false, total, n, 0);
  }

  // ---------- behind a bullet ----------

  /** The gap after the bullet is one space; the next one takes what the first two gaps should have had together;
      the others are even again. */
  lemma {:induction false} GapsAfterBullet(total: int, n: nat)
    requires 0 < n <= total
    ensures var gaps := Gaps(true, total, n, n);
      && gaps[0] == 1
      && (forall k | 2 <= k <= n :: Sum(gaps[..k]) == CeilDiv(k * total, n))
      && (n >= 2 ==> gaps[1] == CeilDiv(2 * total, n) - 1 && Level(gaps, 2))
  {
    forall k | 2 <= k <= n ensures Sum(Gaps(true, total, n, n)[..k]) == CeilDiv(k * total, n) {
      GapsPrefix(true, total, n, n, k);
      SumOfGaps(true, total, n, k);
    }
    if n >= 2 { EvenlyLevel(true, total, n, 2); }
  }

  /** Gaps of at least g each, from a to b. */
  lemma {:induction false} PlacedAtLeast(bullet: bool, total: int, n: nat, a: nat, b: nat, g: int)
    requires 0 < n <= total && a <= b
    requires forall j | a <= j < b :: Gap(bullet, total, n, j) >= g
    ensures Placed(bullet, total, n, b) - Placed(bullet, total, n, a) >= (b - a) * g
    decreases b
  {
    if a == b {
      assert (b - a) * g == 0;
    } else {
      PlacedAtLeast(bullet, total, n, a, b - 1, g);
      assert (b - a) * g == (b - 1 - a) * g + g;
      assert Gap(bullet, total, n, b - 1) >= g;
    }
  }

  /** The spaces for which the gaps behind a bullet differ by at most one: a single gap, at most three spaces for
      two gaps, or exactly two for each. */
  predicate FitsBullet(total: int, n: nat) {
    n == 2 || 2 * total <= 3 * n || total == 2 * n
  }

  /** The second gap c - 1 is too wide for gaps of q + 1 or fewer, unless the spaces fit the bullet. */
  lemma SecondGapIsWide(total: int, n: nat, q: nat, c: int)
    requires n >= 3 && q >= 1 && IsFloor(q, total, n) && !FitsBullet(total, n)
    requires n * (c - 1) < 2 * total <= n * c
    ensures c >= q + 3
    ensures total - c < (n - 2) * (q + 1)
  {
    var r := total - n * q;
    assert (n - 2) * (q + 1) == n * q + n - 2 * q - 2;
    assert n * (2 * q - 1) == 2 * (n * q) - n;
    if c < 2 * q {
      MulMonotone(n, c, 2 * q - 1);
    }
    if c == 2 * q {
      assert n * c == 2 * (n * q);
    }
    if c == 2 * q + 1 {
      assert n * c == 2 * (n * q) + n;
    }
    if q == 1 {
      if c <= 3 { MulMonotone(n, c, 3); }
    } else if q == 2 {
      if c <= 4 { MulMonotone(n, c, 4); }
    }
  }

  /** The second gap and the others, when the spaces fit the bullet. */
  lemma SecondGapFits(total: int, n: nat, q: nat, c: int)
    requires n >= 3 && n <= total && IsFloor(q, total, n) && FitsBullet(total, n)
    requires n * (c - 1) < 2 * total <= n * c
    ensures if total == 2 * n then c == 4 else q == 1 && 2 <= c <= 3
  {
    if c <= 1 { MulMonotone(n, c, 1); }
    if total == 2 * n {
      if c <= 3 { MulMonotone(n, c, 3); }
      if c >= 5 { MulMonotone(n, 4, c - 1); }
    } else {
      if c >= 4 { MulMonotone(n, 3, c - 1); }
      assert q == 0 ==> n * q == 0;
      if q >= 2 { MulMonotone(n, 2, q); }
    }
  }

  /** With exactly two spaces for each gap, every even gap is two spaces. */
  lemma TwoEach(total: int, n: nat, k: nat)
    requires 0 < n && total == 2 * n
    ensures Quota(total, n, k) == 2 * k
  {
    SomeSpaces(total, k);
    assert k * total == n * (2 * k) && n * (2 * k - 1) == n * (2 * k) - n;
    CeilUnique(k * total, n, 2 * k);
  }

  /** Behind the bullet no two gaps differ by more than one if and only if the spaces fit. */
  lemma {:induction false} LevelBehindBullet(total: int, n: nat)
    requires 2 <= n <= total
    ensures Level(Gaps(true, total, n, n), 1) <==> FitsBullet(total, n)
  {
    GapsAfterBullet(total, n);
    if n >= 3 {
      if FitsBullet(total, n) {
        LevelIfFits(total, n);
      } else {
        UnevenIfNot(total, n);
      }
    }
  }

  lemma {:induction false} LevelIfFits(total: int, n: nat)
    requires 3 <= n <= total && FitsBullet(total, n)
    ensures Level(Gaps(true, total, n, n), 1)
  {
    var q := FloorOf(total, n);
    SomeSpaces(total, 2);
    CeilBounds(2 * total, n);
    SecondGapFits(total, n, q, CeilDiv(2 * total, n));
    forall i | 2 <= i < n
      ensures if total == 2 * n then Gap(true, total, n, i) == 2 else 1 <= Gap(true, total, n, i) <= 2
    {
      if total == 2 * n {
        TwoEach(total, n, i);
        TwoEach(total, n, i + 1);
      } else {
        EvenGap(total, n, i, q);
      }
    }
  }

  lemma {:induction false} UnevenIfNot(total: int, n: nat)
    requires 3 <= n <= total && !FitsBullet(total, n)
    ensures !Level(Gaps(true, total, n, n), 1)
  {
    var q := FloorOf(total, n);
    var c := CeilDiv(2 * total, n);
    SomeSpaces(total, 2);
    CeilBounds(2 * total, n);
    SecondGapIsWide(total, n, q, c);
    CeilWhole(n, total);
    var gaps := Gaps(true, total, n, n);
    if Level(gaps, 1) {
      forall j | 2 <= j < n ensures Gap(true, total, n, j) >= q + 1 {
        assert gaps[1] <= gaps[j] + 1;
      }
      PlacedAtLeast(true, total, n, 2, n, q + 1);
    }
  }

  /** The gaps of a rewritten line: at least one space each, and the first k hold ceil(k * total / n) spaces. Without a
      bullet no two differ by more than one. A bullet is followed by one space, and the next gap takes over what
      is missing; so behind the bullet the gaps are level only for some numbers of spaces. */
  ghost predicate FairGaps(gaps: seq<nat>, bullet: bool, total: int) {
    var n := |gaps|;
    && n > 0
    && (forall i | 0 <= i < n :: gaps[i] >= 1)
    && (forall k | (if bullet then 2 else 0) <= k <= n :: Sum(gaps[..k]) == CeilDiv(k * total, n))
    && (!bullet ==> Level(gaps, 0))
    && (bullet ==> gaps[0] == 1)
    && (bullet && n >= 2 ==>
          gaps[1] == CeilDiv(2 * total, n) - 1 && Level(gaps, 2) && (Level(gaps, 1) <==> FitsBullet(total, n)))
  }

  lemma {:induction false} FairlyPlaced(bullet: bool, total: int, n: nat)
    requires 0 < n <= total
    ensures FairGaps(Gaps(bullet, total, n, n), bullet, total)
  {
    if bullet {
      GapsAfterBullet(total, n);
      if n >= 2 { LevelBehindBullet(total, n); }
    } else {
      EvenGaps(total, n);
    }
  }

  /** Three gaps for 23 spaces: 1, 15 and 7. */
  lemma BulletGapsAreUneven()
    ensures Gaps(true, 23, 3, 3) == [1, 15, 7]
  {
    CeilUnique(46, 3, 16);
    CeilUnique(69, 3, 23);
  }
}
