/** The bit-timing solver: the prescaler search of one phase, the register words built from it,
    and the sample point derived from CMSIS bit segments. */
module BitTiming {
  import opened Bits

  const MAX_BRP := 256
  const DEFAULT_SAMPLE_PCT := 80

  /** Field limits as segment counts, before the minus-one register encoding. */
  datatype Limits = Limits(tseg1Min: nat, tseg1Max: nat, tseg2Min: nat, tseg2Max: nat, sjwMax: nat)

  const NOMINAL_LIMITS := Limits(2, 256, 1, 128, 128)
  const DATA_LIMITS := Limits(1, 32, 1, 16, 16)

  datatype Phase = Phase(brp: nat, tseg1: nat, tseg2: nat, sjw: nat)

  /** What one prescaler leads to. Trap is the division by zero that follows when
      bps * brp wraps to 0 on 32 bits. */
  datatype Attempt = Skip | Stop | Trap | Take(phase: Phase)

  datatype Solution = Solved(phase: Phase) | NoSolution | DivideByZero

  predicate WellFormed(lim: Limits) {
    && 1 <= lim.tseg1Min && lim.tseg1Max < 0x1000
    && 1 <= lim.tseg2Min && lim.tseg2Max < 0x1000
    && 1 <= lim.sjwMax
  }

  // ------------------------------------------------------------------------------------
  // The search, in the program's own 32-bit and 16-bit arithmetic
  // ------------------------------------------------------------------------------------

  /** total * pct rounded to percent, narrowed to 16 bits, minus one on 16 bits. */
  function Tseg1Of(total: u32, pct: u8): nat {
    var rounded := (((total * pct) % U32 + 50) % U32) / 100;
    (rounded % U16 + U16 - 1) % U16
  }

  /** Splitting a bit of total quanta at the sample point, against the field limits. */
  function Split(total: u32, pct: u8, lim: Limits, brp: nat): Attempt {
    if total < 4 then Stop else SplitAt(total, Tseg1Of(total, pct), lim, brp)
  }

  function SplitAt(total: u32, tseg1: nat, lim: Limits, brp: nat): Attempt {
    if tseg1 < lim.tseg1Min || tseg1 > lim.tseg1Max then Skip
    else if total < 1 + tseg1 + lim.tseg2Min then Skip
    else
      var tseg2 := (total - 1 - tseg1) % U16;
      if tseg2 < lim.tseg2Min || tseg2 > lim.tseg2Max then Skip
      else Take(Phase(brp, tseg1, tseg2, SjwOf(tseg2, lim)))
  }

  function SjwOf(tseg2: nat, lim: Limits): nat {
    if tseg2 < lim.sjwMax then tseg2 else lim.sjwMax
  }

  function Try(fcan: u32, bps: u32, pct: u8, lim: Limits, brp: nat): Attempt {
    var divisor := (bps * brp) % U32;
    if divisor == 0 then Trap
    else if fcan % divisor != 0 then Skip
    else Split(fcan / divisor, pct, lim, brp)
  }

  /** The first prescaler from brp on that is not skipped. */
  function Search(fcan: u32, bps: u32, pct: u8, lim: Limits, brp: nat): Solution
    decreases MAX_BRP + 1 - brp
  {
    if brp > MAX_BRP then NoSolution
    else
      match Try(fcan, bps, pct, lim, brp)
      case Skip => Search(fcan, bps, pct, lim, brp + 1)
      case Stop => NoSolution
      case Trap => DivideByZero
      case Take(p) => Solved(p)
  }

  function Solve(fcan: u32, bps: u32, pct: u8, lim: Limits): Solution {
    if bps == 0 then NoSolution else Search(fcan, bps, pct, lim, 1)
  }

  /** solve_phase without the word: the loop with its early exits. */
  method SolvePhase(fcan: u32, bps: u32, pct: u8, lim: Limits) returns (r: Solution)
    ensures r == Solve(fcan, bps, pct, lim)
  {
    if bps == 0 {
      return NoSolution;
    }
    var brp := 1;
    while brp <= MAX_BRP
      invariant 1 <= brp <= MAX_BRP + 1
      invariant Solve(fcan, bps, pct, lim) == Search(fcan, bps, pct, lim, brp)
    {
      ghost var attempt := Try(fcan, bps, pct, lim, brp);
      var divisor := (bps * brp) % U32;
      if divisor == 0 {
        return DivideByZero;
      }
      var total := fcan / divisor;
      if fcan % divisor != 0 {
        brp := brp + 1;
        continue;
      }
      if total < 4 {
        break;
      }
      var tseg1 := Tseg1Of(total, pct);
      if tseg1 < lim.tseg1Min || tseg1 > lim.tseg1Max {
        brp := brp + 1;
        continue;
      }
      if total < 1 + tseg1 + lim.tseg2Min {
        brp := brp + 1;
        continue;
      }
      var tseg2 := (total - 1 - tseg1) % U16;
      if tseg2 < lim.tseg2Min || tseg2 > lim.tseg2Max {
        brp := brp + 1;
        continue;
      }
      var sjw := if tseg2 < lim.sjwMax then tseg2 else lim.sjwMax;
      return Solved(Phase(brp, tseg1, tseg2, sjw));
    }
    return NoSolution;
  }

  // ------------------------------------------------------------------------------------
  // What a bit time is, without divisions, rounding or narrowing
  // ------------------------------------------------------------------------------------

  /** 1 + tseg1 is the number of quanta nearest to pct percent of total, ties upwards. */
  predicate NearestSample(pct: int, total: int, tseg1: int) {
    -50 < 100 * (1 + tseg1) - pct * total <= 50
  }

  predicate ExactRate(fcan: nat, bps: nat, brp: nat, total: nat) {
    bps * brp * total == fcan
  }

  predicate Fits(lim: Limits, tseg1: nat, tseg2: nat) {
    && lim.tseg1Min <= tseg1 <= lim.tseg1Max
    && lim.tseg2Min <= tseg2 <= lim.tseg2Max
  }

  predicate Legal(fcan: nat, bps: nat, pct: nat, lim: Limits, brp: nat, tseg1: nat, tseg2: nat) {
    && 1 <= brp <= MAX_BRP
    && 4 <= 1 + tseg1 + tseg2
    && ExactRate(fcan, bps, brp, 1 + tseg1 + tseg2)
    && NearestSample(pct, 1 + tseg1 + tseg2, tseg1)
    && Fits(lim, tseg1, tseg2)
  }

  /** The rates for which the 32-bit product and the 16-bit casts lose nothing. */
  predicate InDomain(fcan: nat, bps: nat, pct: nat) {
    0 < bps < 0x100_0000 && fcan < bps * U16 && fcan < U32 && 0 < pct < 100
  }

  // ------------------------------------------------------------------------------------
  // The search finds the least legal prescaler
  // ------------------------------------------------------------------------------------

  lemma DivExact(d: nat, t: nat, f: nat)
    requires d > 0
    ensures f % d == 0 && f / d == t <==> d * t == f
  {
    if d * t == f {
      DivModUnique(f, d, t, 0);
    } else if f % d == 0 {
      assert f == d * (f / d);
    }
  }

  /** With no bit lost, the rounded percentage is the nearest sample point. */
  lemma Tseg1Nearest(total: u32, pct: u8, x: nat)
    requires total < U16 && 0 < pct < 100 && x < U16 - 1
    ensures Tseg1Of(total, pct) == x <==> NearestSample(pct, total, x)
  {
    MulMonotone(total, pct, 99);
    RoundNearest(total * pct, x);
    assert pct * total == total * pct;
  }

  lemma RoundNearest(m: nat, x: nat)
    requires m < U16 * 99 && x < U16 - 1
    ensures (((((m % U32 + 50) % U32) / 100) % U16 + U16 - 1) % U16) == x <==> -50 < 100 * (1 + x) - m <= 50
  {
    assert m % U32 == m && (m + 50) % U32 == m + 50;
    var q := (m + 50) / 100;
    assert 100 * q <= m + 50 < 100 * q + 100;
    assert q < U16 && q % U16 == q;
    if q > 0 {
      assert (q + U16 - 1) % U16 == q - 1;
    } else {
      assert (q + U16 - 1) % U16 == U16 - 1;
    }
  }

  lemma SplitAtExact(total: u32, t: nat, lim: Limits, brp: nat, tseg1: nat, tseg2: nat)
    requires 4 <= total < U16 && WellFormed(lim)
    ensures SplitAt(total, t, lim, brp) == Take(Phase(brp, tseg1, tseg2, SjwOf(tseg2, lim)))
            <==> t == tseg1 && 1 + tseg1 + tseg2 == total && Fits(lim, tseg1, tseg2)
  {}

  lemma SplitExact(total: u32, pct: u8, lim: Limits, brp: nat, tseg1: nat, tseg2: nat)
    requires 4 <= total < U16 && 0 < pct < 100 && WellFormed(lim)
    ensures Split(total, pct, lim, brp) == Take(Phase(brp, tseg1, tseg2, SjwOf(tseg2, lim)))
            <==> 1 + tseg1 + tseg2 == total && NearestSample(pct, total, tseg1) && Fits(lim, tseg1, tseg2)
  {
    SplitAtExact(total, Tseg1Of(total, pct), lim, brp, tseg1, tseg2);
    if Fits(lim, tseg1, tseg2) {
      Tseg1Nearest(total, pct, tseg1);
    }
  }

  lemma TrySound(fcan: u32, bps: u32, pct: u8, lim: Limits, brp: nat)
    requires InDomain(fcan, bps, pct) && WellFormed(lim) && 1 <= brp <= MAX_BRP
    ensures !Try(fcan, bps, pct, lim, brp).Trap?
    ensures Try(fcan, bps, pct, lim, brp).Take? ==>
              var p := Try(fcan, bps, pct, lim, brp).phase;
              && p.brp == brp && Legal(fcan, bps, pct, lim, brp, p.tseg1, p.tseg2)
              && p.sjw == SjwOf(p.tseg2, lim)
    ensures Try(fcan, bps, pct, lim, brp).Stop? ==>
              fcan % (bps * brp) == 0 && fcan / (bps * brp) < 4
  {
    NoWrap(fcan, bps, pct, brp);
    var d := bps * brp;
    var total := fcan / d;
    if Try(fcan, bps, pct, lim, brp).Take? {
      var p := Try(fcan, bps, pct, lim, brp).phase;
      SplitExact(total, pct, lim, brp, p.tseg1, p.tseg2);
      DivExact(d, total, fcan);
    }
  }

  lemma NoWrap(fcan: u32, bps: u32, pct: u8, brp: nat)
    requires InDomain(fcan, bps, pct) && 1 <= brp <= MAX_BRP
    ensures 0 < bps * brp < U32 && (bps * brp) % U32 == bps * brp
    ensures 0 <= fcan / (bps * brp) < U16
  {
    MulMonotone(bps, 1, brp);
    MulMonotone(bps, brp, 256);
    QuotientBelow(fcan, bps, bps * brp);
  }

  lemma QuotientBelow(fcan: nat, bps: nat, d: nat)
    requires 0 < bps <= d && fcan < bps * U16
    ensures 0 <= fcan / d < U16
  {
    FloorDiv(fcan, d, U16);
  }

  lemma QuotientReaches(fcan: nat, bps: nat)
    requires bps > 0 && fcan >= bps * U16
    ensures fcan / bps >= U16
  {
    var rest := fcan - bps * U16;
    Distribute(bps, U16, rest / bps);
    DivModUnique(fcan, bps, U16 + rest / bps, rest % bps);
  }

  /** The bounds of the domain are exactly what no prescaler wraps or cuts off. */
  lemma DomainIff(fcan: u32, bps: u32)
    requires bps > 0
    ensures bps < 0x100_0000 && fcan < bps * U16
            <==> forall brp | 1 <= brp <= MAX_BRP :: bps * brp < U32 && fcan / (bps * brp) < U16
  {
    if bps < 0x100_0000 && fcan < bps * U16 {
      forall brp | 1 <= brp <= MAX_BRP ensures bps * brp < U32 && fcan / (bps * brp) < U16 {
        NoWrap(fcan, bps, 50, brp);
      }
    } else if fcan >= bps * U16 {
      QuotientReaches(fcan, bps);
      assert bps * 1 == bps;
    } else {
      assert bps * MAX_BRP >= U32;
    }
  }

  lemma TryComplete(fcan: u32, bps: u32, pct: u8, lim: Limits, brp: nat, tseg1: nat, tseg2: nat)
    requires InDomain(fcan, bps, pct) && WellFormed(lim)
    ensures Legal(fcan, bps, pct, lim, brp, tseg1, tseg2) ==>
              Try(fcan, bps, pct, lim, brp) == Take(Phase(brp, tseg1, tseg2, SjwOf(tseg2, lim)))
  {
    if Legal(fcan, bps, pct, lim, brp, tseg1, tseg2) {
      NoWrap(fcan, bps, pct, brp);
      var total := 1 + tseg1 + tseg2;
      DivExact(bps * brp, total, fcan);
      SplitExact(total, pct, lim, brp, tseg1, tseg2);
    }
  }

  /** The early break loses nothing: past a prescaler that divides to fewer than four quanta,
      no prescaler is legal. */
  lemma StopLosesNothing(fcan: u32, bps: u32, pct: u8, lim: Limits, stop: nat, brp: nat, tseg1: nat, tseg2: nat)
    requires InDomain(fcan, bps, pct) && WellFormed(lim)
    requires 1 <= stop <= brp <= MAX_BRP && Try(fcan, bps, pct, lim, stop) == Stop
    ensures !Legal(fcan, bps, pct, lim, brp, tseg1, tseg2)
  {
    if Legal(fcan, bps, pct, lim, brp, tseg1, tseg2) {
      TrySound(fcan, bps, pct, lim, stop);
      NoWrap(fcan, bps, pct, stop);
      var d, e := bps * stop, bps * brp;
      var few, many := fcan / d, 1 + tseg1 + tseg2;
      DivExact(d, few, fcan);
      MulMonotone(bps, stop, brp);
      MulMonotone(many, d, e);
      MulMonotone(d, 4, many);
      assert d * few == fcan == e * many >= d * 4;
      MulMonotone(d, few, 3);
      assert false;
    }
  }

  ghost predicate NothingLegal(fcan: nat, bps: nat, pct: nat, lim: Limits, brp: nat) {
    forall tseg1: nat, tseg2: nat :: !Legal(fcan, bps, pct, lim, brp, tseg1, tseg2)
  }

  lemma {:induction false} SearchFrom(fcan: u32, bps: u32, pct: u8, lim: Limits, from: nat)
    requires InDomain(fcan, bps, pct) && WellFormed(lim) && 1 <= from <= MAX_BRP + 1
    ensures var r := Search(fcan, bps, pct, lim, from);
            && !r.DivideByZero?
            && (r.Solved? ==>
                  && from <= r.phase.brp
                  && Legal(fcan, bps, pct, lim, r.phase.brp, r.phase.tseg1, r.phase.tseg2)
                  && r.phase.sjw == SjwOf(r.phase.tseg2, lim)
                  && forall b | from <= b < r.phase.brp :: NothingLegal(fcan, bps, pct, lim, b))
            && (r.NoSolution? ==> forall b | from <= b <= MAX_BRP :: NothingLegal(fcan, bps, pct, lim, b))
    decreases MAX_BRP + 1 - from
  {
    if from <= MAX_BRP {
      TrySound(fcan, bps, pct, lim, from);
      match Try(fcan, bps, pct, lim, from)
      case Skip =>
        SearchFrom(fcan, bps, pct, lim, from + 1);
        forall tseg1: nat, tseg2: nat ensures !Legal(fcan, bps, pct, lim, from, tseg1, tseg2) {
          if Legal(fcan, bps, pct, lim, from, tseg1, tseg2) {
            TryComplete(fcan, bps, pct, lim, from, tseg1, tseg2);
          }
        }
        assert NothingLegal(fcan, bps, pct, lim, from);
      case Stop =>
        forall b | from <= b <= MAX_BRP ensures NothingLegal(fcan, bps, pct, lim, b) {
          forall tseg1: nat, tseg2: nat ensures !Legal(fcan, bps, pct, lim, b, tseg1, tseg2) {
            StopLosesNothing(fcan, bps, pct, lim, from, b, tseg1, tseg2);
          }
        }
      case Trap =>
      case Take(p) =>
    }
  }

  /** Sound, complete and least: inside the domain the solver answers exactly when some legal
      bit time exists, and then with the only legal split of the smallest legal prescaler. */
  lemma SolverExact(fcan: u32, bps: u32, pct: u8, lim: Limits)
    requires InDomain(fcan, bps, pct) && WellFormed(lim)
    ensures var r := Solve(fcan, bps, pct, lim);
            && !r.DivideByZero?
            && (r.Solved? <==> exists brp, tseg1, tseg2 :: Legal(fcan, bps, pct, lim, brp, tseg1, tseg2))
            && (r.Solved? ==>
                  && Legal(fcan, bps, pct, lim, r.phase.brp, r.phase.tseg1, r.phase.tseg2)
                  && r.phase.sjw == (if r.phase.tseg2 < lim.sjwMax then r.phase.tseg2 else lim.sjwMax)
                  && 1 <= r.phase.sjw <= r.phase.tseg2
                  && forall brp, tseg1, tseg2 | Legal(fcan, bps, pct, lim, brp, tseg1, tseg2) ::
                       && r.phase.brp <= brp
                       && (brp == r.phase.brp ==> tseg1 == r.phase.tseg1 && tseg2 == r.phase.tseg2))
  {
    SearchFrom(fcan, bps, pct, lim, 1);
    var r := Solve(fcan, bps, pct, lim);
    forall brp, tseg1, tseg2 | Legal(fcan, bps, pct, lim, brp, tseg1, tseg2)
      ensures r.Solved? && r.phase.brp <= brp
      ensures brp == r.phase.brp ==> tseg1 == r.phase.tseg1 && tseg2 == r.phase.tseg2
    {
      TryComplete(fcan, bps, pct, lim, brp, tseg1, tseg2);
      assert !NothingLegal(fcan, bps, pct, lim, brp);
      if brp == r.phase.brp {
        TryComplete(fcan, bps, pct, lim, brp, r.phase.tseg1, r.phase.tseg2);
      }
    }
  }

  /** If some configuration hits both the rate and the sample point exactly, the solver does
      not fail. */
  lemma ExactHitIsFound(fcan: u32, bps: u32, pct: u8, lim: Limits, brp: nat, tseg1: nat, tseg2: nat)
    requires InDomain(fcan, bps, pct) && WellFormed(lim)
    requires 1 <= brp <= MAX_BRP && 4 <= 1 + tseg1 + tseg2 && Fits(lim, tseg1, tseg2)
    ensures ExactRate(fcan, bps, brp, 1 + tseg1 + tseg2) && 100 * (1 + tseg1) == pct * (1 + tseg1 + tseg2) ==>
              Solve(fcan, bps, pct, lim).Solved?
  {
    if ExactRate(fcan, bps, brp, 1 + tseg1 + tseg2) && 100 * (1 + tseg1) == pct * (1 + tseg1 + tseg2) {
      assert Legal(fcan, bps, pct, lim, brp, tseg1, tseg2);
      SolverExact(fcan, bps, pct, lim);
    }
  }

  function Abs(x: int): nat {
    if x < 0 then -x else x
  }

  /** No other number of quanta comes closer to the requested sample point. */
  lemma SampleOptimal(pct: int, total: int, tseg1: int, other: int)
    requires NearestSample(pct, total, tseg1)
    ensures Abs(100 * (1 + tseg1) - pct * total) <= 50
    ensures Abs(100 * (1 + tseg1) - pct * total) <= Abs(100 * (1 + other) - pct * total)
  {
    if other > tseg1 {
      assert 100 * (1 + other) >= 100 * (1 + tseg1) + 100;
    } else if other < tseg1 {
      assert 100 * (1 + other) <= 100 * (1 + tseg1) - 100;
    }
  }

  // ------------------------------------------------------------------------------------
  // Outside the domain
  // ------------------------------------------------------------------------------------

  /** For every 32-bit input: an answer has the exact rate precisely when the product at its
      prescaler did not wrap and the bit is shorter than 2^16 quanta. */
  lemma ExactRateIff(fcan: u32, bps: u32, pct: u8, lim: Limits)
    requires WellFormed(lim) && Solve(fcan, bps, pct, lim).Solved?
    ensures var p := Solve(fcan, bps, pct, lim).phase;
            ExactRate(fcan, bps, p.brp, 1 + p.tseg1 + p.tseg2)
            <==> bps * p.brp < U32 && fcan < bps * p.brp * U16
  {
    SearchHit(fcan, bps, pct, lim, 1);
    var p := Solve(fcan, bps, pct, lim).phase;
    TryTakes(fcan, bps, pct, lim, p);
    RateIff(bps * p.brp, fcan / ((bps * p.brp) % U32), 1 + p.tseg1 + p.tseg2, fcan);
  }

  lemma TryTakes(fcan: u32, bps: u32, pct: u8, lim: Limits, p: Phase)
    requires WellFormed(lim) && Try(fcan, bps, pct, lim, p.brp) == Take(p)
    ensures var d := (bps * p.brp) % U32;
            && d != 0 && fcan % d == 0
            && (1 + p.tseg1 + p.tseg2) % U16 == (fcan / d) % U16
            && 2 <= 1 + p.tseg1 + p.tseg2 <= fcan / d && 1 + p.tseg1 + p.tseg2 < U16
  {
    var total := fcan / ((bps * p.brp) % U32);
    SplitTakes(total, pct, lim, p);
  }

  lemma SplitTakes(total: u32, pct: u8, lim: Limits, p: Phase)
    requires WellFormed(lim)
    ensures Split(total, pct, lim, p.brp) == Take(p) ==>
              && (1 + p.tseg1 + p.tseg2) % U16 == total % U16
              && 2 <= 1 + p.tseg1 + p.tseg2 <= total && 1 + p.tseg1 + p.tseg2 < U16
  {
    if Split(total, pct, lim, p.brp) == Take(p) {
      var rest := total - 1 - p.tseg1;
      assert p.tseg2 == rest % U16;
      DivModUnique(total, U16, rest / U16, 1 + p.tseg1 + p.tseg2);
      DivModUnique(1 + p.tseg1 + p.tseg2, U16, 0, 1 + p.tseg1 + p.tseg2);
    }
  }

  lemma RateIff(m: nat, total: nat, short: nat, fcan: u32)
    requires m % U32 != 0 && fcan % (m % U32) == 0 && fcan / (m % U32) == total
    requires short % U16 == total % U16 && 2 <= short <= total && short < U16
    ensures m * short == fcan <==> m < U32 && fcan < m * U16
  {
    if m >= U32 {
      MulMonotone(m, 1, short);
    } else {
      DivExact(m, total, fcan);
      FittingRate(m, total, short);
    }
  }

  lemma FittingRate(m: nat, total: nat, short: nat)
    requires m > 0 && short % U16 == total % U16 && short <= total && short < U16
    ensures m * short == m * total <==> m * total < m * U16
  {
    if total < U16 {
      MulMonotone(m, total + 1, U16);
      Distribute(m, total, 1);
    } else {
      MulMonotone(m, U16, total);
      MulMonotone(m, short + 1, total);
      Distribute(m, short, 1);
    }
  }

  lemma {:induction false} SearchHit(fcan: u32, bps: u32, pct: u8, lim: Limits, from: nat)
    ensures var r := Search(fcan, bps, pct, lim, from);
            r.Solved? ==> Try(fcan, bps, pct, lim, r.phase.brp) == Take(r.phase)
    decreases MAX_BRP + 1 - from
  {
    if from <= MAX_BRP && Try(fcan, bps, pct, lim, from).Skip? {
      SearchHit(fcan, bps, pct, lim, from + 1);
    }
  }

  /** The rate is an odd multiple of p, and p * top is 2^32. */
  ghost predicate Factors(bps: nat, odd: nat, p: nat, top: nat, k: nat) {
    && bps == odd * p && odd % 2 == 1 && p * top == U32 && top == Pow2(k) > 1
    && LowBit(bps) == p && (p >= 0x100_0000 <==> top <= MAX_BRP)
  }

  /** The divisor of a prescaler, for a rate of odd * p with p = 2^j: a multiple of p, and zero
      first at prescaler 2^(32 - j). */
  lemma DivisorIs(odd: nat, p: nat, top: nat, k: nat, brp: nat)
    requires p * top == U32 && top == Pow2(k) && odd % 2 == 1
    ensures (odd * p * brp) % U32 == ((odd * brp) % top) * p
    ensures 0 < brp < top ==> (odd * brp) % top != 0
    ensures brp == top ==> (odd * brp) % top == 0
  {
    assert odd * p * brp == (odd * brp) * p;
    ScaledMod(odd * brp, p, top);
    if 0 < brp < top {
      OddNeverVanishes(odd, brp, k);
    } else if brp == top {
      MultipleMod(odd, top);
    }
  }

  lemma ScaledMod(x: nat, p: nat, top: nat)
    requires p * top == U32 && top > 0
    ensures (x * p) % U32 == (x % top) * p
  {
    var q, r := x / top, x % top;
    assert x == q * top + r;
    Distribute(p, q * top, r);
    assert (q * top) * p == U32 * q by {
      assert (q * top) * p == q * (p * top);
    }
    MulMonotone(p, r + 1, top);
    Distribute(p, r, 1);
    DivModUnique(x * p, U32, q, r * p);
  }

  lemma NotDivided(fcan: nat, r: nat, p: nat)
    requires p > 0 && r > 0 && fcan % p != 0
    ensures r * p > 0 && fcan % (r * p) != 0
  {
    var d := r * p;
    MulMonotone(p, 1, r);
    if fcan % d == 0 {
      var k := fcan / d;
      assert fcan == d * k == (r * k) * p;
      MultipleMod(r * k, p);
      assert false;
    }
  }

  /** If p does not divide the clock, every prescaler before top is skipped. */
  lemma {:induction false} SearchTraps(fcan: u32, bps: u32, pct: u8, lim: Limits, odd: nat, p: nat, top: nat, k: nat,
                                       from: nat)
    requires Factors(bps, odd, p, top, k) && top <= MAX_BRP && fcan % p != 0 && 1 <= from <= top
    ensures Search(fcan, bps, pct, lim, from).DivideByZero?
    decreases top - from
  {
    DivisorIs(odd, p, top, k, from);
    if from < top {
      NotDivided(fcan, (odd * from) % top, p);
      SearchTraps(fcan, bps, pct, lim, odd, p, top, k, from + 1);
    }
  }

  /** The search ends without a trap if it stops somewhere before top. */
  lemma {:induction false} SearchStops(fcan: u32, bps: u32, pct: u8, lim: Limits, odd: nat, p: nat, top: nat, k: nat,
                                       from: nat, stop: nat)
    requires Factors(bps, odd, p, top, k)
    requires 1 <= from <= stop < top && (stop <= MAX_BRP ==> Try(fcan, bps, pct, lim, stop).Stop?)
    ensures !Search(fcan, bps, pct, lim, from).DivideByZero?
    decreases stop - from
  {
    if from <= MAX_BRP && from < stop {
      DivisorIs(odd, p, top, k, from);
      NonZeroProduct((odd * from) % top, p);
      SearchStops(fcan, bps, pct, lim, odd, p, top, k, from + 1, stop);
    }
  }

  lemma NonZeroProduct(a: nat, b: nat)
    requires a > 0 && b > 0
    ensures a * b > 0
  {
    MulMonotone(b, 1, a);
  }

  /** If p divides the clock, some prescaler before top divides it to at most one quantum. */
  lemma SomePrescalerStops(fcan: u32, bps: u32, pct: u8, lim: Limits, odd: nat, p: nat, top: nat, k: nat)
    returns (stop: nat)
    requires Factors(bps, odd, p, top, k) && p > 0 && fcan % p == 0
    ensures 1 <= stop < top && Try(fcan, bps, pct, lim, stop).Stop?
  {
    if fcan == 0 {
      stop := 1;
      DivisorIs(odd, p, top, k, 1);
      NonZeroProduct((odd * 1) % top, p);
    } else {
      var c, q := fcan / p, 0;
      stop, q := OddReaches(odd, k, c);
      assert fcan == c * p;
      QuotientSmall(fcan, p, c, top);
      ResidueIs(odd * stop, c, q, top);
      DivisorIs(odd, p, top, k, stop);
      assert fcan % fcan == 0 && fcan / fcan == 1;
    }
  }

  lemma QuotientSmall(fcan: u32, p: nat, c: nat, top: nat)
    requires fcan == c * p && p * top == U32
    ensures c < top
  {
    if c >= top {
      MulMonotone(p, top, c);
    }
  }

  lemma ResidueIs(x: nat, c: nat, q: int, top: nat)
    requires 0 < c < top && x == c + q * top
    ensures x % top == c && x > 0
  {
    if q < 0 {
      NegativeTimes(q, top);
      assert false;
    }
    DivModUnique(x, top, q, c);
  }

  lemma NegativeTimes(q: int, top: nat)
    requires q < 0
    ensures q * top + top <= 0
  {
    MulMonotone(top, 1, -q);
    assert q * top + top * (0 - q) == 0;
  }

  lemma FactorsOf(bps: u32) returns (odd: nat, p: nat, top: nat, k: nat)
    requires bps > 0
    ensures Factors(bps, odd, p, top, k)
  {
    var j;
    j, odd := LowBitIs(bps);
    p := Pow2(j);
    Pow2Values();
    MulMonotone(p, 1, odd);
    if j >= 32 {
      Pow2Grows(32, j);
      assert false;
    }
    k := 32 - j;
    top := Pow2(k);
    Pow2Product(j, k);
    Pow2Grows(1, k);
    if j >= 24 {
      Pow2Grows(24, j);
      Pow2Grows(k, 8);
    } else {
      Pow2Grows(j, 23);
      Pow2Grows(9, k);
    }
  }

  /** A smaller power of two leaves the zero divisor past the last prescaler. */
  lemma {:induction false} PastLastPrescaler(fcan: u32, bps: u32, pct: u8, lim: Limits, odd: nat, p: nat, top: nat,
                                             k: nat, from: nat)
    requires Factors(bps, odd, p, top, k) && top > MAX_BRP && 1 <= from
    ensures !Search(fcan, bps, pct, lim, from).DivideByZero?
    decreases MAX_BRP + 1 - from
  {
    if from <= MAX_BRP {
      DivisorIs(odd, p, top, k, from);
      NonZeroProduct((odd * from) % top, p);
      PastLastPrescaler(fcan, bps, pct, lim, odd, p, top, k, from + 1);
    }
  }

  /** For all inputs: the search divides by zero exactly when the largest power of two that divides
      the rate is at least 2^24 and does not divide the clock. */
  lemma TrapIff(fcan: u32, bps: u32, pct: u8, lim: Limits)
    ensures Solve(fcan, bps, pct, lim).DivideByZero?
            <==> bps != 0 && LowBit(bps) >= 0x100_0000 && fcan % LowBit(bps) != 0
  {
    if bps != 0 {
      var odd, p, top, k := FactorsOf(bps);
      if fcan % p == 0 {
        var stop := SomePrescalerStops(fcan, bps, pct, lim, odd, p, top, k);
        SearchStops(fcan, bps, pct, lim, odd, p, top, k, 1, stop);
      } else if p >= 0x100_0000 {
        SearchTraps(fcan, bps, pct, lim, odd, p, top, k, 1);
      } else {
        PastLastPrescaler(fcan, bps, pct, lim, odd, p, top, k, 1);
      }
    }
  }

  /** A rate of 2147983648 bit/s wraps at the second prescaler to one megahertz: on a 20 MHz
      clock the solver answers for it. */
  lemma WrappedRateIsAccepted()
    ensures var r := Solve(20_000_000, 2_147_983_648, 80, NOMINAL_LIMITS);
            && r == Solved(Phase(2, 15, 4, 4))
            && !ExactRate(20_000_000, 2_147_983_648, 2, 20)
  {
    assert Try(20_000_000, 2_147_983_648, 80, NOMINAL_LIMITS, 1) == Skip;
    assert (2_147_983_648 * 2) % U32 == 1_000_000 && 20_000_000 % 1_000_000 == 0;
    assert Tseg1Of(20, 80) == 15 by {
      assert ((20 * 80) % U32 + 50) % U32 == 1650 && 1650 / 100 == 16;
    }
    assert Split(20, 80, NOMINAL_LIMITS, 2) == Take(Phase(2, 15, 4, 4));
    assert Try(20_000_000, 2_147_983_648, 80, NOMINAL_LIMITS, 2) == Take(Phase(2, 15, 4, 4));
  }

  lemma TruncatedSplit()
    ensures Split(131_082, 50, NOMINAL_LIMITS, 1) == Take(Phase(1, 4, 5, 5))
  {
    assert Tseg1Of(131_082, 50) == 4 by {
      assert ((131_082 * 50) % U32 + 50) % U32 == 6_554_150 && 6_554_150 / 100 == 65_541 && 65_541 % U16 == 5;
    }
    assert (131_082 - 1 - 4) % U16 == 5;
  }

  lemma DividesTo(fcan: u32, bps: u32, pct: u8, lim: Limits, total: nat, p: Phase)
    requires bps > 0 && bps * total == fcan && Split(total, pct, lim, 1) == Take(p)
    ensures Solve(fcan, bps, pct, lim) == Solved(p)
  {
    DivExact(bps, total, fcan);
    assert (bps * 1) % U32 == bps;
  }

  /** 100 bit/s from 13108200 Hz needs 131082 quanta; the 16-bit casts turn it into 10. */
  lemma TruncatedBitIsAccepted()
    ensures var r := Solve(13_108_200, 100, 50, NOMINAL_LIMITS);
            r == Solved(Phase(1, 4, 5, 5)) && !ExactRate(13_108_200, 100, 1, 10)
  {
    TruncatedSplit();
    DividesTo(13_108_200, 100, 50, NOMINAL_LIMITS, 131_082, Phase(1, 4, 5, 5));
  }

  /** A rate of 2^31 divides by zero at the second prescaler. */
  lemma HugeRateTraps()
    ensures Solve(20_000_000, 0x8000_0000, 80, NOMINAL_LIMITS) == DivideByZero
  {
    assert Try(20_000_000, 0x8000_0000, 80, NOMINAL_LIMITS, 1) == Skip;
    assert Try(20_000_000, 0x8000_0000, 80, NOMINAL_LIMITS, 2) == Trap;
  }

  // ------------------------------------------------------------------------------------
  // Register words
  // ------------------------------------------------------------------------------------

  /** Field positions, the same for both phases, and field widths, which differ. Words are built and
      read over any layout, and proofs use only the powers of two its numbers stand for. */
  datatype Layout = Layout(brp: nat, tseg1: nat, tseg2: nat, sjw: nat)
  const BTCFG_POS := Layout(24, 16, 8, 0)
  const NBTCFG_WIDTHS := Layout(8, 8, 7, 7)
  const DBTCFG_WIDTHS := Layout(8, 5, 4, 4)

  /** The BTCFG word: every field holds its count minus one. */
  function BtcfgWord(p: Phase, pos: Layout): nat
    requires 1 <= p.brp && 1 <= p.tseg1 && 1 <= p.tseg2 && 1 <= p.sjw
  {
    Or(Or(Or(Shl(p.brp - 1, pos.brp), Shl(p.tseg1 - 1, pos.tseg1)), Shl(p.tseg2 - 1, pos.tseg2)),
       Shl(p.sjw - 1, pos.sjw))
  }

  function Field(word: nat, pos: nat, width: nat): nat {
    And(Shr(word, pos), Pow2(width) - 1)
  }

  predicate Decodes(word: nat, pos: Layout, width: Layout, p: Phase) {
    && Field(word, pos.brp, width.brp) + 1 == p.brp
    && Field(word, pos.tseg1, width.tseg1) + 1 == p.tseg1
    && Field(word, pos.tseg2, width.tseg2) + 1 == p.tseg2
    && Field(word, pos.sjw, width.sjw) + 1 == p.sjw
  }

  /** What the positions and widths amount to as powers of two. */
  predicate PositionPowers(pos: Layout) {
    Pow2(pos.brp) == 0x100_0000 && Pow2(pos.tseg1) == 0x1_0000 && Pow2(pos.tseg2) == 0x100 && Pow2(pos.sjw) == 1
  }

  predicate WidthPowers(w: Layout, nominal: bool) {
    && Pow2(w.brp) == 256
    && Pow2(w.tseg1) == (if nominal then 256 else 32)
    && Pow2(w.tseg2) == (if nominal then 128 else 16)
    && Pow2(w.sjw) == (if nominal then 128 else 16)
  }

  lemma LayoutPowers()
    ensures PositionPowers(BTCFG_POS) && WidthPowers(NBTCFG_WIDTHS, true) && WidthPowers(DBTCFG_WIDTHS, false)
  {
    Pow2Values();
  }

  predicate IsSum(word: nat, p: Phase) {
    && 1 <= p.brp <= 256 && 1 <= p.tseg1 <= 256 && 1 <= p.tseg2 <= 128 && 1 <= p.sjw <= 128
    && word == (p.brp - 1) * 0x100_0000 + (p.tseg1 - 1) * 0x1_0000 + (p.tseg2 - 1) * 0x100 + (p.sjw - 1)
  }

  lemma BtcfgSum(p: Phase, pos: Layout)
    requires PositionPowers(pos)
    requires 1 <= p.brp <= 256 && 1 <= p.tseg1 <= 256 && 1 <= p.tseg2 <= 128 && 1 <= p.sjw <= 128
    ensures IsSum(BtcfgWord(p, pos), p)
  {
    var b, t1, t2, s := p.brp - 1, p.tseg1 - 1, p.tseg2 - 1, p.sjw - 1;
    var w1 := b * 0x100_0000;
    var w2 := w1 + t1 * 0x1_0000;
    var w3 := w2 + t2 * 0x100;
    ShlIs(b, pos.brp, 0x100_0000);
    assert Or(w1, Shl(t1, pos.tseg1)) == w2 by {
      OrField(w1, t1, pos.tseg1, 0x1_0000, pos.brp, 0x100_0000);
    }
    assert Or(w2, Shl(t2, pos.tseg2)) == w3 by {
      LowBitsFree(b, t1, t2);
      OrField(w2, t2, pos.tseg2, 0x100, pos.tseg1, 0x1_0000);
    }
    assert Or(w3, Shl(s, pos.sjw)) == w3 + s by {
      LowBitsFree(b, t1, t2);
      OrField(w3, s, pos.sjw, 1, pos.tseg2, 0x100);
    }
  }

  lemma LowBitsFree(b: nat, t1: nat, t2: nat)
    ensures (b * 0x100_0000 + t1 * 0x1_0000) % 0x1_0000 == 0
    ensures (b * 0x100_0000 + t1 * 0x1_0000 + t2 * 0x100) % 0x100 == 0
  {
    MultipleMod(b * 0x100 + t1, 0x1_0000);
    MultipleMod(b * 0x1_0000 + t1 * 0x100 + t2, 0x100);
  }

  lemma FieldsOf(word: nat, b: nat, t1: nat, t2: nat, s: nat, m1: nat, m2: nat)
    requires (m1 == 256 && m2 == 128) || (m1 == 32 && m2 == 16)
    requires b < 256 && t1 < m1 && t2 < m2 && s < m2
    requires word == b * 0x100_0000 + t1 * 0x1_0000 + t2 * 0x100 + s
    ensures (word / 0x100_0000) % 256 == b && (word / 0x1_0000) % m1 == t1
    ensures (word / 0x100) % m2 == t2 && (word / 1) % m2 == s
  {
    assert word / 0x100_0000 == b;
    assert word / 0x1_0000 == b * 0x100 + t1;
    assert word / 0x100 == b * 0x1_0000 + t1 * 0x100 + t2;
    if m1 == 256 {
      assert (b * 0x100 + t1) % 256 == t1;
    } else {
      assert (b * 0x100 + t1) % 32 == t1;
    }
  }

  lemma FieldIs(word: nat, pos: nat, p: nat, width: nat, m: nat)
    requires Pow2(pos) == p && Pow2(width) == m
    ensures Field(word, pos, width) == (word / p) % m
  {
    ShrDivides(word, pos);
    AndLowMask(word / p, width);
  }

  /** No field overlaps another, in either layout: the word read back is the phase written. */
  lemma BtcfgDecodes(p: Phase, nominal: bool)
    requires 1 <= p.brp <= MAX_BRP
    requires var lim := if nominal then NOMINAL_LIMITS else DATA_LIMITS;
             Fits(lim, p.tseg1, p.tseg2) && p.sjw == SjwOf(p.tseg2, lim)
    ensures BtcfgWord(p, BTCFG_POS) < U32
    ensures Decodes(BtcfgWord(p, BTCFG_POS), BTCFG_POS, if nominal then NBTCFG_WIDTHS else DBTCFG_WIDTHS, p)
  {
    LayoutPowers();
    BtcfgSum(p, BTCFG_POS);
    SumDecodes(BtcfgWord(p, BTCFG_POS), p, BTCFG_POS, if nominal then NBTCFG_WIDTHS else DBTCFG_WIDTHS, nominal);
  }

  lemma SumDecodes(word: nat, p: Phase, pos: Layout, w: Layout, nominal: bool)
    requires IsSum(word, p) && PositionPowers(pos) && WidthPowers(w, nominal)
    requires nominal || (p.tseg1 <= 32 && p.tseg2 <= 16 && p.sjw <= 16)
    ensures Decodes(word, pos, w, p)
  {
    FieldsOf(word, p.brp - 1, p.tseg1 - 1, p.tseg2 - 1, p.sjw - 1,
             if nominal then 256 else 32, if nominal then 128 else 16);
    FieldIs(word, pos.brp, 0x100_0000, w.brp, 256);
    FieldIs(word, pos.tseg1, 0x1_0000, w.tseg1, if nominal then 256 else 32);
    FieldIs(word, pos.tseg2, 0x100, w.tseg2, if nominal then 128 else 16);
    FieldIs(word, pos.sjw, 1, w.sjw, if nominal then 128 else 16);
  }

  /** The TDC word: mode field at 16, offset field at 8. */
  datatype TdcLayout = TdcLayout(mode: nat, offset: nat, modeWidth: nat, offsetWidth: nat)
  const TDC_POS := TdcLayout(16, 8, 2, 7)
  const TDCMOD_AUTO := 2

  function TdcOffset(p: Phase): nat {
    if p.brp * p.tseg1 > 0x7F then 0x7F else p.brp * p.tseg1
  }

  function TdcWord(mode: nat, offset: nat, pos: TdcLayout): nat {
    Or(Shl(mode, pos.mode), Shl(offset, pos.offset))
  }

  predicate TdcPowers(pos: TdcLayout) {
    Pow2(pos.mode) == 0x1_0000 && Pow2(pos.offset) == 0x100 && Pow2(pos.modeWidth) == 4 && Pow2(pos.offsetWidth) == 128
  }

  lemma TdcSum(mode: nat, offset: nat, pos: TdcLayout)
    requires TdcPowers(pos) && mode < 4 && offset < 128
    ensures var word := TdcWord(mode, offset, pos);
            && word < U32 && word == mode * 0x1_0000 + offset * 0x100
            && Field(word, pos.mode, pos.modeWidth) == mode
            && Field(word, pos.offset, pos.offsetWidth) == offset
  {
    var word := TdcWord(mode, offset, pos);
    ShlIs(mode, pos.mode, 0x1_0000);
    OrField(mode * 0x1_0000, offset, pos.offset, 0x100, pos.mode, 0x1_0000);
    TdcFields(word, mode, offset);
    FieldIs(word, pos.mode, 0x1_0000, pos.modeWidth, 4);
    FieldIs(word, pos.offset, 0x100, pos.offsetWidth, 128);
  }

  lemma TdcFields(word: nat, mode: nat, offset: nat)
    requires mode < 4 && offset < 128 && word == mode * 0x1_0000 + offset * 0x100
    ensures word < U32 && (word / 0x1_0000) % 4 == mode && (word / 0x100) % 128 == offset
  {
    assert word / 0x1_0000 == mode;
    assert word / 0x100 == mode * 0x100 + offset;
  }

  /** Automatic compensation, with the offset saturated to its seven bits. */
  lemma TdcDecodes(p: Phase)
    ensures var word := TdcWord(TDCMOD_AUTO, TdcOffset(p), TDC_POS);
            && word == 2 * 0x1_0000 + 0x100 * (if p.brp * p.tseg1 < 127 then p.brp * p.tseg1 else 127)
            && word < U32
            && Field(word, TDC_POS.mode, TDC_POS.modeWidth) == TDCMOD_AUTO
            && Field(word, TDC_POS.offset, TDC_POS.offsetWidth)
               == if p.brp * p.tseg1 < 127 then p.brp * p.tseg1 else 127
  {
    assert TdcPowers(TDC_POS) by { Pow2Values(); }
    TdcSum(TDCMOD_AUTO, TdcOffset(p), TDC_POS);
  }

  datatype Timing = Timing(nbtcfg: nat, dbtcfg: nat, tdc: nat)
  datatype TimingResult = Good(timing: Timing) | BadArgument | Trapped

  function TimingFor(fcan: u32, nominal: u32, data: u32, pct: u8): TimingResult {
    if pct == 0 || pct >= 100 then BadArgument
    else
      match Solve(fcan, nominal, pct, NOMINAL_LIMITS)
      case NoSolution => BadArgument
      case DivideByZero => Trapped
      case Solved(n) =>
        match Solve(fcan, data, pct, DATA_LIMITS)
        case NoSolution => BadArgument
        case DivideByZero => Trapped
        case Solved(d) =>
          SolvedFits(fcan, nominal, pct, NOMINAL_LIMITS);
          SolvedFits(fcan, data, pct, DATA_LIMITS);
          Good(Timing(BtcfgWord(n, BTCFG_POS), BtcfgWord(d, BTCFG_POS), TdcWord(TDCMOD_AUTO, TdcOffset(d), TDC_POS)))
  }

  /** nora_canfd_calc_bit_timing: both phases, then the delay compensation word. */
  method CalcBitTiming(fcan: u32, nominal: u32, data: u32, pct: u8) returns (r: TimingResult)
    ensures r == TimingFor(fcan, nominal, data, pct)
  {
    if pct == 0 || pct >= 100 {
      return BadArgument;
    }
    var n := SolvePhase(fcan, nominal, pct, NOMINAL_LIMITS);
    if !n.Solved? {
      return if n.DivideByZero? then Trapped else BadArgument;
    }
    SolvedFits(fcan, nominal, pct, NOMINAL_LIMITS);
    var nbtcfg := BtcfgWord(n.phase, BTCFG_POS);
    var d := SolvePhase(fcan, data, pct, DATA_LIMITS);
    if !d.Solved? {
      return if d.DivideByZero? then Trapped else BadArgument;
    }
    SolvedFits(fcan, data, pct, DATA_LIMITS);
    var dbtcfg := BtcfgWord(d.phase, BTCFG_POS);
    var tdco := d.phase.brp * d.phase.tseg1;
    if tdco > 0x7F {
      tdco := 0x7F;
    }
    assert tdco == TdcOffset(d.phase);
    var tdc := TdcWord(TDCMOD_AUTO, tdco, TDC_POS);
    return Good(Timing(nbtcfg, dbtcfg, tdc));
  }

  lemma SolvedFits(fcan: u32, bps: u32, pct: u8, lim: Limits)
    requires WellFormed(lim) && Solve(fcan, bps, pct, lim).Solved?
    ensures var p := Solve(fcan, bps, pct, lim).phase;
            1 <= p.brp <= MAX_BRP && Fits(lim, p.tseg1, p.tseg2) && p.sjw == SjwOf(p.tseg2, lim)
  {
    SearchHit(fcan, bps, pct, lim, 1);
    SearchRange(fcan, bps, pct, lim, 1);
  }

  lemma {:induction false} SearchRange(fcan: u32, bps: u32, pct: u8, lim: Limits, from: nat)
    requires 1 <= from
    ensures var r := Search(fcan, bps, pct, lim, from);
            r.Solved? ==> 1 <= r.phase.brp <= MAX_BRP
    decreases MAX_BRP + 1 - from
  {
    if from <= MAX_BRP && Try(fcan, bps, pct, lim, from).Skip? {
      SearchRange(fcan, bps, pct, lim, from + 1);
    }
  }

  /** A timing word is this number and no other: every field one less than its count, at its place,
      every other bit clear, and the jump width as wide as the second segment. */
  predicate IsTimingWord(word: nat, p: Phase) {
    && p.sjw == p.tseg2
    && word == (p.brp - 1) * 0x100_0000 + (p.tseg1 - 1) * 0x1_0000 + (p.tseg2 - 1) * 0x100 + (p.tseg2 - 1)
  }

  lemma WordIsTiming(p: Phase, nominal: bool)
    requires 1 <= p.brp <= MAX_BRP
    requires var lim := if nominal then NOMINAL_LIMITS else DATA_LIMITS;
             Fits(lim, p.tseg1, p.tseg2) && p.sjw == SjwOf(p.tseg2, lim)
    ensures IsTimingWord(BtcfgWord(p, BTCFG_POS), p)
  {
    LayoutPowers();
    BtcfgSum(p, BTCFG_POS);
  }

  /** One phase of the calculation: no trap, and a solution's word is the phase it stands for. */
  lemma PhaseWord(fcan: u32, bps: u32, pct: u8, nominal: bool)
    requires InDomain(fcan, bps, pct)
    ensures var r := Solve(fcan, bps, pct, if nominal then NOMINAL_LIMITS else DATA_LIMITS);
            && !r.DivideByZero?
            && (r.Solved? ==>
                  && 1 <= r.phase.brp && 1 <= r.phase.tseg1 && 1 <= r.phase.tseg2 && 1 <= r.phase.sjw
                  && IsTimingWord(BtcfgWord(r.phase, BTCFG_POS), r.phase)
                  && Decodes(BtcfgWord(r.phase, BTCFG_POS), BTCFG_POS,
                             if nominal then NBTCFG_WIDTHS else DBTCFG_WIDTHS, r.phase))
  {
    var lim := if nominal then NOMINAL_LIMITS else DATA_LIMITS;
    SolverExact(fcan, bps, pct, lim);
    var r := Solve(fcan, bps, pct, lim);
    if r.Solved? {
      SolvedFits(fcan, bps, pct, lim);
      WordIsTiming(r.phase, nominal);
      BtcfgDecodes(r.phase, nominal);
    }
  }

  lemma TimingWords(fcan: u32, nominal: u32, data: u32, pct: u8)
    requires InDomain(fcan, nominal, pct) && InDomain(fcan, data, pct)
    ensures var r := TimingFor(fcan, nominal, data, pct);
            var n := Solve(fcan, nominal, pct, Limits(2, 256, 1, 128, 128));
            var d := Solve(fcan, data, pct, Limits(1, 32, 1, 16, 16));
            && !r.Trapped?
            && (r.Good? <==> n.Solved? && d.Solved?)
            && (r.Good? ==>
                  && Decodes(r.timing.nbtcfg, BTCFG_POS, NBTCFG_WIDTHS, n.phase)
                  && Decodes(r.timing.dbtcfg, BTCFG_POS, DBTCFG_WIDTHS, d.phase)
                  && IsTimingWord(r.timing.nbtcfg, n.phase) && IsTimingWord(r.timing.dbtcfg, d.phase)
                  && r.timing.tdc == 2 * 0x1_0000 + 0x100 * (if d.phase.brp * d.phase.tseg1 < 127
                                                             then d.phase.brp * d.phase.tseg1 else 127))
  {
    PhaseWord(fcan, nominal, pct, true);
    PhaseWord(fcan, data, pct, false);
    var d := Solve(fcan, data, pct, DATA_LIMITS);
    if d.Solved? {
      TdcDecodes(d.phase);
    }
  }

  lemma RateOf(fcan: u32, bps: u32, pct: u8, nominal: bool)
    requires InDomain(fcan, bps, pct)
    ensures var r := Solve(fcan, bps, pct, if nominal then Limits(2, 256, 1, 128, 128) else Limits(1, 32, 1, 16, 16));
            r.Solved? ==> ExactRate(fcan, bps, r.phase.brp, 1 + r.phase.tseg1 + r.phase.tseg2)
  {
    SolverExact(fcan, bps, pct, if nominal then NOMINAL_LIMITS else DATA_LIMITS);
  }

  lemma TimingRates(fcan: u32, nominal: u32, data: u32, pct: u8)
    requires InDomain(fcan, nominal, pct) && InDomain(fcan, data, pct)
    ensures var n := Solve(fcan, nominal, pct, Limits(2, 256, 1, 128, 128));
            var d := Solve(fcan, data, pct, Limits(1, 32, 1, 16, 16));
            n.Solved? && d.Solved? ==>
              && ExactRate(fcan, nominal, n.phase.brp, 1 + n.phase.tseg1 + n.phase.tseg2)
              && ExactRate(fcan, data, d.phase.brp, 1 + d.phase.tseg1 + d.phase.tseg2)
  {
    RateOf(fcan, nominal, pct, true);
    RateOf(fcan, data, pct, false);
  }

  /** Inside the domain the calculation succeeds exactly when both phases have a solution within the
      module's field limits, and its three words are then those two solutions, exact in rate, and
      automatic compensation with the saturated offset. */
  lemma TimingWordsExact(fcan: u32, nominal: u32, data: u32, pct: u8)
    requires InDomain(fcan, nominal, pct) && InDomain(fcan, data, pct)
    ensures var r := TimingFor(fcan, nominal, data, pct);
            var n := Solve(fcan, nominal, pct, Limits(2, 256, 1, 128, 128));
            var d := Solve(fcan, data, pct, Limits(1, 32, 1, 16, 16));
            && !r.Trapped?
            && (r.Good? <==> n.Solved? && d.Solved?)
            && (r.Good? ==>
                  && Decodes(r.timing.nbtcfg, BTCFG_POS, NBTCFG_WIDTHS, n.phase)
                  && Decodes(r.timing.dbtcfg, BTCFG_POS, DBTCFG_WIDTHS, d.phase)
                  && IsTimingWord(r.timing.nbtcfg, n.phase) && IsTimingWord(r.timing.dbtcfg, d.phase)
                  && ExactRate(fcan, nominal, n.phase.brp, 1 + n.phase.tseg1 + n.phase.tseg2)
                  && ExactRate(fcan, data, d.phase.brp, 1 + d.phase.tseg1 + d.phase.tseg2)
                  && r.timing.tdc == 2 * 0x1_0000 + 0x100 * (if d.phase.brp * d.phase.tseg1 < 127
                                                             then d.phase.brp * d.phase.tseg1 else 127))
  {
    TimingWords(fcan, nominal, data, pct);
    TimingRates(fcan, nominal, data, pct);
  }

  /** Outside it: a sample point of 0 or of 100 percent and more, or a zero rate, is refused, and a
      success means a solution of both phases in the code's own arithmetic. */
  lemma TimingRefusals(fcan: u32, nominal: u32, data: u32, pct: u8)
    ensures var r := TimingFor(fcan, nominal, data, pct);
            var n := Solve(fcan, nominal, pct, Limits(2, 256, 1, 128, 128));
            var d := Solve(fcan, data, pct, Limits(1, 32, 1, 16, 16));
            && (pct == 0 || pct >= 100 || nominal == 0 ==> r == BadArgument)
            && (data == 0 ==> !r.Good?)
            && (0 < pct < 100 ==>
                  && (r.Good? <==> n.Solved? && d.Solved?)
                  && (r.Trapped? <==> n.DivideByZero? || (n.Solved? && d.DivideByZero?)))
            && (r.Good? ==>
                  IsTimingWord(r.timing.nbtcfg, n.phase) && IsTimingWord(r.timing.dbtcfg, d.phase))
  {
    var n, d := Solve(fcan, nominal, pct, NOMINAL_LIMITS), Solve(fcan, data, pct, DATA_LIMITS);
    if n.Solved? && d.Solved? {
      SolvedFits(fcan, nominal, pct, NOMINAL_LIMITS);
      SolvedFits(fcan, data, pct, DATA_LIMITS);
      LayoutPowers();
      BtcfgSum(n.phase, BTCFG_POS);
      BtcfgSum(d.phase, BTCFG_POS);
    }
  }

  // ------------------------------------------------------------------------------------
  // Sample point from CMSIS bit segments
  // ------------------------------------------------------------------------------------

  /** Quanta up to the sample point, and in the whole bit. */
  function Before(prop: u8, ph1: u8): nat {
    1 + prop + ph1
  }

  function Quanta(prop: u8, ph1: u8, ph2: u8): nat {
    1 + prop + ph1 + ph2
  }

  /** The percentage CAN_SetBitrate derives: rounded down, as an 8-bit value. */
  function PercentOf(prop: u8, ph1: u8, ph2: u8): u8 {
    ((Before(prop, ph1) * 100) / Quanta(prop, ph1, ph2)) % 0x100
  }

  /** What the rounding down discards, in hundredths of a quantum. */
  function Discarded(prop: u8, ph1: u8, ph2: u8): nat {
    (Before(prop, ph1) * 100) % Quanta(prop, ph1, ph2)
  }

  lemma FloorDiv(a: nat, d: nat, n: nat)
    requires d > 0 && a < d * n
    ensures a / d < n && d * (a / d) == a - a % d
    ensures n <= 0x100 ==> (a / d) % 0x100 == a / d
  {
    assert a == d * (a / d) + a % d;
    if a / d >= n {
      MulMonotone(d, n, a / d);
    }
  }

  lemma PercentFloor(prop: u8, ph1: u8, ph2: u8)
    requires ph2 != 0
    ensures PercentOf(prop, ph1, ph2) < 100
    ensures Quanta(prop, ph1, ph2) * PercentOf(prop, ph1, ph2)
            == Before(prop, ph1) * 100 - Discarded(prop, ph1, ph2)
  {
    FloorDiv(Before(prop, ph1) * 100, Quanta(prop, ph1, ph2), 100);
  }

  /** Rounding down to percent and back to the nearest quantum returns the requested sample
      point exactly when no more than 50 hundredths were discarded. */
  lemma SegmentsRecovered(prop: u8, ph1: u8, ph2: u8, tseg1: nat)
    requires ph2 != 0
    ensures NearestSample(PercentOf(prop, ph1, ph2), Quanta(prop, ph1, ph2), tseg1) ==>
              (tseg1 == prop + ph1 <==> Discarded(prop, ph1, ph2) <= 50)
  {
    PercentFloor(prop, ph1, ph2);
    var pct, tq := PercentOf(prop, ph1, ph2), Quanta(prop, ph1, ph2);
    assert pct * tq == tq * pct;
  }

  /** Up to 51 quanta nothing more can be discarded, and the percentage is usable as it is. */
  lemma ShortBitsAreExact(prop: u8, ph1: u8, ph2: u8)
    requires ph2 != 0 && Quanta(prop, ph1, ph2) <= 51
    ensures 1 <= PercentOf(prop, ph1, ph2) <= 99
    ensures Discarded(prop, ph1, ph2) <= 50
  {
    PercentFloor(prop, ph1, ph2);
    var pct, tq := PercentOf(prop, ph1, ph2), Quanta(prop, ph1, ph2);
    assert Discarded(prop, ph1, ph2) < tq;
  }

  /** A zero percentage is replaced by the default before it reaches the solver. */
  function SamplePct(pct: u8): u8 {
    if pct != 0 then pct else DEFAULT_SAMPLE_PCT
  }

  /** Segments that derive a zero percentage are never the ones the default splits into. */
  lemma DefaultLosesSegments(prop: u8, ph1: u8, ph2: u8)
    requires ph2 != 0 && PercentOf(prop, ph1, ph2) == 0
    ensures Discarded(prop, ph1, ph2) > 50
    ensures !NearestSample(DEFAULT_SAMPLE_PCT, Quanta(prop, ph1, ph2), prop + ph1)
  {
    PercentFloor(prop, ph1, ph2);
    assert Before(prop, ph1) * 100 < Quanta(prop, ph1, ph2);
  }

  /** Whenever the solver picks a bit as long as the requested segments, it returns those
      segments, in and only in the cases SegmentsRecovered names. */
  lemma SolverKeepsSegments(fcan: u32, bps: u32, prop: u8, ph1: u8, ph2: u8, lim: Limits)
    requires ph2 != 0 && WellFormed(lim) && InDomain(fcan, bps, SamplePct(PercentOf(prop, ph1, ph2)))
    ensures var r := Solve(fcan, bps, SamplePct(PercentOf(prop, ph1, ph2)), lim);
            r.Solved? && 1 + r.phase.tseg1 + r.phase.tseg2 == Quanta(prop, ph1, ph2) ==>
              (r.phase.tseg1 == prop + ph1 && r.phase.tseg2 == ph2 <==> Discarded(prop, ph1, ph2) <= 50)
  {
    var pct := SamplePct(PercentOf(prop, ph1, ph2));
    var r := Solve(fcan, bps, pct, lim);
    if r.Solved? {
      SolverExact(fcan, bps, pct, lim);
      if PercentOf(prop, ph1, ph2) == 0 {
        DefaultLosesSegments(prop, ph1, ph2);
      } else {
        SegmentsRecovered(prop, ph1, ph2, r.phase.tseg1);
      }
    }
  }

  lemma LongSplit()
    ensures Split(53, 16, NOMINAL_LIMITS, 1) == Take(Phase(1, 7, 45, 45))
  {
    assert Tseg1Of(53, 16) == 7 by {
      assert ((53 * 16) % U32 + 50) % U32 == 898 && 898 / 100 == 8;
    }
  }

  /** 53 quanta are too many for an exact percentage: with 8 quanta before the sample point and 44
      after it requested, one megabit on a 53 MHz clock gets 7 and 45. */
  lemma LongBitLosesSegments()
    ensures Quanta(4, 4, 44) == 53 && Discarded(4, 4, 44) == 52 && PercentOf(4, 4, 44) == 16
    ensures Solve(53_000_000, 1_000_000, 16, NOMINAL_LIMITS) == Solved(Phase(1, 7, 45, 45))
  {
    LongSplit();
    DividesTo(53_000_000, 1_000_000, 16, NOMINAL_LIMITS, 53, Phase(1, 7, 45, 45));
  }
}
