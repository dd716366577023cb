/** Bench weighting and the adjusted team score ("Adjusted PPG"). */
module Weighting {
  import opened Roster
  import opened Lineup

  /** One weight per position, in the source's QB, RB, WR, TE, K, D/ST table. */
  datatype PosWeights = PosWeights(qb: real, rb: real, wr: real, te: real, k: real, dst: real)

  function At(w: PosWeights, p: Pos): real
  {
    match p
    case QB => w.qb
    case RB => w.rb
    case WR => w.wr
    case TE => w.te
    case K => w.k
    case DST => w.dst
  }

  /** All starting slots: s_qbs + ... + s_dsts (bench spots excluded). */
  function TotalSlots(c: SlotConfig): nat
  {
    c.qb + c.rb + c.wr + c.te + c.flex + c.superflex + c.k + c.dst
  }

  /** The slot-share weights, with all weights zero when there are no
      starting slots. */
  function RawWeights(c: SlotConfig): (w: PosWeights)
    ensures TotalSlots(c) == 0 ==> w == PosWeights(0.0, 0.0, 0.0, 0.0, 0.0, 0.0)
  {
    var t := TotalSlots(c);
    if t == 0 then PosWeights(0.0, 0.0, 0.0, 0.0, 0.0, 0.0)
    else
      var tr := t as real;
      PosWeights((c.qb + c.superflex) as real / tr,
                 (c.rb + c.flex + c.superflex) as real / tr,
                 (c.wr + c.flex + c.superflex) as real / tr,
                 (c.te + c.flex + c.superflex) as real / tr,
                 c.k as real / tr,
                 c.dst as real / tr)
  }

  /** Every weight is a share: between zero and one. */
  lemma WeightIsShare(c: SlotConfig, p: Pos)
    ensures 0.0 <= At(RawWeights(c), p) <= 1.0
  {
    var e, t := EligibleCount(SlotKinds, c, p), AllSlotCount(SlotKinds, c);
    WeightIsEligibleShare(c, p);
    EligibleWithinAll(SlotKinds, c, p);
    if t > 0 {
      ShareBound(e, t);
    }
  }

  lemma ShareBound(a: nat, t: nat)
    requires 0 < t && a <= t
    ensures 0.0 <= a as real / t as real <= 1.0
  {
  }

  // ---------------------------------------------------------------------
  // Reference: a position's weight is the share of starting slots it may fill

  /** Every kind of starting slot, FLEX and SuperFlex included. */
  const SlotKinds: seq<Slot> := [Fixed(QB), Fixed(RB), Fixed(WR), Fixed(TE), Flex, SuperFlex, Fixed(K), Fixed(DST)]

  function SlotCount(c: SlotConfig, s: Slot): nat
  {
    match s
    case Fixed(p) => FixedSlots(c, p)
    case Flex => c.flex
    case SuperFlex => c.superflex
  }

  /** How many of the given slots a player at `p` could fill. */
  function EligibleCount(kinds: seq<Slot>, c: SlotConfig, p: Pos): nat
  {
    if kinds == [] then 0
    else (if Eligible(kinds[0], p) then SlotCount(c, kinds[0]) else 0) + EligibleCount(kinds[1..], c, p)
  }

  function AllSlotCount(kinds: seq<Slot>, c: SlotConfig): nat
  {
    if kinds == [] then 0 else SlotCount(c, kinds[0]) + AllSlotCount(kinds[1..], c)
  }

  /** The slots a position may fill are among all the slots. */
  lemma {:induction false} EligibleWithinAll(kinds: seq<Slot>, c: SlotConfig, p: Pos)
    ensures EligibleCount(kinds, c, p) <= AllSlotCount(kinds, c)
  {
    if kinds != [] {
      EligibleWithinAll(kinds[1..], c, p);
    }
  }

  /** Counting over every kind of slot gives the source's total. */
  lemma AllSlotsAreTotal(c: SlotConfig)
    ensures AllSlotCount(SlotKinds, c) == TotalSlots(c)
  {
    var ks := SlotKinds;
    assert ks[8..] == [];
    assert AllSlotCount(ks[7..], c) == c.dst;
    assert AllSlotCount(ks[6..], c) == c.k + c.dst;
    assert AllSlotCount(ks[5..], c) == c.superflex + c.k + c.dst;
    assert AllSlotCount(ks[4..], c) == c.flex + c.superflex + c.k + c.dst;
    assert AllSlotCount(ks[3..], c) == c.te + c.flex + c.superflex + c.k + c.dst;
    assert AllSlotCount(ks[2..], c) == c.wr + c.te + c.flex + c.superflex + c.k + c.dst;
    assert AllSlotCount(ks[1..], c) == c.rb + c.wr + c.te + c.flex + c.superflex + c.k + c.dst;
  }

  /** The slots each position may fill: its own, FLEX for RB, WR and TE,
      SuperFlex for QB, RB, WR and TE. */
  lemma EligibleSlots(c: SlotConfig, p: Pos)
    ensures EligibleCount(SlotKinds, c, p) == match p
      case QB => c.qb + c.superflex
      case RB => c.rb + c.flex + c.superflex
      case WR => c.wr + c.flex + c.superflex
      case TE => c.te + c.flex + c.superflex
      case K => c.k
      case DST => c.dst
  {
    var ks := SlotKinds;
    assert ks[8..] == [];
    assert EligibleCount(ks[7..], c, p) == (if p == DST then c.dst else 0);
    assert EligibleCount(ks[6..], c, p) == (if p == K then c.k else 0) + EligibleCount(ks[7..], c, p);
    assert EligibleCount(ks[5..], c, p) == (if p != K && p != DST then c.superflex else 0) + EligibleCount(ks[6..], c, p);
    assert EligibleCount(ks[4..], c, p) == (if p == RB || p == WR || p == TE then c.flex else 0) + EligibleCount(ks[5..], c, p);
    assert EligibleCount(ks[3..], c, p) == (if p == TE then c.te else 0) + EligibleCount(ks[4..], c, p);
    assert EligibleCount(ks[2..], c, p) == (if p == WR then c.wr else 0) + EligibleCount(ks[3..], c, p);
    assert EligibleCount(ks[1..], c, p) == (if p == RB then c.rb else 0) + EligibleCount(ks[2..], c, p);
  }

  /** The source's weight formulas are the eligibility shares: the number
      of starting slots a position may fill over all starting slots. */
  lemma WeightIsEligibleShare(c: SlotConfig, p: Pos)
    ensures AllSlotCount(SlotKinds, c) > 0 ==>
      At(RawWeights(c), p) == EligibleCount(SlotKinds, c, p) as real / AllSlotCount(SlotKinds, c) as real
    ensures AllSlotCount(SlotKinds, c) == 0 ==> At(RawWeights(c), p) == 0.0
  {
    EligibleSlots(c, p);
    AllSlotsAreTotal(c);
  }

  // ---------------------------------------------------------------------
  // Dilution over the bench

  /** A weight shared out over `n` bench players; zero when there are none. */
  function Dilute(w: real, n: nat): (d: real)
    ensures n > 0 ==> d * n as real == w
    ensures n == 0 ==> d == 0.0
  {
    if n != 0 then w / n as real else 0.0
  }

  /** Each position's weight divided by its bench count. */
  function DilutedWeights(w: PosWeights, bench: seq<Player>): (d: PosWeights)
  {
    PosWeights(Dilute(w.qb, |OfPos(bench, QB)|), Dilute(w.rb, |OfPos(bench, RB)|),
               Dilute(w.wr, |OfPos(bench, WR)|), Dilute(w.te, |OfPos(bench, TE)|),
               Dilute(w.k, |OfPos(bench, K)|), Dilute(w.dst, |OfPos(bench, DST)|))
  }

  /** Every position's diluted weight `d`, times the number `n` of bench
      players at that position, gives back its weight; with no bench
      player there it is zero. */
  lemma DilutedAt(w: PosWeights, bench: seq<Player>, p: Pos, d: real, n: nat)
    requires d == At(DilutedWeights(w, bench), p) && n == |OfPos(bench, p)|
    ensures n > 0 ==> d * n as real == At(w, p)
    ensures n == 0 ==> d == 0.0
  {
    DilutedIsDilute(w, bench, p);
    DiluteRecovers(d, At(w, p), n);
  }

  lemma DiluteRecovers(d: real, a: real, n: nat)
    requires d == Dilute(a, n)
    ensures n > 0 ==> d * n as real == a
    ensures n == 0 ==> d == 0.0
  {
  }

  lemma DilutedIsDilute(w: PosWeights, bench: seq<Player>, p: Pos)
    ensures At(DilutedWeights(w, bench), p) == Dilute(At(w, p), |OfPos(bench, p)|)
  {
  }

  /** One bench row's "Weighted PPG": its value times its position's
      diluted weight. */
  function Weighted(x: Player, d: PosWeights): real
  {
    x.value * At(d, x.pos)
  }

  /** `adj_bench_weights_df['Weighted PPG'].sum()`: value times the diluted
      weight of its position. Only rows with one of the six positions
      survive the merge with the weight table. */
  function BenchContribution(bench: seq<Player>, d: PosWeights): real
  {
    if bench == [] then 0.0
    else Weighted(bench[0], d) + BenchContribution(bench[1..], d)
  }

  /** Starters' values plus the weighted bench, before rounding. */
  function RawScore(l: Lineup, c: SlotConfig): real
  {
    var bench := Players(l.bench);
    SumValues(StarterPlayers(l.starters)) + BenchContribution(bench, DilutedWeights(RawWeights(c), bench))
  }

  /** `round(x, 2)`, rounding half up. */
  function Round2(x: real): real
  {
    ((x * 100.0 + 0.5).Floor as real) / 100.0
  }

  /** The adjusted team score of a lineup. */
  function TeamScore(l: Lineup, c: SlotConfig): real
  {
    Round2(RawScore(l, c))
  }

  /** Allocate a valued roster and score it. */
  function Evaluate(rows: seq<Entry>, c: SlotConfig): real
  {
    TeamScore(Allocate(rows, c), c)
  }

  // ---------------------------------------------------------------------
  // Properties of the score

  /** What the bench players at one position contribute. */
  function PositionTotal(bench: seq<Player>, d: PosWeights, p: Pos): real
  {
    if bench == [] then 0.0
    else (if bench[0].pos == p then Weighted(bench[0], d) else 0.0) + PositionTotal(bench[1..], d, p)
  }

  /** The bench contribution, regrouped position by position. */
  lemma {:induction false} BenchContributionByPosition(bench: seq<Player>, d: PosWeights)
    ensures BenchContribution(bench, d)
      == PositionTotal(bench, d, QB) + PositionTotal(bench, d, RB) + PositionTotal(bench, d, WR)
       + PositionTotal(bench, d, TE) + PositionTotal(bench, d, K) + PositionTotal(bench, d, DST)
  {
    if bench != [] {
      BenchContributionByPosition(bench[1..], d);
    }
  }

  /** A position's total is its weight times the total value of the bench
      players at that position. */
  lemma {:induction false} PositionTotalIsScaledSum(bench: seq<Player>, d: PosWeights, p: Pos)
    ensures PositionTotal(bench, d, p) == At(d, p) * SumValues(OfPos(bench, p))
  {
    if bench != [] {
      PositionTotalIsScaledSum(bench[1..], d, p);
      if bench[0].pos == p {
        assert OfPos(bench, p) == [bench[0]] + OfPos(bench[1..], p);
        assert OfPos(bench, p)[1..] == OfPos(bench[1..], p);
        Distribute(At(d, p), bench[0].value, SumValues(OfPos(bench[1..], p)));
      } else {
        assert OfPos(bench, p) == OfPos(bench[1..], p);
      }
    }
  }

  lemma Distribute(a: real, v: real, rest: real)
    ensures a * (v + rest) == v * a + a * rest
  {
  }

  /** What one position of the bench adds: its weight times the average
      bench value there, or nothing when it has no bench players. */
  function AverageShare(w: real, atPos: seq<Player>): real
  {
    if |atPos| == 0 then 0.0 else w * (SumValues(atPos) / |atPos| as real)
  }

  lemma DilutedTotal(bench: seq<Player>, w: PosWeights, p: Pos)
    ensures PositionTotal(bench, DilutedWeights(w, bench), p) == AverageShare(At(w, p), OfPos(bench, p))
  {
    DilutedIsDilute(w, bench, p);
    MeanOfDiluted(bench, DilutedWeights(w, bench), At(w, p), p);
  }

  lemma MeanOfDiluted(bench: seq<Player>, d: PosWeights, a: real, p: Pos)
    requires At(d, p) == Dilute(a, |OfPos(bench, p)|)
    ensures PositionTotal(bench, d, p) == AverageShare(a, OfPos(bench, p))
  {
    PositionTotalIsScaledSum(bench, d, p);
    ScaledMean(a, SumValues(OfPos(bench, p)), |OfPos(bench, p)|);
  }

  /** Diluting a weight over n players and applying it to their total is
      applying the weight to their mean. */
  lemma ScaledMean(a: real, sum: real, n: nat)
    ensures Dilute(a, n) * sum == if n == 0 then 0.0 else a * (sum / n as real)
  {
    if n != 0 {
      DivideThenScale(a, sum, n as real);
    }
  }

  lemma DivideThenScale(a: real, s: real, n: real)
    requires n > 0.0
    ensures (a / n) * s == a * (s / n)
  {
    assert a / n == a * (1.0 / n);
    assert s / n == s * (1.0 / n);
  }

  /** The bench at each position with n > 0 players adds
      weight times (sum of their values) / n, and nothing otherwise. */
  lemma BenchIsWeightedAverage(bench: seq<Player>, c: SlotConfig)
    ensures var w := RawWeights(c);
      BenchContribution(bench, DilutedWeights(w, bench))
      == AverageShare(w.qb, OfPos(bench, QB)) + AverageShare(w.rb, OfPos(bench, RB))
       + AverageShare(w.wr, OfPos(bench, WR)) + AverageShare(w.te, OfPos(bench, TE))
       + AverageShare(w.k, OfPos(bench, K)) + AverageShare(w.dst, OfPos(bench, DST))
  {
    var w := RawWeights(c);
    BenchContributionByPosition(bench, DilutedWeights(w, bench));
    DilutedTotal(bench, w, QB);
    DilutedTotal(bench, w, RB);
    DilutedTotal(bench, w, WR);
    DilutedTotal(bench, w, TE);
    DilutedTotal(bench, w, K);
    DilutedTotal(bench, w, DST);
  }

  /** The score is the starters' total plus the weighted bench averages,
      rounded; unmatched bench rows add nothing. */
  lemma ScoreFormula(l: Lineup, c: SlotConfig)
    ensures var w := RawWeights(c);
      var bench := Players(l.bench);
      TeamScore(l, c) == Round2(SumValues(StarterPlayers(l.starters))
        + AverageShare(w.qb, OfPos(bench, QB)) + AverageShare(w.rb, OfPos(bench, RB))
        + AverageShare(w.wr, OfPos(bench, WR)) + AverageShare(w.te, OfPos(bench, TE))
        + AverageShare(w.k, OfPos(bench, K)) + AverageShare(w.dst, OfPos(bench, DST)))
  {
    var bench := Players(l.bench);
    BenchIsWeightedAverage(bench, c);
    assert TeamScore(l, c) == Round2(SumValues(StarterPlayers(l.starters))
      + BenchContribution(bench, DilutedWeights(RawWeights(c), bench)));
  }

  // ---------------------------------------------------------------------
  // Rounding

  /** Rounding to hundredths moves a value by at most half a hundredth. */
  lemma Round2Close(x: real)
    ensures x - 0.005 < Round2(x) <= x + 0.005
  {
    var f := (x * 100.0 + 0.5).Floor;
    assert f as real <= x * 100.0 + 0.5 < f as real + 1.0;
    assert Round2(x) == f as real / 100.0;
  }

  /** Rounding never reverses an order. */
  lemma Round2Monotone(x: real, y: real)
    requires x <= y
    ensures Round2(x) <= Round2(y)
  {
    var fx, fy := (x * 100.0 + 0.5).Floor, (y * 100.0 + 0.5).Floor;
    assert fx as real <= x * 100.0 + 0.5 <= y * 100.0 + 0.5 < fy as real + 1.0;
    assert fx <= fy;
  }

  /** A whole number of hundredths is already rounded. */
  lemma Round2Hundredths(n: int)
    ensures Round2(n as real / 100.0) == n as real / 100.0
  {
    assert (n as real / 100.0) * 100.0 + 0.5 == n as real + 0.5;
    assert (n as real + 0.5).Floor == n;
  }

  /** Rounding twice is rounding once. */
  lemma Round2Idempotent(x: real)
    ensures Round2(Round2(x)) == Round2(x)
  {
    var f := (x * 100.0 + 0.5).Floor;
    Round2Hundredths(f);
  }
}
