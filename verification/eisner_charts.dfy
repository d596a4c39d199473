/**
 * The recurrence of Eisner's decoder, as functions of an n x n arc-score
 * matrix `S` (`S[h][m]` is the score of the arc h -> m).
 *
 * For a span [i, j] there are four charts: complete or incomplete, with the
 * head at the right end (RH) or at the left end (LH). `Value(S, c, i, j)` is
 * what the decoder stores in chart `c` at [i][j], and `Best(S, c, i, j)` is
 * the pair (score, backpointer) its split loop leaves behind: the loop starts
 * from (-INF, -1) and replaces the running best only on a STRICTLY greater
 * candidate (`Scan`), so the first maximal split point wins.
 */
module EisnerCharts {

  /** The decoder's `INF`: `sys.maxsize` of a 64-bit build. */
  const INF: int := 0x7FFF_FFFF_FFFF_FFFF

  /** The four charts: `comp_rh`, `comp_lh`, `incomp_rh`, `incomp_lh`. */
  datatype Chart = CompRH | CompLH | IncompRH | IncompLH

  /** The running (max, bp) pair of a split loop. */
  datatype Choice = Choice(score: int, bp: int)

  /** `S` is a square score matrix. */
  predicate IsMatrix(S: seq<seq<int>>) {
    forall h :: 0 <= h < |S| ==> |S[h]| == |S|
  }

  /** Incomplete cells of a span are filled before complete ones. */
  function Rank(c: Chart): nat {
    if c.IncompRH? || c.IncompLH? then 0 else 1
  }

  /** Split points of chart `c` over [i, j] are Lo(c, i) .. Hi(c, j) - 1:
      [i, j-1] for three charts and [i+1, j] for `comp_lh`. */
  function Lo(c: Chart, i: int): int {
    if c.CompLH? then i + 1 else i
  }

  function Hi(c: Chart, j: int): int {
    if c.CompLH? then j + 1 else j
  }

  /** The score of split point k of chart `c` over [i, j]. */
  function Candidate(S: seq<seq<int>>, c: Chart, i: int, j: int, k: int): int
    requires IsMatrix(S) && 0 <= i < j < |S| && Lo(c, i) <= k < Hi(c, j)
    decreases j - i, Rank(c), 0, 0
  {
    match c
    case IncompRH => Value(S, CompLH, i, k) + Value(S, CompRH, k + 1, j) + S[j][i]
    case IncompLH => Value(S, CompLH, i, k) + Value(S, CompRH, k + 1, j) + S[i][j]
    case CompRH => Value(S, CompRH, i, k) + Value(S, IncompRH, k, j)
    case CompLH => Value(S, IncompLH, i, k) + Value(S, CompLH, k, j)
  }

  /** The split loop after trying the split points Lo(c, i) .. k - 1. */
  function Scan(S: seq<seq<int>>, c: Chart, i: int, j: int, k: int): Choice
    requires IsMatrix(S) && 0 <= i < j < |S| && Lo(c, i) <= k <= Hi(c, j)
    decreases j - i, Rank(c), 1, k - Lo(c, i)
  {
    if k == Lo(c, i) then Choice(-INF, -1)
    else
      var prev := Scan(S, c, i, j, k - 1);
      var score := Candidate(S, c, i, j, k - 1);
      if score > prev.score then Choice(score, k - 1) else prev
  }

  /** What the split loop of chart `c` over [i, j] stores. */
  function Best(S: seq<seq<int>>, c: Chart, i: int, j: int): Choice
    requires IsMatrix(S) && 0 <= i < j < |S|
    decreases j - i, Rank(c), 2, 0
  {
    Scan(S, c, i, j, Hi(c, j))
  }

  /** The entry of chart `c` at [i][j]; width-0 spans hold 0. */
  function Value(S: seq<seq<int>>, c: Chart, i: int, j: int): int
    requires IsMatrix(S) && 0 <= i <= j < |S|
    decreases j - i, Rank(c), 3, 0
  {
    if i == j then 0 else Best(S, c, i, j).score
  }

  /** The split loop's running pair: never below -INF, at least every
      candidate tried, and either still (-INF, -1) or the FIRST tried split
      point whose candidate is that maximum. */
  lemma {:induction false} ScanFacts(S: seq<seq<int>>, c: Chart, i: int, j: int, k: int)
    requires IsMatrix(S) && 0 <= i < j < |S| && Lo(c, i) <= k <= Hi(c, j)
    ensures Scan(S, c, i, j, k).score >= -INF
    ensures forall k' :: Lo(c, i) <= k' < k ==> Candidate(S, c, i, j, k') <= Scan(S, c, i, j, k).score
    ensures Scan(S, c, i, j, k).bp == -1 ==> Scan(S, c, i, j, k).score == -INF
    ensures Scan(S, c, i, j, k).bp != -1 ==>
      && Lo(c, i) <= Scan(S, c, i, j, k).bp < k
      && Scan(S, c, i, j, k).score == Candidate(S, c, i, j, Scan(S, c, i, j, k).bp)
      && forall k' :: Lo(c, i) <= k' < Scan(S, c, i, j, k).bp ==> Candidate(S, c, i, j, k') < Scan(S, c, i, j, k).score
    decreases k
  {
    if k > Lo(c, i) {
      ScanFacts(S, c, i, j, k - 1);
    }
  }

  /** Real arcs keep clear of the sentinel: even n copies of any arc score
      stay above -INF. */
  ghost predicate AboveSentinel(S: seq<seq<int>>) {
    IsMatrix(S) &&
    forall h, m :: 0 <= h < |S| && 0 <= m < |S| && h != m ==> |S| * S[h][m] > -INF
  }

  lemma MulMono(n: int, a: int, b: int)
    requires n >= 0 && a <= b
    ensures n * a <= n * b
  {
  }

  lemma MulCancel(n: int, a: int, b: int)
    requires n > 0 && n * a > n * b
    ensures a > b
  {
    if a <= b {
      MulMono(n, a, b);
    }
  }

  lemma Distrib(n: int, a: int, b: int)
    ensures n * (a + b) == n * a + n * b
  {
  }

  /** The first split candidate is no lower than the span's width times
      the lowest admissible arc score. */
  lemma {:induction false} CandidateLowerBound(S: seq<seq<int>>, c: Chart, i: int, j: int)
    requires AboveSentinel(S) && 0 <= i < j < |S|
    ensures |S| * Candidate(S, c, i, j, Lo(c, i)) >= (j - i) * (1 - INF)
    decreases j - i, Rank(c), 0
  {
    var n := |S|;
    var cand := Candidate(S, c, i, j, Lo(c, i));
    match c
    case IncompRH =>
      assert Value(S, CompLH, i, i) == 0;
      assert cand == Value(S, CompRH, i + 1, j) + S[j][i];
      Distrib(n, Value(S, CompRH, i + 1, j), S[j][i]);
      ValueLowerBound(S, CompRH, i + 1, j);
    case IncompLH =>
      assert Value(S, CompLH, i, i) == 0;
      assert cand == Value(S, CompRH, i + 1, j) + S[i][j];
      Distrib(n, Value(S, CompRH, i + 1, j), S[i][j]);
      ValueLowerBound(S, CompRH, i + 1, j);
    case CompRH =>
      assert Value(S, CompRH, i, i) == 0;
      assert cand == Value(S, IncompRH, i, j);
      ValueLowerBound(S, IncompRH, i, j);
    case CompLH =>
      assert cand == Value(S, IncompLH, i, i + 1) + Value(S, CompLH, i + 1, j);
      Distrib(n, Value(S, IncompLH, i, i + 1), Value(S, CompLH, i + 1, j));
      ValueLowerBound(S, IncompLH, i, i + 1);
      ValueLowerBound(S, CompLH, i + 1, j);
  }

  /** A span of width w covers w arcs, so its chart entries are at least
      w times the lowest admissible arc score. */
  lemma {:induction false} ValueLowerBound(S: seq<seq<int>>, c: Chart, i: int, j: int)
    requires AboveSentinel(S) && 0 <= i <= j < |S|
    ensures |S| * Value(S, c, i, j) >= (j - i) * (1 - INF)
    decreases j - i, Rank(c), 1
  {
    if i < j {
      var cand := Candidate(S, c, i, j, Lo(c, i));
      var v := Value(S, c, i, j);
      CandidateLowerBound(S, c, i, j);
      ScanFacts(S, c, i, j, Hi(c, j));
      assert v == Best(S, c, i, j).score;
      assert v == Scan(S, c, i, j, Hi(c, j)).score;
      assert cand <= v;
      MulMono(|S|, cand, v);
    }
  }

  lemma SentinelGap(n: int, w: int, x: int)
    requires 0 < w < n && n * x >= w * (1 - INF)
    ensures x > -INF
  {
    MulMono(INF - 1, w, n - 1);
    assert w * (1 - INF) >= (n - 1) * (1 - INF);
    assert (n - 1) * (1 - INF) > n * -INF;
    MulCancel(n, x, -INF);
  }

  /** Under `AboveSentinel` some split point beats -INF, so every split loop
      records a real backpointer. */
  lemma BestInRange(S: seq<seq<int>>, c: Chart, i: int, j: int)
    requires AboveSentinel(S) && 0 <= i < j < |S|
    ensures Lo(c, i) <= Best(S, c, i, j).bp < Hi(c, j)
  {
    CandidateLowerBound(S, c, i, j);
    ScanFacts(S, c, i, j, Hi(c, j));
    SentinelGap(|S|, j - i, Candidate(S, c, i, j, Lo(c, i)));
  }

  /** Each chart entry over a non-empty span is the maximum of its split
      candidates, and its backpointer is the smallest split point reaching
      that maximum. */
  lemma BestIsFirstMaximum(S: seq<seq<int>>, c: Chart, i: int, j: int)
    requires AboveSentinel(S) && 0 <= i < j < |S|
    ensures Lo(c, i) <= Best(S, c, i, j).bp < Hi(c, j)
    ensures Value(S, c, i, j) == Candidate(S, c, i, j, Best(S, c, i, j).bp)
    ensures forall k :: Lo(c, i) <= k < Hi(c, j) ==> Candidate(S, c, i, j, k) <= Value(S, c, i, j)
    ensures forall k :: Lo(c, i) <= k < Best(S, c, i, j).bp ==> Candidate(S, c, i, j, k) < Value(S, c, i, j)
  {
    ScanFacts(S, c, i, j, Hi(c, j));
    BestInRange(S, c, i, j);
  }
}
