/**
 * Eisner's first-order projective decoder (`parse`): the arc-score table,
 * the four charts with their backpointer tables filled bottom-up over span
 * widths, and the recursive backtracking that writes the heads in place.
 * Each phase is proved against the functions of `EisnerCharts` and
 * `EisnerTree`, which say what the charts hold and which tree they encode.
 */
module Eisner {
  import opened Words
  import opened Features
  import opened EisnerCharts
  import opened EisnerTree

  /** Every feature index of `fs` addresses a weight. */
  predicate InBounds(fs: seq<int>, len: int) {
    forall t :: 0 <= t < |fs| ==> 0 <= fs[t] < len
  }

  function WeightAt(w: seq<int>, f: int): int {
    if 0 <= f < |w| then w[f] else 0
  }

  /** The weights of the feature indexes `fs`, added in order. */
  function SumWeights(w: seq<int>, fs: seq<int>): int
    decreases |fs|
  {
    if fs == [] then 0 else SumWeights(w, fs[..|fs| - 1]) + WeightAt(w, fs[|fs| - 1])
  }

  /** The edge map's feature list for an arc, or none. */
  function FeatsOf(ef: EdgeFeats, h: int, m: int): seq<int> {
    if (h, m) in ef then ef[(h, m)] else []
  }

  /** The score of the arc h -> m: the summed weights of its features, and
      -INF for a self-loop. */
  function ArcScore(w: seq<int>, ef: EdgeFeats, h: int, m: int): int {
    if h != m then SumWeights(w, FeatsOf(ef, h, m)) else -INF
  }

  /** The arc-score table of a sentence of length n, as a matrix. */
  function ScoreMatrix(w: seq<int>, ef: EdgeFeats, n: nat): (S: seq<seq<int>>)
    ensures |S| == n && IsMatrix(S)
  {
    seq(n, h => seq(n, m => ArcScore(w, ef, h, m)))
  }

  /** The arc-score loop: every ordered pair of positions gets its score. */
  method ArcScores(n: nat, weights: seq<int>, edgeFeats: EdgeFeats) returns (scores: map<(int, int), int>)
    requires forall h, m :: IsArc(n, h, m) ==> (h, m) in edgeFeats && InBounds(edgeFeats[(h, m)], |weights|)
    ensures forall h, m :: 0 <= h < n && 0 <= m < n ==>
      (h, m) in scores && scores[(h, m)] == ScoreMatrix(weights, edgeFeats, n)[h][m]
  {
    scores := map[];
    for iHead := 0 to n
      invariant forall h, m :: 0 <= h < iHead && 0 <= m < n ==>
        (h, m) in scores && scores[(h, m)] == ArcScore(weights, edgeFeats, h, m)
    {
      for iMod := 0 to n
        invariant forall h, m :: 0 <= h < iHead && 0 <= m < n ==>
          (h, m) in scores && scores[(h, m)] == ArcScore(weights, edgeFeats, h, m)
        invariant forall m :: 0 <= m < iMod ==>
          (iHead, m) in scores && scores[(iHead, m)] == ArcScore(weights, edgeFeats, iHead, m)
      {
        var score;
        if iHead != iMod {
          score := 0;
          var feats := edgeFeats[(iHead, iMod)];
          for t := 0 to |feats|
            invariant score == SumWeights(weights, feats[..t])
          {
            assert feats[..t + 1][..t] == feats[..t];
            score := score + weights[feats[t]];
          }
          assert feats[..|feats|] == feats;
        } else {
          score := -INF;
        }
        scores := scores[(iHead, iMod) := score];
      }
    }
  }

  // ---------------------------------------------------------------------
  // The charts

  predicate Square(A: array2<int>, n: int) {
    A.Length0 == n && A.Length1 == n
  }

  /** Cell (a, b) has been filled once the spans narrower than m and the
      spans of width m that start before i are done. */
  predicate Done(a: int, b: int, m: int, i: int) {
    b - a < m || (b - a == m && a < i)
  }

  /** The filled cells of chart table `A` hold the values of chart `c`. */
  ghost predicate ChartHolds(S: seq<seq<int>>, A: array2<int>, c: Chart, m: int, i: int)
    reads A
    requires IsMatrix(S) && Square(A, |S|)
  {
    forall a, b {:trigger A[a, b]} :: 0 <= a <= b < |S| && Done(a, b, m, i) ==> A[a, b] == Value(S, c, a, b)
  }

  /** The filled cells of backpointer table `B` hold the split points of
      chart `c`. */
  ghost predicate BpHolds(S: seq<seq<int>>, B: array2<int>, c: Chart, m: int, i: int)
    reads B
    requires IsMatrix(S) && Square(B, |S|)
  {
    forall a, b {:trigger B[a, b]} :: 0 <= a < b < |S| && Done(a, b, m, i) ==> B[a, b] == Best(S, c, a, b).bp
  }

  /** The split loop of an incomplete span [i, j]; `ex` is the score of its
      own arc. */
  method BestIncomplete(ghost S: seq<seq<int>>, ghost c: Chart, compLH: array2<int>, compRH: array2<int>, i: int, j: int, ex: int)
    returns (max: int, bp: int)
    requires IsMatrix(S) && 0 <= i < j < |S| && Square(compLH, |S|) && Square(compRH, |S|)
    requires c == IncompRH || c == IncompLH
    requires ex == if c == IncompRH then S[j][i] else S[i][j]
    requires ChartHolds(S, compLH, CompLH, j - i, i) && ChartHolds(S, compRH, CompRH, j - i, i)
    ensures Choice(max, bp) == Best(S, c, i, j)
  {
    max := -INF;
    bp := -1;
    for k := i to j
      invariant Choice(max, bp) == Scan(S, c, i, j, k)
    {
      var score := compLH[i, k] + compRH[k + 1, j] + ex;
      if score > max {
        max := score;
        bp := k;
      }
    }
  }

  /** The split loop of a complete right-headed span [i, j]. */
  method BestCompRH(ghost S: seq<seq<int>>, compRH: array2<int>, incompRH: array2<int>, i: int, j: int)
    returns (max: int, bp: int)
    requires IsMatrix(S) && 0 <= i < j < |S| && Square(compRH, |S|) && Square(incompRH, |S|)
    requires ChartHolds(S, compRH, CompRH, j - i, i) && ChartHolds(S, incompRH, IncompRH, j - i, i + 1)
    ensures Choice(max, bp) == Best(S, CompRH, i, j)
  {
    max := -INF;
    bp := -1;
    for k := i to j
      invariant Choice(max, bp) == Scan(S, CompRH, i, j, k)
    {
      var score := compRH[i, k] + incompRH[k, j];
      if score > max {
        max := score;
        bp := k;
      }
    }
  }

  /** The split loop of a complete left-headed span [i, j]. */
  method BestCompLH(ghost S: seq<seq<int>>, incompLH: array2<int>, compLH: array2<int>, i: int, j: int)
    returns (max: int, bp: int)
    requires IsMatrix(S) && 0 <= i < j < |S| && Square(incompLH, |S|) && Square(compLH, |S|)
    requires ChartHolds(S, incompLH, IncompLH, j - i, i + 1) && ChartHolds(S, compLH, CompLH, j - i, i)
    ensures Choice(max, bp) == Best(S, CompLH, i, j)
  {
    max := -INF;
    bp := -1;
    for k := i + 1 to j + 1
      invariant Choice(max, bp) == Scan(S, CompLH, i, j, k)
    {
      var score := incompLH[i, k] + compLH[k, j];
      if score > max {
        max := score;
        bp := k;
      }
    }
  }

  /** Stores the value and the split point of chart `c` over [i, i + m]
      in their cells. */
  method StoreCell(ghost S: seq<seq<int>>, A: array2<int>, B: array2<int>, ghost c: Chart, m: int, i: int, v: int, bp: int)
    requires IsMatrix(S) && Square(A, |S|) && Square(B, |S|) && A != B && 0 <= i && 1 <= m && i + m < |S|
    requires ChartHolds(S, A, c, m, i) && BpHolds(S, B, c, m, i)
    requires Choice(v, bp) == Best(S, c, i, i + m)
    modifies A, B
    ensures ChartHolds(S, A, c, m, i + 1) && BpHolds(S, B, c, m, i + 1)
  {
    A[i, i + m] := v;
    B[i, i + m] := bp;
  }

  /** The incomplete cells of span [i, i + m], right-headed first. */
  method FillIncomplete(ghost S: seq<seq<int>>, scores: map<(int, int), int>,
                        compLH: array2<int>, compRH: array2<int>,
                        incompRH: array2<int>, bpIncompRH: array2<int>,
                        incompLH: array2<int>, bpIncompLH: array2<int>, m: int, i: int)
    requires IsMatrix(S) && 0 <= i && 1 <= m && i + m < |S|
    requires forall h, m :: 0 <= h < |S| && 0 <= m < |S| ==> (h, m) in scores && scores[(h, m)] == S[h][m]
    requires Square(compLH, |S|) && Square(compRH, |S|)
    requires Square(incompRH, |S|) && Square(bpIncompRH, |S|) && Square(incompLH, |S|) && Square(bpIncompLH, |S|)
    requires incompRH != bpIncompRH && incompRH != incompLH && incompRH != bpIncompLH
    requires bpIncompRH != incompLH && bpIncompRH != bpIncompLH && incompLH != bpIncompLH
    requires compLH !in {incompRH, bpIncompRH, incompLH, bpIncompLH}
    requires compRH !in {incompRH, bpIncompRH, incompLH, bpIncompLH}
    requires ChartHolds(S, compLH, CompLH, m, i) && ChartHolds(S, compRH, CompRH, m, i)
    requires ChartHolds(S, incompRH, IncompRH, m, i) && BpHolds(S, bpIncompRH, IncompRH, m, i)
    requires ChartHolds(S, incompLH, IncompLH, m, i) && BpHolds(S, bpIncompLH, IncompLH, m, i)
    modifies incompRH, bpIncompRH, incompLH, bpIncompLH
    ensures ChartHolds(S, incompRH, IncompRH, m, i + 1) && BpHolds(S, bpIncompRH, IncompRH, m, i + 1)
    ensures ChartHolds(S, incompLH, IncompLH, m, i + 1) && BpHolds(S, bpIncompLH, IncompLH, m, i + 1)
  {
    var j := i + m;
    var max, bp := BestIncomplete(S, IncompRH, compLH, compRH, i, j, scores[(j, i)]);
    StoreCell(S, incompRH, bpIncompRH, IncompRH, m, i, max, bp);
    max, bp := BestIncomplete(S, IncompLH, compLH, compRH, i, j, scores[(i, j)]);
    StoreCell(S, incompLH, bpIncompLH, IncompLH, m, i, max, bp);
  }

  /** The complete cells of span [i, i + m], right-headed first; they read
      the incomplete cells of the same span. */
  method FillComplete(ghost S: seq<seq<int>>,
                      compRH: array2<int>, bpCompRH: array2<int>,
                      compLH: array2<int>, bpCompLH: array2<int>,
                      incompRH: array2<int>, incompLH: array2<int>, m: int, i: int)
    requires IsMatrix(S) && 0 <= i && 1 <= m && i + m < |S|
    requires Square(incompRH, |S|) && Square(incompLH, |S|)
    requires Square(compRH, |S|) && Square(bpCompRH, |S|) && Square(compLH, |S|) && Square(bpCompLH, |S|)
    requires compRH != bpCompRH && compRH != compLH && compRH != bpCompLH
    requires bpCompRH != compLH && bpCompRH != bpCompLH && compLH != bpCompLH
    requires incompRH !in {compRH, bpCompRH, compLH, bpCompLH}
    requires incompLH !in {compRH, bpCompRH, compLH, bpCompLH}
    requires ChartHolds(S, incompRH, IncompRH, m, i + 1) && ChartHolds(S, incompLH, IncompLH, m, i + 1)
    requires ChartHolds(S, compRH, CompRH, m, i) && BpHolds(S, bpCompRH, CompRH, m, i)
    requires ChartHolds(S, compLH, CompLH, m, i) && BpHolds(S, bpCompLH, CompLH, m, i)
    modifies compRH, bpCompRH, compLH, bpCompLH
    ensures ChartHolds(S, compRH, CompRH, m, i + 1) && BpHolds(S, bpCompRH, CompRH, m, i + 1)
    ensures ChartHolds(S, compLH, CompLH, m, i + 1) && BpHolds(S, bpCompLH, CompLH, m, i + 1)
  {
    var j := i + m;
    var max, bp := BestCompRH(S, compRH, incompRH, i, j);
    StoreCell(S, compRH, bpCompRH, CompRH, m, i, max, bp);
    max, bp := BestCompLH(S, incompLH, compLH, i, j);
    StoreCell(S, compLH, bpCompLH, CompLH, m, i, max, bp);
  }

  /** The eight tables are eight different arrays. */
  predicate Separate(compRH: array2<int>, compLH: array2<int>, incompRH: array2<int>, incompLH: array2<int>, bpCompRH: array2<int>, bpCompLH: array2<int>, bpIncompRH: array2<int>, bpIncompLH: array2<int>) {
    compRH != compLH && compRH != incompRH && compRH != incompLH && compRH != bpCompRH &&
    compRH != bpCompLH && compRH != bpIncompRH && compRH != bpIncompLH && compLH != incompRH &&
    compLH != incompLH && compLH != bpCompRH && compLH != bpCompLH && compLH != bpIncompRH &&
    compLH != bpIncompLH && incompRH != incompLH && incompRH != bpCompRH && incompRH != bpCompLH &&
    incompRH != bpIncompRH && incompRH != bpIncompLH && incompLH != bpCompRH && incompLH != bpCompLH &&
    incompLH != bpIncompRH && incompLH != bpIncompLH && bpCompRH != bpCompLH && bpCompRH != bpIncompRH &&
    bpCompRH != bpIncompLH && bpCompLH != bpIncompRH && bpCompLH != bpIncompLH && bpIncompRH != bpIncompLH
  }

  /** One pass of the width loop: every span of width m, by start point. */
  method FillWidth(ghost S: seq<seq<int>>, scores: map<(int, int), int>, compRH: array2<int>, compLH: array2<int>, incompRH: array2<int>, incompLH: array2<int>, bpCompRH: array2<int>, bpCompLH: array2<int>, bpIncompRH: array2<int>, bpIncompLH: array2<int>, n: nat, m: int)
    requires IsMatrix(S) && |S| == n && 1 <= m < n
    requires forall h, m :: 0 <= h < |S| && 0 <= m < |S| ==> (h, m) in scores && scores[(h, m)] == S[h][m]
    requires Square(compRH, |S|) && Square(compLH, |S|) && Square(incompRH, |S|) && Square(incompLH, |S|)
    requires Square(bpCompRH, |S|) && Square(bpCompLH, |S|) && Square(bpIncompRH, |S|) && Square(bpIncompLH, |S|)
    requires Separate(compRH, compLH, incompRH, incompLH, bpCompRH, bpCompLH, bpIncompRH, bpIncompLH)
    requires ChartHolds(S, compRH, CompRH, m, 0) && ChartHolds(S, compLH, CompLH, m, 0)
    requires ChartHolds(S, incompRH, IncompRH, m, 0) && ChartHolds(S, incompLH, IncompLH, m, 0)
    requires BpHolds(S, bpCompRH, CompRH, m, 0) && BpHolds(S, bpCompLH, CompLH, m, 0)
    requires BpHolds(S, bpIncompRH, IncompRH, m, 0) && BpHolds(S, bpIncompLH, IncompLH, m, 0)
    modifies compRH, compLH, incompRH, incompLH, bpCompRH, bpCompLH, bpIncompRH, bpIncompLH
    ensures ChartHolds(S, compRH, CompRH, m + 1, 0) && ChartHolds(S, compLH, CompLH, m + 1, 0)
    ensures ChartHolds(S, incompRH, IncompRH, m + 1, 0) && ChartHolds(S, incompLH, IncompLH, m + 1, 0)
    ensures BpHolds(S, bpCompRH, CompRH, m + 1, 0) && BpHolds(S, bpCompLH, CompLH, m + 1, 0)
    ensures BpHolds(S, bpIncompRH, IncompRH, m + 1, 0) && BpHolds(S, bpIncompLH, IncompLH, m + 1, 0)
  {
    for i := 0 to n
        invariant ChartHolds(S, compRH, CompRH, m, i) && ChartHolds(S, compLH, CompLH, m, i)
        invariant ChartHolds(S, incompRH, IncompRH, m, i) && ChartHolds(S, incompLH, IncompLH, m, i)
        invariant BpHolds(S, bpCompRH, CompRH, m, i) && BpHolds(S, bpCompLH, CompLH, m, i)
        invariant BpHolds(S, bpIncompRH, IncompRH, m, i) && BpHolds(S, bpIncompLH, IncompLH, m, i)
    {
      var j := i + m;
      if j >= n {
        break;
      }
      FillIncomplete(S, scores, compLH, compRH, incompRH, bpIncompRH, incompLH, bpIncompLH, m, i);
      FillComplete(S, compRH, bpCompRH, compLH, bpCompLH, incompRH, incompLH, m, i);
    }
  }

  /** The chart-filling loops: the diagonal, then every span width m from 1
      up, every start i until the span runs past the sentence. Afterwards
      every chart cell holds its `Value` and every backpointer cell its
      `Best` split point. */
  method FillCharts(ghost S: seq<seq<int>>, scores: map<(int, int), int>, n: nat)
    returns (compRH: array2<int>, compLH: array2<int>, incompRH: array2<int>, incompLH: array2<int>,
             bpCompRH: array2<int>, bpCompLH: array2<int>, bpIncompRH: array2<int>, bpIncompLH: array2<int>)
    requires IsMatrix(S) && |S| == n
    requires forall h, m :: 0 <= h < n && 0 <= m < n ==> (h, m) in scores && scores[(h, m)] == S[h][m]
    ensures fresh(compRH) && fresh(compLH) && fresh(incompRH) && fresh(incompLH)
    ensures fresh(bpCompRH) && fresh(bpCompLH) && fresh(bpIncompRH) && fresh(bpIncompLH)
    ensures Square(compRH, n) && Square(compLH, n) && Square(incompRH, n) && Square(incompLH, n)
    ensures Square(bpCompRH, n) && Square(bpCompLH, n) && Square(bpIncompRH, n) && Square(bpIncompLH, n)
    ensures ChartHolds(S, compRH, CompRH, n, 0) && ChartHolds(S, compLH, CompLH, n, 0)
    ensures ChartHolds(S, incompRH, IncompRH, n, 0) && ChartHolds(S, incompLH, IncompLH, n, 0)
    ensures BpHolds(S, bpCompRH, CompRH, n, 0) && BpHolds(S, bpCompLH, CompLH, n, 0)
    ensures BpHolds(S, bpIncompRH, IncompRH, n, 0) && BpHolds(S, bpIncompLH, IncompLH, n, 0)
  {
    compRH := new int[n, n];
    compLH := new int[n, n];
    incompRH := new int[n, n];
    incompLH := new int[n, n];
    bpCompRH := new int[n, n];
    bpCompLH := new int[n, n];
    bpIncompRH := new int[n, n];
    bpIncompLH := new int[n, n];

    for i := 0 to n
      invariant forall a :: 0 <= a < i ==> compRH[a, a] == 0 && compLH[a, a] == 0
      invariant forall a :: 0 <= a < i ==> incompRH[a, a] == 0 && incompLH[a, a] == 0
    {
      compRH[i, i] := 0;
      compLH[i, i] := 0;
      incompRH[i, i] := 0;
      incompLH[i, i] := 0;
    }

    assert Separate(compRH, compLH, incompRH, incompLH, bpCompRH, bpCompLH, bpIncompRH, bpIncompLH);
    var m := 1;
    while m < n
      invariant 1 <= m && (n >= 1 ==> m <= n)
      invariant ChartHolds(S, compRH, CompRH, m, 0) && ChartHolds(S, compLH, CompLH, m, 0)
      invariant ChartHolds(S, incompRH, IncompRH, m, 0) && ChartHolds(S, incompLH, IncompLH, m, 0)
      invariant BpHolds(S, bpCompRH, CompRH, m, 0) && BpHolds(S, bpCompLH, CompLH, m, 0)
      invariant BpHolds(S, bpIncompRH, IncompRH, m, 0) && BpHolds(S, bpIncompLH, IncompLH, m, 0)
    {
      FillWidth(S, scores, compRH, compLH, incompRH, incompLH, bpCompRH, bpCompLH, bpIncompRH, bpIncompLH, n, m);
      m := m + 1;
    }
  }

  // ---------------------------------------------------------------------
  // Backtracking

  lemma OverlayEmpty(s: seq<int>)
    ensures Overlay(s, map[]) == s
  {
  }

  lemma OverlayThen(s: seq<int>, A: map<int, int>, B: map<int, int>)
    ensures Overlay(Overlay(s, A), B) == Overlay(s, A + B)
  {
  }

  lemma OverlayWrite(s: seq<int>, x: int, v: int)
    requires 0 <= x < |s|
    ensures s[x := v] == Overlay(s, map[x := v])
  {
  }

  /** A write that a later overlay overwrites leaves no trace. */
  lemma OverlayShadow(s: seq<int>, x: int, v: int, T: map<int, int>)
    requires 0 <= x < |s| && x in T
    ensures Overlay(s[x := v], T) == Overlay(s, T)
  {
  }

  /** The writes of a complete left-headed span: two provisional heads,
      then the trees of both parts, amount to the span's tree. */
  lemma CompLHWrites(S: seq<seq<int>>, h0: seq<int>, i: int, j: int, k: int)
    requires AboveSentinel(S) && 0 <= i < j < |S| && |h0| == |S| && k == Best(S, CompLH, i, j).bp
    ensures i < k <= j
    ensures Overlay(Overlay(h0[k := i][j := k], Tree(S, IncompLH, i, k)), Tree(S, CompLH, k, j))
         == Overlay(h0, Tree(S, CompLH, i, j))
  {
    BestInRange(S, CompLH, i, j);
    TreeDomain(S, IncompLH, i, k);
    TreeDomain(S, CompLH, k, j);
    var T := Tree(S, IncompLH, i, k) + Tree(S, CompLH, k, j);
    assert T == Tree(S, CompLH, i, j);
    OverlayThen(h0[k := i][j := k], Tree(S, IncompLH, i, k), Tree(S, CompLH, k, j));
    OverlayShadow(h0[k := i], j, k, T);
    OverlayShadow(h0, k, i, T);
  }

  /** The same for a complete right-headed span. */
  lemma CompRHWrites(S: seq<seq<int>>, h0: seq<int>, i: int, j: int, k: int)
    requires AboveSentinel(S) && 0 <= i < j < |S| && |h0| == |S| && k == Best(S, CompRH, i, j).bp
    ensures i <= k < j
    ensures Overlay(Overlay(h0[k := j][i := k], Tree(S, CompRH, i, k)), Tree(S, IncompRH, k, j))
         == Overlay(h0, Tree(S, CompRH, i, j))
  {
    BestInRange(S, CompRH, i, j);
    TreeDomain(S, CompRH, i, k);
    TreeDomain(S, IncompRH, k, j);
    var T := Tree(S, CompRH, i, k) + Tree(S, IncompRH, k, j);
    assert T == Tree(S, CompRH, i, j);
    OverlayThen(h0[k := j][i := k], Tree(S, CompRH, i, k), Tree(S, IncompRH, k, j));
    OverlayShadow(h0[k := j], i, k, T);
    OverlayShadow(h0, k, j, T);
  }

  /** The writes of an incomplete span: its own arc, then the trees of both
      parts, amount to the span's tree. */
  lemma IncompWrites(S: seq<seq<int>>, h0: seq<int>, c: Chart, i: int, j: int, k: int)
    requires AboveSentinel(S) && 0 <= i < j < |S| && |h0| == |S| && k == Best(S, c, i, j).bp
    requires c == IncompLH || c == IncompRH
    ensures i <= k < j
    ensures var x, v := if c == IncompLH then j else i, if c == IncompLH then i else j;
      Overlay(Overlay(h0[x := v], Tree(S, CompLH, i, k)), Tree(S, CompRH, k + 1, j))
        == Overlay(h0, Tree(S, c, i, j))
  {
    BestInRange(S, c, i, j);
    var x, v := if c == IncompLH then j else i, if c == IncompLH then i else j;
    var A, B := Tree(S, CompLH, i, k), Tree(S, CompRH, k + 1, j);
    assert Tree(S, c, i, j) == map[x := v] + A + B;
    assert map[x := v] + A + B == map[x := v] + (A + B);
    OverlayThen(h0[x := v], A, B);
    OverlayWrite(h0, x, v);
    OverlayThen(h0, map[x := v], A + B);
  }

  /** The four backpointer tables, filled in full. */
  ghost predicate BpTables(S: seq<seq<int>>, bpCompRH: array2<int>, bpCompLH: array2<int>,
                           bpIncompRH: array2<int>, bpIncompLH: array2<int>)
    reads bpCompRH, bpCompLH, bpIncompRH, bpIncompLH
    requires IsMatrix(S)
  {
    && Square(bpCompRH, |S|) && Square(bpCompLH, |S|) && Square(bpIncompRH, |S|) && Square(bpIncompLH, |S|)
    && BpHolds(S, bpCompRH, CompRH, |S|, 0) && BpHolds(S, bpCompLH, CompLH, |S|, 0)
    && BpHolds(S, bpIncompRH, IncompRH, |S|, 0) && BpHolds(S, bpIncompLH, IncompLH, |S|, 0)
  }

  /** `_backtrack`: writes the heads of the tree of chart `c` over [i, j]
      into `heads`, leaving every other position as it was. Each chart's
      branch is its own method below. */
  method Backtrack(ghost S: seq<seq<int>>,
                   bpCompRH: array2<int>, bpCompLH: array2<int>, bpIncompRH: array2<int>, bpIncompLH: array2<int>,
                   heads: array<int>, i: int, j: int, c: Chart)
    requires AboveSentinel(S) && 0 <= i <= j < |S| && heads.Length == |S|
    requires BpTables(S, bpCompRH, bpCompLH, bpIncompRH, bpIncompLH)
    modifies heads
    ensures heads[..] == Overlay(old(heads[..]), Tree(S, c, i, j))
    decreases j - i, Rank(c), 1
  {
    if i == j {
      OverlayEmpty(heads[..]);
      return;
    } else if c == CompLH {
      BacktrackCompLH(S, bpCompRH, bpCompLH, bpIncompRH, bpIncompLH, heads, i, j);
    }
    if c == CompRH {
      BacktrackCompRH(S, bpCompRH, bpCompLH, bpIncompRH, bpIncompLH, heads, i, j);
    } else if c == IncompLH {
      BacktrackIncompLH(S, bpCompRH, bpCompLH, bpIncompRH, bpIncompLH, heads, i, j);
    } else if c == IncompRH {
      BacktrackIncompRH(S, bpCompRH, bpCompLH, bpIncompRH, bpIncompLH, heads, i, j);
    }
  }

  /** A complete left-headed span: two provisional heads, then its two
      parts; both provisional heads are overwritten by the recursive calls. */
  method BacktrackCompLH(ghost S: seq<seq<int>>,
                   bpCompRH: array2<int>, bpCompLH: array2<int>, bpIncompRH: array2<int>, bpIncompLH: array2<int>,
                   heads: array<int>, i: int, j: int)
    requires AboveSentinel(S) && 0 <= i < j < |S| && heads.Length == |S|
    requires BpTables(S, bpCompRH, bpCompLH, bpIncompRH, bpIncompLH)
    modifies heads
    ensures heads[..] == Overlay(old(heads[..]), Tree(S, CompLH, i, j))
    decreases j - i, Rank(CompLH), 0
  {
    ghost var h0 := heads[..];
    var k := bpCompLH[i, j];
    CompLHWrites(S, h0, i, j, k);
    heads[k] := i;
    heads[j] := k;
    Backtrack(S, bpCompRH, bpCompLH, bpIncompRH, bpIncompLH, heads, i, k, IncompLH);
    Backtrack(S, bpCompRH, bpCompLH, bpIncompRH, bpIncompLH, heads, k, j, CompLH);
  }

  /** A complete right-headed span, the mirror image. */
  method BacktrackCompRH(ghost S: seq<seq<int>>,
                   bpCompRH: array2<int>, bpCompLH: array2<int>, bpIncompRH: array2<int>, bpIncompLH: array2<int>,
                   heads: array<int>, i: int, j: int)
    requires AboveSentinel(S) && 0 <= i < j < |S| && heads.Length == |S|
    requires BpTables(S, bpCompRH, bpCompLH, bpIncompRH, bpIncompLH)
    modifies heads
    ensures heads[..] == Overlay(old(heads[..]), Tree(S, CompRH, i, j))
    decreases j - i, Rank(CompRH), 0
  {
    ghost var h0 := heads[..];
    var k := bpCompRH[i, j];
    CompRHWrites(S, h0, i, j, k);
    heads[k] := j;
    heads[i] := k;
    Backtrack(S, bpCompRH, bpCompLH, bpIncompRH, bpIncompLH, heads, i, k, CompRH);
    Backtrack(S, bpCompRH, bpCompLH, bpIncompRH, bpIncompLH, heads, k, j, IncompRH);
  }

  /** An incomplete left-headed span: its own arc, then its two parts. */
  method BacktrackIncompLH(ghost S: seq<seq<int>>,
                   bpCompRH: array2<int>, bpCompLH: array2<int>, bpIncompRH: array2<int>, bpIncompLH: array2<int>,
                   heads: array<int>, i: int, j: int)
    requires AboveSentinel(S) && 0 <= i < j < |S| && heads.Length == |S|
    requires BpTables(S, bpCompRH, bpCompLH, bpIncompRH, bpIncompLH)
    modifies heads
    ensures heads[..] == Overlay(old(heads[..]), Tree(S, IncompLH, i, j))
    decreases j - i, Rank(IncompLH), 0
  {
    ghost var h0 := heads[..];
    var k := bpIncompLH[i, j];
    IncompWrites(S, h0, IncompLH, i, j, k);
    heads[j] := i;
    Backtrack(S, bpCompRH, bpCompLH, bpIncompRH, bpIncompLH, heads, i, k, CompLH);
    Backtrack(S, bpCompRH, bpCompLH, bpIncompRH, bpIncompLH, heads, k + 1, j, CompRH);
  }

  /** An incomplete right-headed span, the mirror image. */
  method BacktrackIncompRH(ghost S: seq<seq<int>>,
                   bpCompRH: array2<int>, bpCompLH: array2<int>, bpIncompRH: array2<int>, bpIncompLH: array2<int>,
                   heads: array<int>, i: int, j: int)
    requires AboveSentinel(S) && 0 <= i < j < |S| && heads.Length == |S|
    requires BpTables(S, bpCompRH, bpCompLH, bpIncompRH, bpIncompLH)
    modifies heads
    ensures heads[..] == Overlay(old(heads[..]), Tree(S, IncompRH, i, j))
    decreases j - i, Rank(IncompRH), 0
  {
    ghost var h0 := heads[..];
    var k := bpIncompRH[i, j];
    IncompWrites(S, h0, IncompRH, i, j, k);
    heads[i] := j;
    Backtrack(S, bpCompRH, bpCompLH, bpIncompRH, bpIncompLH, heads, i, k, CompLH);
    Backtrack(S, bpCompRH, bpCompLH, bpIncompRH, bpIncompLH, heads, k + 1, j, CompRH);
  }

  /** `parse`: the heads of the tree that the decoder's first-maximum
      backpointers select. The answer is the tree of the whole-sentence
      chart; it is a projective tree rooted at position 0, and its arcs
      score what the chart holds. */
  method Parse(sentence: seq<Word>, weights: seq<int>, edgeFeats: EdgeFeats) returns (heads: seq<int>)
    requires |sentence| >= 1
    requires forall h, m :: IsArc(|sentence|, h, m) ==> (h, m) in edgeFeats && InBounds(edgeFeats[(h, m)], |weights|)
    requires AboveSentinel(ScoreMatrix(weights, edgeFeats, |sentence|))
    ensures heads == TreeHeads(ScoreMatrix(weights, edgeFeats, |sentence|))
    ensures |heads| == |sentence| && IsProjectiveTree(heads)
    ensures ArcSum(ScoreMatrix(weights, edgeFeats, |sentence|), heads, 1, |sentence|)
         == Value(ScoreMatrix(weights, edgeFeats, |sentence|), CompLH, 0, |sentence| - 1)
  {
    var n := |sentence|;
    ghost var S := ScoreMatrix(weights, edgeFeats, n);
    var scores := ArcScores(n, weights, edgeFeats);
    var compRH, compLH, incompRH, incompLH, bpCompRH, bpCompLH, bpIncompRH, bpIncompLH := FillCharts(S, scores, n);
    var h := new int[n](_ => NoHead);
    h[0] := NoHead;
    assert h[..] == seq(n, _ => NoHead);
    Backtrack(S, bpCompRH, bpCompLH, bpIncompRH, bpIncompLH, h, 0, n - 1, CompLH);
    heads := h[..];
    DecodedTree(S);
  }
}
