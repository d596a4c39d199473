/**
 * The tree the decoder's backtracking reads off the backpointers, as a map
 * from each modifier to its head, and the properties of that tree: every
 * token but the root gets exactly one head, every token reaches the root,
 * no two arcs cross, and the arc scores add up to the chart value.
 */
module EisnerTree {
  import opened Words
  import opened EisnerCharts

  /** Charts whose head is the left end of the span. */
  predicate LeftHeaded(c: Chart) {
    c.CompLH? || c.IncompLH?
  }

  /** The head of a span: its left end for LH charts, its right end for RH. */
  function RootOf(c: Chart, i: int, j: int): int {
    if LeftHeaded(c) then i else j
  }

  /** Positions of a span that are given a head inside it: all but its root,
      i.e. (i, j] for LH charts and [i, j) for RH charts. */
  function SpanLo(c: Chart, i: int): int {
    if LeftHeaded(c) then i + 1 else i
  }

  function SpanHi(c: Chart, j: int): int {
    if LeftHeaded(c) then j + 1 else j
  }

  /**
   * The head assignments that backtracking chart `c` over [i, j] makes, in
   * the order it makes them (later entries of a `+` win). The two
   * provisional writes of a complete span (`heads[k] = i; heads[j] = k` for
   * a left-headed one, `heads[k] = j; heads[i] = k` for a right-headed one)
   * are not part of it: `TreeDomain` shows both positions are written again
   * by the recursive calls.
   */
  function Tree(S: seq<seq<int>>, c: Chart, i: int, j: int): map<int, int>
    requires IsMatrix(S) && 0 <= i <= j < |S|
    decreases j - i, Rank(c)
  {
    if i == j then map[]
    else
      var k := Best(S, c, i, j).bp;
      if !(Lo(c, i) <= k < Hi(c, j)) then map[]
      else
        match c
        case CompLH => Tree(S, IncompLH, i, k) + Tree(S, CompLH, k, j)
        case CompRH => Tree(S, CompRH, i, k) + Tree(S, IncompRH, k, j)
        case IncompLH => map[j := i] + Tree(S, CompLH, i, k) + Tree(S, CompRH, k + 1, j)
        case IncompRH => map[i := j] + Tree(S, CompLH, i, k) + Tree(S, CompRH, k + 1, j)
  }

  /** The parts of a split of chart `c`: the chart of the left part, the
      chart of the right part, and where the right part starts. */
  function LeftChart(c: Chart): Chart {
    match c
    case CompLH => IncompLH
    case CompRH => CompRH
    case _ => CompLH
  }

  function RightChart(c: Chart): Chart {
    match c
    case CompLH => CompLH
    case CompRH => IncompRH
    case _ => CompRH
  }

  function RightStart(c: Chart, k: int): int {
    if c.IncompLH? || c.IncompRH? then k + 1 else k
  }

  /** The arc an incomplete span adds itself: root to the other end. */
  function OwnArc(c: Chart, i: int, j: int): map<int, int> {
    match c
    case IncompLH => map[j := i]
    case IncompRH => map[i := j]
    case _ => map[]
  }

  /** One backtracking step: the tree of a span is its own arc, then the
      tree of the left part, then the tree of the right part. */
  lemma TreeUnfold(S: seq<seq<int>>, c: Chart, i: int, j: int, k: int)
    requires AboveSentinel(S) && 0 <= i < j < |S| && k == Best(S, c, i, j).bp
    ensures Lo(c, i) <= k < Hi(c, j)
    ensures Tree(S, c, i, j) == OwnArc(c, i, j) + Tree(S, LeftChart(c), i, k) + Tree(S, RightChart(c), RightStart(c, k), j)
  {
    BestInRange(S, c, i, j);
    var A := Tree(S, LeftChart(c), i, k);
    if c.CompLH? || c.CompRH? {
      assert map[] + A == A;
    }
  }

  /** The tree of a span gives a head to exactly the span's non-root
      positions, and every head lies inside the span and differs from its
      modifier. */
  lemma {:induction false} TreeDomain(S: seq<seq<int>>, c: Chart, i: int, j: int)
    requires AboveSentinel(S) && 0 <= i <= j < |S|
    ensures forall x :: x in Tree(S, c, i, j) <==> SpanLo(c, i) <= x < SpanHi(c, j)
    ensures forall x :: x in Tree(S, c, i, j) ==> i <= Tree(S, c, i, j)[x] <= j && Tree(S, c, i, j)[x] != x
    decreases j - i, Rank(c)
  {
    if i < j {
      var k := Best(S, c, i, j).bp;
      TreeUnfold(S, c, i, j, k);
      TreeDomain(S, LeftChart(c), i, k);
      TreeDomain(S, RightChart(c), RightStart(c, k), j);
    }
  }

  /** `H` holds the heads that `T` assigns. */
  ghost predicate Agrees(H: seq<int>, T: map<int, int>) {
    forall x :: x in T ==> 0 <= x < |H| && H[x] == T[x]
  }

  /** Following heads from x leads to r within `fuel` steps. */
  predicate Reaches(H: seq<int>, x: int, r: int, fuel: nat)
    decreases fuel
  {
    x == r || (fuel > 0 && 0 <= x < |H| && Reaches(H, H[x], r, fuel - 1))
  }

  lemma {:induction false} ReachesMono(H: seq<int>, x: int, r: int, f1: nat, f2: nat)
    requires f1 <= f2 && Reaches(H, x, r, f1)
    ensures Reaches(H, x, r, f2)
    decreases f1
  {
    if x != r {
      ReachesMono(H, H[x], r, f1 - 1, f2 - 1);
    }
  }

  lemma {:induction false} ReachesTrans(H: seq<int>, x: int, y: int, z: int, f1: nat, f2: nat)
    requires Reaches(H, x, y, f1) && Reaches(H, y, z, f2)
    ensures Reaches(H, x, z, f1 + f2)
    decreases f1
  {
    if x == y {
      ReachesMono(H, y, z, f2, f1 + f2);
    } else {
      ReachesTrans(H, H[x], y, z, f1 - 1, f2);
    }
  }

  lemma ReachesStep(H: seq<int>, x: int, r: int)
    requires 0 <= x < |H| && H[x] == r
    ensures Reaches(H, x, r, 1)
  {
    assert Reaches(H, H[x], r, 0);
  }

  /** Agreement with a tree carries over to the trees of its two parts. */
  lemma AgreesParts(H: seq<int>, A: map<int, int>, B: map<int, int>)
    requires Agrees(H, A + B) && forall x :: x in A ==> x !in B
    ensures Agrees(H, A) && Agrees(H, B)
  {
    forall x | x in A
      ensures 0 <= x < |H| && H[x] == A[x]
    {
      assert (A + B)[x] == A[x];
    }
    forall x | x in B
      ensures 0 <= x < |H| && H[x] == B[x]
    {
      assert (A + B)[x] == B[x];
    }
  }

  /** Heads that carry a span's tree carry the trees of both parts of its
      best split, and an incomplete span's own arc. */
  lemma TreeParts(S: seq<seq<int>>, H: seq<int>, c: Chart, i: int, j: int)
    requires AboveSentinel(S) && 0 <= i < j < |S| && |H| == |S|
    requires Agrees(H, Tree(S, c, i, j))
    ensures Lo(c, i) <= Best(S, c, i, j).bp < Hi(c, j)
    ensures Agrees(H, Tree(S, LeftChart(c), i, Best(S, c, i, j).bp))
    ensures Agrees(H, Tree(S, RightChart(c), RightStart(c, Best(S, c, i, j).bp), j))
    ensures c.IncompLH? ==> H[j] == i
    ensures c.IncompRH? ==> H[i] == j
  {
    var k := Best(S, c, i, j).bp;
    TreeUnfold(S, c, i, j, k);
    var A, B := Tree(S, LeftChart(c), i, k), Tree(S, RightChart(c), RightStart(c, k), j);
    TreeDomain(S, LeftChart(c), i, k);
    TreeDomain(S, RightChart(c), RightStart(c, k), j);
    AgreesParts(H, OwnArc(c, i, j) + A, B);
    AgreesParts(H, OwnArc(c, i, j), A);
  }

  /** Every position of [lo, hi) reaches r within `fuel` steps. */
  ghost predicate AllReach(H: seq<int>, lo: int, hi: int, r: int, fuel: nat) {
    forall x :: lo <= x < hi ==> Reaches(H, x, r, fuel)
  }

  lemma AllReachJoin(H: seq<int>, lo: int, mid: int, hi: int, r: int, f1: nat, f2: nat, f: nat)
    requires f1 <= f && f2 <= f && AllReach(H, lo, mid, r, f1) && AllReach(H, mid, hi, r, f2)
    ensures AllReach(H, lo, hi, r, f)
  {
    forall x | lo <= x < hi
      ensures Reaches(H, x, r, f)
    {
      if x < mid {
        ReachesMono(H, x, r, f1, f);
      } else {
        ReachesMono(H, x, r, f2, f);
      }
    }
  }

  lemma AllReachVia(H: seq<int>, lo: int, hi: int, y: int, r: int, f1: nat, f2: nat)
    requires AllReach(H, lo, hi, y, f1) && Reaches(H, y, r, f2)
    ensures AllReach(H, lo, hi, r, f1 + f2)
  {
    var f := f1 + f2;
    forall x | lo <= x < hi
      ensures Reaches(H, x, r, f)
    {
      ReachesTrans(H, x, y, r, f1, f2);
    }
  }

  /** Reachability of both parts of a split and, for an incomplete span,
      its own arc give reachability of the whole span. */
  lemma ReachCombine(H: seq<int>, c: Chart, i: int, j: int, k: int)
    requires 0 <= i < j < |H| && Lo(c, i) <= k < Hi(c, j)
    requires AllReach(H, SpanLo(LeftChart(c), i), SpanHi(LeftChart(c), k), RootOf(LeftChart(c), i, k), k - i)
    requires AllReach(H, SpanLo(RightChart(c), RightStart(c, k)), SpanHi(RightChart(c), j),
                      RootOf(RightChart(c), RightStart(c, k), j), j - RightStart(c, k))
    requires c.IncompLH? ==> H[j] == i
    requires c.IncompRH? ==> H[i] == j
    ensures AllReach(H, SpanLo(c, i), SpanHi(c, j), RootOf(c, i, j), j - i)
  {
    match c
    case CompLH =>
      assert Reaches(H, k, i, k - i);
      AllReachVia(H, k + 1, j + 1, k, i, j - k, k - i);
      AllReachJoin(H, i + 1, k + 1, j + 1, i, k - i, j - i, j - i);
    case CompRH =>
      assert Reaches(H, k, j, j - k);
      AllReachVia(H, i, k, k, j, k - i, j - k);
      AllReachJoin(H, i, k, j, j, j - i, j - k, j - i);
    case IncompLH =>
      ReachesStep(H, j, i);
      AllReachVia(H, k + 1, j, j, i, j - k - 1, 1);
      AllReachJoin(H, i + 1, k + 1, j, i, k - i, j - k, j - i);
      ReachesMono(H, j, i, 1, j - i);
      assert AllReach(H, j, j + 1, i, j - i);
      AllReachJoin(H, i + 1, j, j + 1, i, j - i, j - i, j - i);
    case IncompRH =>
      ReachesStep(H, i, j);
      AllReachVia(H, i + 1, k + 1, i, j, k - i, 1);
      AllReachJoin(H, i + 1, k + 1, j, j, k - i + 1, j - k - 1, j - i);
      ReachesMono(H, i, j, 1, j - i);
      assert AllReach(H, i, i + 1, j, j - i);
      AllReachJoin(H, i, i + 1, j, j, j - i, j - i, j - i);
  }

  /** In heads that carry a span's tree, every non-root position of the
      span reaches the span's root in at most j - i steps. */
  lemma {:induction false} TreeReaches(S: seq<seq<int>>, H: seq<int>, c: Chart, i: int, j: int)
    requires AboveSentinel(S) && 0 <= i <= j < |S| && |H| == |S|
    requires Agrees(H, Tree(S, c, i, j))
    ensures AllReach(H, SpanLo(c, i), SpanHi(c, j), RootOf(c, i, j), j - i)
    decreases j - i, Rank(c)
  {
    if i < j {
      TreeParts(S, H, c, i, j);
      var k := Best(S, c, i, j).bp;
      TreeReaches(S, H, LeftChart(c), i, k);
      TreeReaches(S, H, RightChart(c), RightStart(c, k), j);
      ReachCombine(H, c, i, j, k);
    }
  }

  function Min(a: int, b: int): int { if a <= b then a else b }

  function Max(a: int, b: int): int { if a <= b then b else a }

  /** The arcs h1 -> m1 and h2 -> m2 cross when drawn above the sentence. */
  predicate Crossing(h1: int, m1: int, h2: int, m2: int) {
    var l1, r1 := Min(h1, m1), Max(h1, m1);
    var l2, r2 := Min(h2, m2), Max(h2, m2);
    (l1 < l2 < r1 < r2) || (l2 < l1 < r2 < r1)
  }

  /** Arcs whose end points lie in [a, b] and [b, c] never cross. */
  lemma NoCrossingSideBySide(h1: int, m1: int, h2: int, m2: int, a: int, b: int, c: int)
    requires a <= h1 <= b && a <= m1 <= b && b <= h2 <= c && b <= m2 <= c
    ensures !Crossing(h1, m1, h2, m2) && !Crossing(h2, m2, h1, m1)
  {
  }

  /** An arc spanning [a, b] crosses no arc inside [a, b]. */
  lemma NoCrossingInside(h1: int, m1: int, h2: int, m2: int, a: int, b: int)
    requires Min(h1, m1) == a && Max(h1, m1) == b && a <= h2 <= b && a <= m2 <= b
    ensures !Crossing(h1, m1, h2, m2) && !Crossing(h2, m2, h1, m1)
  {
  }

  /** No two arcs into positions of [lo, hi) cross. */
  ghost predicate NoCrossIn(H: seq<int>, lo: int, hi: int) {
    0 <= lo && hi <= |H| &&
    forall x, y {:trigger Crossing(H[x], x, H[y], y)} :: lo <= x < hi && lo <= y < hi ==> !Crossing(H[x], x, H[y], y)
  }

  /** Every arc into a position of [lo, hi) has both ends in [a, b]. */
  ghost predicate ArcsWithin(H: seq<int>, lo: int, hi: int, a: int, b: int) {
    0 <= lo && hi <= |H| && (lo < hi ==> a <= lo && hi - 1 <= b) &&
    forall x :: lo <= x < hi ==> a <= H[x] <= b
  }

  lemma TreeArcsWithin(S: seq<seq<int>>, H: seq<int>, c: Chart, i: int, j: int)
    requires AboveSentinel(S) && 0 <= i <= j < |S| && |H| == |S|
    requires Agrees(H, Tree(S, c, i, j))
    ensures ArcsWithin(H, SpanLo(c, i), SpanHi(c, j), i, j)
  {
    TreeDomain(S, c, i, j);
  }

  lemma ArcsWithinWiden(H: seq<int>, lo: int, hi: int, a: int, b: int, a': int, b': int)
    requires ArcsWithin(H, lo, hi, a, b) && a' <= a && b <= b'
    ensures ArcsWithin(H, lo, hi, a', b')
  {
  }

  lemma ArcsWithinJoin(H: seq<int>, lo: int, mid: int, hi: int, a: int, m1: int, m2: int, b: int)
    requires ArcsWithin(H, lo, mid, a, m1) && ArcsWithin(H, mid, hi, m2, b) && a <= m2 && m1 <= b
    ensures ArcsWithin(H, lo, hi, a, b)
  {
  }

  /** Two non-crossing ranges side by side, whose arcs meet at most at m,
      make a non-crossing range. */
  lemma JoinNoCross(H: seq<int>, lo: int, mid: int, hi: int, a: int, m: int, b: int)
    requires NoCrossIn(H, lo, mid) && NoCrossIn(H, mid, hi)
    requires ArcsWithin(H, lo, mid, a, m) && ArcsWithin(H, mid, hi, m, b)
    ensures NoCrossIn(H, lo, hi)
  {
    forall x, y | lo <= x < hi && lo <= y < hi
      ensures !Crossing(H[x], x, H[y], y)
    {
      if x < mid && mid <= y {
        NoCrossingSideBySide(H[x], x, H[y], y, a, m, b);
      } else if mid <= x && y < mid {
        NoCrossingSideBySide(H[y], y, H[x], x, a, m, b);
      }
    }
  }

  /** An arc spanning [a, b] joins a non-crossing range inside [a, b]
      without crossing it. */
  lemma AddOuterArc(H: seq<int>, lo: int, hi: int, x: int, a: int, b: int, nlo: int, nhi: int)
    requires NoCrossIn(H, lo, hi) && ArcsWithin(H, lo, hi, a, b)
    requires (x == lo - 1 && nlo == x && nhi == hi) || (x == hi && nlo == lo && nhi == hi + 1)
    requires 0 <= x < |H| && Min(H[x], x) == a && Max(H[x], x) == b
    ensures NoCrossIn(H, nlo, nhi)
  {
    forall y, z | nlo <= y < nhi && nlo <= z < nhi
      ensures !Crossing(H[y], y, H[z], z)
    {
      if y == x && z != x {
        NoCrossingInside(H[x], x, H[z], z, a, b);
      } else if z == x && y != x {
        NoCrossingInside(H[x], x, H[y], y, a, b);
      }
    }
  }

  lemma CombineNoCrossIncomp(H: seq<int>, i: int, j: int, k: int, x: int)
    requires 0 <= i <= k < j < |H| && (x == i || x == j)
    requires NoCrossIn(H, i + 1, k + 1) && NoCrossIn(H, k + 1, j)
    requires ArcsWithin(H, i + 1, k + 1, i, k) && ArcsWithin(H, k + 1, j, k + 1, j)
    requires H[x] == i + j - x
    ensures x == j ==> NoCrossIn(H, i + 1, j + 1)
    ensures x == i ==> NoCrossIn(H, i, j)
  {
    ArcsWithinWiden(H, k + 1, j, k + 1, j, k, j);
    JoinNoCross(H, i + 1, k + 1, j, i, k, j);
    ArcsWithinJoin(H, i + 1, k + 1, j, i, k, k + 1, j);
    if x == j {
      AddOuterArc(H, i + 1, j, j, i, j, i + 1, j + 1);
    } else {
      AddOuterArc(H, i + 1, j, i, i, j, i, j);
    }
  }

  /** The arcs of both parts of a split and, for an incomplete span, its
      own arc, do not cross one another. */
  lemma CombineNoCross(H: seq<int>, c: Chart, i: int, j: int, k: int)
    requires 0 <= i < j < |H| && Lo(c, i) <= k < Hi(c, j)
    requires NoCrossIn(H, SpanLo(LeftChart(c), i), SpanHi(LeftChart(c), k))
    requires NoCrossIn(H, SpanLo(RightChart(c), RightStart(c, k)), SpanHi(RightChart(c), j))
    requires ArcsWithin(H, SpanLo(LeftChart(c), i), SpanHi(LeftChart(c), k), i, k)
    requires ArcsWithin(H, SpanLo(RightChart(c), RightStart(c, k)), SpanHi(RightChart(c), j), RightStart(c, k), j)
    requires c.IncompLH? ==> H[j] == i
    requires c.IncompRH? ==> H[i] == j
    ensures NoCrossIn(H, SpanLo(c, i), SpanHi(c, j))
  {
    match c
    case CompLH =>
      JoinNoCross(H, i + 1, k + 1, j + 1, i, k, j);
    case CompRH =>
      JoinNoCross(H, i, k, j, i, k, j);
    case IncompLH =>
      CombineNoCrossIncomp(H, i, j, k, j);
    case IncompRH =>
      CombineNoCrossIncomp(H, i, j, k, i);
  }

  /** In heads that carry a span's tree, no two of the span's arcs cross. */
  lemma {:induction false} TreeProjective(S: seq<seq<int>>, H: seq<int>, c: Chart, i: int, j: int)
    requires AboveSentinel(S) && 0 <= i <= j < |S| && |H| == |S|
    requires Agrees(H, Tree(S, c, i, j))
    ensures NoCrossIn(H, SpanLo(c, i), SpanHi(c, j))
    decreases j - i, Rank(c)
  {
    if i < j {
      TreeParts(S, H, c, i, j);
      var k := Best(S, c, i, j).bp;
      var k2 := RightStart(c, k);
      TreeProjective(S, H, LeftChart(c), i, k);
      TreeProjective(S, H, RightChart(c), k2, j);
      TreeArcsWithin(S, H, LeftChart(c), i, k);
      TreeArcsWithin(S, H, RightChart(c), k2, j);
      CombineNoCross(H, c, i, j, k);
    }
  }

  /** The score of the arc into x under heads H; 0 where H[x] is no
      position (the root's -1). */
  function ArcScoreAt(S: seq<seq<int>>, H: seq<int>, x: int): int {
    if 0 <= x < |H| && 0 <= H[x] < |S| && 0 <= x < |S[H[x]]| then S[H[x]][x] else 0
  }

  /** The summed scores of the arcs into positions lo .. hi - 1. */
  function ArcSum(S: seq<seq<int>>, H: seq<int>, lo: int, hi: int): int
    decreases hi - lo
  {
    if hi <= lo then 0 else ArcSum(S, H, lo, hi - 1) + ArcScoreAt(S, H, hi - 1)
  }

  lemma {:induction false} ArcSumSplit(S: seq<seq<int>>, H: seq<int>, lo: int, mid: int, hi: int)
    requires lo <= mid <= hi
    ensures ArcSum(S, H, lo, hi) == ArcSum(S, H, lo, mid) + ArcSum(S, H, mid, hi)
    decreases hi - mid
  {
    if mid < hi {
      ArcSumSplit(S, H, lo, mid, hi - 1);
    }
  }

  lemma ScoreCombineCompLH(S: seq<seq<int>>, H: seq<int>, i: int, j: int, k: int)
    requires IsMatrix(S) && 0 <= i < j < |S| && |H| == |S| && i + 1 <= k <= j
    requires ArcSum(S, H, i + 1, k + 1) == Value(S, IncompLH, i, k)
    requires ArcSum(S, H, k + 1, j + 1) == Value(S, CompLH, k, j)
    ensures ArcSum(S, H, i + 1, j + 1) == Candidate(S, CompLH, i, j, k)
  {
    ArcSumSplit(S, H, i + 1, k + 1, j + 1);
  }

  lemma ScoreCombineCompRH(S: seq<seq<int>>, H: seq<int>, i: int, j: int, k: int)
    requires IsMatrix(S) && 0 <= i < j < |S| && |H| == |S| && i <= k < j
    requires ArcSum(S, H, i, k) == Value(S, CompRH, i, k)
    requires ArcSum(S, H, k, j) == Value(S, IncompRH, k, j)
    ensures ArcSum(S, H, i, j) == Candidate(S, CompRH, i, j, k)
  {
    ArcSumSplit(S, H, i, k, j);
  }

  lemma ScoreCombineIncompLH(S: seq<seq<int>>, H: seq<int>, i: int, j: int, k: int)
    requires IsMatrix(S) && 0 <= i < j < |S| && |H| == |S| && i <= k < j && H[j] == i
    requires ArcSum(S, H, i + 1, k + 1) == Value(S, CompLH, i, k)
    requires ArcSum(S, H, k + 1, j) == Value(S, CompRH, k + 1, j)
    ensures ArcSum(S, H, i + 1, j + 1) == Candidate(S, IncompLH, i, j, k)
  {
    ArcSumSplit(S, H, i + 1, k + 1, j);
    assert ArcSum(S, H, i + 1, j + 1) == ArcSum(S, H, i + 1, j) + S[i][j];
  }

  lemma ScoreCombineIncompRH(S: seq<seq<int>>, H: seq<int>, i: int, j: int, k: int)
    requires IsMatrix(S) && 0 <= i < j < |S| && |H| == |S| && i <= k < j && H[i] == j
    requires ArcSum(S, H, i + 1, k + 1) == Value(S, CompLH, i, k)
    requires ArcSum(S, H, k + 1, j) == Value(S, CompRH, k + 1, j)
    ensures ArcSum(S, H, i, j) == Candidate(S, IncompRH, i, j, k)
  {
    ArcSumSplit(S, H, i, i + 1, j);
    ArcSumSplit(S, H, i + 1, k + 1, j);
    assert ArcSum(S, H, i, i + 1) == S[j][i];
  }

  /** The arc sums of both parts of a split and, for an incomplete span,
      its own arc add up to the split's candidate score. */
  lemma ScoreCombine(S: seq<seq<int>>, H: seq<int>, c: Chart, i: int, j: int, k: int)
    requires IsMatrix(S) && 0 <= i < j < |S| && |H| == |S| && Lo(c, i) <= k < Hi(c, j)
    requires ArcSum(S, H, SpanLo(LeftChart(c), i), SpanHi(LeftChart(c), k)) == Value(S, LeftChart(c), i, k)
    requires ArcSum(S, H, SpanLo(RightChart(c), RightStart(c, k)), SpanHi(RightChart(c), j))
             == Value(S, RightChart(c), RightStart(c, k), j)
    requires c.IncompLH? ==> H[j] == i
    requires c.IncompRH? ==> H[i] == j
    ensures ArcSum(S, H, SpanLo(c, i), SpanHi(c, j)) == Candidate(S, c, i, j, k)
  {
    var lo, hi := SpanLo(c, i), SpanHi(c, j);
    match c
    case CompLH =>
      assert lo == i + 1 && hi == j + 1;
      ScoreCombineCompLH(S, H, i, j, k);
    case CompRH =>
      assert lo == i && hi == j;
      ScoreCombineCompRH(S, H, i, j, k);
    case IncompLH =>
      assert lo == i + 1 && hi == j + 1;
      ScoreCombineIncompLH(S, H, i, j, k);
    case IncompRH =>
      assert lo == i && hi == j;
      ScoreCombineIncompRH(S, H, i, j, k);
  }

  /** In heads that carry a span's tree, the arcs of the span add up to the
      chart value: the tree read off the backpointers scores what the chart
      says. */
  lemma {:induction false} TreeScore(S: seq<seq<int>>, H: seq<int>, c: Chart, i: int, j: int)
    requires AboveSentinel(S) && 0 <= i <= j < |S| && |H| == |S|
    requires Agrees(H, Tree(S, c, i, j))
    ensures ArcSum(S, H, SpanLo(c, i), SpanHi(c, j)) == Value(S, c, i, j)
    decreases j - i, Rank(c)
  {
    if i < j {
      TreeParts(S, H, c, i, j);
      var k := Best(S, c, i, j).bp;
      BestIsFirstMaximum(S, c, i, j);
      TreeScore(S, H, LeftChart(c), i, k);
      TreeScore(S, H, RightChart(c), RightStart(c, k), j);
      ScoreCombine(S, H, c, i, j, k);
    }
  }

  /** `s` with the positions that `T` assigns overwritten. */
  function Overlay(s: seq<int>, T: map<int, int>): seq<int> {
    seq(|s|, x requires 0 <= x < |s| => if x in T then T[x] else s[x])
  }

  /** The decoder's answer: [-1] * n, then the tree of the complete
      left-headed chart over the whole sentence. */
  function TreeHeads(S: seq<seq<int>>): seq<int>
    requires IsMatrix(S) && |S| >= 1
  {
    Overlay(seq(|S|, _ => NoHead), Tree(S, CompLH, 0, |S| - 1))
  }

  /** `H` is a projective dependency tree rooted at position 0. */
  ghost predicate IsProjectiveTree(H: seq<int>) {
    && |H| >= 1
    && H[0] == NoHead
    && (forall m :: 1 <= m < |H| ==> 0 <= H[m] < |H| && H[m] != m)
    && AllReach(H, 1, |H|, 0, |H| - 1)
    && NoCrossIn(H, 1, |H|)
  }

  /** The decoded heads form a projective tree rooted at 0 (the root keeps
      -1, every other token has one head, reaches the root, and no arcs
      cross), and the tree's score is the value of the whole-sentence
      chart. */
  lemma DecodedTree(S: seq<seq<int>>)
    requires AboveSentinel(S) && |S| >= 1
    ensures |TreeHeads(S)| == |S|
    ensures IsProjectiveTree(TreeHeads(S))
    ensures ArcSum(S, TreeHeads(S), 1, |S|) == Value(S, CompLH, 0, |S| - 1)
  {
    var n := |S|;
    var T := Tree(S, CompLH, 0, n - 1);
    var H := TreeHeads(S);
    TreeDomain(S, CompLH, 0, n - 1);
    assert Agrees(H, T);
    TreeReaches(S, H, CompLH, 0, n - 1);
    TreeProjective(S, H, CompLH, 0, n - 1);
    TreeScore(S, H, CompLH, 0, n - 1);
  }

  /** A sentence holding only the root decodes to [-1]. */
  lemma RootOnly(S: seq<seq<int>>)
    requires IsMatrix(S) && |S| == 1
    ensures TreeHeads(S) == [NoHead]
  {
  }
}
