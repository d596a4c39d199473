/**
 * The structured perceptron: `update` moves the weights of the predicted
 * and the gold arc of every wrongly attached token by -1 and +1, in place,
 * and `train` runs a fixed number of passes over the corpus, decoding each
 * sentence with the current weights and updating right away.
 *
 * The loops are proved against left folds (`Bump`, `UpdatePrefix`, `Pass`,
 * `Passes`); the closed form of an update (`UpdatePrefixNet`) and its fixed
 * points are proved about those folds.
 */
module Train {
  import opened Words
  import opened Features
  import opened EisnerCharts
  import opened EisnerTree
  import opened Eisner

  // ---------------------------------------------------------------------
  // One update

  /** How often index f occurs in `fs`. */
  function Count(fs: seq<int>, f: int): (r: nat)
    ensures r <= |fs|
    ensures f !in fs ==> r == 0
    decreases |fs|
  {
    if fs == [] then 0
    else Count(fs[..|fs| - 1], f) + (if fs[|fs| - 1] == f then 1 else 0)
  }

  /** An inner loop of `update`: `delta` added to the weight of every index
      of `fs`, one index after the other. */
  function Bump(w: seq<int>, fs: seq<int>, delta: int): seq<int>
    decreases |fs|
  {
    if fs == [] then w
    else
      var v := Bump(w, fs[..|fs| - 1], delta);
      var f := fs[|fs| - 1];
      if 0 <= f < |v| then v[f := v[f] + delta] else v
  }

  /** The inner loop adds `delta` to weight g once per occurrence of g
      and leaves the length alone. */
  lemma {:induction false} BumpAt(w: seq<int>, fs: seq<int>, delta: int, g: int)
    requires 0 <= g < |w|
    ensures |Bump(w, fs, delta)| == |w|
    ensures Bump(w, fs, delta)[g] == w[g] + delta * Count(fs, g)
    decreases |fs|
  {
    if fs != [] {
      var init := fs[..|fs| - 1];
      BumpAt(w, init, delta, g);
      if fs[|fs| - 1] == g {
        Distrib(delta, Count(init, g), 1);
      }
    }
  }

  lemma BumpCount(w: seq<int>, fs: seq<int>, delta: int)
    ensures |Bump(w, fs, delta)| == |w|
    ensures forall g :: 0 <= g < |w| ==> Bump(w, fs, delta)[g] == w[g] + delta * Count(fs, g)
  {
    BumpLength(w, fs, delta);
    forall g | 0 <= g < |w| ensures Bump(w, fs, delta)[g] == w[g] + delta * Count(fs, g) {
      BumpAt(w, fs, delta, g);
    }
  }

  lemma {:induction false} BumpLength(w: seq<int>, fs: seq<int>, delta: int)
    ensures |Bump(w, fs, delta)| == |w|
    decreases |fs|
  {
    if fs != [] {
      BumpLength(w, fs[..|fs| - 1], delta);
    }
  }

  /** Token i of `update`: nothing if its predicted head is the gold head,
      otherwise -1 on the predicted arc's features and then +1 on the gold
      arc's features (`.get(..., [])`: an arc without features adds none). */
  function UpdateToken(w: seq<int>, predicts: seq<int>, sentence: seq<Word>, ef: EdgeFeats, i: int): seq<int>
    requires 0 <= i < |sentence| <= |predicts|
  {
    if predicts[i] != sentence[i].head then
      Bump(Bump(w, FeatsOf(ef, predicts[i], i), -1), FeatsOf(ef, sentence[i].head, i), 1)
    else w
  }

  /** `update` after tokens 0 .. i-1. */
  function UpdatePrefix(w: seq<int>, predicts: seq<int>, sentence: seq<Word>, ef: EdgeFeats, i: int): seq<int>
    requires 0 <= i <= |sentence| <= |predicts|
    decreases i
  {
    if i == 0 then w
    else UpdateToken(UpdatePrefix(w, predicts, sentence, ef, i - 1), predicts, sentence, ef, i - 1)
  }

  /** The weights `update` returns. */
  function Updated(w: seq<int>, predicts: seq<int>, sentence: seq<Word>, ef: EdgeFeats): seq<int>
    requires |sentence| <= |predicts|
  {
    UpdatePrefix(w, predicts, sentence, ef, |sentence|)
  }

  /** What token t contributes to index f: occurrences in the gold arc's
      list minus occurrences in the predicted arc's list, if t is wrong. */
  function TokenDelta(predicts: seq<int>, sentence: seq<Word>, ef: EdgeFeats, t: int, f: int): int
    requires 0 <= t < |sentence| <= |predicts|
  {
    if predicts[t] != sentence[t].head then
      Count(FeatsOf(ef, sentence[t].head, t), f) - Count(FeatsOf(ef, predicts[t], t), f)
    else 0
  }

  /** The net change of index f over tokens 0 .. i-1. */
  function Net(predicts: seq<int>, sentence: seq<Word>, ef: EdgeFeats, i: int, f: int): int
    requires 0 <= i <= |sentence| <= |predicts|
    decreases i
  {
    if i == 0 then 0
    else Net(predicts, sentence, ef, i - 1, f) + TokenDelta(predicts, sentence, ef, i - 1, f)
  }

  /** Closed form of an update: the length is kept, and every weight moves
      by its net count over the wrongly attached tokens, whatever the order
      of the tokens and of the lists. */
  lemma {:induction false} UpdatePrefixNet(w: seq<int>, predicts: seq<int>, sentence: seq<Word>, ef: EdgeFeats, i: int)
    requires 0 <= i <= |sentence| <= |predicts|
    ensures |UpdatePrefix(w, predicts, sentence, ef, i)| == |w|
    ensures forall f :: 0 <= f < |w| ==>
      UpdatePrefix(w, predicts, sentence, ef, i)[f] == w[f] + Net(predicts, sentence, ef, i, f)
    decreases i
  {
    if i > 0 {
      UpdatePrefixNet(w, predicts, sentence, ef, i - 1);
      var v := UpdatePrefix(w, predicts, sentence, ef, i - 1);
      var t := i - 1;
      if predicts[t] != sentence[t].head {
        var pred, gold := FeatsOf(ef, predicts[t], t), FeatsOf(ef, sentence[t].head, t);
        BumpCount(v, pred, -1);
        BumpCount(Bump(v, pred, -1), gold, 1);
      }
    }
  }

  /** Nothing else changes: an index in none of the lists that the wrongly
      attached tokens select keeps its weight. */
  lemma {:induction false} NetUntouched(predicts: seq<int>, sentence: seq<Word>, ef: EdgeFeats, i: int, f: int)
    requires 0 <= i <= |sentence| <= |predicts|
    requires forall t :: 0 <= t < i && predicts[t] != sentence[t].head ==>
      f !in FeatsOf(ef, predicts[t], t) && f !in FeatsOf(ef, sentence[t].head, t)
    ensures Net(predicts, sentence, ef, i, f) == 0
    decreases i
  {
    if i > 0 {
      NetUntouched(predicts, sentence, ef, i - 1, f);
    }
  }

  /** With at most `TemplateCount` indices per arc, i tokens move a weight
      by at most `TemplateCount * i`. */
  lemma {:induction false} NetBound(predicts: seq<int>, sentence: seq<Word>, ef: EdgeFeats, i: int, f: int)
    requires 0 <= i <= |sentence| <= |predicts|
    requires forall key :: key in ef ==> |ef[key]| <= TemplateCount
    ensures -(TemplateCount * i) <= Net(predicts, sentence, ef, i, f) <= TemplateCount * i
    decreases i
  {
    if i > 0 {
      NetBound(predicts, sentence, ef, i - 1, f);
    }
  }

  /** Fixed point: when every prediction is the gold head, `update` changes
      nothing. */
  lemma {:induction false} UpdateFixedPoint(w: seq<int>, predicts: seq<int>, sentence: seq<Word>, ef: EdgeFeats, i: int)
    requires 0 <= i <= |sentence| <= |predicts|
    requires forall t :: 0 <= t < i ==> predicts[t] == sentence[t].head
    ensures UpdatePrefix(w, predicts, sentence, ef, i) == w
    decreases i
  {
    if i > 0 {
      UpdateFixedPoint(w, predicts, sentence, ef, i - 1);
    }
  }

  /** The root is never updated: the decoder gives position 0 the head -1,
      which is the gold head of the root token. */
  lemma RootNeverUpdated(S: seq<seq<int>>, w: seq<int>, sentence: seq<Word>, ef: EdgeFeats)
    requires AboveSentinel(S) && |S| == |sentence| >= 1 && sentence[0].head == NoHead
    ensures |TreeHeads(S)| == |sentence|
    ensures UpdateToken(w, TreeHeads(S), sentence, ef, 0) == w
  {
    DecodedTree(S);
  }

  /** The same for a sentence that starts with the token `createRoot`
      makes, as every sentence of the corpus does. */
  lemma RootTokenNeverUpdated(S: seq<seq<int>>, w: seq<int>, sentence: seq<Word>, ef: EdgeFeats)
    requires AboveSentinel(S) && |S| == |sentence| >= 1 && sentence[0] == CreateRoot()
    ensures |TreeHeads(S)| == |sentence|
    ensures UpdateToken(w, TreeHeads(S), sentence, ef, 0) == w
  {
    RootNeverUpdated(S, w, sentence, ef);
  }

  /** `update`: the perceptron step, in place on `weights`, which it also
      returns. */
  method Update(weights: array<int>, predicts: seq<int>, sentence: seq<Word>, edgeFeats: EdgeFeats)
    returns (updated: array<int>)
    requires |sentence| <= |predicts|
    requires forall key :: key in edgeFeats ==> InBounds(edgeFeats[key], weights.Length)
    modifies weights
    ensures updated == weights
    ensures weights[..] == Updated(old(weights[..]), predicts, sentence, edgeFeats)
  {
    for i := 0 to |sentence|
      invariant weights[..] == UpdatePrefix(old(weights[..]), predicts, sentence, edgeFeats, i)
    {
      var word := sentence[i];
      var hPredict := predicts[i];
      var hGold := word.head;
      if hPredict != hGold {
        var feats := FeatsOf(edgeFeats, hPredict, i);
        ghost var w0 := weights[..];
        for t := 0 to |feats|
          invariant weights[..] == Bump(w0, feats[..t], -1)
        {
          assert feats[..t + 1][..t] == feats[..t];
          BumpCount(w0, feats[..t], -1);
          var fidx := feats[t];
          weights[fidx] := weights[fidx] - 1;
        }
        assert feats[..|feats|] == feats;
        feats := FeatsOf(edgeFeats, hGold, i);
        ghost var w1 := weights[..];
        for t := 0 to |feats|
          invariant weights[..] == Bump(w1, feats[..t], 1)
        {
          assert feats[..t + 1][..t] == feats[..t];
          BumpCount(w1, feats[..t], 1);
          var fidx := feats[t];
          weights[fidx] := weights[fidx] + 1;
        }
        assert feats[..|feats|] == feats;
      }
    }
    updated := weights;
  }

  // ---------------------------------------------------------------------
  // Training

  /** `np.zeros(n)`. */
  function Zeros(n: nat): (r: seq<int>)
    ensures |r| == n && forall f :: 0 <= f < n ==> r[f] == 0
  {
    seq(n, _ => 0)
  }

  /** The longest sentence of a corpus. */
  function MaxLen(ss: seq<seq<Word>>): (r: nat)
    ensures forall k :: 0 <= k < |ss| ==> |ss[k]| <= r
    ensures r == 0 || exists k :: 0 <= k < |ss| && |ss[k]| == r
    decreases |ss|
  {
    if ss == [] then 0
    else
      var m := MaxLen(ss[..|ss| - 1]);
      assert forall k :: 0 <= k < |ss| - 1 ==> ss[..|ss| - 1][k] == ss[k];
      if |ss[|ss| - 1]| > m then |ss[|ss| - 1]| else m
  }

  /** Every sentence has at least its root token, and every sentence has
      its edge map. */
  predicate Corpus(ss: seq<seq<Word>>, efs: seq<EdgeFeats>) {
    |efs| == |ss| && forall k :: 0 <= k < |ss| ==> |ss[k]| >= 1
  }

  /** One training step: decode with the current weights, then update. */
  function Step(w: seq<int>, sentence: seq<Word>, ef: EdgeFeats): seq<int>
    requires |sentence| >= 1
  {
    var S := ScoreMatrix(w, ef, |sentence|);
    Updated(w, TreeHeads(S), sentence, ef)
  }

  /** A pass over sentences 0 .. k-1, each decoded with the weights the
      previous one left. */
  function Pass(w: seq<int>, ss: seq<seq<Word>>, efs: seq<EdgeFeats>, k: int): seq<int>
    requires Corpus(ss, efs) && 0 <= k <= |ss|
    decreases k
  {
    if k == 0 then w else Step(Pass(w, ss, efs, k - 1), ss[k - 1], efs[k - 1])
  }

  lemma PassStep(w: seq<int>, ss: seq<seq<Word>>, efs: seq<EdgeFeats>, k: int, v: seq<int>, v': seq<int>)
    requires Corpus(ss, efs) && 0 <= k < |ss|
    requires v == Pass(w, ss, efs, k) && v' == Step(v, ss[k], efs[k])
    ensures v' == Pass(w, ss, efs, k + 1)
  {
  }

  /** t passes over the whole corpus. */
  function Passes(w: seq<int>, ss: seq<seq<Word>>, efs: seq<EdgeFeats>, t: nat): seq<int>
    requires Corpus(ss, efs)
    decreases t
  {
    if t == 0 then w else Pass(Passes(w, ss, efs, t - 1), ss, efs, |ss|)
  }

  /** Weights on which the decoder already returns every gold tree. */
  ghost predicate Separates(w: seq<int>, ss: seq<seq<Word>>, efs: seq<EdgeFeats>)
    requires Corpus(ss, efs)
  {
    forall k, t :: 0 <= k < |ss| && 0 <= t < |ss[k]| ==>
      TreeHeads(ScoreMatrix(w, efs[k], |ss[k]|))[t] == ss[k][t].head
  }

  /** Weights that decode the whole corpus correctly survive a pass. */
  lemma {:induction false} PassFixedPoint(w: seq<int>, ss: seq<seq<Word>>, efs: seq<EdgeFeats>, k: int)
    requires Corpus(ss, efs) && 0 <= k <= |ss| && Separates(w, ss, efs)
    ensures Pass(w, ss, efs, k) == w
    decreases k
  {
    if k > 0 {
      PassFixedPoint(w, ss, efs, k - 1);
      var s := ss[k - 1];
      var H := TreeHeads(ScoreMatrix(w, efs[k - 1], |s|));
      UpdateFixedPoint(w, H, s, efs[k - 1], |s|);
    }
  }

  /** ... and so every later pass: training stops changing the weights. */
  lemma {:induction false} PassesFixedPoint(w: seq<int>, ss: seq<seq<Word>>, efs: seq<EdgeFeats>, t: nat)
    requires Corpus(ss, efs) && Separates(w, ss, efs)
    ensures Passes(w, ss, efs, t) == w
    decreases t
  {
    if t > 0 {
      PassesFixedPoint(w, ss, efs, t - 1);
      PassFixedPoint(w, ss, efs, |ss|);
    }
  }

  /** Every weight lies in [-B, B]. */
  ghost predicate Bounded(w: seq<int>, B: int) {
    forall f :: 0 <= f < |w| ==> -B <= w[f] <= B
  }

  /** The edge maps `extract` produced: every arc of sentence k has its
      `TemplateCount` indices, all addressing a weight, and nothing else is
      in the map. */
  ghost predicate Prepared(ss: seq<seq<Word>>, efs: seq<EdgeFeats>, len: int) {
    |efs| == |ss| &&
    forall k :: 0 <= k < |ss| ==>
      && (forall key :: key in efs[k] ==> IsArc(|ss[k]|, key.0, key.1))
      && (forall key :: key in efs[k] ==> |efs[k][key]| == TemplateCount && InBounds(efs[k][key], len))
      && (forall h, m :: IsArc(|ss[k]|, h, m) ==> (h, m) in efs[k])
  }

  lemma PreparedAt(ss: seq<seq<Word>>, efs: seq<EdgeFeats>, len: int, k: int)
    requires Prepared(ss, efs, len) && 0 <= k < |ss|
    ensures forall h, m :: IsArc(|ss[k]|, h, m) ==> (h, m) in efs[k]
    ensures forall key :: key in efs[k] ==> |efs[k][key]| == TemplateCount && InBounds(efs[k][key], len)
  {
  }

  lemma BoundedWiden(w: seq<int>, B: int, B': int)
    requires Bounded(w, B) && B <= B'
    ensures Bounded(w, B')
  {
  }

  /** What extraction into a dense vocabulary guarantees. */
  lemma ExtractedPrepared(d: map<string, int>, ss: seq<seq<Word>>)
    requires Dense(d)
    ensures Prepared(ss, ExtractAll(GetFeatures, d, ss).1, |ExtractAll(GetFeatures, d, ss).0|)
  {
    var r := ExtractAll(GetFeatures, d, ss);
    ExtractAllFacts(GetFeatures, d, ss);
    forall k, key | 0 <= k < |ss| && key in r.1[k]
      ensures |r.1[k][key]| == TemplateCount && InBounds(r.1[k][key], |r.0|)
    {
      assert IsArc(|ss[k]|, key.0, key.1);
      ExtractIndicesInRange(d, ss, k, key.0, key.1);
    }
  }

  /** A list of f indices moves a sum of weights within [-B, B] by at
      least -f * B. */
  lemma {:induction false} SumWeightsLower(w: seq<int>, fs: seq<int>, B: int)
    requires B >= 0 && Bounded(w, B)
    ensures SumWeights(w, fs) >= -(|fs| * B)
    decreases |fs|
  {
    if fs != [] {
      var init := fs[..|fs| - 1];
      SumWeightsLower(w, init, B);
      var x := WeightAt(w, fs[|fs| - 1]);
      assert x >= -B;
      assert SumWeights(w, fs) == SumWeights(w, init) + x;
      Distrib(B, |init|, 1);
      assert |fs| * B == |init| * B + B;
    }
  }

  /** How far below zero n arcs can score when every weight lies in
      [-B, B] and every arc has `TemplateCount` features: n times
      TemplateCount * B. */
  function Spread(n: nat, B: int): int
    decreases n
  {
    if n == 0 then 0 else Spread(n - 1, B) + TemplateCount * B
  }

  lemma {:induction false} SpreadProduct(n: nat, B: int)
    ensures Spread(n, B) == n * (TemplateCount * B)
    decreases n
  {
    if n > 0 {
      SpreadProduct(n - 1, B);
      Distrib(TemplateCount * B, n - 1, 1);
    }
  }

  /** Spread grows with both the length and the bound. */
  lemma {:induction false} SpreadMono(n: nat, L: nat, B: int, Bmax: int)
    requires n <= L && 0 <= B <= Bmax
    ensures Spread(n, B) <= Spread(L, Bmax)
    decreases L
  {
    if n < L {
      SpreadMono(n, L - 1, B, Bmax);
    } else if n > 0 {
      SpreadMono(n - 1, L - 1, B, Bmax);
    }
  }

  /** Weights in [-B, B] keep every real arc of a sentence of length n
      clear of the sentinel once Spread(n, B) < INF. */
  lemma SentinelFromBound(w: seq<int>, ef: EdgeFeats, n: nat, B: int)
    requires B >= 0 && Bounded(w, B) && Spread(n, B) < INF
    requires forall h, m :: IsArc(n, h, m) ==> (h, m) in ef && |ef[(h, m)]| <= TemplateCount
    ensures AboveSentinel(ScoreMatrix(w, ef, n))
  {
    var S := ScoreMatrix(w, ef, n);
    forall h, m | 0 <= h < n && 0 <= m < n && h != m
      ensures n * S[h][m] > -INF
    {
      var fs := ef[(h, m)];
      SumWeightsLower(w, fs, B);
      MulMono(B, |fs|, TemplateCount);
      var x := TemplateCount * B;
      assert S[h][m] >= -x;
      MulMono(n, -x, S[h][m]);
      SpreadProduct(n, B);
      assert n * -x == -(n * x);
    }
  }

  /** A sentence's update moves each weight by at most TemplateCount per
      token. */
  lemma UpdateBound(w: seq<int>, predicts: seq<int>, sentence: seq<Word>, ef: EdgeFeats, B: int)
    requires |sentence| <= |predicts| && Bounded(w, B)
    requires forall key :: key in ef ==> |ef[key]| <= TemplateCount
    ensures |Updated(w, predicts, sentence, ef)| == |w|
    ensures Bounded(Updated(w, predicts, sentence, ef), B + TemplateCount * |sentence|)
  {
    UpdatePrefixNet(w, predicts, sentence, ef, |sentence|);
    forall f | 0 <= f < |w|
      ensures -(B + TemplateCount * |sentence|) <= Updated(w, predicts, sentence, ef)[f] <= B + TemplateCount * |sentence|
    {
      NetBound(predicts, sentence, ef, |sentence|, f);
    }
  }

  /** The number of tokens of sentences 0 .. k-1. */
  function Tokens(ss: seq<seq<Word>>, k: int): (r: nat)
    requires 0 <= k <= |ss|
    ensures k > 0 ==> r >= |ss[k - 1]|
    decreases k
  {
    if k == 0 then 0 else Tokens(ss, k - 1) + |ss[k - 1]|
  }

  lemma {:induction false} TokensMono(ss: seq<seq<Word>>, k: int, k': int)
    requires 0 <= k <= k' <= |ss|
    ensures Tokens(ss, k) <= Tokens(ss, k')
    decreases k' - k
  {
    if k < k' {
      TokensMono(ss, k, k' - 1);
    }
  }

  /** Pass i of `it` passes, each widening the bound by G, starts within
      (i-1)*G and ends within i*G <= it*G. */
  lemma PassesBelow(i: int, it: nat, G: nat)
    requires 1 <= i <= it
    ensures 0 <= (i - 1) * G && (i - 1) * G + G == i * G <= it * G
  {
    MulMono(G, i, it);
    MulMono(G, 0, i - 1);
    Distrib(G, i - 1, 1);
  }

  /** A sentence no longer than L, with weights within B <= Bmax, stays
      clear of the sentinel once Spread(L, Bmax) does. */
  lemma SentinelBudget(n: nat, L: nat, B: int, Bmax: int)
    requires n <= L && 0 <= B <= Bmax && Spread(L, Bmax) < INF
    ensures Spread(n, B) < INF
  {
    SpreadMono(n, L, B, Bmax);
  }

  /** What decoding and updating one sentence needs: the root token, an
      edge map with every arc's indices addressing a weight, and weights
      within B, small enough for the sentence's length. */
  ghost predicate Ready(w: seq<int>, sentence: seq<Word>, edgeFeats: EdgeFeats, B: int) {
    && |sentence| >= 1
    && (forall h, m :: IsArc(|sentence|, h, m) ==> (h, m) in edgeFeats)
    && (forall key :: key in edgeFeats ==> |edgeFeats[key]| == TemplateCount && InBounds(edgeFeats[key], |w|))
    && B >= 0 && Bounded(w, B) && Spread(|sentence|, B) < INF
  }

  /** Sentence k of a corpus is ready for weights within B, when B is
      within a budget that the corpus's longest sentence keeps clear of
      the sentinel. */
  lemma PassReady(v: seq<int>, len: int, ss: seq<seq<Word>>, efs: seq<EdgeFeats>, k: int, B: int, Bmax: int)
    requires Corpus(ss, efs) && Prepared(ss, efs, len) && 0 <= k < |ss| && |v| == len
    requires 0 <= B <= Bmax && Spread(MaxLen(ss), Bmax) < INF
    requires Bounded(v, B)
    ensures Ready(v, ss[k], efs[k], B)
  {
    SentinelBudget(|ss[k]|, MaxLen(ss), B, Bmax);
    PreparedAt(ss, efs, len, k);
  }

  /** The body of `train`'s sentence loop: decode with the current weights,
      then update them in place; weights within B end within
      B + TemplateCount * |sentence|. */
  method TrainSentence(weights: array<int>, sentence: seq<Word>, edgeFeats: EdgeFeats, ghost B: int)
    requires Ready(weights[..], sentence, edgeFeats, B)
    modifies weights
    ensures weights[..] == Step(old(weights[..]), sentence, edgeFeats)
    ensures Bounded(weights[..], B + TemplateCount * |sentence|)
  {
    SentinelFromBound(weights[..], edgeFeats, |sentence|, B);
    var predicts := Parse(sentence, weights[..], edgeFeats);
    ghost var w := weights[..];
    var updated := Update(weights, predicts, sentence, edgeFeats);
    UpdateBound(w, predicts, sentence, edgeFeats, B);
  }

  /** Sentence k of a pass: from the weights the first k sentences left
      to the weights the first k + 1 leave. */
  method TrainStep(weights: array<int>, sentences: seq<seq<Word>>, edgeFeatsList: seq<EdgeFeats>,
                   k: int, ghost w0: seq<int>, ghost B0: int, ghost Bmax: int)
    requires Corpus(sentences, edgeFeatsList) && Prepared(sentences, edgeFeatsList, weights.Length)
    requires 0 <= k < |sentences|
    requires 0 <= B0 && B0 + TemplateCount * Tokens(sentences, |sentences|) <= Bmax
    requires Spread(MaxLen(sentences), Bmax) < INF
    requires weights[..] == Pass(w0, sentences, edgeFeatsList, k)
    requires Bounded(weights[..], B0 + TemplateCount * Tokens(sentences, k))
    modifies weights
    ensures weights[..] == Pass(w0, sentences, edgeFeatsList, k + 1)
    ensures Bounded(weights[..], B0 + TemplateCount * Tokens(sentences, k + 1))
  {
    ghost var B := B0 + TemplateCount * Tokens(sentences, k);
    TokensMono(sentences, k + 1, |sentences|);
    PassReady(weights[..], weights.Length, sentences, edgeFeatsList, k, B, Bmax);
    ghost var before := weights[..];
    TrainSentence(weights, sentences[k], edgeFeatsList[k], B);
    PassStep(w0, sentences, edgeFeatsList, k, before, weights[..]);
    BoundedWiden(weights[..], B + TemplateCount * |sentences[k]|, B0 + TemplateCount * Tokens(sentences, k + 1));
  }

  /** One pass of `train` over the corpus, sentences in order: the
      weights start within B0 and each token moves them by at most
      TemplateCount, never beyond Bmax. */
  method TrainPass(weights: array<int>, sentences: seq<seq<Word>>, edgeFeatsList: seq<EdgeFeats>,
                   ghost B0: int, ghost Bmax: int)
    requires Corpus(sentences, edgeFeatsList) && Prepared(sentences, edgeFeatsList, weights.Length)
    requires 0 <= B0 && B0 + TemplateCount * Tokens(sentences, |sentences|) <= Bmax
    requires Spread(MaxLen(sentences), Bmax) < INF
    requires Bounded(weights[..], B0)
    modifies weights
    ensures weights[..] == Pass(old(weights[..]), sentences, edgeFeatsList, |sentences|)
    ensures Bounded(weights[..], B0 + TemplateCount * Tokens(sentences, |sentences|))
  {
    for k := 0 to |sentences|
      invariant weights[..] == Pass(old(weights[..]), sentences, edgeFeatsList, k)
      invariant Bounded(weights[..], B0 + TemplateCount * Tokens(sentences, k))
    {
      TrainStep(weights, sentences, edgeFeatsList, k, old(weights[..]), B0, Bmax);
    }
  }

  /** `train`: extract the edge maps, start from zero weights, then run
      `iteration` passes over the corpus in order, decoding and updating
      sentence by sentence. */
  method Train(registry: FeatureRegistry, sentences: seq<seq<Word>>, iteration: nat)
    returns (featdict: map<string, int>, weights: array<int>)
    requires registry.Valid()
    requires forall k :: 0 <= k < |sentences| ==> |sentences[k]| >= 1
    requires Spread(MaxLen(sentences), iteration * (TemplateCount * Tokens(sentences, |sentences|))) < INF
    modifies registry
    ensures registry.Valid() && featdict == registry.featdict
    ensures featdict == ExtractAll(GetFeatures, old(registry.featdict), sentences).0
    ensures |ExtractAll(GetFeatures, old(registry.featdict), sentences).1| == |sentences|
    ensures weights.Length == |featdict|
    ensures weights[..] == Passes(Zeros(|featdict|), sentences, ExtractAll(GetFeatures, old(registry.featdict), sentences).1, iteration)
  {
    ghost var d0 := registry.featdict;
    var edgeFeatsList, dict := registry.Extract(sentences);
    featdict := dict;
    weights := new int[|featdict|](_ => 0);
    ghost var w0 := weights[..];
    assert w0 == Zeros(|featdict|);
    ExtractedPrepared(d0, sentences);
    ghost var G := TemplateCount * Tokens(sentences, |sentences|);
    assert Corpus(sentences, edgeFeatsList);

    for i := 1 to iteration + 1
      modifies weights
      invariant weights[..] == Passes(w0, sentences, edgeFeatsList, i - 1)
      invariant Bounded(weights[..], (i - 1) * G)
    {
      PassesBelow(i, iteration, G);
      TrainPass(weights, sentences, edgeFeatsList, (i - 1) * G, iteration * G);
    }
  }
}
