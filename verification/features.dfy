/**
 * The feature vocabulary and the per-arc feature extractor.
 *
 * Feature strings are interned into a dictionary that maps each string to
 * the order in which it was first seen (0, 1, 2, ...). For every ordered
 * pair (head, modifier) of distinct positions of a sentence the extractor
 * builds the 13 template strings of the arc and resolves them through the
 * dictionary, so that a sentence becomes a map from arcs to index lists.
 *
 * The loops of the source are proved against left folds (`Intern`,
 * `ExtractRow`, `ExtractHeads`, `ExtractSentence`, `ExtractAll`) and the
 * properties of the vocabulary are proved about those folds.
 */
module Features {
  import opened Words

  /** Per-sentence map from an arc (head, modifier) to its feature indices. */
  type EdgeFeats = map<(int, int), seq<int>>

  /** Number of feature templates instantiated per arc. */
  const TemplateCount: nat := 13

  /** The 13 feature strings of the arc head -> mod: six unigram templates
      (three about the head, three about the modifier) followed by seven
      bigram templates, each the ":"-join of some of the four parts below.
      Only `form` and `postag` of the two tokens are used. */
  function GetFeatures(head: Word, mod: Word): (r: seq<string>)
    ensures |r| == TemplateCount
  {
    var hWord := "h_word=" + head.form;
    var hPos := "h_pos=" + head.postag;
    var mWord := "m_word=" + mod.form;
    var mPos := "m_pos=" + mod.postag;
    [ // unigram
      hWord + ":" + hPos,
      hWord,
      hPos,
      mWord + ":" + mPos,
      mWord,
      mPos,
      // bigram
      hWord + ":" + hPos + ":" + mWord + ":" + mPos,
      hPos + ":" + mWord + ":" + mPos,
      hWord + ":" + mWord + ":" + mPos,
      hWord + ":" + hPos + ":" + mPos,
      hWord + ":" + hPos + ":" + mWord,
      hWord + ":" + mWord,
      hPos + ":" + mPos
    ]
  }

  /** The templates see nothing of a token but its form and its fine POS tag. */
  lemma FeaturesDependOnFormAndTag(h1: Word, m1: Word, h2: Word, m2: Word)
    requires h1.form == h2.form && h1.postag == h2.postag
    requires m1.form == m2.form && m1.postag == m2.postag
    ensures GetFeatures(h1, m1) == GetFeatures(h2, m2)
  {
  }

  /** The first three templates mention only the head, the next three only
      the modifier. */
  lemma UnigramsSeeOneToken(h1: Word, m1: Word, h2: Word, m2: Word)
    ensures GetFeatures(h1, m1)[..3] == GetFeatures(h1, m2)[..3]
    ensures GetFeatures(h1, m1)[3..6] == GetFeatures(h2, m1)[3..6]
  {
  }

  // ---------------------------------------------------------------------
  // The vocabulary

  /** The vocabulary invariant: the indices in use are exactly 0 .. |d|-1,
      and no two strings share one. */
  ghost predicate Dense(d: map<string, int>) {
    && (forall f :: f in d ==> 0 <= d[f] < |d|)
    && (forall i :: 0 <= i < |d| ==> i in d.Values)
    && (forall f, g :: f in d && g in d && f != g ==> d[f] != d[g])
  }

  /** `big` keeps every entry of `small` with its index. */
  ghost predicate Extends(big: map<string, int>, small: map<string, int>) {
    forall f :: f in small ==> f in big && big[f] == small[f]
  }

  /** Giving a new string the next index keeps the vocabulary dense. */
  lemma DenseInsert(d: map<string, int>, f: string)
    requires Dense(d) && f !in d
    ensures Dense(d[f := |d|])
  {
    var d' := d[f := |d|];
    assert |d'| == |d| + 1;
    forall i | 0 <= i < |d'| ensures i in d'.Values {
      if i == |d| {
        assert d'[f] == i;
      } else {
        assert i in d.Values;
        var g :| g in d && d[g] == i;
        assert d'[g] == i;
      }
    }
  }

  /** One step of `_getFIndexes`: a known string yields its stored index; a
      new one is stored under the next index (`_n_feats + 1`, that is |d|). */
  function InternOne(d: map<string, int>, f: string): (map<string, int>, int) {
    if f in d then (d, d[f]) else (d[f := |d|], |d|)
  }

  /** `_getFIndexes` as a left fold over the feature list. */
  function Intern(d: map<string, int>, fs: seq<string>): (map<string, int>, seq<int>)
    decreases |fs|
  {
    if fs == [] then (d, [])
    else
      var r := Intern(d, fs[..|fs| - 1]);
      var one := InternOne(r.0, fs[|fs| - 1]);
      (one.0, r.1 + [one.1])
  }

  /** `ix` is `fs` looked up in `d`, entry by entry. */
  ghost predicate Resolves(d: map<string, int>, fs: seq<string>, ix: seq<int>) {
    |ix| == |fs| && forall t :: 0 <= t < |fs| ==> fs[t] in d && ix[t] == d[fs[t]]
  }

  lemma ResolvesExtends(big: map<string, int>, small: map<string, int>, fs: seq<string>, ix: seq<int>)
    requires Resolves(small, fs, ix) && Extends(big, small)
    ensures Resolves(big, fs, ix)
  {
  }

  /** Every index of a resolved list is a valid index of a dense vocabulary. */
  lemma ResolvedInRange(d: map<string, int>, fs: seq<string>, ix: seq<int>)
    requires Dense(d) && Resolves(d, fs, ix)
    ensures forall t :: 0 <= t < |ix| ==> 0 <= ix[t] < |d|
  {
    forall t | 0 <= t < |ix| ensures 0 <= ix[t] < |d| {
      assert fs[t] in d;
    }
  }

  /** What interning a list does: the output list has the input's length and
      order and is the input looked up in the new dictionary; old entries keep
      their indices; the only new keys are strings of the list. */
  lemma {:induction false} InternFacts(d: map<string, int>, fs: seq<string>)
    ensures Extends(Intern(d, fs).0, d)
    ensures Resolves(Intern(d, fs).0, fs, Intern(d, fs).1)
    ensures forall f :: f in Intern(d, fs).0 ==> f in d || f in fs
    decreases |fs|
  {
    if fs != [] {
      var init := fs[..|fs| - 1];
      InternFacts(d, init);
      var r := Intern(d, init);
      assert forall t :: 0 <= t < |init| ==> fs[t] == init[t];
      assert forall f :: f in init ==> f in fs;
      ResolvesExtends(Intern(d, fs).0, r.0, init, r.1);
    }
  }

  /** Interning keeps the vocabulary dense. */
  lemma {:induction false} InternDense(d: map<string, int>, fs: seq<string>)
    requires Dense(d)
    ensures Dense(Intern(d, fs).0)
    decreases |fs|
  {
    if fs != [] {
      InternDense(d, fs[..|fs| - 1]);
      var r := Intern(d, fs[..|fs| - 1]);
      if fs[|fs| - 1] !in r.0 {
        DenseInsert(r.0, fs[|fs| - 1]);
      }
    }
  }

  /** A list of known strings leaves the dictionary as it was. */
  lemma {:induction false} InternKnown(d: map<string, int>, fs: seq<string>)
    requires forall t :: 0 <= t < |fs| ==> fs[t] in d
    ensures Intern(d, fs).0 == d
    decreases |fs|
  {
    if fs != [] {
      InternKnown(d, fs[..|fs| - 1]);
    }
  }

  // ---------------------------------------------------------------------
  // Extraction as folds that mirror the three nested loops of `extract`.
  // The folds take the template function as a parameter (the registry uses
  // `GetFeatures`), so that their lemmas hold for any templates.

  type Templates = (Word, Word) -> seq<string>

  /** The keys of an edge map of a sentence of length n are arcs. */
  predicate IsArc(n: int, h: int, m: int) {
    0 <= h < n && 0 <= m < n && h != m
  }

  /** Every arc in `ef` holds its 13 templates resolved in `d`. */
  ghost predicate Consistent(templates: Templates, d: map<string, int>, ef: EdgeFeats, s: seq<Word>) {
    forall p :: p in ef ==>
      IsArc(|s|, p.0, p.1) && Resolves(d, templates(s[p.0], s[p.1]), ef[p])
  }

  /** Every template string of every arc of `s` is already in `d`. */
  ghost predicate AllKnown(templates: Templates, d: map<string, int>, s: seq<Word>) {
    forall h, m, t :: IsArc(|s|, h, m) && 0 <= t < |templates(s[h], s[m])| ==> templates(s[h], s[m])[t] in d
  }

  lemma ConsistentExtends(templates: Templates, big: map<string, int>, small: map<string, int>, ef: EdgeFeats, s: seq<Word>)
    requires Consistent(templates, small, ef, s) && Extends(big, small)
    ensures Consistent(templates, big, ef, s)
  {
    forall p | p in ef ensures Resolves(big, templates(s[p.0], s[p.1]), ef[p]) {
      ResolvesExtends(big, small, templates(s[p.0], s[p.1]), ef[p]);
    }
  }

  /** Recording a resolved arc keeps an edge map consistent. */
  lemma ConsistentAdd(templates: Templates, d: map<string, int>, ef: EdgeFeats, s: seq<Word>, h: int, m: int, ix: seq<int>)
    requires Consistent(templates, d, ef, s) && IsArc(|s|, h, m)
    requires Resolves(d, templates(s[h], s[m]), ix)
    ensures Consistent(templates, d, ef[(h, m) := ix], s)
  {
  }

  /** Two edge maps with the same keys, both consistent with one dictionary,
      are equal. */
  lemma ConsistentUnique(templates: Templates, d: map<string, int>, ef1: EdgeFeats, ef2: EdgeFeats, s: seq<Word>)
    requires Consistent(templates, d, ef1, s) && Consistent(templates, d, ef2, s)
    requires ef1.Keys == ef2.Keys
    ensures ef1 == ef2
  {
    forall p | p in ef1 ensures ef1[p] == ef2[p] {
      var fs := templates(s[p.0], s[p.1]);
      assert Resolves(d, fs, ef1[p]) && Resolves(d, fs, ef2[p]);
    }
  }

  /** Inner loop of `extract`: modifiers 0 .. m-1 of head h. */
  function ExtractRow(templates: Templates, d: map<string, int>, ef: EdgeFeats, s: seq<Word>, h: int, m: int): (map<string, int>, EdgeFeats)
    requires 0 <= h < |s| && 0 <= m <= |s|
    decreases m
  {
    if m == 0 then (d, ef)
    else
      var r := ExtractRow(templates, d, ef, s, h, m - 1);
      if h != m - 1 then
        var i := Intern(r.0, templates(s[h], s[m - 1]));
        (i.0, r.1[(h, m - 1) := i.1])
      else r
  }

  /** Middle loop of `extract`: heads 0 .. h-1, each over all modifiers. */
  function ExtractHeads(templates: Templates, d: map<string, int>, ef: EdgeFeats, s: seq<Word>, h: int): (map<string, int>, EdgeFeats)
    requires 0 <= h <= |s|
    decreases h
  {
    if h == 0 then (d, ef)
    else
      var r := ExtractHeads(templates, d, ef, s, h - 1);
      ExtractRow(templates, r.0, r.1, s, h - 1, |s|)
  }

  /** The edge map of one sentence, starting from an empty map. */
  function ExtractSentence(templates: Templates, d: map<string, int>, s: seq<Word>): (map<string, int>, EdgeFeats) {
    ExtractHeads(templates, d, map[], s, |s|)
  }

  /** Outer loop of `extract`: the sentences in order, sharing the vocabulary. */
  function ExtractAll(templates: Templates, d: map<string, int>, ss: seq<seq<Word>>): (map<string, int>, seq<EdgeFeats>)
    decreases |ss|
  {
    if ss == [] then (d, [])
    else
      var r := ExtractAll(templates, d, ss[..|ss| - 1]);
      var e := ExtractSentence(templates, r.0, ss[|ss| - 1]);
      (e.0, r.1 + [e.1])
  }

  /** The inner loop records exactly the arcs (h, x) for x < m, x != h. */
  lemma {:induction false} ExtractRowKeys(templates: Templates, d: map<string, int>, ef: EdgeFeats, s: seq<Word>, h: int, m: int)
    requires 0 <= h < |s| && 0 <= m <= |s|
    ensures forall a, b :: (a, b) in ExtractRow(templates, d, ef, s, h, m).1 <==>
      (a, b) in ef || (a == h && 0 <= b < m && b != h)
    decreases m
  {
    if m > 0 {
      ExtractRowKeys(templates, d, ef, s, h, m - 1);
    }
  }

  /** The inner loop only adds dictionary entries and resolves every arc it
      records. */
  lemma {:induction false} ExtractRowFacts(templates: Templates, d: map<string, int>, ef: EdgeFeats, s: seq<Word>, h: int, m: int)
    requires 0 <= h < |s| && 0 <= m <= |s|
    requires Consistent(templates, d, ef, s)
    ensures Extends(ExtractRow(templates, d, ef, s, h, m).0, d)
    ensures Consistent(templates, ExtractRow(templates, d, ef, s, h, m).0, ExtractRow(templates, d, ef, s, h, m).1, s)
    decreases m
  {
    if m > 0 {
      ExtractRowFacts(templates, d, ef, s, h, m - 1);
      var r := ExtractRow(templates, d, ef, s, h, m - 1);
      if h != m - 1 {
        var fs := templates(s[h], s[m - 1]);
        InternFacts(r.0, fs);
        var i := Intern(r.0, fs);
        ConsistentExtends(templates, i.0, r.0, r.1, s);
        ConsistentAdd(templates, i.0, r.1, s, h, m - 1, i.1);
      }
    }
  }

  lemma {:induction false} ExtractRowKnown(templates: Templates, d: map<string, int>, ef: EdgeFeats, s: seq<Word>, h: int, m: int)
    requires 0 <= h < |s| && 0 <= m <= |s|
    requires AllKnown(templates, d, s)
    ensures ExtractRow(templates, d, ef, s, h, m).0 == d
    decreases m
  {
    if m > 0 {
      ExtractRowKnown(templates, d, ef, s, h, m - 1);
      if h != m - 1 {
        var fs := templates(s[h], s[m - 1]);
        assert IsArc(|s|, h, m - 1);
        InternKnown(d, fs);
      }
    }
  }

  /** The middle loop records exactly the arcs whose head is below h. */
  lemma {:induction false} ExtractHeadsKeys(templates: Templates, d: map<string, int>, ef: EdgeFeats, s: seq<Word>, h: int)
    requires 0 <= h <= |s|
    ensures forall a, b :: (a, b) in ExtractHeads(templates, d, ef, s, h).1 <==>
      (a, b) in ef || (0 <= a < h && 0 <= b < |s| && a != b)
    decreases h
  {
    if h > 0 {
      ExtractHeadsKeys(templates, d, ef, s, h - 1);
      var r := ExtractHeads(templates, d, ef, s, h - 1);
      ExtractRowKeys(templates, r.0, r.1, s, h - 1, |s|);
    }
  }

  /** The middle loop only adds dictionary entries and resolves every arc
      it records. */
  lemma {:induction false} ExtractHeadsFacts(templates: Templates, d: map<string, int>, ef: EdgeFeats, s: seq<Word>, h: int)
    requires 0 <= h <= |s|
    requires Consistent(templates, d, ef, s)
    ensures Extends(ExtractHeads(templates, d, ef, s, h).0, d)
    ensures Consistent(templates, ExtractHeads(templates, d, ef, s, h).0, ExtractHeads(templates, d, ef, s, h).1, s)
    decreases h
  {
    if h > 0 {
      ExtractHeadsFacts(templates, d, ef, s, h - 1);
      var r := ExtractHeads(templates, d, ef, s, h - 1);
      ExtractRowFacts(templates, r.0, r.1, s, h - 1, |s|);
    }
  }

  lemma {:induction false} ExtractHeadsKnown(templates: Templates, d: map<string, int>, ef: EdgeFeats, s: seq<Word>, h: int)
    requires 0 <= h <= |s|
    requires AllKnown(templates, d, s)
    ensures ExtractHeads(templates, d, ef, s, h).0 == d
    decreases h
  {
    if h > 0 {
      ExtractHeadsKnown(templates, d, ef, s, h - 1);
      var r := ExtractHeads(templates, d, ef, s, h - 1);
      ExtractRowKnown(templates, d, r.1, s, h - 1, |s|);
    }
  }

  /** Shape of one sentence's edge map: its keys are exactly the ordered
      pairs of distinct positions, each holding the arc's 13 templates
      resolved in the resulting dictionary, which therefore contains every
      template of the sentence; old entries keep their indices. */
  lemma ExtractSentenceFacts(templates: Templates, d: map<string, int>, s: seq<Word>)
    ensures Extends(ExtractSentence(templates, d, s).0, d)
    ensures Consistent(templates, ExtractSentence(templates, d, s).0, ExtractSentence(templates, d, s).1, s)
    ensures forall p :: p in ExtractSentence(templates, d, s).1 <==> IsArc(|s|, p.0, p.1)
    ensures AllKnown(templates, ExtractSentence(templates, d, s).0, s)
  {
    ExtractHeadsFacts(templates, d, map[], s, |s|);
    ExtractHeadsKeys(templates, d, map[], s, |s|);
    var e := ExtractSentence(templates, d, s);
    forall h, m, t | IsArc(|s|, h, m) && 0 <= t < |templates(s[h], s[m])|
      ensures templates(s[h], s[m])[t] in e.0
    {
      assert (h, m) in e.1;
    }
  }

  /** Shape of the whole extraction: one edge map per sentence, each with
      exactly the arcs of its sentence, each arc holding its templates looked
      up in the FINAL dictionary, which knows every template of every
      sentence; old entries keep their indices. */
  lemma {:induction false} ExtractAllFacts(templates: Templates, d: map<string, int>, ss: seq<seq<Word>>)
    ensures |ExtractAll(templates, d, ss).1| == |ss|
    ensures Extends(ExtractAll(templates, d, ss).0, d)
    ensures forall k :: 0 <= k < |ss| ==> Consistent(templates, ExtractAll(templates, d, ss).0, ExtractAll(templates, d, ss).1[k], ss[k])
    ensures forall k, p :: 0 <= k < |ss| ==> (p in ExtractAll(templates, d, ss).1[k] <==> IsArc(|ss[k]|, p.0, p.1))
    ensures forall k :: 0 <= k < |ss| ==> AllKnown(templates, ExtractAll(templates, d, ss).0, ss[k])
    decreases |ss|
  {
    if ss != [] {
      var init := ss[..|ss| - 1];
      ExtractAllFacts(templates, d, init);
      var r := ExtractAll(templates, d, init);
      ExtractSentenceFacts(templates, r.0, ss[|ss| - 1]);
      var e := ExtractSentence(templates, r.0, ss[|ss| - 1]);
      forall k | 0 <= k < |init|
        ensures Consistent(templates, e.0, r.1[k], ss[k]) && AllKnown(templates, e.0, ss[k])
      {
        assert ss[k] == init[k];
        ConsistentExtends(templates, e.0, r.0, r.1[k], ss[k]);
      }
      forall k, p | 0 <= k < |ss| ensures p in ExtractAll(templates, d, ss).1[k] <==> IsArc(|ss[k]|, p.0, p.1) {
        if k < |init| {
          assert ss[k] == init[k];
        }
      }
    }
  }

  lemma {:induction false} ExtractAllKnown(templates: Templates, d: map<string, int>, ss: seq<seq<Word>>)
    requires forall k :: 0 <= k < |ss| ==> AllKnown(templates, d, ss[k])
    ensures ExtractAll(templates, d, ss).0 == d
    decreases |ss|
  {
    if ss != [] {
      var init := ss[..|ss| - 1];
      assert forall k :: 0 <= k < |init| ==> init[k] == ss[k];
      ExtractAllKnown(templates, d, init);
      ExtractHeadsKnown(templates, d, map[], ss[|ss| - 1], |ss[|ss| - 1]|);
    }
  }

  /** The modifier loop keeps the vocabulary dense. */
  lemma {:induction false} ExtractRowDense(templates: Templates, d: map<string, int>, ef: EdgeFeats, s: seq<Word>, h: int, m: int)
    requires 0 <= h < |s| && 0 <= m <= |s| && Dense(d)
    ensures Dense(ExtractRow(templates, d, ef, s, h, m).0)
    decreases m
  {
    if m > 0 {
      ExtractRowDense(templates, d, ef, s, h, m - 1);
      if h != m - 1 {
        var r := ExtractRow(templates, d, ef, s, h, m - 1);
        InternDense(r.0, templates(s[h], s[m - 1]));
      }
    }
  }

  /** The head loop keeps the vocabulary dense. */
  lemma {:induction false} ExtractHeadsDense(templates: Templates, d: map<string, int>, ef: EdgeFeats, s: seq<Word>, h: int)
    requires 0 <= h <= |s| && Dense(d)
    ensures Dense(ExtractHeads(templates, d, ef, s, h).0)
    decreases h
  {
    if h > 0 {
      ExtractHeadsDense(templates, d, ef, s, h - 1);
      var r := ExtractHeads(templates, d, ef, s, h - 1);
      ExtractRowDense(templates, r.0, r.1, s, h - 1, |s|);
    }
  }

  /** Extraction keeps the vocabulary dense: indices stay exactly
      0 .. |d|-1 without repetition. */
  lemma {:induction false} ExtractAllDense(templates: Templates, d: map<string, int>, ss: seq<seq<Word>>)
    requires Dense(d)
    ensures Dense(ExtractAll(templates, d, ss).0)
    decreases |ss|
  {
    if ss != [] {
      var init := ss[..|ss| - 1];
      ExtractAllDense(templates, d, init);
      var r := ExtractAll(templates, d, init);
      ExtractHeadsDense(templates, r.0, map[], ss[|ss| - 1], |ss[|ss| - 1]|);
    }
  }

  /** Running the extraction a second time on the same sentences, with the
      dictionary the first run produced, adds no string and returns the same
      index lists. */
  lemma ExtractIdempotent(templates: Templates, d: map<string, int>, ss: seq<seq<Word>>)
    ensures ExtractAll(templates, ExtractAll(templates, d, ss).0, ss) == ExtractAll(templates, d, ss)
  {
    var r := ExtractAll(templates, d, ss);
    ExtractAllFacts(templates, d, ss);
    ExtractAllFacts(templates, r.0, ss);
    ExtractAllKnown(templates, r.0, ss);
    var r2 := ExtractAll(templates, r.0, ss);
    forall k | 0 <= k < |ss| ensures r2.1[k] == r.1[k] {
      assert r2.1[k].Keys == r.1[k].Keys;
      ConsistentUnique(templates, r.0, r2.1[k], r.1[k], ss[k]);
    }
    assert r2.1 == r.1;
  }

  /** Every index an extraction hands out is a valid index of the resulting
      vocabulary, so a weight vector of that length covers all of them. */
  lemma ExtractIndicesInRange(d: map<string, int>, ss: seq<seq<Word>>, k: int, h: int, m: int)
    requires Dense(d) && 0 <= k < |ss| && IsArc(|ss[k]|, h, m)
    ensures |ExtractAll(GetFeatures, d, ss).1| == |ss|
    ensures (h, m) in ExtractAll(GetFeatures, d, ss).1[k]
    ensures |ExtractAll(GetFeatures, d, ss).1[k][(h, m)]| == TemplateCount
    ensures forall t :: 0 <= t < TemplateCount ==>
      0 <= ExtractAll(GetFeatures, d, ss).1[k][(h, m)][t] < |ExtractAll(GetFeatures, d, ss).0|
  {
    ExtractAllFacts(GetFeatures, d, ss);
    ExtractAllDense(GetFeatures, d, ss);
    var r := ExtractAll(GetFeatures, d, ss);
    assert (h, m) in r.1[k];
    assert Consistent(GetFeatures, r.0, r.1[k], ss[k]);
    ResolvedInRange(r.0, GetFeatures(ss[k][h], ss[k][m]), r.1[k][(h, m)]);
  }

  // ---------------------------------------------------------------------
  // The registry object

  /** `_FeatureRegistry`: the shared vocabulary, as an explicit object. */
  class FeatureRegistry {
    var featdict: map<string, int>
    var nFeats: int

    /** `_n_feats` is always the largest index handed out, and the indices
        in use are exactly 0 .. |featdict|-1 without repetition. */
    ghost predicate Valid()
      reads this
    {
      nFeats == |featdict| - 1 && Dense(featdict)
    }

    /** `_initialize`: an empty vocabulary. */
    constructor ()
      ensures Valid() && featdict == map[] && nFeats == -1
    {
      featdict := map[];
      nFeats := -1;
    }

    /** `_getFIndexes`: resolves each string, giving each unseen one the next
        index. */
    method GetFIndexes(features: seq<string>) returns (indexes: seq<int>)
      requires Valid()
      modifies this
      ensures Valid()
      ensures (featdict, indexes) == Intern(old(featdict), features)
      ensures Extends(featdict, old(featdict))
      ensures |indexes| == |features|
      ensures forall t :: 0 <= t < |features| ==> 0 <= indexes[t] < |featdict|
    {
      indexes := [];
      for t := 0 to |features|
        invariant Valid()
        invariant (featdict, indexes) == Intern(old(featdict), features[..t])
      {
        var feature := features[t];
        assert features[..t + 1][..t] == features[..t];
        if feature in featdict {
          indexes := indexes + [featdict[feature]];
        } else {
          DenseInsert(featdict, feature);
          nFeats := nFeats + 1;
          var index := nFeats;
          featdict := featdict[feature := index];
          indexes := indexes + [index];
        }
      }
      assert features[..|features|] == features;
      InternFacts(old(featdict), features);
      ResolvedInRange(featdict, features, indexes);
    }

    /** The body of `extract`'s sentence loop: the edge map of one sentence
        (heads outer, modifiers inner, every ordered pair of distinct
        positions). */
    method SentenceEdges(sentence: seq<Word>) returns (edgeFeats: EdgeFeats)
      requires Valid()
      modifies this
      ensures Valid()
      ensures (featdict, edgeFeats) == ExtractSentence(GetFeatures, old(featdict), sentence)
    {
      edgeFeats := map[];
      var n := |sentence|;
      for iHead := 0 to n
        invariant Valid()
        invariant (featdict, edgeFeats) == ExtractHeads(GetFeatures, old(featdict), map[], sentence, iHead)
      {
        ghost var d1, ef1 := featdict, edgeFeats;
        for iMod := 0 to n
          invariant Valid()
          invariant (featdict, edgeFeats) == ExtractRow(GetFeatures, d1, ef1, sentence, iHead, iMod)
        {
          if iHead != iMod {
            var indexes := GetFIndexes(GetFeatures(sentence[iHead], sentence[iMod]));
            edgeFeats := edgeFeats[(iHead, iMod) := indexes];
          }
        }
      }
    }

    /** `extract`: the edge maps of all sentences, in order, and the
        (possibly grown) dictionary. */
    method Extract(sentences: seq<seq<Word>>) returns (edgeFeatsList: seq<EdgeFeats>, dict: map<string, int>)
      requires Valid()
      modifies this
      ensures Valid()
      ensures dict == featdict
      ensures (featdict, edgeFeatsList) == ExtractAll(GetFeatures, old(featdict), sentences)
    {
      edgeFeatsList := [];
      for k := 0 to |sentences|
        invariant Valid()
        invariant (featdict, edgeFeatsList) == ExtractAll(GetFeatures, old(featdict), sentences[..k])
      {
        assert sentences[..k + 1][..k] == sentences[..k];
        var edgeFeats := SentenceEdges(sentences[k]);
        edgeFeatsList := edgeFeatsList + [edgeFeats];
      }
      assert sentences[..|sentences|] == sentences;
      dict := featdict;
    }
  }
}
