# EisnerParser in Dafny

This project models the core of EisnerParser. EisnerParser is a first-order projective dependency parser trained with a structured perceptron. The core has three pieces.

- **Feature vocabulary and extractor** (`common.py`): `features.dfy`, module `Features`. For every ordered pair (head, modifier) of distinct positions in a sentence, `_getFeatures` builds 13 template strings from the form and fine POS tag of both tokens. `_getFIndexes` interns these strings into a dictionary. The dictionary hands out the indices 0, 1, 2, ... in order of first appearance. `extract` turns each sentence into a map from arcs to index lists. The registry is a class, `FeatureRegistry`, with the dictionary and the counter `_n_feats` as fields. Its methods are proved against left folds (`Intern`, `ExtractRow`, `ExtractHeads`, `ExtractSentence`, `ExtractAll`), and lemmas prove the vocabulary's properties about those folds.
- **Tokens** (`common.py`): `words.dfy`, module `Words`. This holds the `Word` record and the synthetic root token from `createRoot`.
- **Eisner decoder** (`eisner.py`): `eisner_charts.dfy`, `eisner_tree.dfy` and `eisner.dfy`.
  - Module `EisnerCharts` holds the chart recurrence as functions of the arc-score matrix: `Value`, `Best`, `Scan` and `Candidate`. It includes the strict `>` first-maximum tie-break, and proves the facts about maxima and backpointer ranges.
  - Module `EisnerTree` holds the tree that backtracking reads off the backpointers, as a function `Tree`. It proves that this tree gives every non-root token one head, that every token reaches the root, that no two arcs cross, and that the arcs add up to `comp_lh[0][n-1]`.
  - Module `Eisner` holds the imperative decoder: the arc-score loop, the four split loops, the chart fill over widths and starts (eight `array2<int>` tables), and the recursive `_backtrack`. The backtrack writes into a shared `array<int>`, including the provisional writes that are later overwritten. The whole `parse` is proved against these functions.
- **Perceptron** (`train.py`): `train.dfy`, module `Train`.
  - `update` works in place on an `array<int>`. It is proved against a fold (`Updated`). Its closed form says that every weight moves by (occurrences in gold arcs) minus (occurrences in predicted arcs) over the wrongly attached tokens. The lemmas also prove its frame, its fixed point and that the root is never updated.
  - `train` is a loop over iterations and sentences. It is proved to compute `Passes`: `iteration` passes in corpus order, where each sentence is decoded with the weights the previous sentence left.

Sentences are `seq<Word>` with the root at position 0. Weights and scores are unbounded `int`s. The sentinel `INF` is `sys.maxsize` of a 64-bit build, `0x7FFF_FFFF_FFFF_FFFF`. The `None` placeholders of the decoder's head list are modelled as -1, the root's head value. Every non-root slot is proved to be overwritten.

Three facts about the code shape the model:
- `update` loops over every position, including the root. `RootNeverUpdated` proves that position 0 never changes a weight.
- The decoder stores -1 at position 0.
- The weights are floats in the code, but they are only ever integer-valued, so the model uses `int`.

## Model

| member | source | states |
|---|---|---|
| Features.GetFeatures | common.py:60-83 | an arc always yields exactly 13 template strings |
| Features.FeaturesDependOnFormAndTag | common.py:60-83 | two arcs whose heads and modifiers agree on form and fine POS tag get identical feature lists; no other field of a token matters |
| Features.UnigramsSeeOneToken | common.py:66-73 | the first three templates depend only on the head and the next three only on the modifier |
| Features.DenseInsert | common.py:90-93 | storing an unseen string under the next index keeps the indices exactly 0..len-1 without repetition |
| Features.InternFacts | common.py:85-95 | the index list has the input's length and order and is the input looked up in the new dictionary; old entries keep their indices; new keys come only from the list |
| Features.InternDense | common.py:88-94 | interning keeps the dictionary's indices exactly 0..len-1 and distinct |
| Features.InternKnown | common.py:88-89 | a list of strings already in the dictionary leaves the dictionary unchanged |
| Features.ResolvedInRange | common.py:85-95 | every index resolved from a dense dictionary is below the dictionary's size |
| Features.ExtractRowKeys | common.py:103-105 | the modifier loop records exactly the arcs (h, x) with x below the bound and x != h |
| Features.ExtractRowFacts | common.py:103-105 | the modifier loop only adds dictionary entries and stores each arc's templates resolved in the dictionary |
| Features.ExtractHeadsKeys | common.py:102-105 | the head loop records exactly the arcs whose head is below the bound |
| Features.ExtractHeadsFacts | common.py:102-105 | the head loop only adds dictionary entries and keeps every stored arc resolved |
| Features.ExtractSentenceFacts | common.py:99-106 | one sentence's map has exactly the ordered pairs of distinct positions as keys, each holding that arc's templates resolved in the resulting dictionary, which then knows every template of the sentence |
| Features.ExtractAllFacts | common.py:97-107 | one map per sentence, in order; keys are exactly the arcs of that sentence; each value is its templates resolved in the final dictionary; old entries keep their indices |
| Features.ExtractAllKnown | common.py:97-107 | extracting sentences whose templates are all known leaves the dictionary unchanged |
| Features.ExtractAllDense | common.py:97-107 | extraction from a dense dictionary keeps it dense: indices exactly 0..len-1, without repetition |
| Features.ExtractIdempotent | common.py:97-107 | a second extraction of the same sentences with the dictionary of the first adds nothing and returns identical index lists |
| Features.ExtractIndicesInRange | common.py:97-107 | extraction from a dense dictionary gives every arc of every sentence 13 indices, each below the size of the final dictionary |
| Features.FeatureRegistry.constructor | common.py:48-50 | the registry starts with an empty dictionary and `_n_feats` = -1 |
| Features.FeatureRegistry.GetFIndexes | common.py:85-95 | the call computes the interning fold, keeps `_n_feats` = len - 1 and the indices dense, keeps old entries, and returns one in-range index per string |
| Features.FeatureRegistry.SentenceEdges | common.py:100-106 | the loops over heads and modifiers build the sentence's edge map and dictionary as the sentence fold describes |
| Features.FeatureRegistry.Extract | common.py:97-107 | `extract` returns the edge maps of all sentences in order and the dictionary, as the corpus fold describes, keeping the registry invariant |
| EisnerCharts.ScanFacts | eisner.py:46-53 | the running pair of a split loop is at least every candidate tried; it is either still (-INF, -1) or the first split point reaching that maximum |
| EisnerCharts.ValueLowerBound | eisner.py:39-89 | when real arcs stay above the sentinel, a chart entry over a span of width w is at least w times the lowest admissible arc score |
| EisnerCharts.BestInRange | eisner.py:45-89 | every backpointer lies in [i, j-1] for the incomplete charts and `comp_rh`, and in [i+1, j] for `comp_lh` |
| EisnerCharts.BestIsFirstMaximum | eisner.py:45-89 | each chart entry is the maximum of its split candidates, and its backpointer is the smallest split point reaching it |
| EisnerTree.TreeUnfold | eisner.py:99-122 | one backtracking step is the span's own arc, then the left part's tree, then the right part's tree, at the stored split point |
| EisnerTree.TreeDomain | eisner.py:94-122 | backtracking a span assigns a head to exactly its non-root positions; every head lies in the span and differs from its modifier |
| EisnerTree.TreeReaches | eisner.py:94-122 | every non-root position of a span reaches the span's root by following heads, without a cycle |
| EisnerTree.TreeProjective | eisner.py:94-122 | no two arcs of a backtracked span cross |
| EisnerTree.TreeScore | eisner.py:94-122 | the arcs of a backtracked span add up to the chart entry of the span |
| EisnerTree.DecodedTree | eisner.py:91-124 | the decoded heads have length n, keep -1 at position 0, form a projective tree rooted at 0, and score `comp_lh[0][n-1]` |
| EisnerTree.RootOnly | eisner.py:91-100 | a one-token sentence decodes to [-1] |
| Eisner.ArcScores | eisner.py:13-21 | each pair h != m scores the sum of the weights of its features, and each h == m scores -INF |
| Eisner.BestIncomplete | eisner.py:45-67 | the split loop of an incomplete span leaves the recurrence's first-maximum pair |
| Eisner.BestCompRH | eisner.py:69-78 | the split loop of `comp_rh` leaves the recurrence's first-maximum pair |
| Eisner.BestCompLH | eisner.py:80-89 | the split loop of `comp_lh`, over k in [i+1, j], leaves the recurrence's first-maximum pair |
| Eisner.FillIncomplete | eisner.py:45-67 | both incomplete cells and their backpointers of a span hold the recurrence's values |
| Eisner.FillComplete | eisner.py:69-89 | both complete cells and their backpointers of a span hold the recurrence's values |
| Eisner.FillWidth | eisner.py:40-89 | after the start loop of width m, every span of width m holds its chart values and backpointers |
| Eisner.FillCharts | eisner.py:33-89 | all four charts are 0 on the diagonal and hold the recurrence above it; all four backpointer tables hold its first-maximum split points |
| Eisner.CompLHWrites | eisner.py:101-106 | the provisional writes `heads[k] = i` and `heads[j] = k` are overwritten by the recursive calls and leave exactly the span's tree |
| Eisner.CompRHWrites | eisner.py:107-112 | the provisional writes `heads[k] = j` and `heads[i] = k` are overwritten by the recursive calls and leave exactly the span's tree |
| Eisner.IncompWrites | eisner.py:113-122 | the own-arc write followed by the two recursive calls leaves exactly the span's tree |
| Eisner.Backtrack | eisner.py:94-122 | `_backtrack` writes the heads of the span's tree into the array and leaves every other position as it was |
| Eisner.BacktrackCompLH | eisner.py:101-106 | the `comp_lh` branch writes exactly that span's tree |
| Eisner.BacktrackCompRH | eisner.py:107-112 | the `comp_rh` branch writes exactly that span's tree |
| Eisner.BacktrackIncompLH | eisner.py:113-117 | the `incomp_lh` branch writes exactly that span's tree |
| Eisner.BacktrackIncompRH | eisner.py:118-122 | the `incomp_rh` branch writes exactly that span's tree |
| Eisner.Parse | eisner.py:8-125 | `parse` returns n heads that form a projective tree rooted at 0 with -1 at the root; it is the tree the first-maximum backpointers select, and its arcs score `comp_lh[0][n-1]` |
| Train.BumpAt | train.py:37-40 | a feature loop adds delta to a weight once per occurrence of its index and keeps the length |
| Train.BumpCount | train.py:37-40 | the same for every weight at once |
| Train.UpdatePrefixNet | train.py:33-40 | after any number of tokens, the length is kept and every weight has moved by its net count: occurrences in gold arcs minus occurrences in predicted arcs, over the wrongly attached tokens; a missing arc counts as an empty list |
| Train.NetUntouched | train.py:32-41 | an index in none of the lists selected by the wrongly attached tokens does not change |
| Train.NetBound | train.py:37-40 | with at most 13 indices per arc, i tokens move a weight by at most 13 * i |
| Train.UpdateFixedPoint | train.py:36 | when every prediction equals the gold head, `update` changes nothing |
| Train.RootNeverUpdated | train.py:33-36 | the decoder gives position 0 the root's gold head -1, so the root token never changes a weight |
| Train.RootTokenNeverUpdated | train.py:33-36 | a sentence that starts with the `createRoot` token never has a weight changed by its root position |
| Train.Update | train.py:32-41 | `update` changes the weight array in place to the fold's result and returns the same array |
| Train.ExtractedPrepared | train.py:11-12 | after extraction from a dense dictionary every arc of every sentence has 13 indices, all within a weight vector of the dictionary's length, and the maps hold nothing else |
| Train.SentinelFromBound | train.py:22 | weights within [-B, B] keep every real arc score of a sentence above the decoder's sentinel while n * 13 * B < INF |
| Train.UpdateBound | train.py:23 | one sentence's update moves every weight by at most 13 per token |
| Train.PassFixedPoint | train.py:19-23 | weights that already decode every sentence to its gold tree survive a pass unchanged |
| Train.PassesFixedPoint | train.py:16-23 | such weights survive any number of passes: training stops changing them |
| Train.TrainSentence | train.py:22-23 | decoding and then updating one sentence yields the training step's weights |
| Train.TrainStep | train.py:19-23 | sentence k of a pass takes the weights the first k sentences left to those the first k + 1 leave |
| Train.TrainPass | train.py:19-23 | one pass visits the sentences in corpus order, each decoded with the weights the previous one left |
| Train.Train | train.py:10-29 | `train` returns the extraction's dictionary, and weights equal to exactly `iteration` passes starting from zeros of the dictionary's length |

## Left out

- File reading, persistence and the helpers around them (`readconllfile`, `save`, `load`, `Model`, `Logger`, `gen_hexid`, `readargs`): these are I/O, clock time, UUIDs and argument handling.
- `parse.py` and the `main` of `train.py`: these are drivers that format output, compute a floating-point accuracy and handle arguments.
- The logging and the sentence counter inside `train`'s loops: they print and affect no result.
- The singleton `_FeatureRegistry.getInstance` and the module-level `extract`: the registry is an explicit `FeatureRegistry` object passed to `Train.Train`.
- Floating point and numpy types: weights start as float zeros in the code and change only by ±1, so they are modelled as unbounded `int`. Chart cells are modelled as `int`, not as numpy's 64-bit `int`, so its wrap-around is not modelled.
- Eisner.Parse: it requires every real arc to score strictly above the sentinel: n * score > -INF. The code does not check this. Without it, a split loop could keep bp = -1 and the backtrack would index with -1.
- Train.Train: it requires a budget, Spread(longest sentence, iteration * 13 * total tokens) < INF. This keeps the decoder's precondition true through every pass. The code states no such bound. The bound fails only when 169 × longest sentence × iterations × total tokens reaches 2^63.
- Crash paths become preconditions, not error results: a missing arc key in `parse` (a KeyError), a feature index outside the weight vector, or a prediction list shorter than the sentence (an IndexError). Every such requirement is proved to hold for what `extract` and `parse` produce.
- Eisner.Parse: optimality over all projective trees is not promised. The model proves that the decoded tree is projective, follows the first-maximum recurrence and scores the chart value. It does not prove that no other projective tree scores higher.
- Train.Update: the out-of-range branch of `Bump` (an index outside the array is skipped) cannot be reached under the method's precondition. Python would instead wrap negative indices or raise.
- `iteration` is a `nat`: a negative count runs no passes in the code, and that case is not modelled separately.
- The default `iteration=10` of `train`: `Train.Train` takes the count as an explicit argument.
- `extract` returns the registry's own dictionary object, so the `featdict` that `train` returns aliases the registry's dictionary and would see later changes to it. The model returns the dictionary as a value, equal to the registry's dictionary when `Train.Train` returns.
- Python's recursion limit: `_backtrack` recurses to a depth that grows with the sentence length and raises for very long sentences. Dafny's recursion has no such limit, so that failure is not modelled.
