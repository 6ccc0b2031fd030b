# Many-to-many sentence alignment, modelled in Dafny

This project models the core of `preprocess2.py`, the preprocessing script of a
document-level English–Hindi machine translation project. It has two parts:

- **`tokenize_hindi`**: the Hindi sentence splitter. It splits the text into
  lines, strips each line, splits it on the danda (U+0964), strips each part,
  and emits every non-blank part with a danda appended.
- **`align_many_to_many`**: the aligner. A dynamic programme fills an
  (N+1)×(M+1) score table `dp` and a back-pointer table `back`. Every reached
  cell tries every pair of groups: up to `max_group_size_en` consecutive
  English sentences and up to `max_group_size_hi` consecutive Hindi sentences.
  The cosine similarity of the groups' embeddings is added to the cell's score,
  and a target cell is overwritten only on strict improvement. Embeddings go
  through a per-call cache. A backtrace from (N, M) then reads the alignment
  off the back pointers. It emits one record per pointer with the grouped
  source text, the grouped target text, the similarity, and a flag (1 when the
  similarity reaches the threshold, 2 otherwise), and reverses the list.

Files:

- `strings.dfy` (module `Strings`): the Python builtins the script relies on,
  over `seq<char>`. These are `str.split` with a one-character separator,
  `" ".join`, `str.strip`, `str.isspace`, list concatenation and
  `list.reverse`.
- `tokenizer.dfy` (module `HindiTokenizer`): the splitter. It is a loop method
  proved equal to a recursive specification (`HindiSentences`), with lemmas on
  the shape and content of the sentences.
- `segmentation.dfy` (module `Segmentations`): the dynamic programme over an
  abstract grid. A grid has n source sentences, m target sentences, the two
  caps, and a similarity function on groups. The module defines:
  - monotonic segmentations and their totals;
  - the cell-by-cell invariant the two tables keep while the fill runs, and
    the lemmas that carry it across one transition;
  - the proof that filled tables are optimal and that their back pointers
    attain the optimum.
- `alignment_spec.dfy` (module `AlignmentSpec`): the concrete problem. The
  grid's similarity is the embedder's cosine similarity of the joined groups.
  The module also defines the records a segmentation produces, and lemmas
  stating that the groups of a segmentation partition both sentence lists in
  order.
- `aligner.dfy` (module `Aligner`): the imperative algorithm. It holds:
  - the embedding cache as a class over a `map`;
  - the four nested fill loops over `array2` tables, with ghost
    `seq<seq<_>>` copies of the tables that the proofs reason about;
  - the backtrace loop;
  - `AlignManyToMany`, which ties the whole call to the specification.

Model choices:

- The score `-inf` is the constructor `NegInf` of `Score`, and
  `new_score > dp[..]` is `Beats`.
- Similarities are exact `real`s.
- The embedding model is a pair of functions, `encode` and `cosSim`, that the
  caller supplies as the value `Embedder`.
- The English side is given as its sentence list, because `tokenize_english`
  is a call into NLTK.
- The default arguments (caps 3 and 3, threshold 0.6) are ordinary parameters
  of `AlignManyToMany`, which the caller passes explicitly.
- `re.split('।', line)` uses a pattern that is a single literal character, so
  it splits exactly like `str.split` on that character. It is modelled with
  `Split`.

Facts about the backtrace's early exit (preprocess2.py:105-107):

- **A missing back pointer can only occur at (N, M).** In filled tables every
  reached cell other than the origin has a pointer to a reached cell
  (`FilledPointers`). So once the backtrace has taken one step, it follows
  pointers down to the origin, and a missing pointer at (N, M) gives an empty
  result (`Backtrace`).
- **(N, M) can be unreached with both lists non-empty and caps of at least
  1.** For example, 1 English sentence and 5 Hindi sentences with caps 3
  cannot be aligned (`TooManyTargetSentences`), and the result is then empty.
- **With an empty side, the result is empty** (`EmptySide`).
- **Ties keep the first transition found.** Only a strictly better candidate
  overwrites a cell, so among equal scores the back pointer keeps the predecessor
  the row-major fill visited first (`FirstFoundKept`).

## Model

| member | source | states |
|---|---|---|
| Strings.Split | preprocess2.py:25 | `s.split(sep)`: at least one part, and no part contains the separator |
| Strings.JoinSplit | preprocess2.py:25 | joining the parts of a split on the same separator gives back the text, so splitting loses and reorders nothing |
| Strings.SplitKeepsChars | preprocess2.py:31 | every character of every part occurs in the text that was split |
| Strings.IsSpace | preprocess2.py:28 | the whitespace set `str.strip()` removes: Python's `str.isspace` characters (defining predicate, no contract) |
| Strings.Strip | preprocess2.py:28-33 | `s.strip()`; it is never longer than `s`, and `StripShape` gives its exact shape |
| Strings.JoinSpace | preprocess2.py:86-112 | `" ".join(group)` for the source and target groups at lines 86, 92, 111 and 112 (defining function, no contract; `JoinSplit` and `InkJoin` are the lemmas about joining) |
| Strings.StripShape | preprocess2.py:28 | `strip()` returns the slice after the leading whitespace; it neither starts nor ends with whitespace, and only whitespace lies outside it |
| Strings.Reversed | preprocess2.py:122 | `reverse()`: same length, element k is element `len-1-k` of the input |
| Strings.ReverseOnto | preprocess2.py:114-122 | appending a record to the list that is reversed at the end is the same as putting it in front of the records already emitted |
| HindiTokenizer.HindiSentences | preprocess2.py:20-36 | what `tokenize_hindi` returns, defined by recursion over lines and parts (defining function, no contract; `SentencesWellFormed` and `SentencesKeepInk` state its properties) |
| HindiTokenizer.TokenizeHindi | preprocess2.py:20-36 | the nested loops return exactly `HindiSentences(text)`; every sentence is well formed; the sentences, concatenated, hold the text's visible characters in order |
| HindiTokenizer.SentencesWellFormed | preprocess2.py:28-35 | every sentence is a non-empty body followed by one danda; the body holds no danda and no newline and neither starts nor ends with whitespace |
| HindiTokenizer.SentencesKeepInk | preprocess2.py:25-36 | nothing visible is lost, duplicated or reordered: the sentences' non-whitespace, non-danda characters are those of the text, in order |
| HindiTokenizer.LineKeepsInk | preprocess2.py:28-35 | the same for one line |
| HindiTokenizer.InkStrip | preprocess2.py:28 | stripping removes only whitespace |
| HindiTokenizer.InkSplit | preprocess2.py:25 | splitting on whitespace or a danda keeps every visible character |
| Aligner.EmbeddingCache.constructor | preprocess2.py:69 | the cache starts empty and valid |
| Aligner.EmbeddingCache.Get | preprocess2.py:70-75 | returns the encoder's embedding of the text, hit or miss; the cache afterwards maps the text to it and stays valid (every entry is the embedding of its key) |
| Aligner.NewTables | preprocess2.py:62-66 | fresh (N+1)×(M+1) tables that satisfy the fill invariant before the first transition: the origin holds 0 and no pointer, and a cell has a pointer exactly when it is reached |
| Aligner.Fill | preprocess2.py:77-99 | the four nested loops stay inside the tables and leave them filled: every cell satisfies the invariant with all transitions looked at |
| Aligner.FillRow | preprocess2.py:79-81 | the j loop of row i, skipping unreached cells, moves the invariant to the end of the row |
| Aligner.FillFrom | preprocess2.py:83-87 | the a loop from a reached cell breaks once `i + a > N` and moves the invariant to the next cell |
| Aligner.FillGroup | preprocess2.py:89-93 | the b loop breaks once `j + b > M` and moves the invariant to the next source group size |
| Aligner.TryPair | preprocess2.py:92-99 | one transition: the similarity is the grid's similarity of the two groups; the invariant moves past the transition, whether it improves the target or not |
| Aligner.Record | preprocess2.py:97-99 | writes the score and the pointer of one cell, leaves every other cell as it was, and keeps the ghost tables equal to the arrays |
| Segmentations.Beats | preprocess2.py:97 | `new_score > dp[i+a][j+b]` where the cell may hold -inf: every score beats -inf, a tie never overwrites, and a win over a finite cell is a strictly larger score |
| Segmentations.FirstFoundKept | preprocess2.py:78-99 | in filled tables, a transition into a cell from a reached predecessor visited before the pointer's offers strictly less than the cell's score, so ties keep the first transition found |
| Segmentations.Trace | preprocess2.py:103-121 | the block sequence the backtrace follows from a cell, stopping at the origin or at a missing pointer (defining function, no contract; `TraceAttainsScore` and `TracePointer` state its properties) |
| Segmentations.InitialTables | preprocess2.py:63-66 | the initial tables satisfy the fill invariant before any transition |
| Segmentations.SkipCell | preprocess2.py:80-81 | passing over an unreached cell keeps the invariant |
| Segmentations.NextA | preprocess2.py:89-91 | the end of the b loop keeps the invariant |
| Segmentations.NextCell | preprocess2.py:83-85 | the end of the a loop keeps the invariant |
| Segmentations.NextRow | preprocess2.py:78-79 | the end of a row keeps the invariant |
| Segmentations.NoImprove | preprocess2.py:96-97 | a candidate that does not strictly beat the target changes nothing and keeps the invariant |
| Segmentations.Improve | preprocess2.py:96-99 | a candidate that strictly beats the target: overwriting its score and pointer keeps the invariant for every cell |
| Segmentations.ImproveTarget | preprocess2.py:97-99 | the overwritten cell satisfies the invariant: its pointer is justified and ties with earlier predecessors are impossible |
| Segmentations.ImproveOther | preprocess2.py:97-99 | every other cell still satisfies the invariant after the overwrite |
| Segmentations.ImproveOtherPointer | preprocess2.py:97-99 | the pointers of the other cells stay justified after the overwrite |
| Segmentations.FilledPointers | preprocess2.py:63-99 | in filled tables the origin holds 0 and no pointer, and every other cell has a pointer exactly when it is reached; a pointer `(a, b, sim)` has `1 <= a <= capEn`, `1 <= b <= capHi`, `a <= x`, `b <= y`, a reached predecessor, and `sim` that step's similarity; the cell's score is the predecessor's plus `sim` |
| Segmentations.FilledIsSound | preprocess2.py:78-99 | filled tables are sound: each reached cell points back consistently, and no transition into a cell offers more than its score |
| Segmentations.TraceStep | preprocess2.py:108-121 | the traced path from a cell is the path from its pointer's predecessor followed by that step |
| Segmentations.TracePointer | preprocess2.py:108-121 | in sound tables, the pointer of a reached cell is an allowed step back to a reached cell whose trace is a segmentation |
| Segmentations.TraceExtends | preprocess2.py:108-121 | one pointer extends a traced segmentation of the predecessor, and its similarity is added to the total |
| Segmentations.TraceAttainsScore | preprocess2.py:101-122 | following the pointers from a reached cell gives a segmentation of its prefixes whose total equals the cell's score |
| Segmentations.ScoreBoundsSegmentations | preprocess2.py:78-99 | every segmentation of a cell's prefixes reaches the cell and totals at most its score |
| Segmentations.TableIsOptimal | preprocess2.py:62 | a reached cell's score is the maximum total over the segmentations of its prefixes, and the pointers attain it |
| Segmentations.UnreachedIffNoSegmentation | preprocess2.py:80-81 | a cell is -inf exactly when no segmentation of its prefixes exists (both directions) |
| Segmentations.ReachedIffAlignable | preprocess2.py:104-107 | (N, M) is reached exactly when some segmentation covers both lists |
| Segmentations.OnlyOriginWhenOneSideEmpty | preprocess2.py:83-91 | with one list empty, no cell but the origin is reached |
| Segmentations.OneSideEmpty | preprocess2.py:83-91 | with exactly one list empty, no segmentation exists |
| Segmentations.SegmentationSize | preprocess2.py:83-93 | a segmentation has at most as many groups as either side has sentences, and at least enough to cover each side within its cap |
| Segmentations.TooManyTargetSentences | preprocess2.py:89-91 | more target sentences than N times the target cap leaves both lists unalignable, even when both are non-empty |
| Segmentations.OneToOne | preprocess2.py:83-93 | with both caps 1, every segmentation is a strict one-to-one pairing of equally long lists |
| Segmentations.DiagonalIsSegmentation | preprocess2.py:83-93 | with caps of at least 1, the one-to-one pairing of n sentences is a segmentation |
| Segmentations.OneToOneAlignable | preprocess2.py:83-93 | with both caps 1, the lists can be aligned exactly when they are equally long |
| Segmentations.Extend | preprocess2.py:96 | adding an allowed step after a segmentation gives a segmentation whose total grows by that step's similarity |
| AlignmentSpec.Problem.GroupSim | preprocess2.py:86-95 | the cosine similarity of the embeddings of the space-joined source and target groups (defining function, no contract; `SegmentsHoldGroups` states it of every record) |
| AlignmentSpec.MakeSegment | preprocess2.py:111-118 | one record: its similarity is the cosine similarity of the embeddings of the two texts it holds, and its flag is 1 exactly when that similarity reaches the threshold, 2 otherwise |
| AlignmentSpec.SourceGroupsCover | preprocess2.py:111 | the source groups of a segmentation, concatenated in order, are exactly the source sentences, and each group has 1 to capEn sentences |
| AlignmentSpec.TargetGroupsCover | preprocess2.py:112 | the target groups, concatenated in order, are exactly the target sentences, and each group has 1 to capHi sentences |
| AlignmentSpec.SegmentsHoldGroups | preprocess2.py:111-119 | record k holds the space-joined texts of group k on both sides, their embeddings' cosine similarity, and flag 1 exactly when that similarity reaches the threshold, 2 otherwise |
| AlignmentSpec.SegmentsSumToTotal | preprocess2.py:111-119 | the records' similarities add up to the segmentation's total |
| AlignmentSpec.SegmentsOfLast | preprocess2.py:114-121 | the last group pair of a segmentation contributes the last record, after the records of the rest |
| AlignmentSpec.RecordAt | preprocess2.py:111-118 | the record the backtrace builds from a pointer is the specification's record for those groups |
| AlignmentSpec.EmitLast | preprocess2.py:114-122 | emitting the record of the last group pair before those already emitted leaves the document-order list of records unchanged |
| Aligner.BacktraceStep | preprocess2.py:108-121 | one loop step keeps the backtrace invariant, and i + j strictly decreases |
| Aligner.Backtrace | preprocess2.py:101-122 | the loop terminates; an unreached (N, M) gives an empty list; otherwise the result is the records of the traced segmentation, in document order, and their similarities add up to `dp[N][M]` |
| Aligner.Outcome | preprocess2.py:101-122 | after a fill, the result is empty exactly when no segmentation covers both lists; otherwise it is the records of an optimal segmentation and no segmentation totals more than its similarities; every flag is 1 iff similarity >= threshold, else 2 |
| Aligner.EmptySide | preprocess2.py:103-107 | with either list empty the result is empty |
| Aligner.AlignManyToMany | preprocess2.py:38-130 | the whole call: the Hindi sentences are `tokenize_hindi`'s, and the result is empty when nothing can be aligned (in particular with an empty side); otherwise it is the records of a segmentation of maximal total similarity, each correctly flagged |

## Left out

- `tokenize_english` (preprocess2.py:14-18) calls NLTK's sentence tokenizer, which is foreign code. `AlignManyToMany` takes the English sentence list as an input.
- The LaBSE model (`SentenceTransformer`, `model.encode`, `util.cos_sim(...).item()`) is a foreign neural model. It is the parameter `Embedder`: an arbitrary encoder and an arbitrary similarity on embeddings, so every proved property holds for any model.
- Aligner.AlignManyToMany: similarities and their sums are exact reals, not IEEE doubles. With floating-point rounding, the summed scores and so the choice among near-equal segmentations may differ, and a NaN similarity is not modelled.
- Aligner.AlignManyToMany: failures of the foreign model are not modelled. Loading the model (preprocess2.py:60) or encoding a text (preprocess2.py:73) can raise an exception, and then `align_many_to_many` returns nothing and the driver logs the error (preprocess2.py:172-173). `Embedder` is a pair of total functions, so `AlignManyToMany` always returns.
- The diagnostic `print` when a group has more than one English sentence (preprocess2.py:109-110) is only console output.
- The model teardown (`del model`, `gc.collect()`, `torch.mps.empty_cache()`, preprocess2.py:125-128) only releases memory and does not change the result.
- The batch driver (preprocess2.py:132-173) does directory listing, file reads, JSON output and exception logging, all of which are I/O.
- Aligner.EmbeddingCache.Get: the cache is proved transparent (every lookup returns the encoder's embedding). That the encoder runs at most once per text is not stated, because the encoder is a pure function here.
- Aligner.Fill: the tables are `array2`s allocated fresh by the call, so no aliasing with other state is possible; the model does not consider tables shared with a caller.
