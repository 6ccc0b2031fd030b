/**
 * align_many_to_many: the embedding cache, the dynamic-programming fill over
 * the score and back-pointer tables, and the backtrace that reads the
 * alignment off the back pointers.
 */
module Aligner {
  import opened Strings
  import opened HindiTokenizer
  import opened Segmentations
  import opened AlignmentSpec

  /** get_embedding's dictionary from text to embedding. */
  class EmbeddingCache {
    const encode: string -> Embedding
    var entries: map<string, Embedding>

    /** Every cached embedding is the encoder's embedding of its text. */
    ghost predicate Valid()
      reads this
    {
      forall t :: t in entries ==> entries[t] == encode(t)
    }

    constructor (encode: string -> Embedding)
      ensures this.encode == encode && entries == map[] && Valid()
    {
      this.encode := encode;
      entries := map[];
    }

    /** The embedding of text, taken from the cache when present and stored there otherwise. */
    method Get(text: string) returns (emb: Embedding)
      requires Valid()
      modifies this
      ensures Valid() && emb == encode(text)
      ensures entries == old(entries)[text := emb]
    {
      if text in entries {
        emb := entries[text];
      } else {
        emb := encode(text);
        entries := entries[text := emb];
      }
    }
  }

  /** S holds, cell by cell, what the two-dimensional array t holds. */
  ghost predicate Mirrors<T>(t: array2<T>, S: seq<seq<T>>)
    reads t
  {
    && |S| == t.Length0
    && forall x :: 0 <= x < |S| ==> |S[x]| == t.Length1 && forall y :: 0 <= y < t.Length1 ==> S[x][y] == t[x, y]
  }

  /**
   * The fill: every reached cell (i, j), in row-major order, tries every
   * group of up to capEn source and capHi target sentences that starts
   * there, and a strictly better score replaces the target cell's score and
   * back pointer. The tables it returns are filled: their scores are optimal
   * over all segmentations and their pointers attain them.
   */
  method Fill(P: Problem) returns (dp: array2<Score>, back: array2<Option<BackPointer>>, ghost D: seq<seq<Score>>, ghost B: seq<seq<Option<BackPointer>>>)
    ensures fresh(dp) && fresh(back)
    ensures dp.Length0 == back.Length0 == |P.en| + 1 && dp.Length1 == back.Length1 == |P.hi| + 1
    ensures Mirrors(dp, D) && Mirrors(back, B)
    ensures Filled(P.Grid(), D, B)
  {
    ghost var G := P.Grid();
    dp, back, D, B := NewTables(P);
    var cache := new EmbeddingCache(P.embedder.encode);
    for i := 0 to |P.en| + 1
      invariant Mirrors(dp, D) && Mirrors(back, B)
      invariant cache.Valid() && cache.encode == P.embedder.encode
      invariant AllCells(G, D, B, Frontier(i, 0, 1, 1))
    {
      D, B := FillRow(P, dp, back, cache, i, D, B);
      NextRow(G, D, B, i);
    }
  }

  /** dp starts at -inf everywhere but the origin, which holds 0; back starts empty. */
  method NewTables(P: Problem) returns (dp: array2<Score>, back: array2<Option<BackPointer>>, ghost D: seq<seq<Score>>, ghost B: seq<seq<Option<BackPointer>>>)
    ensures fresh(dp) && fresh(back)
    ensures dp.Length0 == back.Length0 == |P.en| + 1 && dp.Length1 == back.Length1 == |P.hi| + 1
    ensures Mirrors(dp, D) && Mirrors(back, B)
    ensures AllCells(P.Grid(), D, B, Frontier(0, 0, 1, 1))
  {
    var N, M := |P.en|, |P.hi|;
    dp := new Score[N + 1, M + 1]((x, y) => NegInf);
    dp[0, 0] := Fin(0.0);
    back := new Option<BackPointer>[N + 1, M + 1]((x, y) => None);
    D := seq(N + 1, x => seq(M + 1, y => if x == 0 && y == 0 then Fin(0.0) else NegInf));
    B := seq(N + 1, x => seq(M + 1, y => None));
    InitialTables(P.Grid(), D, B);
  }

  /** The j loop of the fill for row i: unreached cells are skipped. */
  method FillRow(P: Problem, dp: array2<Score>, back: array2<Option<BackPointer>>, cache: EmbeddingCache, i: int,
                 ghost D: seq<seq<Score>>, ghost B: seq<seq<Option<BackPointer>>>)
    returns (ghost D': seq<seq<Score>>, ghost B': seq<seq<Option<BackPointer>>>)
    requires dp.Length0 == back.Length0 == |P.en| + 1 && dp.Length1 == back.Length1 == |P.hi| + 1
    requires Mirrors(dp, D) && Mirrors(back, B)
    requires cache.Valid() && cache.encode == P.embedder.encode
    requires 0 <= i <= |P.en|
    requires AllCells(P.Grid(), D, B, Frontier(i, 0, 1, 1))
    modifies dp, back, cache
    ensures Mirrors(dp, D') && Mirrors(back, B')
    ensures cache.Valid()
    ensures AllCells(P.Grid(), D', B', Frontier(i, |P.hi| + 1, 1, 1))
  {
    D', B' := D, B;
    for j := 0 to |P.hi| + 1
      invariant Mirrors(dp, D') && Mirrors(back, B')
      invariant cache.Valid()
      invariant AllCells(P.Grid(), D', B', Frontier(i, j, 1, 1))
    {
      if dp[i, j].NegInf? {
        SkipCell(P.Grid(), D', B', i, j);
        continue;
      }
      D', B' := FillFrom(P, dp, back, cache, i, j, D', B');
    }
  }

  /** The a loop of the fill for the reached cell (i, j). */
  method FillFrom(P: Problem, dp: array2<Score>, back: array2<Option<BackPointer>>, cache: EmbeddingCache, i: int, j: int,
                  ghost D: seq<seq<Score>>, ghost B: seq<seq<Option<BackPointer>>>)
    returns (ghost D': seq<seq<Score>>, ghost B': seq<seq<Option<BackPointer>>>)
    requires dp.Length0 == back.Length0 == |P.en| + 1 && dp.Length1 == back.Length1 == |P.hi| + 1
    requires Mirrors(dp, D) && Mirrors(back, B)
    requires cache.Valid() && cache.encode == P.embedder.encode
    requires 0 <= i <= |P.en| && 0 <= j <= |P.hi| && dp[i, j].Fin?
    requires AllCells(P.Grid(), D, B, Frontier(i, j, 1, 1))
    modifies dp, back, cache
    ensures Mirrors(dp, D') && Mirrors(back, B')
    ensures cache.Valid()
    ensures AllCells(P.Grid(), D', B', Frontier(i, j + 1, 1, 1))
  {
    D', B' := D, B;
    var a := 1;
    while a <= P.capEn
      invariant 1 <= a
      invariant Mirrors(dp, D') && Mirrors(back, B') && dp[i, j].Fin?
      invariant cache.Valid()
      invariant AllCells(P.Grid(), D', B', Frontier(i, j, a, 1))
    {
      if i + a > |P.en| {
        break;
      }
      var enGroup := JoinSpace(P.en[i..i + a]);
      var enEmb := cache.Get(enGroup);
      D', B' := FillGroup(P, dp, back, cache, i, j, a, enEmb, D', B');
      a := a + 1;
    }
    NextCell(P.Grid(), D', B', i, j, a);
  }

  /** The b loop of the fill for the reached cell (i, j) and a source group of a sentences. */
  method FillGroup(P: Problem, dp: array2<Score>, back: array2<Option<BackPointer>>, cache: EmbeddingCache, i: int, j: int, a: int, enEmb: Embedding,
                   ghost D: seq<seq<Score>>, ghost B: seq<seq<Option<BackPointer>>>)
    returns (ghost D': seq<seq<Score>>, ghost B': seq<seq<Option<BackPointer>>>)
    requires dp.Length0 == back.Length0 == |P.en| + 1 && dp.Length1 == back.Length1 == |P.hi| + 1
    requires Mirrors(dp, D) && Mirrors(back, B)
    requires cache.Valid() && cache.encode == P.embedder.encode
    requires 0 <= i && 1 <= a <= P.capEn && i + a <= |P.en| && 0 <= j <= |P.hi| && dp[i, j].Fin?
    requires enEmb == P.embedder.encode(JoinSpace(P.en[i..i + a]))
    requires AllCells(P.Grid(), D, B, Frontier(i, j, a, 1))
    modifies dp, back, cache
    ensures Mirrors(dp, D') && Mirrors(back, B') && dp[i, j] == old(dp[i, j])
    ensures cache.Valid()
    ensures AllCells(P.Grid(), D', B', Frontier(i, j, a + 1, 1))
  {
    ghost var G := P.Grid();
    D', B' := D, B;
    var b := 1;
    while b <= P.capHi
      invariant 1 <= b
      invariant Mirrors(dp, D') && Mirrors(back, B') && dp[i, j] == old(dp[i, j])
      invariant cache.Valid()
      invariant AllCells(G, D', B', Frontier(i, j, a, b))
    {
      if j + b > |P.hi| {
        break;
      }
      D', B' := TryPair(P, dp, back, cache, i, j, a, b, enEmb, D', B');
      b := b + 1;
    }
    NextA(G, D', B', i, j, a, b);
  }

  /**
   * One transition of the fill: the similarity of the a source sentences
   * from i with the b target sentences from j, added to dp[i][j], replaces
   * the score and pointer at (i + a, j + b) when strictly greater.
   */
  method TryPair(P: Problem, dp: array2<Score>, back: array2<Option<BackPointer>>, cache: EmbeddingCache, i: int, j: int, a: int, b: int, enEmb: Embedding,
                 ghost D: seq<seq<Score>>, ghost B: seq<seq<Option<BackPointer>>>)
    returns (ghost D': seq<seq<Score>>, ghost B': seq<seq<Option<BackPointer>>>)
    requires dp.Length0 == back.Length0 == |P.en| + 1 && dp.Length1 == back.Length1 == |P.hi| + 1
    requires Mirrors(dp, D) && Mirrors(back, B)
    requires cache.Valid() && cache.encode == P.embedder.encode
    requires 0 <= i && 1 <= a <= P.capEn && i + a <= |P.en| && 0 <= j && 1 <= b <= P.capHi && j + b <= |P.hi| && dp[i, j].Fin?
    requires enEmb == P.embedder.encode(JoinSpace(P.en[i..i + a]))
    requires AllCells(P.Grid(), D, B, Frontier(i, j, a, b))
    modifies dp, back, cache
    ensures Mirrors(dp, D') && Mirrors(back, B') && dp[i, j] == old(dp[i, j])
    ensures cache.Valid()
    ensures AllCells(P.Grid(), D', B', Frontier(i, j, a, b + 1))
  {
    ghost var G := P.Grid();
    var hiGroup := JoinSpace(P.hi[j..j + b]);
    var hiEmb := cache.Get(hiGroup);
    var sim := P.embedder.cosSim(enEmb, hiEmb);
    assert sim == G.sim(i, a, j, b);
    var newScore := dp[i, j].v + sim;
    if Beats(newScore, dp[i + a, j + b]) {
      D', B' := Record(dp, back, i + a, j + b, Fin(newScore), Some(BackPointer(a, b, sim)), D, B);
      Improve(G, D, B, i, j, a, b, sim, D', B');
    } else {
      NoImprove(G, D, B, i, j, a, b);
      D', B' := D, B;
    }
  }

  /** dp[x][y] = score and back[x][y] = pointer, mirrored on the ghost tables. */
  method Record(dp: array2<Score>, back: array2<Option<BackPointer>>, x: int, y: int, score: Score, pointer: Option<BackPointer>,
                ghost D: seq<seq<Score>>, ghost B: seq<seq<Option<BackPointer>>>)
    returns (ghost D': seq<seq<Score>>, ghost B': seq<seq<Option<BackPointer>>>)
    requires Mirrors(dp, D) && Mirrors(back, B)
    requires 0 <= x < dp.Length0 && 0 <= y < dp.Length1 && 0 <= x < back.Length0 && 0 <= y < back.Length1
    modifies dp, back
    ensures D' == Put(D, x, y, score) && B' == Put(B, x, y, pointer)
    ensures Mirrors(dp, D') && Mirrors(back, B')
    ensures forall p, q :: 0 <= p < dp.Length0 && 0 <= q < dp.Length1 && !(p == x && q == y) ==> dp[p, q] == old(dp[p, q])
  {
    dp[x, y] := score;
    back[x, y] := pointer;
    D' := Put(D, x, y, score);
    B' := Put(B, x, y, pointer);
  }

  /**
   * One backtrace step keeps the loop's invariant: the records still to be
   * emitted for the pointer's predecessor, followed by the ones emitted so
   * far in document order, are the records of the whole traced segmentation.
   */
  lemma BacktraceStep(P: Problem, D: seq<seq<Score>>, B: seq<seq<Option<BackPointer>>>, x: int, y: int,
                      a: int, b: int, sim: real, x': int, y': int, rev: seq<Segment>, rev': seq<Segment>,
                      whole: seq<Segment>, threshold: real)
    requires Sound(P.Grid(), D, B) && P.Grid().InTable(x, y) && D[x][y].Fin? && !(x == 0 && y == 0)
    requires B[x][y] == Some(BackPointer(a, b, sim))
    requires Segmentation(P.Grid(), Trace(P.Grid(), B, x, y), x, y)
    requires SegmentsOf(P, Trace(P.Grid(), B, x, y), x, y, threshold) + Reversed(rev) == whole
    requires x' == x - a && y' == y - b
    requires rev' == rev + [Segment(JoinSpace(P.en[x'..x]), JoinSpace(P.hi[y'..y]), sim, if sim >= threshold then 1 else 2)]
    ensures P.Grid().InTable(x', y') && x' + y' < x + y && D[x'][y'].Fin?
    ensures Segmentation(P.Grid(), Trace(P.Grid(), B, x', y'), x', y')
    ensures SegmentsOf(P, Trace(P.Grid(), B, x', y'), x', y', threshold) + Reversed(rev') == whole
  {
    var G := P.Grid();
    TracePointer(G, D, B, x, y, a, b, sim, x', y');
    EmitLast(P, Trace(G, B, x, y), Trace(G, B, x', y'), x, y, a, b, sim, x', y', rev, whole, threshold);
  }

  /**
   * The backtrace: from (N, M), follow the back pointers to the origin,
   * emitting one record per pointer, then reverse. An unreached (N, M) has
   * no pointer, and the result is empty; otherwise the records are those of
   * the segmentation the pointers trace, whose similarities add up to
   * dp[N][M].
   */
  method Backtrace(P: Problem, dp: array2<Score>, back: array2<Option<BackPointer>>, threshold: real,
                   ghost D: seq<seq<Score>>, ghost B: seq<seq<Option<BackPointer>>>)
    returns (segments: seq<Segment>)
    requires dp.Length0 == back.Length0 == |P.en| + 1 && dp.Length1 == back.Length1 == |P.hi| + 1
    requires Mirrors(dp, D) && Mirrors(back, B)
    requires Sound(P.Grid(), D, B)
    ensures dp[|P.en|, |P.hi|].NegInf? ==> segments == []
    ensures dp[|P.en|, |P.hi|].Fin? ==>
      && Segmentation(P.Grid(), Trace(P.Grid(), B, |P.en|, |P.hi|), |P.en|, |P.hi|)
      && segments == SegmentsOf(P, Trace(P.Grid(), B, |P.en|, |P.hi|), |P.en|, |P.hi|, threshold)
      && SumSimilarity(segments) == dp[|P.en|, |P.hi|].v
  {
    ghost var G := P.Grid();
    var N, M := |P.en|, |P.hi|;
    assert PointsBack(G, D, B, N, M);
    ghost var whole: seq<Segment> := [];
    if D[N][M].Fin? {
      TraceAttainsScore(G, D, B, N, M);
      whole := SegmentsOf(P, Trace(G, B, N, M), N, M, threshold);
    }
    var i, j := N, M;
    var rev: seq<Segment> := [];
    while i > 0 || j > 0
      invariant G.InTable(i, j)
      invariant D[N][M].NegInf? ==> i == N && j == M && rev == []
      invariant D[N][M].Fin? ==>
        && D[i][j].Fin?
        && Segmentation(G, Trace(G, B, i, j), i, j)
        && SegmentsOf(P, Trace(G, B, i, j), i, j, threshold) + Reversed(rev) == whole
      decreases i + j
    {
      if back[i, j].None? {
        break;
      }
      var a, b, sim := back[i, j].value.a, back[i, j].value.b, back[i, j].value.sim;
      ghost var i0, j0, rev0 := i, j, rev;
      assert B[i0][j0] == Some(BackPointer(a, b, sim));
      assert D[i0][j0].Fin? by {
        assert PointsBack(G, D, B, i0, j0);
      }
      var source := JoinSpace(P.en[i - a..i]);
      var target := JoinSpace(P.hi[j - b..j]);
      var correct := if sim >= threshold then 1 else 2;
      rev := rev + [Segment(source, target, sim, correct)];
      i, j := i - a, j - b;
      BacktraceStep(P, D, B, i0, j0, a, b, sim, i, j, rev0, rev, whole, threshold);
    }
    segments := Reversed(rev);
    if D[N][M].Fin? {
      assert Trace(G, B, i, j) == [];
      SegmentsSumToTotal(P, Trace(G, B, N, M), N, M, threshold);
    }
  }

  /**
   * What the tables a fill leaves say about the backtrace's result: empty
   * when no segmentation covers both lists, otherwise the records of an
   * optimal segmentation, whose similarities add up to the best total.
   */
  lemma Outcome(P: Problem, D: seq<seq<Score>>, B: seq<seq<Option<BackPointer>>>, threshold: real, segments: seq<Segment>)
    requires Sound(P.Grid(), D, B)
    requires D[|P.en|][|P.hi|].NegInf? ==> segments == []
    requires D[|P.en|][|P.hi|].Fin? ==>
      && Segmentation(P.Grid(), Trace(P.Grid(), B, |P.en|, |P.hi|), |P.en|, |P.hi|)
      && segments == SegmentsOf(P, Trace(P.Grid(), B, |P.en|, |P.hi|), |P.en|, |P.hi|, threshold)
    ensures !Alignable(P.Grid()) ==> segments == []
    ensures Alignable(P.Grid()) ==>
      exists blocks :: Optimal(P.Grid(), blocks) && segments == SegmentsOf(P, blocks, |P.en|, |P.hi|, threshold)
    ensures Alignable(P.Grid()) ==>
      forall blocks :: Segmentation(P.Grid(), blocks, |P.en|, |P.hi|) ==>
        Total(P.Grid(), blocks, |P.en|, |P.hi|) <= SumSimilarity(segments)
    ensures forall k :: 0 <= k < |segments| ==> segments[k].correct == (if segments[k].similarity >= threshold then 1 else 2)
  {
    var G := P.Grid();
    ReachedIffAlignable(G, D, B);
    if D[G.n][G.m].Fin? {
      var traced := Trace(G, B, G.n, G.m);
      TableIsOptimal(G, D, B, G.n, G.m);
      SegmentsSumToTotal(P, traced, G.n, G.m, threshold);
      SegmentsHoldGroups(P, traced, G.n, G.m, threshold);
      assert Optimal(P.Grid(), traced) && segments == SegmentsOf(P, traced, |P.en|, |P.hi|, threshold);
    }
  }

  /** An empty sentence list on either side leaves nothing to align. */
  lemma EmptySide(P: Problem, D: seq<seq<Score>>, B: seq<seq<Option<BackPointer>>>, threshold: real, segments: seq<Segment>)
    requires |P.en| == 0 || |P.hi| == 0
    requires !Alignable(P.Grid()) ==> segments == []
    requires Alignable(P.Grid()) ==>
      exists blocks :: Optimal(P.Grid(), blocks) && segments == SegmentsOf(P, blocks, |P.en|, |P.hi|, threshold)
    ensures segments == []
  {
    var G := P.Grid();
    if |P.en| == 0 && |P.hi| == 0 {
      if Alignable(G) {
        var blocks :| Optimal(G, blocks) && segments == SegmentsOf(P, blocks, 0, 0, threshold);
        SegmentationSize(G, blocks, 0, 0);
      }
    } else {
      OneSideEmpty(G);
    }
  }

  /**
   * align_many_to_many: split the Hindi document into sentences, fill the
   * tables, and read the alignment off the back pointers. The result is
   * empty exactly when no segmentation covers both lists (in particular
   * when one list is empty); otherwise it is the records of a segmentation
   * with the largest total similarity, each flagged 1 when its similarity
   * reaches the threshold and 2 otherwise.
   */
  method AlignManyToMany(enSentences: seq<string>, hindiDoc: string, embedder: Embedder, capEn: int, capHi: int, threshold: real)
    returns (segments: seq<Segment>)
    ensures var P := Problem(enSentences, HindiSentences(hindiDoc), capEn, capHi, embedder);
      && (!Alignable(P.Grid()) ==> segments == [])
      && (Alignable(P.Grid()) ==>
            exists blocks :: Optimal(P.Grid(), blocks) && segments == SegmentsOf(P, blocks, |P.en|, |P.hi|, threshold))
      && (Alignable(P.Grid()) ==>
            forall blocks :: Segmentation(P.Grid(), blocks, |P.en|, |P.hi|) ==>
              Total(P.Grid(), blocks, |P.en|, |P.hi|) <= SumSimilarity(segments))
    ensures |enSentences| == 0 || |HindiSentences(hindiDoc)| == 0 ==> segments == []
    ensures forall k :: 0 <= k < |segments| ==> segments[k].correct == (if segments[k].similarity >= threshold then 1 else 2)
  {
    var hiSentences := TokenizeHindi(hindiDoc);
    var P := Problem(enSentences, hiSentences, capEn, capHi, embedder);
    var dp, back;
    ghost var D, B;
    dp, back, D, B := Fill(P);
    FilledIsSound(P.Grid(), D, B);
    segments := Backtrace(P, dp, back, threshold, D, B);
    Outcome(P, D, B, threshold, segments);
    if |enSentences| == 0 || |hiSentences| == 0 {
      EmptySide(P, D, B, threshold, segments);
    }
  }
}
