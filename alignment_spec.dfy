/**
 * What align_many_to_many returns, stated without its loops: the grid of a
 * pair of sentence lists under an embedding model, and the records a
 * segmentation of that grid produces.
 */
module AlignmentSpec {
  import opened Strings
  import opened Segmentations

  type Embedding = seq<real>

  /** The sentence-embedding model: an encoder and cosine similarity, both opaque here. */
  datatype Embedder = Embedder(encode: string -> Embedding, cosSim: (Embedding, Embedding) -> real)

  /** One alignment call: the sentence lists, the group-size caps and the model. */
  datatype Problem = Problem(en: seq<string>, hi: seq<string>, capEn: int, capHi: int, embedder: Embedder)
  {
    /**
     * Cosine similarity of the embeddings of the a source sentences from p
     * and the b target sentences from q, each group joined with spaces
     * (0.0 for a group outside the lists, which the alignment never asks for).
     */
    function GroupSim(p: int, a: int, q: int, b: int): real
    {
      if 0 <= p && 0 <= a && p + a <= |en| && 0 <= q && 0 <= b && q + b <= |hi| then
        embedder.cosSim(embedder.encode(JoinSpace(en[p..p + a])), embedder.encode(JoinSpace(hi[q..q + b])))
      else 0.0
    }

    /** The grid the alignment runs on. */
    function Grid(): Grid
    {
      Segmentations.Grid(|en|, |hi|, capEn, capHi, (p, a, q, b) => GroupSim(p, a, q, b))
    }
  }

  /** One output record: grouped source text, grouped target text, similarity, flag. */
  datatype Segment = Segment(source: string, target: string, similarity: real, correct: int)

  /**
   * The record emitted for the groups of a sentences from p and b sentences
   * from q: its similarity is that of the two texts it holds, and it is
   * flagged 1 exactly when that similarity reaches the threshold, 2 otherwise.
   */
  function MakeSegment(P: Problem, p: int, a: int, q: int, b: int, threshold: real): Segment
    requires 0 <= p && 0 <= a && p + a <= |P.en| && 0 <= q && 0 <= b && q + b <= |P.hi|
  {
    var sim := P.GroupSim(p, a, q, b);
    Segment(JoinSpace(P.en[p..p + a]), JoinSpace(P.hi[q..q + b]), sim, if sim >= threshold then 1 else 2)
  }

  /** The records of a segmentation, in document order. */
  function SegmentsOf(P: Problem, blocks: seq<Block>, x: int, y: int, threshold: real): seq<Segment>
    requires Segmentation(P.Grid(), blocks, x, y)
    decreases |blocks|
  {
    if blocks == [] then []
    else
      var k := Last(blocks);
      SegmentsOf(P, DropLast(blocks), x - k.a, y - k.b, threshold) + [MakeSegment(P, x - k.a, k.a, y - k.b, k.b, threshold)]
  }

  /** The source sentence groups of a segmentation, in order. */
  function SourceGroups(P: Problem, blocks: seq<Block>, x: int, y: int): seq<seq<string>>
    requires Segmentation(P.Grid(), blocks, x, y)
    decreases |blocks|
  {
    if blocks == [] then []
    else
      var k := Last(blocks);
      SourceGroups(P, DropLast(blocks), x - k.a, y - k.b) + [P.en[x - k.a..x]]
  }

  /** The target sentence groups of a segmentation, in order. */
  function TargetGroups(P: Problem, blocks: seq<Block>, x: int, y: int): seq<seq<string>>
    requires Segmentation(P.Grid(), blocks, x, y)
    decreases |blocks|
  {
    if blocks == [] then []
    else
      var k := Last(blocks);
      TargetGroups(P, DropLast(blocks), x - k.a, y - k.b) + [P.hi[y - k.b..y]]
  }

  function SumSimilarity(segments: seq<Segment>): real
  {
    if segments == [] then 0.0 else SumSimilarity(DropLast(segments)) + Last(segments).similarity
  }

  /**
   * The source groups of a segmentation partition the first x source
   * sentences: read in order they are exactly those sentences, and each
   * group is non-empty and within its cap.
   */
  lemma {:induction false} SourceGroupsCover(P: Problem, blocks: seq<Block>, x: int, y: int)
    requires Segmentation(P.Grid(), blocks, x, y)
    ensures 0 <= x <= |P.en| && |SourceGroups(P, blocks, x, y)| == |blocks|
    ensures Flatten(SourceGroups(P, blocks, x, y)) == P.en[..x]
    ensures forall k :: 0 <= k < |blocks| ==> 1 <= |SourceGroups(P, blocks, x, y)[k]| <= P.capEn
    decreases |blocks|
  {
    if blocks != [] {
      var k := Last(blocks);
      var x' := x - k.a;
      SourceGroupsCover(P, DropLast(blocks), x', y - k.b);
      var src' := SourceGroups(P, DropLast(blocks), x', y - k.b);
      assert SourceGroups(P, blocks, x, y) == src' + [P.en[x'..x]];
      assert Flatten(src' + [P.en[x'..x]]) == Flatten(src') + P.en[x'..x] by {
        assert DropLast(src' + [P.en[x'..x]]) == src';
      }
      assert P.en[..x'] + P.en[x'..x] == P.en[..x];
    }
  }

  /** The target groups of a segmentation partition the first y target sentences likewise. */
  lemma {:induction false} TargetGroupsCover(P: Problem, blocks: seq<Block>, x: int, y: int)
    requires Segmentation(P.Grid(), blocks, x, y)
    ensures 0 <= y <= |P.hi| && |TargetGroups(P, blocks, x, y)| == |blocks|
    ensures Flatten(TargetGroups(P, blocks, x, y)) == P.hi[..y]
    ensures forall k :: 0 <= k < |blocks| ==> 1 <= |TargetGroups(P, blocks, x, y)[k]| <= P.capHi
    decreases |blocks|
  {
    if blocks != [] {
      var k := Last(blocks);
      var y' := y - k.b;
      TargetGroupsCover(P, DropLast(blocks), x - k.a, y');
      var tgt' := TargetGroups(P, DropLast(blocks), x - k.a, y');
      assert TargetGroups(P, blocks, x, y) == tgt' + [P.hi[y'..y]];
      assert Flatten(tgt' + [P.hi[y'..y]]) == Flatten(tgt') + P.hi[y'..y] by {
        assert DropLast(tgt' + [P.hi[y'..y]]) == tgt';
      }
      assert P.hi[..y'] + P.hi[y'..y] == P.hi[..y];
    }
  }

  /**
   * Each record holds the space-joined text of its two groups and the
   * cosine similarity of their embeddings, flagged 1 exactly when that
   * similarity reaches the threshold and 2 otherwise.
   */
  lemma {:induction false} SegmentsHoldGroups(P: Problem, blocks: seq<Block>, x: int, y: int, threshold: real)
    requires Segmentation(P.Grid(), blocks, x, y)
    ensures var segs := SegmentsOf(P, blocks, x, y, threshold);
      var src := SourceGroups(P, blocks, x, y);
      var tgt := TargetGroups(P, blocks, x, y);
      && |segs| == |src| == |tgt| == |blocks|
      && forall k :: 0 <= k < |segs| ==>
           && segs[k].source == JoinSpace(src[k])
           && segs[k].target == JoinSpace(tgt[k])
           && segs[k].similarity == P.embedder.cosSim(P.embedder.encode(segs[k].source), P.embedder.encode(segs[k].target))
           && segs[k].correct == (if segs[k].similarity >= threshold then 1 else 2)
    decreases |blocks|
  {
    if blocks != [] {
      var k := Last(blocks);
      var x', y' := x - k.a, y - k.b;
      SegmentsHoldGroups(P, DropLast(blocks), x', y', threshold);
      var segs' := SegmentsOf(P, DropLast(blocks), x', y', threshold);
      var src' := SourceGroups(P, DropLast(blocks), x', y');
      var tgt' := TargetGroups(P, DropLast(blocks), x', y');
      assert SegmentsOf(P, blocks, x, y, threshold) == segs' + [MakeSegment(P, x', k.a, y', k.b, threshold)];
      assert SourceGroups(P, blocks, x, y) == src' + [P.en[x'..x]];
      assert TargetGroups(P, blocks, x, y) == tgt' + [P.hi[y'..y]];
    }
  }

  /** The records' similarities add up to the segmentation's total. */
  lemma {:induction false} SegmentsSumToTotal(P: Problem, blocks: seq<Block>, x: int, y: int, threshold: real)
    requires Segmentation(P.Grid(), blocks, x, y)
    ensures SumSimilarity(SegmentsOf(P, blocks, x, y, threshold)) == Total(P.Grid(), blocks, x, y)
    decreases |blocks|
  {
    if blocks != [] {
      var k := Last(blocks);
      var x', y' := x - k.a, y - k.b;
      SegmentsSumToTotal(P, DropLast(blocks), x', y', threshold);
      var segs' := SegmentsOf(P, DropLast(blocks), x', y', threshold);
      var seg := MakeSegment(P, x', k.a, y', k.b, threshold);
      assert SegmentsOf(P, blocks, x, y, threshold) == segs' + [seg];
      assert SumSimilarity(segs' + [seg]) == SumSimilarity(segs') + seg.similarity by {
        assert DropLast(segs' + [seg]) == segs';
      }
    }
  }

  /** The last block of a segmentation contributes the last record. */
  lemma SegmentsOfLast(P: Problem, s: seq<Block>, x: int, y: int, a: int, b: int, x': int, y': int, threshold: real)
    requires Segmentation(P.Grid(), s, x, y) && s != [] && Last(s) == Block(a, b)
    requires x' == x - a && y' == y - b
    ensures P.Grid().CanStep(x, y, a, b) && Segmentation(P.Grid(), DropLast(s), x', y')
    ensures SegmentsOf(P, s, x, y, threshold) ==
      SegmentsOf(P, DropLast(s), x', y', threshold) + [MakeSegment(P, x', a, y', b, threshold)]
  {
  }

  /** The record of the groups that end at (x, y), as the backtrace builds it. */
  lemma RecordAt(P: Problem, x: int, a: int, y: int, b: int, x': int, y': int, sim: real, threshold: real)
    requires x' == x - a && y' == y - b
    requires 0 <= a <= x <= |P.en| && 0 <= b <= y <= |P.hi|
    requires sim == P.GroupSim(x', a, y', b)
    ensures MakeSegment(P, x', a, y', b, threshold) ==
      Segment(JoinSpace(P.en[x'..x]), JoinSpace(P.hi[y'..y]), sim, if sim >= threshold then 1 else 2)
  {
    assert P.en[x'..x] == P.en[x'..x' + a];
    assert P.hi[y'..y] == P.hi[y'..y' + b];
  }

  /**
   * Emitting the record of the last block of a segmentation in front of the
   * records emitted after it: the records of the rest, followed by those, are
   * unchanged.
   */
  lemma EmitLast(P: Problem, s: seq<Block>, t: seq<Block>, x: int, y: int, a: int, b: int, sim: real, x': int, y': int,
                 rev: seq<Segment>, whole: seq<Segment>, threshold: real)
    requires x' == x - a && y' == y - b
    requires Segmentation(P.Grid(), s, x, y) && s != [] && Last(s) == Block(a, b) && t == DropLast(s)
    requires sim == P.GroupSim(x', a, y', b)
    requires SegmentsOf(P, s, x, y, threshold) + Reversed(rev) == whole
    ensures SegmentsOf(P, t, x', y', threshold) +
      Reversed(rev + [Segment(JoinSpace(P.en[x'..x]), JoinSpace(P.hi[y'..y]), sim, if sim >= threshold then 1 else 2)])
      == whole
  {
    SegmentsOfLast(P, s, x, y, a, b, x', y', threshold);
    RecordAt(P, x, a, y, b, x', y', sim, threshold);
    ReverseOnto(SegmentsOf(P, t, x', y', threshold), MakeSegment(P, x', a, y', b, threshold), rev);
  }
}
