/**
 * The dynamic programme behind align_many_to_many, over an abstract grid:
 * monotonic segmentations of two sequences into consecutive groups of
 * bounded size, their summed similarity, and the invariant the score and
 * back-pointer tables satisfy while the fill runs and once it is done.
 */
module Segmentations {
  import opened Strings

  /**
   * The shape of one alignment: n source and m target sentences, the group
   * size caps, and sim(p, a, q, b), the similarity of grouping the a source
   * sentences from p with the b target sentences from q.
   */
  datatype Grid = Grid(n: nat, m: nat, capEn: int, capHi: int, sim: (int, int, int, int) -> real)
  {
    predicate InTable(x: int, y: int)
    {
      0 <= x <= n && 0 <= y <= m
    }

    /** Grouping the a source and b target sentences that end at (x, y) is allowed. */
    predicate CanStep(x: int, y: int, a: int, b: int)
    {
      1 <= a <= capEn && 1 <= b <= capHi && a <= x <= n && b <= y <= m
    }
  }

  /** A dp cell: minus infinity (unreached) or a finite best score. */
  datatype Score = NegInf | Fin(v: real)

  /** Python's `x > cell` where the cell may hold -inf. */
  predicate Beats(x: real, s: Score): (r: bool)
    ensures s.NegInf? ==> r
    ensures s == Fin(x) ==> !r
    ensures r && s.Fin? ==> x > s.v
  {
    s.NegInf? || x > s.v
  }

  datatype Option<T> = None | Some(value: T)

  /** A back pointer (a, b, sim): the group sizes and similarity of the last segment. */
  datatype BackPointer = BackPointer(a: int, b: int, sim: real)

  /** The sizes of one aligned pair of groups. */
  datatype Block = Block(a: int, b: int)

  /**
   * blocks is a monotonic segmentation of the first x source and first y
   * target sentences into consecutive groups within the caps; the last
   * block ends at (x, y).
   */
  predicate Segmentation(G: Grid, blocks: seq<Block>, x: int, y: int)
    decreases |blocks|
  {
    if blocks == [] then x == 0 && y == 0
    else
      var k := Last(blocks);
      G.CanStep(x, y, k.a, k.b) && Segmentation(G, DropLast(blocks), x - k.a, y - k.b)
  }

  /** Some segmentation covers both whole sentence lists. */
  ghost predicate Alignable(G: Grid)
  {
    exists blocks :: Segmentation(G, blocks, G.n, G.m)
  }

  /** blocks segments both whole sequences and no other segmentation has a larger total. */
  ghost predicate Optimal(G: Grid, blocks: seq<Block>)
  {
    && Segmentation(G, blocks, G.n, G.m)
    && forall other :: Segmentation(G, other, G.n, G.m) ==> Total(G, other, G.n, G.m) <= Total(G, blocks, G.n, G.m)
  }

  /** One more block after a segmentation of the prefixes it starts from. */
  lemma Extend(G: Grid, blocks: seq<Block>, k: Block, x: int, y: int)
    requires G.CanStep(x, y, k.a, k.b) && Segmentation(G, blocks, x - k.a, y - k.b)
    ensures Segmentation(G, blocks + [k], x, y)
    ensures Total(G, blocks + [k], x, y) == Total(G, blocks, x - k.a, y - k.b) + G.sim(x - k.a, k.a, y - k.b, k.b)
  {
    assert DropLast(blocks + [k]) == blocks;
  }

  /** The summed similarity of a segmentation's groups. */
  function Total(G: Grid, blocks: seq<Block>, x: int, y: int): real
    requires Segmentation(G, blocks, x, y)
    decreases |blocks|
  {
    if blocks == [] then 0.0
    else
      var k := Last(blocks);
      Total(G, DropLast(blocks), x - k.a, y - k.b) + G.sim(x - k.a, k.a, y - k.b, k.b)
  }

  /** A segmentation has at most as many blocks as either side has sentences. */
  lemma {:induction false} SegmentationSize(G: Grid, blocks: seq<Block>, x: int, y: int)
    requires Segmentation(G, blocks, x, y)
    ensures |blocks| <= x && |blocks| <= y
    ensures |blocks| * G.capHi >= y && |blocks| * G.capEn >= x
    decreases |blocks|
  {
    if blocks != [] {
      var k := Last(blocks);
      SegmentationSize(G, DropLast(blocks), x - k.a, y - k.b);
      MulSucc(|DropLast(blocks)|, G.capHi);
      MulSucc(|DropLast(blocks)|, G.capEn);
    }
  }

  /** With one side empty and the other not, no segmentation exists. */
  lemma OneSideEmpty(G: Grid)
    requires (G.n == 0) != (G.m == 0)
    ensures !Alignable(G)
  {
    forall blocks | Segmentation(G, blocks, G.n, G.m) ensures false {
      SegmentationSize(G, blocks, G.n, G.m);
    }
  }

  lemma MulSucc(n: int, c: int)
    ensures (n + 1) * c == n * c + c
  {
  }

  lemma MulMono(m: int, n: int, c: int)
    requires m <= n && c >= 0
    ensures m * c <= n * c
  {
    assert n * c - m * c == (n - m) * c;
  }

  /**
   * With caps of at least one, a pair of non-empty lists can still be
   * unalignable: more target sentences than N groups of at most capHi.
   */
  lemma TooManyTargetSentences(G: Grid)
    requires G.capHi >= 0 && G.m > G.n * G.capHi
    ensures !Alignable(G)
  {
    forall blocks | Segmentation(G, blocks, G.n, G.m) ensures false {
      SegmentationSize(G, blocks, G.n, G.m);
      MulMono(|blocks|, G.n, G.capHi);
    }
  }

  /** With both caps at one, a segmentation is a strict one-to-one pairing. */
  lemma {:induction false} OneToOne(G: Grid, blocks: seq<Block>, x: int, y: int)
    requires G.capEn == 1 && G.capHi == 1
    requires Segmentation(G, blocks, x, y)
    ensures x == y == |blocks|
    ensures forall k :: 0 <= k < |blocks| ==> blocks[k] == Block(1, 1)
    decreases |blocks|
  {
    if blocks != [] {
      OneToOne(G, DropLast(blocks), x - Last(blocks).a, y - Last(blocks).b);
    }
  }

  /** The one-to-one pairing of n sentences on each side. */
  function Diagonal(n: nat): (blocks: seq<Block>)
    ensures |blocks| == n
  {
    if n == 0 then [] else Diagonal(n - 1) + [Block(1, 1)]
  }

  /** With both caps at one, equal lengths suffice for an alignment. */
  lemma {:induction false} DiagonalIsSegmentation(G: Grid, n: nat)
    requires G.capEn >= 1 && G.capHi >= 1 && n <= G.n && n <= G.m
    ensures Segmentation(G, Diagonal(n), n, n)
  {
    if n > 0 {
      DiagonalIsSegmentation(G, n - 1);
      assert DropLast(Diagonal(n)) == Diagonal(n - 1);
    }
  }

  /** With both caps at one, two lists can be aligned exactly when they are equally long. */
  lemma OneToOneAlignable(G: Grid)
    requires G.capEn == 1 && G.capHi == 1
    ensures Alignable(G) <==> G.n == G.m
  {
    if G.n == G.m {
      DiagonalIsSegmentation(G, G.n);
    }
    forall blocks | Segmentation(G, blocks, G.n, G.m) ensures G.n == G.m {
      OneToOne(G, blocks, G.n, G.m);
    }
  }

  // ---------------------------------------------------------------------
  // The tables while they are being filled.

  /**
   * The fill's position: the transition from cell (i, j) with group sizes
   * (a, b) is the next one the loops will look at.
   */
  datatype Frontier = Frontier(i: int, j: int, a: int, b: int)

  /** The transition from (p, q) with sizes (a, b) has already been looked at. */
  predicate Done(f: Frontier, p: int, q: int, a: int, b: int)
  {
    p < f.i || (p == f.i && (q < f.j || (q == f.j && (a < f.a || (a == f.a && b < f.b)))))
  }

  /** (p, q) comes before (p', q') in the fill's row-major order. */
  predicate Earlier(p: int, q: int, p': int, q': int)
  {
    p < p' || (p == p' && q < q')
  }

  /** The position after every transition. */
  function Finished(G: Grid): Frontier
  {
    Frontier(G.n + 1, 0, 1, 1)
  }

  ghost predicate Shaped<T>(t: seq<seq<T>>, rows: int, cols: int)
  {
    |t| == rows && forall x :: 0 <= x < rows ==> |t[x]| == cols
  }

  /** Both tables have N + 1 rows of M + 1 cells. */
  ghost predicate Tables(G: Grid, D: seq<seq<Score>>, B: seq<seq<Option<BackPointer>>>)
  {
    Shaped(D, G.n + 1, G.m + 1) && Shaped(B, G.n + 1, G.m + 1)
  }

  function Put<T>(t: seq<seq<T>>, x: int, y: int, v: T): seq<seq<T>>
    requires 0 <= x < |t| && 0 <= y < |t[x]|
  {
    t[x := t[x][y := v]]
  }

  /**
   * The back pointer at (x, y) names a transition already looked at, within
   * the caps and the table, from a reached cell; it records that
   * transition's similarity, the cell's score is the predecessor's plus that
   * similarity, and every transition from an earlier predecessor offers
   * strictly less (ties keep the first one found).
   */
  ghost predicate Justified(G: Grid, D: seq<seq<Score>>, B: seq<seq<Option<BackPointer>>>, f: Frontier, x: int, y: int)
    requires Tables(G, D, B) && G.InTable(x, y) && B[x][y].Some?
  {
    var bp := B[x][y].value;
    && G.CanStep(x, y, bp.a, bp.b)
    && Done(f, x - bp.a, y - bp.b, bp.a, bp.b)
    && D[x - bp.a][y - bp.b].Fin?
    && bp.sim == G.sim(x - bp.a, bp.a, y - bp.b, bp.b)
    && D[x][y] == Fin(D[x - bp.a][y - bp.b].v + bp.sim)
    && forall a, b :: G.CanStep(x, y, a, b) && Earlier(x - a, y - b, x - bp.a, y - bp.b) && D[x - a][y - b].Fin? ==>
         D[x - a][y - b].v + G.sim(x - a, a, y - b, b) < D[x][y].v
  }

  /**
   * Cell (x, y) at position f: the origin holds 0 and no pointer; any other
   * cell has a pointer exactly when it is reached, the pointer is justified,
   * and every transition into the cell already looked at, from a reached
   * cell, offers at most the cell's score.
   */
  ghost predicate CellInv(G: Grid, D: seq<seq<Score>>, B: seq<seq<Option<BackPointer>>>, f: Frontier, x: int, y: int)
    requires Tables(G, D, B) && G.InTable(x, y)
  {
    && (x == 0 && y == 0 ==> D[0][0] == Fin(0.0) && B[0][0] == None)
    && (!(x == 0 && y == 0) ==> (B[x][y].None? <==> D[x][y].NegInf?))
    && (B[x][y].Some? ==> Justified(G, D, B, f, x, y))
    && forall a, b :: G.CanStep(x, y, a, b) && Done(f, x - a, y - b, a, b) && D[x - a][y - b].Fin? ==>
         D[x][y].Fin? && D[x - a][y - b].v + G.sim(x - a, a, y - b, b) <= D[x][y].v
  }

  ghost predicate AllCells(G: Grid, D: seq<seq<Score>>, B: seq<seq<Option<BackPointer>>>, f: Frontier)
  {
    Tables(G, D, B) && forall x, y {:trigger CellInv(G, D, B, f, x, y)} :: G.InTable(x, y) ==> CellInv(G, D, B, f, x, y)
  }

  /** The tables once every transition has been looked at. */
  ghost predicate Filled(G: Grid, D: seq<seq<Score>>, B: seq<seq<Option<BackPointer>>>)
  {
    AllCells(G, D, B, Finished(G))
  }

  /** Tables as they are before the fill: the origin holds 0, every other cell -inf, no pointers. */
  lemma InitialTables(G: Grid, D: seq<seq<Score>>, B: seq<seq<Option<BackPointer>>>)
    requires Tables(G, D, B)
    requires forall x, y :: G.InTable(x, y) ==> D[x][y] == (if x == 0 && y == 0 then Fin(0.0) else NegInf)
    requires forall x, y :: G.InTable(x, y) ==> B[x][y] == None
    ensures AllCells(G, D, B, Frontier(0, 0, 1, 1))
  {
    forall x, y | G.InTable(x, y) ensures CellInv(G, D, B, Frontier(0, 0, 1, 1), x, y) {
      assert D[0][0] == Fin(0.0);
    }
  }

  /**
   * Moving the frontier past transitions that change nothing: every
   * transition passed over either is not an allowed step or starts from an
   * unreached cell.
   */
  lemma Advance(G: Grid, D: seq<seq<Score>>, B: seq<seq<Option<BackPointer>>>, f: Frontier, f': Frontier)
    requires AllCells(G, D, B, f)
    requires forall p, q, a, b :: Done(f, p, q, a, b) ==> Done(f', p, q, a, b)
    requires forall x, y, a, b :: G.CanStep(x, y, a, b) && Done(f', x - a, y - b, a, b) && !Done(f, x - a, y - b, a, b) ==>
      D[x - a][y - b].NegInf?
    ensures AllCells(G, D, B, f')
  {
    forall x, y | G.InTable(x, y) ensures CellInv(G, D, B, f', x, y) {
      assert CellInv(G, D, B, f, x, y);
      if B[x][y].Some? {
        assert Justified(G, D, B, f, x, y);
      }
    }
  }

  /** The b loop for cell (i, j) and size a has ended: no further b fits. */
  lemma NextA(G: Grid, D: seq<seq<Score>>, B: seq<seq<Option<BackPointer>>>, i: int, j: int, a: int, b: int)
    requires AllCells(G, D, B, Frontier(i, j, a, b))
    requires b > G.capHi || j + b > G.m
    ensures AllCells(G, D, B, Frontier(i, j, a + 1, 1))
  {
    Advance(G, D, B, Frontier(i, j, a, b), Frontier(i, j, a + 1, 1));
  }

  /** The a loop for cell (i, j) has ended: no further a fits. */
  lemma NextCell(G: Grid, D: seq<seq<Score>>, B: seq<seq<Option<BackPointer>>>, i: int, j: int, a: int)
    requires AllCells(G, D, B, Frontier(i, j, a, 1))
    requires a > G.capEn || i + a > G.n
    ensures AllCells(G, D, B, Frontier(i, j + 1, 1, 1))
  {
    Advance(G, D, B, Frontier(i, j, a, 1), Frontier(i, j + 1, 1, 1));
  }

  /** An unreached cell is passed over. */
  lemma SkipCell(G: Grid, D: seq<seq<Score>>, B: seq<seq<Option<BackPointer>>>, i: int, j: int)
    requires AllCells(G, D, B, Frontier(i, j, 1, 1)) && G.InTable(i, j) && D[i][j].NegInf?
    ensures AllCells(G, D, B, Frontier(i, j + 1, 1, 1))
  {
    Advance(G, D, B, Frontier(i, j, 1, 1), Frontier(i, j + 1, 1, 1));
  }

  /** Row i has been done. */
  lemma NextRow(G: Grid, D: seq<seq<Score>>, B: seq<seq<Option<BackPointer>>>, i: int)
    requires AllCells(G, D, B, Frontier(i, G.m + 1, 1, 1))
    ensures AllCells(G, D, B, Frontier(i + 1, 0, 1, 1))
  {
    Advance(G, D, B, Frontier(i, G.m + 1, 1, 1), Frontier(i + 1, 0, 1, 1));
  }

  /** The transition from (i, j) with sizes (a, b), when it does not beat the target's score. */
  lemma NoImprove(G: Grid, D: seq<seq<Score>>, B: seq<seq<Option<BackPointer>>>, i: int, j: int, a: int, b: int)
    requires AllCells(G, D, B, Frontier(i, j, a, b))
    requires G.CanStep(i + a, j + b, a, b) && D[i][j].Fin?
    requires !Beats(D[i][j].v + G.sim(i, a, j, b), D[i + a][j + b])
    ensures AllCells(G, D, B, Frontier(i, j, a, b + 1))
  {
    var f, f' := Frontier(i, j, a, b), Frontier(i, j, a, b + 1);
    forall x, y | G.InTable(x, y) ensures CellInv(G, D, B, f', x, y) {
      assert CellInv(G, D, B, f, x, y);
      if B[x][y].Some? {
        assert Justified(G, D, B, f, x, y);
      }
    }
  }

  /**
   * The transition from (i, j) with sizes (a, b), when it beats the target's
   * score: D' and B' are the tables with the target's score and pointer
   * replaced.
   */
  lemma Improve(G: Grid, D: seq<seq<Score>>, B: seq<seq<Option<BackPointer>>>, i: int, j: int, a: int, b: int,
                s: real, D': seq<seq<Score>>, B': seq<seq<Option<BackPointer>>>)
    requires AllCells(G, D, B, Frontier(i, j, a, b))
    requires G.CanStep(i + a, j + b, a, b) && D[i][j].Fin? && s == G.sim(i, a, j, b)
    requires Beats(D[i][j].v + s, D[i + a][j + b])
    requires D' == Put(D, i + a, j + b, Fin(D[i][j].v + s)) && B' == Put(B, i + a, j + b, Some(BackPointer(a, b, s)))
    ensures AllCells(G, D', B', Frontier(i, j, a, b + 1))
  {
    forall x, y | G.InTable(x, y) ensures CellInv(G, D', B', Frontier(i, j, a, b + 1), x, y) {
      if x == i + a && y == j + b {
        ImproveTarget(G, D, B, i, j, a, b, s, D', B');
      } else {
        ImproveOther(G, D, B, i, j, a, b, s, D', B', x, y);
      }
    }
  }

  lemma ImproveTarget(G: Grid, D: seq<seq<Score>>, B: seq<seq<Option<BackPointer>>>, i: int, j: int, a: int, b: int,
                      s: real, D': seq<seq<Score>>, B': seq<seq<Option<BackPointer>>>)
    requires AllCells(G, D, B, Frontier(i, j, a, b))
    requires G.CanStep(i + a, j + b, a, b) && D[i][j].Fin? && s == G.sim(i, a, j, b)
    requires Beats(D[i][j].v + s, D[i + a][j + b])
    requires D' == Put(D, i + a, j + b, Fin(D[i][j].v + s)) && B' == Put(B, i + a, j + b, Some(BackPointer(a, b, s)))
    ensures Tables(G, D', B') && CellInv(G, D', B', Frontier(i, j, a, b + 1), i + a, j + b)
  {
    var x, y := i + a, j + b;
    var f, f' := Frontier(i, j, a, b), Frontier(i, j, a, b + 1);
    assert CellInv(G, D, B, f, x, y);
    assert D'[i][j] == D[i][j];
    forall a', b' | G.CanStep(x, y, a', b') && Earlier(x - a', y - b', i, j) && D'[x - a'][y - b'].Fin?
      ensures D'[x - a'][y - b'].v + G.sim(x - a', a', y - b', b') < D'[x][y].v
    {
      assert D'[x - a'][y - b'] == D[x - a'][y - b'];
      assert Done(f, x - a', y - b', a', b');
    }
    assert Justified(G, D', B', f', x, y);
    forall a', b' | G.CanStep(x, y, a', b') && Done(f', x - a', y - b', a', b') && D'[x - a'][y - b'].Fin?
      ensures D'[x][y].Fin? && D'[x - a'][y - b'].v + G.sim(x - a', a', y - b', b') <= D'[x][y].v
    {
      assert D'[x - a'][y - b'] == D[x - a'][y - b'];
    }
  }

  lemma ImproveOther(G: Grid, D: seq<seq<Score>>, B: seq<seq<Option<BackPointer>>>, i: int, j: int, a: int, b: int,
                     s: real, D': seq<seq<Score>>, B': seq<seq<Option<BackPointer>>>, x: int, y: int)
    requires AllCells(G, D, B, Frontier(i, j, a, b))
    requires G.CanStep(i + a, j + b, a, b) && D[i][j].Fin?
    requires D' == Put(D, i + a, j + b, Fin(D[i][j].v + s)) && B' == Put(B, i + a, j + b, Some(BackPointer(a, b, s)))
    requires G.InTable(x, y) && !(x == i + a && y == j + b)
    ensures Tables(G, D', B') && CellInv(G, D', B', Frontier(i, j, a, b + 1), x, y)
  {
    var f, f' := Frontier(i, j, a, b), Frontier(i, j, a, b + 1);
    assert CellInv(G, D, B, f, x, y);
    if B[x][y].Some? {
      ImproveOtherPointer(G, D, B, i, j, a, b, s, D', B', x, y);
    }
    assert forall a', b' :: G.CanStep(x, y, a', b') && Done(f', x - a', y - b', a', b') ==>
      D'[x - a'][y - b'] == D[x - a'][y - b'] && Done(f, x - a', y - b', a', b');
  }

  lemma ImproveOtherPointer(G: Grid, D: seq<seq<Score>>, B: seq<seq<Option<BackPointer>>>, i: int, j: int, a: int, b: int,
                            s: real, D': seq<seq<Score>>, B': seq<seq<Option<BackPointer>>>, x: int, y: int)
    requires AllCells(G, D, B, Frontier(i, j, a, b))
    requires G.CanStep(i + a, j + b, a, b) && D[i][j].Fin?
    requires D' == Put(D, i + a, j + b, Fin(D[i][j].v + s)) && B' == Put(B, i + a, j + b, Some(BackPointer(a, b, s)))
    requires G.InTable(x, y) && !(x == i + a && y == j + b) && B[x][y].Some?
    ensures Tables(G, D', B') && B'[x][y].Some? && Justified(G, D', B', Frontier(i, j, a, b + 1), x, y)
  {
    var f := Frontier(i, j, a, b);
    assert CellInv(G, D, B, f, x, y);
    assert Justified(G, D, B, f, x, y);
    var bp := B[x][y].value;
    assert D'[x][y] == D[x][y] && B'[x][y] == B[x][y];
    assert D'[x - bp.a][y - bp.b] == D[x - bp.a][y - bp.b];
    assert forall a', b' :: G.CanStep(x, y, a', b') && Earlier(x - a', y - b', x - bp.a, y - bp.b) ==>
      D'[x - a'][y - b'] == D[x - a'][y - b'];
  }

  /**
   * The segmentation the backtrace follows from (x, y): back pointers are
   * followed until the origin or a missing pointer.
   */
  function Trace(G: Grid, B: seq<seq<Option<BackPointer>>>, x: int, y: int): seq<Block>
    requires Shaped(B, G.n + 1, G.m + 1) && G.InTable(x, y)
    decreases x
  {
    if (x == 0 && y == 0) || B[x][y].None? then []
    else
      var bp := B[x][y].value;
      if 1 <= bp.a <= x && 1 <= bp.b <= y then Trace(G, B, x - bp.a, y - bp.b) + [Block(bp.a, bp.b)]
      else []
  }

  lemma TraceStep(G: Grid, B: seq<seq<Option<BackPointer>>>, x: int, y: int, bp: BackPointer)
    requires Shaped(B, G.n + 1, G.m + 1) && G.InTable(x, y) && !(x == 0 && y == 0)
    requires B[x][y] == Some(bp) && 1 <= bp.a <= x && 1 <= bp.b <= y
    ensures Trace(G, B, x, y) == Trace(G, B, x - bp.a, y - bp.b) + [Block(bp.a, bp.b)]
  {
    assert B[x][y].value == bp;
  }

  /**
   * What filled tables say about cell (x, y) through its pointer: an
   * unreached cell has none, and a reached cell other than the origin points
   * one allowed step back to a reached cell, and its score is that cell's
   * plus the step's similarity.
   */
  ghost predicate PointsBack(G: Grid, D: seq<seq<Score>>, B: seq<seq<Option<BackPointer>>>, x: int, y: int)
    requires Tables(G, D, B) && G.InTable(x, y)
  {
    && (D[x][y].NegInf? ==> B[x][y].None?)
    && (D[x][y].Fin? && !(x == 0 && y == 0) ==>
      && B[x][y].Some?
      && var bp := B[x][y].value;
      && G.CanStep(x, y, bp.a, bp.b)
      && D[x - bp.a][y - bp.b].Fin?
      && bp.sim == G.sim(x - bp.a, bp.a, y - bp.b, bp.b)
      && D[x][y].v == D[x - bp.a][y - bp.b].v + bp.sim)
  }

  /** What filled tables say about cell (x, y) through its incoming steps: none offers more than its score. */
  ghost predicate BoundsSteps(G: Grid, D: seq<seq<Score>>, x: int, y: int)
    requires Shaped(D, G.n + 1, G.m + 1) && G.InTable(x, y)
  {
    forall a, b :: G.CanStep(x, y, a, b) && D[x - a][y - b].Fin? ==>
      D[x][y].Fin? && D[x - a][y - b].v + G.sim(x - a, a, y - b, b) <= D[x][y].v
  }

  ghost predicate Sound(G: Grid, D: seq<seq<Score>>, B: seq<seq<Option<BackPointer>>>)
  {
    && Tables(G, D, B)
    && D[0][0] == Fin(0.0)
    && (forall x, y {:trigger PointsBack(G, D, B, x, y)} :: G.InTable(x, y) ==> PointsBack(G, D, B, x, y))
    && (forall x, y {:trigger BoundsSteps(G, D, x, y)} :: G.InTable(x, y) ==> BoundsSteps(G, D, x, y))
  }

  lemma FilledIsSound(G: Grid, D: seq<seq<Score>>, B: seq<seq<Option<BackPointer>>>)
    requires Filled(G, D, B)
    ensures Sound(G, D, B)
  {
    assert CellInv(G, D, B, Finished(G), 0, 0);
    forall x, y | G.InTable(x, y) ensures PointsBack(G, D, B, x, y) && BoundsSteps(G, D, x, y) {
      assert CellInv(G, D, B, Finished(G), x, y);
      if D[x][y].Fin? && !(x == 0 && y == 0) {
        assert Justified(G, D, B, Finished(G), x, y);
      }
      forall a, b | G.CanStep(x, y, a, b) && D[x - a][y - b].Fin?
        ensures D[x][y].Fin? && D[x - a][y - b].v + G.sim(x - a, a, y - b, b) <= D[x][y].v
      {
        assert Done(Finished(G), x - a, y - b, a, b);
      }
    }
  }

  /**
   * The filled tables' pointers: the origin has none; any other cell has one
   * exactly when it is reached; and a pointer (a, b, sim) names an allowed
   * step back to a reached cell, records that step's similarity, and the
   * cell's score is the predecessor's plus it.
   */
  lemma FilledPointers(G: Grid, D: seq<seq<Score>>, B: seq<seq<Option<BackPointer>>>)
    requires Filled(G, D, B)
    ensures Tables(G, D, B) && D[0][0] == Fin(0.0) && B[0][0] == None
    ensures forall x, y :: G.InTable(x, y) && !(x == 0 && y == 0) ==> (B[x][y].None? <==> D[x][y].NegInf?)
    ensures forall x, y :: G.InTable(x, y) && B[x][y].Some? ==>
      var bp := B[x][y].value;
      && G.CanStep(x, y, bp.a, bp.b)
      && D[x - bp.a][y - bp.b].Fin?
      && bp.sim == G.sim(x - bp.a, bp.a, y - bp.b, bp.b)
      && D[x][y] == Fin(D[x - bp.a][y - bp.b].v + bp.sim)
  {
    assert CellInv(G, D, B, Finished(G), 0, 0);
    forall x, y | G.InTable(x, y)
      ensures !(x == 0 && y == 0) ==> (B[x][y].None? <==> D[x][y].NegInf?)
      ensures B[x][y].Some? ==> Justified(G, D, B, Finished(G), x, y)
    {
      assert CellInv(G, D, B, Finished(G), x, y);
    }
  }

  /**
   * Ties keep the first transition found: in filled tables, a transition
   * into a cell with a pointer, from a reached predecessor that the fill
   * visited before the pointer's, offers strictly less than the cell's score.
   */
  lemma FirstFoundKept(G: Grid, D: seq<seq<Score>>, B: seq<seq<Option<BackPointer>>>,
                       x: int, y: int, a: int, b: int, sim: real, a': int, b': int)
    requires Filled(G, D, B) && G.InTable(x, y) && B[x][y] == Some(BackPointer(a, b, sim))
    requires G.CanStep(x, y, a', b') && Earlier(x - a', y - b', x - a, y - b) && D[x - a'][y - b'].Fin?
    ensures D[x][y].Fin? && D[x - a'][y - b'].v + G.sim(x - a', a', y - b', b') < D[x][y].v
  {
    assert CellInv(G, D, B, Finished(G), x, y);
    assert Justified(G, D, B, Finished(G), x, y);
  }

  /** A back pointer that extends a traced segmentation of its predecessor. */
  lemma TraceExtends(G: Grid, B: seq<seq<Option<BackPointer>>>, x: int, y: int, bp: BackPointer, before: real)
    requires Shaped(B, G.n + 1, G.m + 1) && G.InTable(x, y) && !(x == 0 && y == 0)
    requires B[x][y] == Some(bp) && G.CanStep(x, y, bp.a, bp.b)
    requires Segmentation(G, Trace(G, B, x - bp.a, y - bp.b), x - bp.a, y - bp.b)
    requires Total(G, Trace(G, B, x - bp.a, y - bp.b), x - bp.a, y - bp.b) == before
    ensures Segmentation(G, Trace(G, B, x, y), x, y)
    ensures Total(G, Trace(G, B, x, y), x, y) == before + G.sim(x - bp.a, bp.a, y - bp.b, bp.b)
  {
    TraceStep(G, B, x, y, bp);
    Extend(G, Trace(G, B, x - bp.a, y - bp.b), Block(bp.a, bp.b), x, y);
  }

  /**
   * In sound tables, the pointer (a, b, sim) of a reached cell other than
   * the origin is one allowed step back to a reached cell whose trace is a segmentation,
   * and the cell's trace is that trace followed by the step.
   */
  lemma TracePointer(G: Grid, D: seq<seq<Score>>, B: seq<seq<Option<BackPointer>>>, x: int, y: int, a: int, b: int, sim: real,
                      x': int, y': int)
    requires Sound(G, D, B) && G.InTable(x, y) && D[x][y].Fin? && !(x == 0 && y == 0)
    requires B[x][y] == Some(BackPointer(a, b, sim)) && x' == x - a && y' == y - b
    ensures G.CanStep(x, y, a, b) && G.InTable(x', y') && D[x'][y'].Fin? && sim == G.sim(x', a, y', b)
    ensures Segmentation(G, Trace(G, B, x', y'), x', y')
    ensures Trace(G, B, x, y) != [] && Last(Trace(G, B, x, y)) == Block(a, b)
    ensures DropLast(Trace(G, B, x, y)) == Trace(G, B, x', y')
  {
    assert PointsBack(G, D, B, x, y);
    TraceAttainsScore(G, D, B, x', y');
    TraceStep(G, B, x, y, BackPointer(a, b, sim));
    assert DropLast(Trace(G, B, x', y') + [Block(a, b)]) == Trace(G, B, x', y');
  }

  /**
   * In sound tables, following the back pointers from a reached cell is a
   * segmentation of its prefixes whose total is the cell's score.
   */
  lemma {:induction false} TraceAttainsScore(G: Grid, D: seq<seq<Score>>, B: seq<seq<Option<BackPointer>>>, x: int, y: int)
    requires Sound(G, D, B) && G.InTable(x, y) && D[x][y].Fin?
    ensures Segmentation(G, Trace(G, B, x, y), x, y)
    ensures Total(G, Trace(G, B, x, y), x, y) == D[x][y].v
    decreases x
  {
    if !(x == 0 && y == 0) {
      assert PointsBack(G, D, B, x, y);
      var bp := B[x][y].value;
      TraceAttainsScore(G, D, B, x - bp.a, y - bp.b);
      TraceExtends(G, B, x, y, bp, D[x - bp.a][y - bp.b].v);
    } else {
      assert Trace(G, B, x, y) == [];
    }
  }

  /** In sound tables, every segmentation of the prefixes reaches the cell and scores at most its value. */
  lemma {:induction false} ScoreBoundsSegmentations(G: Grid, D: seq<seq<Score>>, B: seq<seq<Option<BackPointer>>>, blocks: seq<Block>, x: int, y: int)
    requires Sound(G, D, B) && G.InTable(x, y) && Segmentation(G, blocks, x, y)
    ensures D[x][y].Fin? && Total(G, blocks, x, y) <= D[x][y].v
    decreases |blocks|
  {
    if blocks != [] {
      var k := Last(blocks);
      ScoreBoundsSegmentations(G, D, B, DropLast(blocks), x - k.a, y - k.b);
      assert BoundsSteps(G, D, x, y);
    }
  }

  /**
   * Optimality of the sound tables: a reached cell's score is the largest
   * total over the segmentations of its prefixes, and the back pointers
   * attain it.
   */
  lemma TableIsOptimal(G: Grid, D: seq<seq<Score>>, B: seq<seq<Option<BackPointer>>>, x: int, y: int)
    requires Sound(G, D, B) && G.InTable(x, y) && D[x][y].Fin?
    ensures Segmentation(G, Trace(G, B, x, y), x, y)
    ensures Total(G, Trace(G, B, x, y), x, y) == D[x][y].v
    ensures forall blocks :: Segmentation(G, blocks, x, y) ==> Total(G, blocks, x, y) <= D[x][y].v
  {
    TraceAttainsScore(G, D, B, x, y);
    forall blocks | Segmentation(G, blocks, x, y) ensures Total(G, blocks, x, y) <= D[x][y].v {
      ScoreBoundsSegmentations(G, D, B, blocks, x, y);
    }
  }

  /** In sound tables, a cell is unreached exactly when no segmentation of its prefixes exists. */
  lemma UnreachedIffNoSegmentation(G: Grid, D: seq<seq<Score>>, B: seq<seq<Option<BackPointer>>>, x: int, y: int)
    requires Sound(G, D, B) && G.InTable(x, y)
    ensures D[x][y].NegInf? <==> !exists blocks :: Segmentation(G, blocks, x, y)
  {
    if D[x][y].Fin? {
      TraceAttainsScore(G, D, B, x, y);
      var traced := Trace(G, B, x, y);
      assert Segmentation(G, traced, x, y);
      assert exists blocks :: Segmentation(G, blocks, x, y);
    } else {
      forall blocks | Segmentation(G, blocks, x, y) ensures false {
        ScoreBoundsSegmentations(G, D, B, blocks, x, y);
      }
    }
  }

  /** In sound tables, the final cell is reached exactly when the whole grid is alignable. */
  lemma ReachedIffAlignable(G: Grid, D: seq<seq<Score>>, B: seq<seq<Option<BackPointer>>>)
    requires Sound(G, D, B)
    ensures D[G.n][G.m].Fin? <==> Alignable(G)
  {
    if D[G.n][G.m].Fin? {
      TraceAttainsScore(G, D, B, G.n, G.m);
      assert Segmentation(G, Trace(G, B, G.n, G.m), G.n, G.m);
    } else {
      forall blocks | Segmentation(G, blocks, G.n, G.m) ensures false {
        ScoreBoundsSegmentations(G, D, B, blocks, G.n, G.m);
      }
    }
  }

  /** With one side empty, the origin is the only reached cell. */
  lemma OnlyOriginWhenOneSideEmpty(G: Grid, D: seq<seq<Score>>, B: seq<seq<Option<BackPointer>>>)
    requires Sound(G, D, B) && (G.n == 0 || G.m == 0)
    ensures forall x, y :: G.InTable(x, y) && !(x == 0 && y == 0) ==> D[x][y].NegInf?
  {
    forall x, y | G.InTable(x, y) && !(x == 0 && y == 0) ensures D[x][y].NegInf? {
      if D[x][y].Fin? {
        TraceAttainsScore(G, D, B, x, y);
      }
    }
  }
}
