/** The block chain of the small-memory heap as a value: what each operation does to it, and what every run keeps. */
module HeapChain {
  import opened Bytes

  const WORD := 0x1_0000_0000
  const HEADER := 12          // SIZEOF_STRUCT_MEM
  const MIN_SIZE := 12        // MIN_SIZE and MIN_SIZE_ALIGNED

  /** A block from its header to the next header; its payload starts HEADER bytes in. */
  datatype Block = Block(start: nat, end: nat, used: bool)

  type Chain = seq<Block>

  /** A run of blocks that covers [lo, hi) without gap or overlap, every block aligned and room for its header. */
  ghost predicate Segment(c: Chain, lo: nat, hi: nat) {
    && |c| > 0 && c[0].start == lo && c[|c| - 1].end == hi
    && (forall i :: 0 <= i < |c| ==> c[i].start % 4 == 0 && c[i].end % 4 == 0 && c[i].start + HEADER <= c[i].end)
    && (forall i :: 0 < i < |c| ==> c[i - 1].end == c[i].start)
  }

  ghost predicate Tiles(c: Chain, heapEnd: nat) {
    Segment(c, 0, heapEnd)
  }

  /** No two free blocks are neighbours. */
  ghost predicate Compact(c: Chain) {
    forall i :: 0 < i < |c| ==> c[i - 1].used || c[i].used
  }

  ghost predicate WellFormed(c: Chain, heapEnd: nat) {
    Tiles(c, heapEnd) && Compact(c)
  }

  /** The start of the lowest free block, or `end` when there is none. */
  function LowestFree(c: Chain, end: nat): nat {
    if c == [] then end else if !c[0].used then c[0].start else LowestFree(c[1..], end)
  }

  /** The bytes taken by live blocks, headers included. */
  function UsedSpan(c: Chain): int {
    if c == [] then 0 else (if c[0].used then c[0].end - c[0].start else 0) + UsedSpan(c[1..])
  }

  // ----- the operations

  /** RT_ALIGN on a 32-bit word: the sum wraps. */
  function Align(size: nat): nat {
    (size + 3) % WORD / 4 * 4
  }

  /** The block size `rt_smem_alloc` looks for. */
  function Rounded(size: nat): nat {
    if Align(size) < MIN_SIZE then MIN_SIZE else Align(size)
  }

  predicate Fits(b: Block, size: nat) {
    !b.used && b.start + HEADER + size <= b.end
  }

  /** A plain scan of the whole chain. */
  function FirstFit(c: Chain, size: nat): (i: nat)
    ensures i <= |c|
    ensures i < |c| ==> Fits(c[i], size)
    ensures forall j :: 0 <= j < i ==> !Fits(c[j], size)
  {
    if c == [] then 0 else if Fits(c[0], size) then 0 else 1 + FirstFit(c[1..], size)
  }

  function Splice(c: Chain, i: nat, k: nat, xs: Chain): Chain
    requires i + k <= |c|
  {
    c[..i] + xs + c[i + k..]
  }

  /** Is the block large enough to leave a free remainder with a header and MIN_SIZE bytes? */
  predicate Splits(b: Block, size: nat) {
    b.start + HEADER + size + HEADER + MIN_SIZE <= b.end
  }

  function Halves(b: Block, size: nat): Chain {
    [Block(b.start, b.start + HEADER + size, true), Block(b.start + HEADER + size, b.end, false)]
  }

  /** What taking `size` bytes from a free block leaves in its place. */
  function Pieces(b: Block, size: nat): Chain {
    if Splits(b, size) then Halves(b, size) else [Block(b.start, b.end, true)]
  }

  function Carve(c: Chain, i: nat, size: nat): Chain
    requires i < |c|
  {
    Splice(c, i, 1, Pieces(c[i], size))
  }

  /** The first half of `plug_holes`: absorb a free successor. */
  function PlugForward(c: Chain, i: nat): (r: Chain)
    requires i < |c|
    ensures i < |r|
  {
    if i + 1 < |c| && !c[i + 1].used then Splice(c, i, 2, [Block(c[i].start, c[i + 1].end, false)]) else c
  }

  /** The second half: be absorbed by a free predecessor. */
  function PlugBackward(c: Chain, i: nat): Chain
    requires i < |c|
  {
    if i > 0 && !c[i - 1].used then Splice(c, i - 1, 2, [Block(c[i - 1].start, c[i].end, false)]) else c
  }

  function Plug(c: Chain, i: nat): Chain
    requires i < |c|
  {
    PlugBackward(PlugForward(c, i), i)
  }

  function Release(c: Chain, i: nat): Chain
    requires i < |c|
  {
    var d := c[i := c[i].(used := false)];
    Plug(d, i)
  }

  function Shrink(c: Chain, i: nat, size: nat): Chain
    requires i < |c|
  {
    Plug(Splice(c, i, 1, Halves(c[i], size)), i + 1)
  }

  // ----- segments

  lemma SegmentSplit(x: Chain, y: Chain, lo: nat, hi: nat)
    requires x != [] && y != []
    ensures Segment(x + y, lo, hi) <==>
            Segment(x, lo, y[0].start) && Segment(y, y[0].start, hi)
  {
    var c := x + y;
    if Segment(c, lo, hi) {
      assert c[|x| - 1] == x[|x| - 1] && c[|x|] == y[0];
      assert c[|x| - 1].end == c[|x|].start;
      forall i | 0 <= i < |y|
        ensures y[i].start % 4 == 0 && y[i].end % 4 == 0 && y[i].start + HEADER <= y[i].end
        ensures i > 0 ==> y[i - 1].end == y[i].start
      {
        assert c[|x| + i] == y[i];
        assert i > 0 ==> c[|x| + i - 1] == y[i - 1];
      }
      forall i | 0 <= i < |x|
        ensures x[i].start % 4 == 0 && x[i].end % 4 == 0 && x[i].start + HEADER <= x[i].end
        ensures i > 0 ==> x[i - 1].end == x[i].start
      {
        assert c[i] == x[i];
        assert i > 0 ==> c[i - 1] == x[i - 1];
      }
    }
    if Segment(x, lo, y[0].start) && Segment(y, y[0].start, hi) {
      forall i | 0 <= i < |c|
        ensures c[i].start % 4 == 0 && c[i].end % 4 == 0 && c[i].start + HEADER <= c[i].end
        ensures i > 0 ==> c[i - 1].end == c[i].start
      {
        if i < |x| {
          assert c[i] == x[i] && (i > 0 ==> c[i - 1] == x[i - 1]);
        } else {
          assert c[i] == y[i - |x|];
          assert i > |x| ==> c[i - 1] == y[i - |x| - 1];
          assert i == |x| ==> c[i - 1] == x[|x| - 1];
        }
      }
      assert c[|c| - 1] == y[|y| - 1];
    }
  }

  lemma SegmentBounds(c: Chain, lo: nat, hi: nat, i: nat)
    requires Segment(c, lo, hi) && i < |c|
    ensures lo <= c[i].start && c[i].end <= hi
    decreases |c|
  {
    if |c| > 1 {
      assert c[0].start < c[0].end && c[0].end == c[1].start;
      assert c[0].start == lo;
      hide Segment;
      SegmentSplit(c[..1], c[1..], lo, hi);
      assert c == c[..1] + c[1..];
      SegmentBounds(c[1..], c[1].start, hi, if i == 0 then 0 else i - 1);
    }
  }

  lemma SegmentHead(mid: Chain, xs: Chain, right: Chain, lo: nat, hi: nat)
    requires mid != [] && Segment(mid + right, lo, hi) && Segment(xs, lo, mid[|mid| - 1].end)
    ensures Segment(xs + right, lo, hi)
  {
    if right == [] {
      assert mid + right == mid && xs + right == xs;
    } else {
      SegmentSplit(mid, right, lo, hi);
      SegmentSplit(xs, right, lo, hi);
    }
  }

  lemma SegmentStarts(c: Chain, lo: nat, hi: nat)
    requires Segment(c, lo, hi)
    ensures c != [] && c[0].start == lo && c[|c| - 1].end == hi
  {
  }

  lemma SegmentTail(left: Chain, mid: Chain, xs: Chain, lo: nat, hi: nat)
    requires mid != [] && Segment(left + mid, lo, hi) && Segment(xs, mid[0].start, hi)
    ensures Segment(left + xs, lo, hi)
    ensures Segment(mid, mid[0].start, hi)
  {
    hide Segment;
    SegmentStarts(xs, mid[0].start, hi);
    if left == [] {
      assert left + mid == mid && left + xs == xs;
      SegmentStarts(mid, lo, hi);
    } else {
      SegmentSplit(left, mid, lo, hi);
      SegmentSplit(left, xs, lo, hi);
    }
  }

  /** Exchanging a stretch of blocks for another cover of the same bytes. */
  lemma SegmentSplice(c: Chain, i: nat, k: nat, xs: Chain, lo: nat, hi: nat)
    requires Segment(c, lo, hi) && k >= 1 && i + k <= |c|
    requires Segment(xs, c[i].start, c[i + k - 1].end)
    ensures Segment(Splice(c, i, k, xs), lo, hi)
  {
    hide Segment, Splice;
    SpliceParts(c, i, k, xs);
    var left, mid, right := c[..i], c[i..i + k], c[i + k..];
    var whole := mid + right;
    assert mid[0] == c[i] && whole[0] == c[i] && mid[|mid| - 1] == c[i + k - 1];
    SegmentTail(left, whole, whole, lo, hi) by {
      SegmentSuffix(c, i, lo, hi);
      assert c[i..] == whole;
    }
    SegmentHead(mid, xs, right, c[i].start, hi);
    SegmentTail(left, whole, xs + right, lo, hi);
  }

  lemma SpliceParts(c: Chain, i: nat, k: nat, xs: Chain)
    requires i + k <= |c|
    ensures c == c[..i] + (c[i..i + k] + c[i + k..])
    ensures Splice(c, i, k, xs) == c[..i] + (xs + c[i + k..])
  {
  }

  lemma SegmentSuffix(c: Chain, i: nat, lo: nat, hi: nat)
    requires Segment(c, lo, hi) && i < |c|
    ensures Segment(c[i..], c[i].start, hi)
  {
    if i > 0 {
      assert c == c[..i] + c[i..];
      SegmentSplit(c[..i], c[i..], lo, hi);
    } else {
      assert c[i..] == c;
    }
  }

  /** The blocks of a spliced chain, by position. */
  lemma SpliceAt(c: Chain, i: nat, k: nat, xs: Chain, j: nat)
    requires i + k <= |c| && j < |c| - k + |xs|
    ensures |Splice(c, i, k, xs)| == |c| - k + |xs|
    ensures Splice(c, i, k, xs)[j] == if j < i then c[j] else if j < i + |xs| then xs[j - i] else c[j - |xs| + k]
  {
  }

  // ----- the two summaries of a chain

  lemma {:induction false} LowestFreeConcat(x: Chain, y: Chain, end: nat)
    ensures LowestFree(x + y, end) == LowestFree(x, LowestFree(y, end))
  {
    if x == [] {
      assert x + y == y;
    } else {
      LowestFreeConcat(x[1..], y, end);
      assert (x + y)[1..] == x[1..] + y;
    }
  }

  lemma {:induction false} UsedSpanConcat(x: Chain, y: Chain)
    ensures UsedSpan(x + y) == UsedSpan(x) + UsedSpan(y)
  {
    if x == [] {
      assert x + y == y;
    } else {
      UsedSpanConcat(x[1..], y);
      assert (x + y)[1..] == x[1..] + y;
    }
  }

  lemma SpliceSummaries(c: Chain, i: nat, k: nat, xs: Chain, end: nat)
    requires i + k <= |c|
    ensures UsedSpan(Splice(c, i, k, xs)) == UsedSpan(c) - UsedSpan(c[i..i + k]) + UsedSpan(xs)
    ensures LowestFree(c, end) == LowestFree(c[..i], LowestFree(c[i..i + k], LowestFree(c[i + k..], end)))
    ensures LowestFree(Splice(c, i, k, xs), end) == LowestFree(c[..i], LowestFree(xs, LowestFree(c[i + k..], end)))
  {
    hide Splice, UsedSpan, LowestFree;
    SpliceParts(c, i, k, xs);
    var left, mid, right := c[..i], c[i..i + k], c[i + k..];
    UsedSpanConcat(left, mid + right);
    UsedSpanConcat(mid, right);
    UsedSpanConcat(left, xs + right);
    UsedSpanConcat(xs, right);
    LowestFreeConcat(left, mid + right, end);
    LowestFreeConcat(mid, right, end);
    LowestFreeConcat(left, xs + right, end);
    LowestFreeConcat(xs, right, end);
  }

  lemma SummariesOne(b: Block, end: nat)
    ensures UsedSpan([b]) == if b.used then b.end - b.start else 0
    ensures LowestFree([b], end) == if b.used then end else b.start
  {
    assert [b][1..] == [];
  }

  lemma SummariesTwo(b: Block, d: Block, end: nat)
    ensures UsedSpan([b, d]) == (if b.used then b.end - b.start else 0) + if d.used then d.end - d.start else 0
    ensures LowestFree([b, d], end) == if !b.used then b.start else if !d.used then d.start else end
  {
    assert [b, d][1..] == [d];
    SummariesOne(d, end);
  }

  /** Either a free block comes before `end`, or the answer is `end`. */
  lemma {:induction false} LowestFreeCases(c: Chain, lo: nat, hi: nat, end: nat)
    requires c != [] ==> Segment(c, lo, hi)
    ensures || (LowestFree(c, end) == end && forall i :: 0 <= i < |c| ==> c[i].used)
            || (c != [] && lo <= LowestFree(c, end) < hi && LowestFree(c, end) == LowestFree(c, hi))
    decreases |c|
  {
    if c != [] {
      SegmentBounds(c, lo, hi, 0);
      if c[0].used {
        if |c| > 1 {
          SegmentSuffix(c, 1, lo, hi);
        }
        LowestFreeCases(c[1..], c[0].end, hi, end);
      }
    }
  }

  // ----- taking a block

  lemma PiecesCover(b: Block, size: nat)
    requires b.start % 4 == 0 && b.end % 4 == 0 && size % 4 == 0 && b.start + HEADER + size <= b.end
    ensures Segment(Pieces(b, size), b.start, b.end)
    ensures Splits(b, size) ==> Segment(Halves(b, size), b.start, b.end)
  {
    hide Segment;
    if Splits(b, size) {
      var hs := Halves(b, size);
      CoverTwo(hs[0], hs[1]);
      assert hs == [hs[0], hs[1]];
    } else {
      CoverOne(Block(b.start, b.end, true));
    }
  }

  lemma CoverOne(b: Block)
    requires b.start % 4 == 0 && b.end % 4 == 0 && b.start + HEADER <= b.end
    ensures Segment([b], b.start, b.end)
  {
  }

  lemma CoverTwo(a: Block, b: Block)
    requires a.start % 4 == 0 && a.end % 4 == 0 && b.end % 4 == 0 && a.end == b.start
    requires a.start + HEADER <= a.end && b.start + HEADER <= b.end
    ensures Segment([a, b], a.start, b.end)
  {
  }

  lemma BlockAligned(c: Chain, i: nat, lo: nat, hi: nat)
    requires Segment(c, lo, hi) && i < |c|
    ensures c[i].start % 4 == 0 && c[i].end % 4 == 0 && c[i].start + HEADER <= c[i].end
  {
  }

  lemma CarveTiles(c: Chain, i: nat, size: nat, heapEnd: nat)
    requires Tiles(c, heapEnd) && i < |c| && Fits(c[i], size) && size % 4 == 0
    ensures Tiles(Carve(c, i, size), heapEnd)
    ensures UsedSpan(Carve(c, i, size)) == UsedSpan(c) + (Pieces(c[i], size)[0].end - c[i].start)
  {
    BlockAligned(c, i, 0, heapEnd);
    hide Segment;
    PiecesCover(c[i], size);
    SegmentSplice(c, i, 1, Pieces(c[i], size), 0, heapEnd);
    CarveSpan(c, i, size, heapEnd);
  }

  lemma CarveSpan(c: Chain, i: nat, size: nat, heapEnd: nat)
    requires i < |c| && !c[i].used
    ensures UsedSpan(Carve(c, i, size)) == UsedSpan(c) + (Pieces(c[i], size)[0].end - c[i].start)
  {
    hide Splice, UsedSpan, LowestFree;
    var ps := Pieces(c[i], size);
    SpliceSummaries(c, i, 1, ps, heapEnd);
    assert c[i..i + 1] == [c[i]];
    SummariesOne(c[i], heapEnd);
    if Splits(c[i], size) {
      SummariesTwo(ps[0], ps[1], heapEnd);
      assert ps == [ps[0], ps[1]];
    } else {
      SummariesOne(ps[0], heapEnd);
      assert ps == [ps[0]];
    }
  }

  lemma CarveCompact(c: Chain, i: nat, size: nat)
    requires Compact(c) && i < |c| && !c[i].used
    ensures Compact(Carve(c, i, size))
  {
    var ps := Pieces(c[i], size);
    var r := Carve(c, i, size);
    forall j | 0 < j < |r| ensures r[j - 1].used || r[j].used {
      SpliceAt(c, i, 1, ps, j);
      SpliceAt(c, i, 1, ps, j - 1);
    }
  }

  // ----- giving a block back

  /** Only the neighbours of block `i` may be free next to it. */
  ghost predicate CompactAround(c: Chain, i: nat) {
    forall j :: 0 < j < |c| && j != i && j - 1 != i ==> c[j - 1].used || c[j].used
  }

  /** Joining two free neighbours. */
  lemma Join(c: Chain, i: nat, heapEnd: nat, x: Block)
    requires Tiles(c, heapEnd) && i + 1 < |c| && !c[i].used && !c[i + 1].used
    requires x == Block(c[i].start, c[i + 1].end, false)
    ensures var r := Splice(c, i, 2, [x]);
            && Tiles(r, heapEnd) && |r| == |c| - 1 && r[i] == x && r[..i] == c[..i]
            && UsedSpan(r) == UsedSpan(c) && LowestFree(r, heapEnd) == LowestFree(c, heapEnd)
  {
    JoinedBlock(c, i, heapEnd, x);
    hide Segment, Splice, UsedSpan, LowestFree;
    JoinAt(c, i, x);
    SegmentSplice(c, i, 2, [x], 0, heapEnd);
    SpliceSummaries(c, i, 2, [x], heapEnd);
    assert c[i..i + 2] == [c[i], c[i + 1]];
    SummariesOne(x, LowestFree(c[i + 2..], heapEnd));
    SummariesTwo(c[i], c[i + 1], LowestFree(c[i + 2..], heapEnd));
  }

  lemma JoinedBlock(c: Chain, i: nat, heapEnd: nat, x: Block)
    requires Tiles(c, heapEnd) && i + 1 < |c| && x == Block(c[i].start, c[i + 1].end, false)
    ensures Segment([x], c[i].start, c[i + 1].end) && c[i].start <= c[i].end == c[i + 1].start <= c[i + 1].end
  {
    assert c[i].start + HEADER <= c[i].end && c[i + 1 - 1].end == c[i + 1].start && c[i + 1].start + HEADER <= c[i + 1].end;
  }

  lemma JoinAt(c: Chain, i: nat, x: Block)
    requires i + 1 < |c|
    ensures var r := Splice(c, i, 2, [x]); |r| == |c| - 1 && r[i] == x && r[..i] == c[..i]
  {
  }

  lemma PlugForwardStep(c: Chain, i: nat, heapEnd: nat)
    requires Tiles(c, heapEnd) && i < |c| && !c[i].used && CompactAround(c, i)
    ensures var r := PlugForward(c, i);
            && Tiles(r, heapEnd) && !r[i].used && r[..i] == c[..i]
            && (forall j :: 0 < j < |r| && j != i ==> r[j - 1].used || r[j].used)
            && UsedSpan(r) == UsedSpan(c) && LowestFree(r, heapEnd) == LowestFree(c, heapEnd)
  {
    hide Tiles, Splice, UsedSpan, LowestFree;
    if i + 1 < |c| && !c[i + 1].used {
      Join(c, i, heapEnd, Block(c[i].start, c[i + 1].end, false));
      PlugForwardCompact(c, i);
    }
  }

  lemma PlugForwardCompact(c: Chain, i: nat)
    requires i + 1 < |c| && !c[i].used && !c[i + 1].used && CompactAround(c, i)
    ensures var r := Splice(c, i, 2, [Block(c[i].start, c[i + 1].end, false)]);
            forall j :: 0 < j < |r| && j != i ==> r[j - 1].used || r[j].used
  {
    var xs := [Block(c[i].start, c[i + 1].end, false)];
    var r := Splice(c, i, 2, xs);
    forall j | 0 < j < |r| && j != i ensures r[j - 1].used || r[j].used {
      SpliceAt(c, i, 2, xs, j);
      SpliceAt(c, i, 2, xs, j - 1);
      assert j > i ==> c[j + 1 - 1].used || c[j + 1].used;
    }
  }

  lemma PlugBackwardStep(c: Chain, i: nat, heapEnd: nat)
    requires Tiles(c, heapEnd) && i < |c| && !c[i].used
    requires forall j :: 0 < j < |c| && j != i ==> c[j - 1].used || c[j].used
    ensures var r := PlugBackward(c, i);
            WellFormed(r, heapEnd) && UsedSpan(r) == UsedSpan(c) && LowestFree(r, heapEnd) == LowestFree(c, heapEnd)
  {
    hide Tiles, Splice, UsedSpan, LowestFree;
    if i > 0 && !c[i - 1].used {
      Join(c, i - 1, heapEnd, Block(c[i - 1].start, c[i].end, false));
      PlugBackwardCompact(c, i);
    }
  }

  lemma PlugBackwardCompact(c: Chain, i: nat)
    requires 0 < i < |c| && !c[i].used && !c[i - 1].used
    requires forall j :: 0 < j < |c| && j != i ==> c[j - 1].used || c[j].used
    ensures Compact(Splice(c, i - 1, 2, [Block(c[i - 1].start, c[i].end, false)]))
  {
    var xs := [Block(c[i - 1].start, c[i].end, false)];
    var r := Splice(c, i - 1, 2, xs);
    forall j | 0 < j < |r| ensures r[j - 1].used || r[j].used {
      SpliceAt(c, i - 1, 2, xs, j);
      SpliceAt(c, i - 1, 2, xs, j - 1);
      assert j >= i ==> c[j + 1 - 1].used || c[j + 1].used;
      assert j < i ==> c[j - 1].used || c[j].used;
    }
  }

  /** `plug_holes` restores the invariant around a newly free block and changes neither summary. */
  lemma PlugWellFormed(c: Chain, i: nat, heapEnd: nat)
    requires Tiles(c, heapEnd) && i < |c| && !c[i].used && CompactAround(c, i)
    ensures WellFormed(Plug(c, i), heapEnd)
    ensures UsedSpan(Plug(c, i)) == UsedSpan(c) && LowestFree(Plug(c, i), heapEnd) == LowestFree(c, heapEnd)
  {
    hide Segment, UsedSpan, LowestFree, PlugForward, PlugBackward;
    PlugForwardStep(c, i, heapEnd);
    PlugBackwardStep(PlugForward(c, i), i, heapEnd);
  }

  lemma FreedTiles(c: Chain, i: nat, heapEnd: nat)
    requires WellFormed(c, heapEnd) && i < |c| && c[i].used
    ensures var d := c[i := c[i].(used := false)];
            && Tiles(d, heapEnd) && CompactAround(d, i)
            && UsedSpan(d) == UsedSpan(c) - (c[i].end - c[i].start)
            && LowestFree(d, heapEnd) == if c[i].start < LowestFree(c, heapEnd) then c[i].start else LowestFree(c, heapEnd)
  {
    var x := c[i].(used := false);
    var d := c[i := x];
    var rest := LowestFree(c[i + 1..], heapEnd);
    assert c[i].start < c[i].end;
    FreedChain(c, i, heapEnd);
    hide Segment, Splice, UsedSpan, LowestFree, Compact;
    SpliceSummaries(c, i, 1, [x], heapEnd);
    SummariesOne(c[i], rest);
    SummariesOne(x, rest);
    RightOfBlock(c, i, heapEnd);
    LeftOfBlock(c, i, heapEnd, rest);
    if LowestFree(c[..i], rest) == rest {
      AllUsed(c[..i], c[i].start);
    }
  }

  lemma FreedChain(c: Chain, i: nat, heapEnd: nat)
    requires WellFormed(c, heapEnd) && i < |c|
    ensures var x := c[i].(used := false);
            var d := c[i := x];
            d == Splice(c, i, 1, [x]) && c[i..i + 1] == [c[i]] && Tiles(d, heapEnd) && CompactAround(d, i)
  {
  }

  lemma {:induction false} AllUsed(c: Chain, end: nat)
    requires forall i :: 0 <= i < |c| ==> c[i].used
    ensures LowestFree(c, end) == end
  {
    if c != [] {
      AllUsed(c[1..], end);
    }
  }

  lemma RightOfBlock(c: Chain, i: nat, heapEnd: nat)
    requires Tiles(c, heapEnd) && i < |c|
    ensures c[i].end <= LowestFree(c[i + 1..], heapEnd)
  {
    SegmentBounds(c, 0, heapEnd, i);
    if i + 1 < |c| {
      assert c[i + 1 - 1].end == c[i + 1].start;
      hide Segment;
      SegmentSuffix(c, i + 1, 0, heapEnd);
      LowestFreeCases(c[i + 1..], c[i].end, heapEnd, heapEnd);
    }
  }

  /** The lowest free block lies below block `i`, or nothing below it is free. */
  lemma LeftOfBlock(c: Chain, i: nat, heapEnd: nat, v: nat)
    requires Tiles(c, heapEnd) && i < |c| && c[i].start <= v
    ensures || LowestFree(c[..i], v) == v
            || (LowestFree(c[..i], v) < c[i].start && LowestFree(c[..i], v) == LowestFree(c[..i], c[i].start))
    ensures LowestFree(c[..i], v) == v ==> forall j :: 0 <= j < i ==> c[j].used
  {
    hide Segment;
    if i > 0 {
      assert c == c[..i] + c[i..];
      SegmentSplit(c[..i], c[i..], 0, heapEnd);
    }
    LowestFreeCases(c[..i], 0, c[i].start, v);
  }

  lemma ReleaseWellFormed(c: Chain, i: nat, heapEnd: nat)
    requires WellFormed(c, heapEnd) && i < |c| && c[i].used
    ensures WellFormed(Release(c, i), heapEnd)
    ensures UsedSpan(Release(c, i)) == UsedSpan(c) - (c[i].end - c[i].start)
  {
    hide Tiles, Compact, UsedSpan, LowestFree, Plug;
    FreedTiles(c, i, heapEnd);
    PlugWellFormed(c[i := c[i].(used := false)], i, heapEnd);
  }

  /** Cutting the tail off a live block, before holes are plugged. */
  lemma CutTiles(c: Chain, i: nat, size: nat, heapEnd: nat)
    requires WellFormed(c, heapEnd) && i < |c| && c[i].used && size % 4 == 0 && Splits(c[i], size)
    ensures var d := Splice(c, i, 1, Halves(c[i], size));
            && |d| == |c| + 1 && d[i] == Halves(c[i], size)[0] && d[i + 1] == Halves(c[i], size)[1]
            && Tiles(d, heapEnd) && CompactAround(d, i + 1)
            && UsedSpan(d) == UsedSpan(c) - (c[i].end - (c[i].start + HEADER + size))
  {
    var hs := Halves(c[i], size);
    var d := Splice(c, i, 1, hs);
    assert c[i].start % 4 == 0 && c[i].end % 4 == 0;
    PiecesCover(c[i], size);
    SpliceAt(c, i, 1, hs, i);
    SpliceAt(c, i, 1, hs, i + 1);
    CutCompact(c, i, size);
    hide Segment, Splice, UsedSpan;
    SegmentSplice(c, i, 1, hs, 0, heapEnd);
    SpliceSummaries(c, i, 1, hs, heapEnd);
    assert c[i..i + 1] == [c[i]];
    SummariesOne(c[i], heapEnd);
    SummariesTwo(hs[0], hs[1], heapEnd);
  }

  lemma CutCompact(c: Chain, i: nat, size: nat)
    requires Compact(c) && i < |c| && c[i].used
    ensures CompactAround(Splice(c, i, 1, Halves(c[i], size)), i + 1)
  {
    var hs := Halves(c[i], size);
    var d := Splice(c, i, 1, hs);
    forall j | 0 < j < |d| && j != i + 1 && j - 1 != i + 1 ensures d[j - 1].used || d[j].used {
      SpliceAt(c, i, 1, hs, j);
      SpliceAt(c, i, 1, hs, j - 1);
    }
  }

  lemma CutLowest(c: Chain, i: nat, size: nat, heapEnd: nat)
    requires WellFormed(c, heapEnd) && i < |c| && c[i].used && size % 4 == 0 && Splits(c[i], size)
    ensures var cut := c[i].start + HEADER + size;
            LowestFree(Splice(c, i, 1, Halves(c[i], size)), heapEnd)
            == if cut < LowestFree(c, heapEnd) then cut else LowestFree(c, heapEnd)
  {
    var hs := Halves(c[i], size);
    var cut := c[i].start + HEADER + size;
    var rest := LowestFree(c[i + 1..], heapEnd);
    SegmentBounds(c, 0, heapEnd, i);
    hide Segment, Splice, LowestFree;
    SpliceSummaries(c, i, 1, hs, heapEnd);
    assert c[i..i + 1] == [c[i]];
    SummariesOne(c[i], rest);
    SummariesTwo(hs[0], hs[1], rest);
    RightOfBlock(c, i, heapEnd);
    LeftOfBlock(c, i, heapEnd, rest);
    LeftOfBlock(c, i, heapEnd, cut);
    if LowestFree(c[..i], rest) == rest {
      AllUsed(c[..i], cut);
    } else if LowestFree(c[..i], cut) == cut {
      AllUsed(c[..i], rest);
    }
  }

  lemma ShrinkWellFormed(c: Chain, i: nat, size: nat, heapEnd: nat)
    requires WellFormed(c, heapEnd) && i < |c| && c[i].used && size % 4 == 0 && Splits(c[i], size)
    ensures WellFormed(Shrink(c, i, size), heapEnd)
  {
    CutTiles(c, i, size, heapEnd);
    hide Tiles, Compact, Splice, Plug;
    PlugWellFormed(Splice(c, i, 1, Halves(c[i], size)), i + 1, heapEnd);
  }

  // ----- what is at stake for the owner of a block

  /** Freeing the block just allocated restores the chain. */
  lemma AllocThenFree(c: Chain, i: nat, size: nat, heapEnd: nat)
    requires WellFormed(c, heapEnd) && i < |c| && Fits(c[i], size)
    ensures Release(Carve(c, i, size), i) == c
  {
    var d := Carve(c, i, size);
    assert i > 0 ==> c[i - 1].used;
    assert i + 1 < |c| ==> c[i + 1 - 1].used || c[i + 1].used;
    hide WellFormed;
    if Splits(c[i], size) {
      SplitThenPlug(c, i, size);
    } else {
      assert d == c[i := c[i].(used := true)];
      assert d[i := c[i]] == c;
    }
  }

  lemma SplitThenPlug(c: Chain, i: nat, size: nat)
    requires i < |c| && !c[i].used && Splits(c[i], size)
    ensures var d := Carve(c, i, size); PlugForward(d[i := d[i].(used := false)], i) == c
  {
    var hs := Halves(c[i], size);
    var d := c[..i] + hs + c[i + 1..];
    assert d == Carve(c, i, size) && d[i] == hs[0] && d[i + 1] == hs[1];
    var e := d[i := hs[0].(used := false)];
    assert e[..i] == c[..i] && e[i + 2..] == c[i + 1..];
    assert c[..i] + [c[i]] + c[i + 1..] == c;
  }

  lemma {:induction false} SpanPositive(c: Chain, lo: nat, hi: nat)
    requires c != [] ==> Segment(c, lo, hi)
    ensures UsedSpan(c) >= 0
    ensures UsedSpan(c) == 0 ==> forall i :: 0 <= i < |c| ==> !c[i].used
    ensures c != [] ==> UsedSpan(c) <= hi - lo
    decreases |c|
  {
    if c != [] {
      assert c[0].start + HEADER <= c[0].end;
      if |c| > 1 {
        assert c[1 - 1].end == c[1].start;
        SegmentSuffix(c, 1, lo, hi);
      }
      SpanPositive(c[1..], c[0].end, hi);
    }
  }

  /** When nothing is in use, one free block spans the arena. */
  lemma NothingUsed(c: Chain, heapEnd: nat)
    requires WellFormed(c, heapEnd) && UsedSpan(c) == 0
    ensures c == [Block(0, heapEnd, false)]
  {
    assert |c| > 1 ==> c[1 - 1].used || c[1].used;
    SpanPositive(c, 0, heapEnd);
    assert c == [c[0]];
  }

  /** Two blocks of one chain never share a byte. */
  lemma {:induction false} BlocksDisjoint(c: Chain, heapEnd: nat, i: nat, j: nat)
    requires Tiles(c, heapEnd) && i < j < |c|
    ensures c[i].end <= c[j].start
  {
    assert c[i + 1 - 1].end == c[i + 1].start;
    hide Segment;
    var rest := c[i + 1..];
    SegmentSuffix(c, i + 1, 0, heapEnd);
    SegmentBounds(rest, c[i + 1].start, heapEnd, j - i - 1);
    assert rest[j - i - 1] == c[j];
  }

  // ----- runs

  datatype Request = Alloc(size: nat) | Realloc(ptr: Option<nat>, size: nat) | Free(ptr: Option<nat>)

  datatype Reply = Reply(chain: Chain, ptr: Option<nat>)

  /** The block whose payload starts at `p`. */
  function IndexOf(c: Chain, p: nat): (i: nat)
    ensures i <= |c|
    ensures i < |c| ==> c[i].start + HEADER == p
    ensures forall j :: 0 <= j < i ==> c[j].start + HEADER != p
  {
    if c == [] then 0 else if c[0].start + HEADER == p then 0 else 1 + IndexOf(c[1..], p)
  }

  predicate Live(c: Chain, p: nat) {
    IndexOf(c, p) < |c| && c[IndexOf(c, p)].used
  }

  /** The payload bytes of the live block at `p`. */
  function RoomAt(c: Chain, p: nat): int
    requires Live(c, p)
  {
    c[IndexOf(c, p)].end - p
  }

  /** `rt_smem_alloc`; `room` is `mem_size_aligned`. */
  function AllocReply(c: Chain, room: nat, size: nat): Reply {
    if size == 0 || Rounded(size) > room then Reply(c, None)
    else
      var i := FirstFit(c, Rounded(size));
      if i < |c| then Reply(Carve(c, i, Rounded(size)), Some(c[i].start + HEADER)) else Reply(c, None)
  }

  function FreeChain(c: Chain, ptr: Option<nat>): Chain {
    match ptr
    case None => c
    case Some(p) => if IndexOf(c, p) < |c| then Release(c, IndexOf(c, p)) else c
  }

  /** `rt_smem_realloc` */
  function ReallocReply(c: Chain, room: nat, ptr: Option<nat>, size: nat): Reply {
    var n := Align(size);
    if n > room then Reply(c, None)
    else if n == 0 then Reply(FreeChain(c, ptr), None)
    else
      match ptr
      case None => AllocReply(c, room, n)
      case Some(p) => Resize(c, room, p, n)
  }

  /** The part of `rt_smem_realloc` for an existing block and a rounded size. */
  function Resize(c: Chain, room: nat, p: nat, n: nat): Reply {
    var i := IndexOf(c, p);
    if i == |c| then Reply(c, None)
    else if p + n == c[i].end then Reply(c, Some(p))
    else if p + n + HEADER + MIN_SIZE < c[i].end then Reply(Shrink(c, i, n), Some(p))
    else
      var r := AllocReply(c, room, n);
      if r.ptr.None? then r else Reply(FreeChain(r.chain, Some(p)), r.ptr)
  }

  function Perform(c: Chain, room: nat, r: Request): Reply {
    match r
    case Alloc(size) => AllocReply(c, room, size)
    case Realloc(ptr, size) => ReallocReply(c, room, ptr, size)
    case Free(ptr) => Reply(FreeChain(c, ptr), None)
  }

  /** The pointer a request is about is NULL or a live block's. */
  predicate Legal(c: Chain, r: Request) {
    match r
    case Alloc(_) => true
    case Realloc(ptr, _) => ptr.Some? ==> Live(c, ptr.value)
    case Free(ptr) => ptr.Some? ==> Live(c, ptr.value)
  }

  /** The pointer a request may end the life of. */
  function Subject(r: Request): Option<nat> {
    match r
    case Alloc(_) => None
    case Realloc(ptr, _) => ptr
    case Free(ptr) => ptr
  }

  /** Every live block other than the subject's is still there, unmoved and unresized. */
  ghost predicate OthersKept(before: Chain, after: Chain, subject: Option<nat>) {
    forall b :: b in before && b.used && subject != Some(b.start + HEADER) ==> b in after
  }

  lemma AlignFacts(size: nat)
    requires size < WORD
    ensures Align(size) % 4 == 0 && Rounded(size) % 4 == 0 && Rounded(size) >= MIN_SIZE
    ensures size <= WORD - 4 ==> size <= Align(size) < size + 4
    ensures size > WORD - 4 ==> Align(size) == 0
  {
    var n := (size + 3) % WORD;
    assert n / 4 * 4 % 4 == 0;
  }

  /** Used blocks outside the spliced stretch survive. */
  lemma SpliceKeeps(c: Chain, i: nat, k: nat, xs: Chain)
    requires i + k <= |c|
    ensures forall b :: b in c && b !in c[i..i + k] ==> b in Splice(c, i, k, xs)
    ensures forall b :: b in xs ==> b in Splice(c, i, k, xs)
  {
    forall j | i <= j < i + k ensures c[j] in c[i..i + k] {
      assert c[i..i + k][j - i] == c[j];
    }
  }

  lemma PlugKeeps(c: Chain, i: nat)
    requires i < |c| && !c[i].used
    ensures OthersKept(c, Plug(c, i), None)
  {
    var d := PlugForward(c, i);
    if i + 1 < |c| && !c[i + 1].used {
      SpliceKeeps(c, i, 2, [Block(c[i].start, c[i + 1].end, false)]);
      assert c[i..i + 2] == [c[i], c[i + 1]];
      assert d[i] == Block(c[i].start, c[i + 1].end, false);
    }
    assert !d[i].used && OthersKept(c, d, None);
    if i > 0 && !d[i - 1].used {
      SpliceKeeps(d, i - 1, 2, [Block(d[i - 1].start, d[i].end, false)]);
      assert d[i - 1..i + 1] == [d[i - 1], d[i]];
    }
  }

  /** A used block of a chain is the one its payload address finds. */
  lemma LiveBlock(c: Chain, heapEnd: nat, b: Block)
    requires Tiles(c, heapEnd) && b in c && b.used
    ensures Live(c, b.start + HEADER) && c[IndexOf(c, b.start + HEADER)] == b
  {
    var j :| 0 <= j < |c| && c[j] == b;
    var i := IndexOf(c, b.start + HEADER);
    assert i <= j && c[i].start + HEADER <= c[i].end;
    if i < j {
      BlocksDisjoint(c, heapEnd, i, j);
    }
  }

  lemma AllocKeeps(c: Chain, room: nat, size: nat)
    requires WellFormed(c, room + HEADER) && size < WORD
    ensures var r := AllocReply(c, room, size);
            && WellFormed(r.chain, room + HEADER) && OthersKept(c, r.chain, None)
            && (r.ptr.Some? ==> Live(r.chain, r.ptr.value) && !Live(c, r.ptr.value))
  {
    AlignFacts(size);
    var n := Rounded(size);
    var i := FirstFit(c, n);
    if size != 0 && n <= room && i < |c| {
      var ps := Pieces(c[i], n);
      CarveTiles(c, i, n, room + HEADER);
      CarveCompact(c, i, n);
      SpliceKeeps(c, i, 1, ps);
      assert c[i..i + 1] == [c[i]];
      hide Segment, Splice, Compact, FirstFit, Rounded;
      assert ps[0].used && ps[0].start == c[i].start && ps[0] in ps;
      LiveBlock(Carve(c, i, n), room + HEADER, ps[0]);
      FreeIsNotLive(c, room + HEADER, i);
    }
  }

  lemma FreeIsNotLive(c: Chain, heapEnd: nat, i: nat)
    requires Tiles(c, heapEnd) && i < |c| && !c[i].used
    ensures !Live(c, c[i].start + HEADER)
  {
    var j := IndexOf(c, c[i].start + HEADER);
    assert j <= i && c[j].start + HEADER <= c[j].end;
    if j < i {
      BlocksDisjoint(c, heapEnd, j, i);
    }
  }

  lemma ReleaseKeeps(c: Chain, i: nat)
    requires i < |c| && c[i].used
    ensures OthersKept(c, Release(c, i), Some(c[i].start + HEADER))
  {
    hide Plug;
    var d := c[i := c[i].(used := false)];
    PlugKeeps(d, i);
    forall b | b in c && b.used && b.start != c[i].start ensures b in Release(c, i) {
      var j :| 0 <= j < |c| && c[j] == b;
      assert d[j] == b;
    }
  }

  lemma FreeKeeps(c: Chain, heapEnd: nat, ptr: Option<nat>)
    requires WellFormed(c, heapEnd) && (ptr.Some? ==> Live(c, ptr.value))
    ensures WellFormed(FreeChain(c, ptr), heapEnd) && OthersKept(c, FreeChain(c, ptr), ptr)
  {
    hide WellFormed, Release, OthersKept;
    match ptr {
      case None => OthersSame(c, ptr);
      case Some(p) =>
        ReleaseWellFormed(c, IndexOf(c, p), heapEnd);
        ReleaseKeeps(c, IndexOf(c, p));
    }
  }

  /** One request on live pointers keeps the chain well formed and every other live block in place; a pointer it
      returns is live afterwards. */
  lemma PerformKeeps(c: Chain, room: nat, r: Request)
    requires WellFormed(c, room + HEADER) && Legal(c, r)
    requires (r.Alloc? || r.Realloc?) ==> r.size < WORD
    ensures var reply := Perform(c, room, r);
            && WellFormed(reply.chain, room + HEADER) && OthersKept(c, reply.chain, Subject(r))
            && (reply.ptr.Some? ==> Live(reply.chain, reply.ptr.value))
  {
    match r {
      case Alloc(size) => AllocKeeps(c, room, size);
      case Free(ptr) => FreeKeeps(c, room + HEADER, ptr);
      case Realloc(ptr, size) => ReallocKeeps(c, room, ptr, size);
    }
  }

  lemma ReallocKeeps(c: Chain, room: nat, ptr: Option<nat>, size: nat)
    requires WellFormed(c, room + HEADER) && (ptr.Some? ==> Live(c, ptr.value)) && size < WORD
    ensures var reply := ReallocReply(c, room, ptr, size);
            && WellFormed(reply.chain, room + HEADER) && OthersKept(c, reply.chain, ptr)
            && (reply.ptr.Some? ==> Live(reply.chain, reply.ptr.value))
  {
    AlignFacts(size);
    var n := Align(size);
    hide Align, WellFormed, AllocReply, FreeChain, Resize, OthersKept, Live;
    if n > room {
      OthersSame(c, ptr);
    } else if n == 0 {
      FreeKeeps(c, room + HEADER, ptr);
    } else if ptr.Some? {
      ResizeKeeps(c, room, ptr.value, n);
    } else {
      AllocKeeps(c, room, n);
    }
  }

  lemma OthersWeaken(c: Chain, d: Chain)
    requires OthersKept(c, d, None)
    ensures forall p :: OthersKept(c, d, p)
  {
  }

  lemma OthersSame(c: Chain, p: Option<nat>)
    ensures OthersKept(c, c, p)
  {
  }

  lemma OthersThen(c: Chain, d: Chain, e: Chain, p: Option<nat>)
    requires OthersKept(c, d, None) && OthersKept(d, e, p)
    ensures OthersKept(c, e, p)
  {
  }

  lemma ResizeKeeps(c: Chain, room: nat, p: nat, n: nat)
    requires WellFormed(c, room + HEADER) && Live(c, p) && n % 4 == 0 && n < WORD
    ensures var reply := Resize(c, room, p, n);
            && WellFormed(reply.chain, room + HEADER) && OthersKept(c, reply.chain, Some(p))
            && (reply.ptr.Some? ==> Live(reply.chain, reply.ptr.value))
  {
    hide AllocReply, FreeChain, Shrink, OthersKept, WellFormed;
    var i := IndexOf(c, p);
    if p + n == c[i].end {
      OthersSame(c, Some(p));
    } else if p + n + HEADER + MIN_SIZE < c[i].end {
      ShrinkKeeps(c, room + HEADER, i, n);
    } else {
      AllocKeeps(c, room, n);
      var r := AllocReply(c, room, n);
      if r.ptr.Some? {
        StillLive(c, r.chain, room + HEADER, p);
        FreeKeeps(r.chain, room + HEADER, Some(p));
        OthersThen(c, r.chain, FreeChain(r.chain, Some(p)), Some(p));
        OtherLive(r.chain, FreeChain(r.chain, Some(p)), room + HEADER, p, r.ptr.value);
      } else {
        OthersWeaken(c, r.chain);
      }
    }
  }

  lemma StillLive(c: Chain, d: Chain, heapEnd: nat, p: nat)
    requires Live(c, p) && OthersKept(c, d, None) && WellFormed(d, heapEnd)
    ensures Live(d, p) && d[IndexOf(d, p)] == c[IndexOf(c, p)]
  {
    var b := c[IndexOf(c, p)];
    assert b in c;
    LiveBlock(d, heapEnd, b);
  }

  lemma OtherLive(d: Chain, e: Chain, heapEnd: nat, p: nat, q: nat)
    requires WellFormed(e, heapEnd) && OthersKept(d, e, Some(p)) && Live(d, q) && p != q
    ensures Live(e, q) && e[IndexOf(e, q)] == d[IndexOf(d, q)]
  {
    var b := d[IndexOf(d, q)];
    assert b in d;
    LiveBlock(e, heapEnd, b);
  }

  lemma ShrinkKeeps(c: Chain, heapEnd: nat, i: nat, n: nat)
    requires WellFormed(c, heapEnd) && i < |c| && c[i].used && n % 4 == 0 && Splits(c[i], n)
    ensures WellFormed(Shrink(c, i, n), heapEnd)
    ensures OthersKept(c, Shrink(c, i, n), Some(c[i].start + HEADER))
    ensures Live(Shrink(c, i, n), c[i].start + HEADER)
    ensures Block(c[i].start, c[i].start + HEADER + n, true) in Shrink(c, i, n)
  {
    hide Splice, Tiles, Plug, Compact, CompactAround, OthersKept, UsedSpan, Live;
    var hs := Halves(c[i], n);
    var d := Splice(c, i, 1, hs);
    CutKeeps(c, i, n);
    CutTiles(c, i, n, heapEnd);
    ShrinkWellFormed(c, i, n, heapEnd);
    PlugKeeps(d, i + 1);
    OthersChain(c, d, Plug(d, i + 1), Some(c[i].start + HEADER));
    KeptBlock(d, Plug(d, i + 1), hs[0]);
    LiveBlock(Shrink(c, i, n), heapEnd, hs[0]);
  }

  lemma KeptBlock(c: Chain, d: Chain, b: Block)
    requires OthersKept(c, d, None) && b in c && b.used
    ensures b in d
  {
  }

  lemma CutKeeps(c: Chain, i: nat, n: nat)
    requires i < |c|
    ensures var d := Splice(c, i, 1, Halves(c[i], n));
            OthersKept(c, d, Some(c[i].start + HEADER)) && Halves(c[i], n)[0] in d
  {
    SpliceKeeps(c, i, 1, Halves(c[i], n));
    assert c[i..i + 1] == [c[i]] && Halves(c[i], n)[0] in Halves(c[i], n);
  }

  lemma OthersChain(c: Chain, d: Chain, e: Chain, p: Option<nat>)
    requires OthersKept(c, d, p) && OthersKept(d, e, None)
    ensures OthersKept(c, e, p)
  {
  }

  // ----- every run

  /** The chain after a sequence of requests. */
  function Run(c: Chain, room: nat, requests: seq<Request>): Chain
    decreases |requests|
  {
    if requests == [] then c
    else Run(Perform(c, room, requests[0]).chain, room, requests[1..])
  }

  ghost predicate LegalRun(c: Chain, room: nat, requests: seq<Request>)
    decreases |requests|
  {
    requests == [] ||
    (&& Legal(c, requests[0]) && ((requests[0].Alloc? || requests[0].Realloc?) ==> requests[0].size < WORD)
     && LegalRun(Perform(c, room, requests[0]).chain, room, requests[1..]))
  }

  /** Every run of requests on live pointers from a fresh heap keeps the chain well formed. */
  lemma {:induction false} RunKeepsWellFormed(c: Chain, room: nat, requests: seq<Request>)
    requires WellFormed(c, room + HEADER) && LegalRun(c, room, requests)
    ensures WellFormed(Run(c, room, requests), room + HEADER)
    decreases |requests|
  {
    hide WellFormed, Perform, Legal;
    if requests != [] {
      PerformKeeps(c, room, requests[0]);
      RunKeepsWellFormed(Perform(c, room, requests[0]).chain, room, requests[1..]);
    }
  }

  // ----- what rounding guarantees, and where it wraps

  /** The block an allocation returns has at least the requested room exactly when rounding up does not wrap. */
  lemma AllocRoom(c: Chain, room: nat, size: nat)
    requires WellFormed(c, room + HEADER) && size < WORD && room + HEADER < WORD - HEADER
    requires AllocReply(c, room, size).ptr.Some?
    ensures var r := AllocReply(c, room, size);
            && Live(r.chain, r.ptr.value)
            && (RoomAt(r.chain, r.ptr.value) >= size <==> size <= WORD - 4)
  {
    AlignFacts(size);
    var n := Rounded(size);
    var i := FirstFit(c, n);
    var ps := Pieces(c[i], n);
    CarveTiles(c, i, n, room + HEADER);
    SpliceKeeps(c, i, 1, ps);
    SegmentBounds(c, 0, room + HEADER, i);
    hide Segment, Splice, Compact, FirstFit;
    assert ps[0] in ps && ps[0].used && ps[0].start == c[i].start && c[i].start + HEADER + n <= ps[0].end <= c[i].end;
    LiveBlock(Carve(c, i, n), room + HEADER, ps[0]);
  }

  /** A reallocation that succeeds returns a live block with at least the requested room: a request whose rounding
      wraps never succeeds. */
  lemma ReallocRoom(c: Chain, room: nat, ptr: Option<nat>, size: nat)
    requires WellFormed(c, room + HEADER) && size < WORD && room + HEADER < WORD - HEADER
    requires (ptr.Some? ==> Live(c, ptr.value)) && ReallocReply(c, room, ptr, size).ptr.Some?
    ensures var r := ReallocReply(c, room, ptr, size);
            Live(r.chain, r.ptr.value) && RoomAt(r.chain, r.ptr.value) >= Align(size) >= size
  {
    AlignFacts(size);
    var n := Align(size);
    hide Align, AllocReply, Resize;
    match ptr {
      case None =>
        AllocRoom(c, room, n);
      case Some(p) =>
        ResizeRoom(c, room, p, n);
    }
  }

  lemma ResizeRoom(c: Chain, room: nat, p: nat, n: nat)
    requires WellFormed(c, room + HEADER) && Live(c, p) && n % 4 == 0 && n <= WORD - 4 && room + HEADER < WORD - HEADER
    requires Resize(c, room, p, n).ptr.Some?
    ensures var r := Resize(c, room, p, n); Live(r.chain, r.ptr.value) && RoomAt(r.chain, r.ptr.value) >= n
  {
    hide AllocReply, FreeChain, Shrink, OthersKept, WellFormed;
    var i := IndexOf(c, p);
    if p + n == c[i].end {
    } else if p + n + HEADER + MIN_SIZE < c[i].end {
      ShrunkRoom(c, room + HEADER, i, n);
    } else {
      AllocKeeps(c, room, n);
      AllocRoom(c, room, n);
      var r := AllocReply(c, room, n);
      StillLive(c, r.chain, room + HEADER, p);
      FreeKeeps(r.chain, room + HEADER, Some(p));
      OtherLive(r.chain, FreeChain(r.chain, Some(p)), room + HEADER, p, r.ptr.value);
    }
  }

  lemma ShrunkRoom(c: Chain, heapEnd: nat, i: nat, n: nat)
    requires WellFormed(c, heapEnd) && i < |c| && c[i].used && n % 4 == 0 && Splits(c[i], n)
    ensures var d := Shrink(c, i, n); var p := c[i].start + HEADER; Live(d, p) && RoomAt(d, p) == n
  {
    hide Shrink;
    ShrinkKeeps(c, heapEnd, i, n);
    LiveBlock(Shrink(c, i, n), heapEnd, Block(c[i].start, c[i].start + HEADER + n, true));
  }

  /** A reallocation that fails leaves the chain unchanged exactly when the rounded size is not zero or there was
      nothing to free; a request above 2^32 - 4 rounds to zero and frees the block. */
  lemma ReallocFailure(c: Chain, room: nat, p: nat, size: nat)
    requires WellFormed(c, room + HEADER) && Live(c, p) && 0 < size < WORD
    requires ReallocReply(c, room, Some(p), size).ptr.None?
    ensures ReallocReply(c, room, Some(p), size).chain == c <==> size <= WORD - 4
  {
    AlignFacts(size);
    var n := Align(size);
    hide Align, Release, Shrink, Carve;
    if n == 0 {
      ReleaseWellFormed(c, IndexOf(c, p), room + HEADER);
      var b := c[IndexOf(c, p)];
      assert b.start + HEADER <= b.end;
    }
  }

  /** Exactly when a reallocation of a live block fails: the rounded size wraps or exceeds the arena, or the block can
      neither stay nor be split and no free block fits. That is also how a smaller size can fail, although the old
      block is large enough: the remainder is no larger than a header and MIN_SIZE. */
  lemma ReallocFails(c: Chain, room: nat, p: nat, size: nat)
    requires WellFormed(c, room + HEADER) && Live(c, p) && 0 < size < WORD && room + HEADER < WORD - HEADER
    ensures var have, n := RoomAt(c, p), Align(size);
            ReallocReply(c, room, Some(p), size).ptr.None? <==>
            size > WORD - 4 || n > room ||
            (n != have && have - n <= HEADER + MIN_SIZE && forall b :: b in c ==> !Fits(b, Rounded(size)))
    ensures size <= RoomAt(c, p) ==> size <= WORD - 4 && Align(size) <= room
  {
    AlignFacts(size);
    var i, n := IndexOf(c, p), Align(size);
    SegmentBounds(c, 0, room + HEADER, i);
    assert c[i].end <= room + HEADER;
    AlignTwice(size, room);
    if size <= WORD - 4 && n <= room {
      var fit := FirstFit(c, Rounded(n));
      forall b | b in c ensures fit == |c| ==> !Fits(b, Rounded(n)) {
        var j :| 0 <= j < |c| && c[j] == b;
      }
      if fit < |c| {
        assert c[fit] in c;
        SegmentBounds(c, 0, room + HEADER, fit);
      }
      hide Align, Rounded, Carve, Shrink, FreeChain, WellFormed;
    }
  }

  lemma AlignTwice(size: nat, room: nat)
    requires size < WORD && room + HEADER < WORD - HEADER
    ensures size <= WORD - 4 ==> Align(Align(size)) == Align(size) && Rounded(Align(size)) == Rounded(size)
    ensures room % 4 == 0 && size <= room ==> size <= WORD - 4 && Align(size) <= room
  {
  }

  /** A heap of one live block: giving back its last four bytes is refused. */
  lemma ShrinkCanFail()
    ensures var c := [Block(0, HEADER + 40, true)];
            WellFormed(c, 40 + HEADER) && Live(c, HEADER) && ReallocReply(c, 40, Some(HEADER), 36) == Reply(c, None)
  {
  }
}
