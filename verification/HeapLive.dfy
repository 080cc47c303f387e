/** The heap seen through its live blocks alone: which request is answered how, without the chain's own arithmetic. */
module HeapLive {
  import opened Bytes
  import opened HeapChain

  ghost function LiveBlocks(c: Chain): set<Block> {
    set b | b in c && b.used
  }

  // ----- a well-formed chain is decided by its live blocks

  /** Two well-formed chains of one arena with the same live blocks are the same chain: what is free follows. */
  lemma LiveBlocksDecide(c: Chain, d: Chain, heapEnd: nat)
    requires WellFormed(c, heapEnd) && WellFormed(d, heapEnd) && LiveBlocks(c) == LiveBlocks(d)
    ensures c == d
  {
    SameBlocks(c, d, 0, heapEnd);
  }

  lemma {:induction false} SameBlocks(c: Chain, d: Chain, lo: nat, hi: nat)
    requires Segment(c, lo, hi) && Segment(d, lo, hi) && Compact(c) && Compact(d) && LiveBlocks(c) == LiveBlocks(d)
    ensures c == d
    decreases |c|
  {
    SameFirst(c, d, lo, hi);
    assert c == [c[0]] + c[1..] && d == [d[0]] + d[1..];
    Shorter(c, lo, hi);
    Shorter(d, lo, hi);
    if |c| > 1 && |d| > 1 {
      assert LiveBlocks(c[1..]) == LiveBlocks(c) - {c[0]};
      assert LiveBlocks(d[1..]) == LiveBlocks(d) - {d[0]};
      SameBlocks(c[1..], d[1..], c[0].end, hi);
    }
  }

  lemma SameFirst(c: Chain, d: Chain, lo: nat, hi: nat)
    requires Segment(c, lo, hi) && Segment(d, lo, hi) && Compact(c) && Compact(d) && LiveBlocks(c) == LiveBlocks(d)
    ensures c[0] == d[0]
  {
    NotBeyond(c, d, lo, hi);
    NotBeyond(d, c, lo, hi);
  }

  /** The first block of one chain does not reach beyond the first of the other, and is live if that is. */
  lemma NotBeyond(c: Chain, d: Chain, lo: nat, hi: nat)
    requires Segment(c, lo, hi) && Segment(d, lo, hi) && Compact(c) && LiveBlocks(c) <= LiveBlocks(d)
    ensures c[0].used ==> d[0] == c[0]
    ensures !d[0].used ==> d[0].end <= c[0].end
  {
    if c[0].used {
      assert c[0] in LiveBlocks(d);
      InOrder(d, c[0], lo, hi);
    } else if d[0].end > c[0].end {
      SegmentBounds(d, lo, hi, 0);
      assert |c| > 1 && c[1].used && c[1] in LiveBlocks(d);
      InOrder(d, c[1], lo, hi);
    }
  }

  /** A block of a chain is its first one or starts behind it. */
  lemma InOrder(d: Chain, b: Block, lo: nat, hi: nat)
    requires Segment(d, lo, hi) && b in d
    ensures b == d[0] || d[0].end <= b.start
    ensures d[0].start < d[0].end
  {
    var i :| 0 <= i < |d| && d[i] == b;
    Ordered(d, lo, hi, 0, i);
  }

  lemma Ordered(c: Chain, lo: nat, hi: nat, i: nat, j: nat)
    requires Segment(c, lo, hi) && i <= j < |c|
    ensures i < j ==> c[i].end <= c[j].start
    ensures c[i].start < c[i].end && c[j].start < c[j].end
    decreases j
  {
    if i < j {
      Ordered(c, lo, hi, i, j - 1);
    }
  }

  lemma Shorter(c: Chain, lo: nat, hi: nat)
    requires Segment(c, lo, hi) && Compact(c)
    ensures |c| == 1 <==> c[0].end == hi
    ensures |c| > 1 ==> Segment(c[1..], c[0].end, hi) && Compact(c[1..]) && c[0] !in c[1..]
  {
    if |c| > 1 {
      Ordered(c, lo, hi, 0, |c| - 1);
      forall j | 0 <= j < |c| - 1 ensures c[1..][j] != c[0] {
        Ordered(c, lo, hi, 0, j + 1);
      }
      var t := c[1..];
      assert forall i :: 0 <= i < |t| ==> t[i] == c[i + 1];
    }
  }

  // ----- what replacing one block does to them

  /** Exchanging block `i` for others exchanges it among the live blocks. */
  lemma Exchanged(c: Chain, heapEnd: nat, i: nat, xs: Chain)
    requires Tiles(c, heapEnd) && i < |c|
    ensures LiveBlocks(Splice(c, i, 1, xs)) == LiveBlocks(c) - {c[i]} + LiveBlocks(xs)
  {
    var d := Splice(c, i, 1, xs);
    Alone(c, heapEnd, i);
    assert c == c[..i] + [c[i]] + c[i + 1..];
    forall b ensures b in d <==> b in c[..i] || b in xs || b in c[i + 1..] {
    }
    forall b ensures b in c <==> b in c[..i] || b == c[i] || b in c[i + 1..] {
    }
  }

  lemma Alone(c: Chain, heapEnd: nat, i: nat)
    requires Tiles(c, heapEnd) && i < |c|
    ensures c[i] !in c[..i] && c[i] !in c[i + 1..]
  {
    forall j | 0 <= j < |c| && j != i ensures c[j] != c[i] {
      if j < i {
        Ordered(c, 0, heapEnd, j, i);
      } else {
        Ordered(c, 0, heapEnd, i, j);
      }
    }
  }

  /** Joining free neighbours leaves the live blocks alone. */
  lemma PlugLive(c: Chain, i: nat)
    requires i < |c| && !c[i].used
    ensures LiveBlocks(Plug(c, i)) == LiveBlocks(c)
  {
    hide PlugBackward;
    var d := PlugForward(c, i);
    if i + 1 < |c| && !c[i + 1].used {
      JoinLive(c, i, Block(c[i].start, c[i + 1].end, false));
      assert d[i] == Block(c[i].start, c[i + 1].end, false);
    }
    BackwardLive(d, i);
  }

  lemma BackwardLive(c: Chain, i: nat)
    requires i < |c| && !c[i].used
    ensures LiveBlocks(PlugBackward(c, i)) == LiveBlocks(c)
  {
    if i > 0 && !c[i - 1].used {
      JoinLive(c, i - 1, Block(c[i - 1].start, c[i].end, false));
    }
  }

  lemma JoinLive(c: Chain, i: nat, x: Block)
    requires i + 1 < |c| && !c[i].used && !c[i + 1].used && !x.used
    ensures LiveBlocks(Splice(c, i, 2, [x])) == LiveBlocks(c)
  {
    var d := Splice(c, i, 2, [x]);
    assert c == c[..i] + [c[i], c[i + 1]] + c[i + 2..];
    forall b ensures b in d <==> b in c[..i] || b == x || b in c[i + 2..] {
    }
    forall b ensures b in c <==> b in c[..i] || b == c[i] || b == c[i + 1] || b in c[i + 2..] {
    }
  }

  // ----- allocation

  /** The payload a request is given: its size rounded up to a multiple of four, and never less than 12 bytes. The
      rounding wraps above 2^32 - 4. */
  function Need(size: nat): nat {
    var up := (size + 3) / 4 * 4;
    if size > 0x1_0000_0000 - 4 || up < 12 then 12 else up
  }

  lemma NeedIsRounded(size: nat)
    requires 0 < size < WORD
    ensures Need(size) == Rounded(size) && Need(size) % 4 == 0 && Need(size) >= 12
    ensures size <= WORD - 4 ==> size <= Need(size) && (Need(size) < size + 4 || Need(size) == 12)
  {
  }

  /** The payload bytes of a block. */
  function Payload(b: Block): int {
    b.end - b.start - 12
  }

  /** A free block with room for a request. */
  predicate Serves(b: Block, size: nat) {
    !b.used && Payload(b) >= Need(size)
  }

  /** What a request makes of the free block that serves it: the rest stays free if it makes a block of at least 24 bytes. */
  function Given(gap: Block, size: nat): Block {
    var end := gap.start + 12 + Need(size);
    Block(gap.start, if gap.end - end >= 24 then end else gap.end, true)
  }

  /** An allocation fails exactly when no free block has the room; then nothing changes. */
  lemma AllocFails(c: Chain, room: nat, size: nat)
    requires WellFormed(c, room + HEADER) && size < WORD
    ensures AllocReply(c, room, size).ptr.None? <==> size == 0 || forall b :: b in c ==> !Serves(b, size)
    ensures AllocReply(c, room, size).ptr.None? ==> AllocReply(c, room, size).chain == c
  {
    if size > 0 {
      NeedIsRounded(size);
      var i := FirstFit(c, Rounded(size));
      if i < |c| {
        assert c[i] in c;
        SegmentBounds(c, 0, room + HEADER, i);
      }
      forall b | b in c && Serves(b, size) ensures i < |c| {
        var j :| 0 <= j < |c| && c[j] == b;
        assert Fits(b, Rounded(size));
      }
      hide Rounded, Carve;
    }
  }

  /** An allocation that succeeds takes the lowest free block with the room, from its start, and changes no
      other live block. */
  lemma AllocTakes(c: Chain, room: nat, size: nat) returns (gap: Block)
    requires WellFormed(c, room + HEADER) && size < WORD && AllocReply(c, room, size).ptr.Some?
    ensures size > 0 && gap in c && Serves(gap, size) && forall b :: b in c && b.start < gap.start ==> !Serves(b, size)
    ensures var r := AllocReply(c, room, size);
            r.ptr == Some(gap.start + 12) && LiveBlocks(r.chain) == LiveBlocks(c) + {Given(gap, size)}
  {
    hide Rounded, Serves, Given, Pieces, Splice, Need;
    var n := Rounded(size);
    var i := FirstFit(c, n);
    gap := c[i];
    ServesIsFits(gap, size);
    forall b | b in c && b.start < gap.start ensures !Serves(b, size) {
      var j :| 0 <= j < |c| && c[j] == b;
      if i <= j {
        Ordered(c, 0, room + HEADER, i, j);
      }
      ServesIsFits(b, size);
    }
    Exchanged(c, room + HEADER, i, Pieces(gap, n));
    GivenIsPieces(gap, size);
    assert gap !in LiveBlocks(c);
  }

  lemma ServesIsFits(b: Block, size: nat)
    requires 0 < size < WORD
    ensures Serves(b, size) <==> Fits(b, Rounded(size))
  {
    NeedIsRounded(size);
  }

  lemma GivenIsPieces(gap: Block, size: nat)
    requires 0 < size < WORD && Serves(gap, size)
    ensures LiveBlocks(Pieces(gap, Rounded(size))) == {Given(gap, size)}
  {
    NeedIsRounded(size);
    hide Rounded, Need;
    var ps := Pieces(gap, Rounded(size));
    assert ps[0] == Given(gap, size);
  }

  /** How much more than asked an allocation may give. */
  lemma AllocIsTight(c: Chain, room: nat, size: nat)
    requires WellFormed(c, room + HEADER) && size <= WORD - 4 && AllocReply(c, room, size).ptr.Some?
    ensures var r := AllocReply(c, room, size);
            Live(r.chain, r.ptr.value) && size <= RoomAt(r.chain, r.ptr.value) < (if size < 12 then 12 else size + 3) + 24
  {
    hide AllocReply, WellFormed, Given, Serves, Need, Live, RoomAt, LiveBlocks, OthersKept;
    AllocKeeps(c, room, size);
    var r := AllocReply(c, room, size);
    var gap := AllocTakes(c, room, size);
    var b := Given(gap, size);
    GivenSize(gap, size);
    assert b in LiveBlocks(r.chain);
    RoomOf(r.chain, room + HEADER, b);
  }

  lemma GivenSize(gap: Block, size: nat)
    requires 0 < size <= WORD - 4 && Serves(gap, size)
    ensures var b := Given(gap, size);
            b.used && b.start == gap.start && size <= Payload(b) < (if size < 12 then 12 else size + 3) + 24
  {
    NeedIsRounded(size);
  }

  lemma RoomOf(c: Chain, heapEnd: nat, b: Block)
    requires WellFormed(c, heapEnd) && b in LiveBlocks(c)
    ensures Live(c, b.start + 12) && RoomAt(c, b.start + 12) == Payload(b)
  {
    LiveBlock(c, heapEnd, b);
  }

  // ----- freeing and reallocation

  /** Freeing a live block takes it, and nothing else, from the live blocks. */
  lemma FreeTakesOne(c: Chain, heapEnd: nat, p: nat)
    requires WellFormed(c, heapEnd) && Live(c, p)
    ensures LiveBlocks(FreeChain(c, Some(p))) == LiveBlocks(c) - {c[IndexOf(c, p)]}
  {
    var i := IndexOf(c, p);
    var x := c[i].(used := false);
    assert c[i := x] == Splice(c, i, 1, [x]);
    Exchanged(c, heapEnd, i, [x]);
    assert LiveBlocks([x]) == {};
    PlugLive(c[i := x], i);
  }

  /** A reallocation of a live block whose rounded size fits the word and the arena: the block stays as it is, or keeps
      its front and gives the rest back when more than 24 bytes are left, or moves to where an allocation would be. */
  lemma ReallocExactly(c: Chain, room: nat, p: nat, size: nat)
    requires WellFormed(c, room + HEADER) && Live(c, p) && 0 < size <= WORD - 4
    ensures var b, n, r := c[IndexOf(c, p)], (size + 3) / 4 * 4, ReallocReply(c, room, Some(p), size);
            if n > room then r == Reply(c, None)
            else if Payload(b) == n then r == Reply(c, Some(p))
            else if Payload(b) > n + 24 then
              r.ptr == Some(p) && LiveBlocks(r.chain) == LiveBlocks(c) - {b} + {Block(b.start, b.start + 12 + n, true)}
            else
              var a := AllocReply(c, room, size);
              r.ptr == a.ptr && if a.ptr.None? then r.chain == c else LiveBlocks(r.chain) == LiveBlocks(a.chain) - {b}
  {
    hide WellFormed, LiveBlocks, AllocReply, Live, ReallocReply, Resize;
    var n := (size + 3) / 4 * 4;
    UpIs(size);
    ReallocIs(c, room, p, size);
    if n <= room {
      SameAlloc(c, room, size, n);
      ResizeExactly(c, room, p, n);
    }
  }

  /** Without an old block a reallocation is an allocation; to size zero, or above 2^32 - 4, it frees. */
  lemma ReallocAtTheEnds(c: Chain, room: nat, ptr: Option<nat>, size: nat)
    requires size < WORD
    ensures 0 < size <= WORD - 4 ==> ReallocReply(c, room, None, size) == AllocReply(c, room, size)
    ensures size == 0 || size > WORD - 4 ==> ReallocReply(c, room, ptr, size) == Reply(FreeChain(c, ptr), None)
  {
    hide FreeChain, FirstFit;
    if 0 < size <= WORD - 4 {
      UpIs(size);
    }
  }

  lemma UpIs(size: nat)
    requires 0 < size <= WORD - 4
    ensures var n := (size + 3) / 4 * 4; n == Align(size) && Rounded(n) == Rounded(size) && 0 < n < WORD && n % 4 == 0
  {
  }

  lemma ReallocIs(c: Chain, room: nat, p: nat, size: nat)
    requires Align(size) > 0
    ensures ReallocReply(c, room, Some(p), size) == if Align(size) > room then Reply(c, None) else Resize(c, room, p, Align(size))
  {
    hide Align, Resize;
  }

  lemma ResizeExactly(c: Chain, room: nat, p: nat, n: nat)
    requires WellFormed(c, room + HEADER) && Live(c, p) && n % 4 == 0 && n < WORD
    ensures var b, r := c[IndexOf(c, p)], Resize(c, room, p, n);
            if Payload(b) == n then r == Reply(c, Some(p))
            else if Payload(b) > n + 24 then
              r.ptr == Some(p) && LiveBlocks(r.chain) == LiveBlocks(c) - {b} + {Block(b.start, b.start + 12 + n, true)}
            else
              var a := AllocReply(c, room, n);
              r.ptr == a.ptr && if a.ptr.None? then r.chain == c else LiveBlocks(r.chain) == LiveBlocks(a.chain) - {b}
  {
    hide AllocReply, WellFormed, LiveBlocks, FreeChain, Shrink, OthersKept;
    var i := IndexOf(c, p);
    if Payload(c[i]) > n + 24 {
      CutLive(c, room + HEADER, i, n);
    } else if Payload(c[i]) != n {
      var a := AllocReply(c, room, n);
      if a.ptr.Some? {
        AllocKeeps(c, room, n);
        StillLive(c, a.chain, room + HEADER, p);
        FreeTakesOne(a.chain, room + HEADER, p);
      } else {
        AllocFails(c, room, n);
      }
    }
  }

  lemma SameAlloc(c: Chain, room: nat, size: nat, n: nat)
    requires size > 0 && n > 0 && Rounded(n) == Rounded(size)
    ensures AllocReply(c, room, n) == AllocReply(c, room, size)
  {
  }

  lemma WellFormedParts(c: Chain, heapEnd: nat)
    requires WellFormed(c, heapEnd)
    ensures Tiles(c, heapEnd) && Compact(c)
  {
  }

  lemma CutLive(c: Chain, heapEnd: nat, i: nat, n: nat)
    requires WellFormed(c, heapEnd) && i < |c| && c[i].used && Splits(c[i], n)
    ensures LiveBlocks(Shrink(c, i, n)) == LiveBlocks(c) - {c[i]} + {Block(c[i].start, c[i].start + 12 + n, true)}
  {
    hide Plug, Splice, WellFormed, Compact;
    var hs := Halves(c[i], n);
    assert Tiles(c, heapEnd) by { WellFormedParts(c, heapEnd); }
    hide Tiles;
    Exchanged(c, heapEnd, i, hs);
    assert LiveBlocks(hs) == {hs[0]};
    SpliceAt(c, i, 1, hs, i + 1);
    PlugLive(Splice(c, i, 1, hs), i + 1);
  }

  /** A heap of 512 bytes with nothing in it serves a hundred bytes at its start. */
  lemma FreshHeapServes()
    ensures AllocReply([Block(0, 512, false)], 500, 100)
            == Reply([Block(0, 112, true), Block(112, 512, false)], Some(12))
  {
    var b := Block(0, 512, false);
    assert Pieces(b, 100) == [Block(0, 112, true), Block(112, 512, false)];
    assert FirstFit([b], 100) == 0;
  }
}
