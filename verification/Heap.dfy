/** The small-memory heap as it runs: block headers and payloads share one byte arena. */
module Heap {
  import opened Bytes
  import opened HeapChain

  /** One entry per byte. A header word is held whole in the entry of its first byte; writing it overwrites all four. */
  type Arena = seq<int>

  // ----- headers in the arena

  /** `pool_ptr`, `next` and `prev` of one block. */
  ghost predicate Header(a: Arena, b: Block, prev: int, pool: int) {
    && b.start + HEADER <= |a|
    && a[b.start] == (if b.used then pool + 1 else pool)
    && a[b.start + 4] == b.end
    && a[b.start + 8] == prev
  }

  ghost function LastStart(c: Chain, prev: int): int {
    if c == [] then prev else c[|c| - 1].start
  }

  ghost predicate Headers(a: Arena, c: Chain, prev: int, pool: int) {
    forall i :: 0 <= i < |c| ==> Header(a, c[i], LastStart(c[..i], prev), pool)
  }

  /** The arena holds exactly this chain, closed by the end marker. The marker's own `prev` is not kept up. */
  ghost predicate Linked(a: Arena, c: Chain, heapEnd: nat, pool: int) {
    && Tiles(c, heapEnd) && |a| == heapEnd + HEADER && Headers(a, c, 0, pool)
    && a[heapEnd] == pool + 1 && a[heapEnd + 4] == heapEnd
  }

  lemma HeadersSplit(a: Arena, x: Chain, y: Chain, prev: int, pool: int)
    ensures Headers(a, x + y, prev, pool) <==> Headers(a, x, prev, pool) && Headers(a, y, LastStart(x, prev), pool)
  {
    hide Header;
    var c := x + y;
    forall i | 0 <= i < |x| ensures c[i] == x[i] && c[..i] == x[..i] {
    }
    forall i | 0 <= i < |y| ensures c[|x| + i] == y[i] && LastStart(c[..|x| + i], prev) == LastStart(y[..i], LastStart(x, prev)) {
      assert c[..|x| + i] == x + y[..i];
    }
    if Headers(a, c, prev, pool) {
      forall i | 0 <= i < |y| ensures Header(a, y[i], LastStart(y[..i], LastStart(x, prev)), pool) {
        assert Header(a, c[|x| + i], LastStart(c[..|x| + i], prev), pool);
      }
    }
    if Headers(a, x, prev, pool) && Headers(a, y, LastStart(x, prev), pool) {
      forall i | 0 <= i < |c| ensures Header(a, c[i], LastStart(c[..i], prev), pool) {
        if i >= |x| {
          assert c[|x| + (i - |x|)] == y[i - |x|];
        }
      }
    }
  }

  /** Headers of a stretch depend only on the bytes of that stretch. */
  lemma HeadersFrame(a: Arena, b: Arena, c: Chain, prev: int, pool: int, lo: nat, hi: nat)
    requires Headers(a, c, prev, pool) && (c != [] ==> Segment(c, lo, hi))
    requires |a| == |b| && forall j :: lo <= j < hi && j < |a| ==> a[j] == b[j]
    ensures Headers(b, c, prev, pool)
  {
    forall i | 0 <= i < |c| ensures Header(b, c[i], LastStart(c[..i], prev), pool) {
      assert Header(a, c[i], LastStart(c[..i], prev), pool);
      SegmentBounds(c, lo, hi, i);
      assert c[i].start + HEADER <= c[i].end;
    }
  }

  /** The blocks after a changed stretch: only the first one's `prev` may differ. */
  lemma HeadersAfter(a: Arena, b: Arena, c: Chain, prev: int, prev': int, pool: int, lo: nat, hi: nat)
    requires Headers(a, c, prev, pool) && c != [] && Segment(c, lo, hi)
    requires |a| == |b| && b[lo + 8] == prev'
    requires forall j :: lo <= j < hi && j < |a| && !(lo + 8 <= j < lo + HEADER) ==> a[j] == b[j]
    ensures Headers(b, c, prev', pool)
  {
    assert c[0].start + HEADER <= c[0].end;
    forall i | 0 <= i < |c| ensures Header(b, c[i], LastStart(c[..i], prev'), pool) {
      assert Header(a, c[i], LastStart(c[..i], prev), pool);
      assert c[i].start + HEADER <= c[i].end;
      SegmentBounds(c, lo, hi, i);
      if i > 0 {
        BlocksDisjointIn(c, lo, hi, i);
      }
    }
  }

  lemma BlocksDisjointIn(c: Chain, lo: nat, hi: nat, i: nat)
    requires Segment(c, lo, hi) && 0 < i < |c|
    ensures c[0].end <= c[i].start
  {
    SegmentSuffix(c, 1, lo, hi);
    assert c[1 - 1].end == c[1].start;
    SegmentBounds(c[1..], c[1].start, hi, i - 1);
  }

  /** The bytes a splice needs: new headers in place, the next header's `prev` set, nothing else changed. */
  ghost predicate SpliceBytes(a: Arena, b: Arena, c: Chain, i: nat, k: nat, xs: Chain, heapEnd: nat, pool: int)
    requires Linked(a, c, heapEnd, pool) && k >= 1 && i + k <= |c|
  {
    var lo, hi := c[i].start, c[i + k - 1].end;
    && Segment(xs, lo, hi)
    && Headers(b, xs, LastStart(c[..i], 0), pool)
    && SameOutside(a, b, lo, hi)
    && (hi < heapEnd ==> hi + 8 < |b| && b[hi + 8] == xs[|xs| - 1].start)
  }

  lemma SpliceHeaders(a: Arena, b: Arena, c: Chain, i: nat, k: nat, xs: Chain, heapEnd: nat, pool: int)
    requires Linked(a, c, heapEnd, pool) && k >= 1 && i + k <= |c| && SpliceBytes(a, b, c, i, k, xs, heapEnd, pool)
    ensures Headers(b, Splice(c, i, k, xs), 0, pool)
  {
    hide Segment, Headers, LastStart, Splice;
    var left, mid, right := c[..i], c[i..i + k], c[i + k..];
    var lo, hi := c[i].start, c[i + k - 1].end;
    SpliceReady(a, b, c, i, k, xs, heapEnd, pool);
    SpliceAfter(a, b, c, i, k, xs, heapEnd, pool);
    hide SpliceBytes, Linked, SameOutside;
    HeadersSplice(a, b, left, mid, xs, right, lo, hi, heapEnd, pool);
    SpliceParts(c, i, k, xs);
  }

  lemma SpliceReady(a: Arena, b: Arena, c: Chain, i: nat, k: nat, xs: Chain, heapEnd: nat, pool: int)
    requires Linked(a, c, heapEnd, pool) && k >= 1 && i + k <= |c| && SpliceBytes(a, b, c, i, k, xs, heapEnd, pool)
    ensures xs != [] && Headers(a, c[..i] + (c[i..i + k] + c[i + k..]), 0, pool) && Headers(b, xs, LastStart(c[..i], 0), pool)
    ensures c[..i] != [] ==> Segment(c[..i], 0, c[i].start)
  {
    assert xs != [];
    hide Headers, LastStart, Splice, Segment;
    BeforeBlock(c, i, heapEnd);
    SpliceParts(c, i, k, xs);
  }

  lemma SpliceAfter(a: Arena, b: Arena, c: Chain, i: nat, k: nat, xs: Chain, heapEnd: nat, pool: int)
    requires Linked(a, c, heapEnd, pool) && k >= 1 && i + k <= |c| && SpliceBytes(a, b, c, i, k, xs, heapEnd, pool)
    ensures var hi := c[i + k - 1].end;
            && SameOutside(a, b, c[i].start, hi) && c[i].start <= hi <= heapEnd && heapEnd + HEADER == |a| == |b|
            && (c[i + k..] != [] ==> Segment(c[i + k..], hi, heapEnd) && hi < heapEnd && b[hi + 8] == xs[|xs| - 1].start)
  {
    hide Headers, LastStart, Splice, Segment;
    SegmentStarts(xs, c[i].start, c[i + k - 1].end);
    var last := i + k - 1;
    SegmentBounds(c, 0, heapEnd, last);
    BlockOrder(c, heapEnd, i, last);
    AfterBlock(c, last, heapEnd);
    assert c[last + 1..] == c[i + k..];
  }

  lemma SpliceEnd(a: Arena, b: Arena, c: Chain, i: nat, k: nat, xs: Chain, heapEnd: nat, pool: int)
    requires Linked(a, c, heapEnd, pool) && k >= 1 && i + k <= |c| && SpliceBytes(a, b, c, i, k, xs, heapEnd, pool)
    ensures |a| == |b| && b[heapEnd] == a[heapEnd] && b[heapEnd + 4] == a[heapEnd + 4]
  {
    hide Segment, Headers, LastStart;
    SegmentBounds(c, 0, heapEnd, i + k - 1);
    AfterBlock(c, i + k - 1, heapEnd);
  }

  /** Exchanging blocks `i` to `i + k` for `xs`. */
  lemma LinkedSplice(a: Arena, b: Arena, c: Chain, i: nat, k: nat, xs: Chain, heapEnd: nat, pool: int)
    requires Linked(a, c, heapEnd, pool) && k >= 1 && i + k <= |c| && SpliceBytes(a, b, c, i, k, xs, heapEnd, pool)
    ensures Linked(b, Splice(c, i, k, xs), heapEnd, pool)
  {
    hide Segment, Headers, Splice, LastStart;
    SpliceHeaders(a, b, c, i, k, xs, heapEnd, pool);
    SpliceEnd(a, b, c, i, k, xs, heapEnd, pool);
    SegmentSplice(c, i, k, xs, 0, heapEnd);
  }

  lemma BlockOrder(c: Chain, heapEnd: nat, i: nat, j: nat)
    requires Tiles(c, heapEnd) && i <= j < |c|
    ensures c[i].start + HEADER <= c[j].end
  {
    assert c[i].start + HEADER <= c[i].end && c[j].start + HEADER <= c[j].end;
    if i < j {
      BlocksDisjoint(c, heapEnd, i, j);
    }
  }

  lemma HeadersSplice(a: Arena, b: Arena, left: Chain, mid: Chain, xs: Chain, right: Chain, lo: nat, hi: nat,
                      heapEnd: nat, pool: int)
    requires Headers(a, left + (mid + right), 0, pool) && Headers(b, xs, LastStart(left, 0), pool) && xs != []
    requires SameOutside(a, b, lo, hi) && lo <= hi && hi <= heapEnd && heapEnd + HEADER == |a|
    requires left != [] ==> Segment(left, 0, lo)
    requires right != [] ==> Segment(right, hi, heapEnd) && hi < heapEnd && b[hi + 8] == xs[|xs| - 1].start
    ensures Headers(b, left + (xs + right), 0, pool)
  {
    hide Segment, Headers;
    var p := LastStart(left, 0);
    HeadersSplit(a, left, mid + right, 0, pool);
    HeadersSplit(a, mid, right, p, pool);
    HeadersFrame(a, b, left, 0, pool, 0, lo);
    if right != [] {
      HeadersAfter(a, b, right, LastStart(mid, p), LastStart(xs, p), pool, hi, heapEnd);
    } else {
      NoHeaders(b, LastStart(xs, p), pool);
    }
    HeadersSplit(b, xs, right, p, pool);
    HeadersSplit(b, left, xs + right, 0, pool);
  }

  /** Two arenas that differ at most inside [lo, hi) and in the `prev` word of the header at `hi`. */
  ghost predicate SameOutside(a: Arena, b: Arena, lo: nat, hi: nat) {
    |a| == |b| && forall j :: 0 <= j < |a| && !(lo <= j < hi) && !(hi + 8 <= j < hi + HEADER) ==> a[j] == b[j]
  }

  lemma NoHeaders(b: Arena, prev: int, pool: int)
    ensures Headers(b, [], prev, pool)
  {
  }

  lemma BeforeBlock(c: Chain, i: nat, heapEnd: nat)
    requires Tiles(c, heapEnd) && i < |c|
    ensures c[..i] != [] ==> Segment(c[..i], 0, c[i].start)
  {
    if i > 0 {
      assert c == c[..i] + c[i..];
      SegmentSplit(c[..i], c[i..], 0, heapEnd);
    }
  }

  lemma AfterBlock(c: Chain, i: nat, heapEnd: nat)
    requires Tiles(c, heapEnd) && i < |c|
    ensures c[i + 1..] != [] ==> Segment(c[i + 1..], c[i].end, heapEnd) && c[i].end + HEADER <= heapEnd
    ensures c[i + 1..] == [] ==> c[i].end == heapEnd
  {
    if i + 1 < |c| {
      assert c[i + 1 - 1].end == c[i + 1].start && c[i + 1].start + HEADER <= c[i + 1].end;
      SegmentSuffix(c, i + 1, 0, heapEnd);
      SegmentBounds(c, 0, heapEnd, i + 1);
    }
  }

  predicate Protected(b: Block, except: Option<nat>) {
    b.used && except != Some(b.start + HEADER)
  }

  /** The payload bytes of every live block of `c` other than `except` are the same. */
  ghost predicate PayloadsKept(a: Arena, b: Arena, c: Chain, except: Option<nat>) {
    && |a| == |b|
    && forall i, j :: 0 <= i < |c| && Protected(c[i], except) && c[i].start + HEADER <= j < c[i].end && j < |a| ==> a[j] == b[j]
  }

  lemma PayloadsSame(a: Arena, c: Chain)
    ensures PayloadsKept(a, a, c, None)
  {
  }

  /** Changing bytes of a free stretch and of one header leaves all payloads alone. */
  lemma PayloadsOutside(a: Arena, b: Arena, c: Chain, i: nat, k: nat, heapEnd: nat, except: Option<nat>)
    requires Tiles(c, heapEnd) && k >= 1 && i + k <= |c|
    requires forall m :: i <= m < i + k ==> !Protected(c[m], except)
    requires SameOutside(a, b, c[i].start, c[i + k - 1].end)
    ensures PayloadsKept(a, b, c, except)
  {
    forall m, j | 0 <= m < |c| && Protected(c[m], except) && c[m].start + HEADER <= j < c[m].end && j < |a|
      ensures a[j] == b[j]
    {
      var last := i + k - 1;
      if m < i {
        BlocksDisjoint(c, heapEnd, m, i);
        if i < last {
          BlocksDisjoint(c, heapEnd, i, last);
          assert c[i].start + HEADER <= c[i].end;
        }
        assert c[last].start + HEADER <= c[last].end;
      } else {
        assert m > last;
        BlocksDisjoint(c, heapEnd, last, m);
        if last + 1 < m {
          BlocksDisjoint(c, heapEnd, last + 1, m);
          assert c[last + 1 - 1].end == c[last + 1].start;
          assert c[last + 1].start + HEADER <= c[last + 1].end;
        }
      }
    }
  }

  // ----- what a header says about its block

  lemma HeaderAt(a: Arena, c: Chain, i: nat, heapEnd: nat, pool: int)
    requires Linked(a, c, heapEnd, pool) && i < |c|
    ensures var b := c[i];
            && b.start + HEADER <= b.end <= heapEnd && |a| == heapEnd + HEADER
            && a[b.start] == (if b.used then pool + 1 else pool) && a[b.start + 4] == b.end
            && a[b.start + 8] == (if i == 0 then 0 else c[i - 1].start) && (i == 0 ==> b.start == 0)
            && (if i + 1 < |c| then c[i + 1].start == b.end && b.end < heapEnd else b.end == heapEnd)
  {
    assert Header(a, c[i], LastStart(c[..i], 0), pool);
    SegmentBounds(c, 0, heapEnd, i);
    AfterBlock(c, i, heapEnd);
    assert c[i].start + HEADER <= c[i].end;
    assert i + 1 < |c| ==> c[i + 1 - 1].end == c[i + 1].start;
  }

  lemma LowestAtMost(a: Arena, c: Chain, i: nat, heapEnd: nat, pool: int)
    requires Linked(a, c, heapEnd, pool) && i < |c| && !c[i].used
    ensures LowestFree(c, heapEnd) <= c[i].start
  {
    var rest := c[i..];
    assert c == c[..i] + rest;
    LowestFreeConcat(c[..i], rest, heapEnd);
    LeftOfBlock(c, i, heapEnd, c[i].start);
  }

  /** One new header in place of two neighbours. */
  lemma JoinBytes(a: Arena, b: Arena, c: Chain, i: nat, heapEnd: nat, pool: int)
    requires Linked(a, c, heapEnd, pool) && i + 1 < |c| && !c[i].used
    requires SameOutside(a, b, c[i].start, c[i + 1].end) && c[i].start + HEADER <= c[i + 1].end && c[i + 1].end + HEADER <= |a|
    requires b[c[i].start] == a[c[i].start] && b[c[i].start + 8] == a[c[i].start + 8]
    requires b[c[i].start + 4] == c[i + 1].end && b[c[i + 1].end + 8] == c[i].start
    ensures SpliceBytes(a, b, c, i, 2, [Block(c[i].start, c[i + 1].end, false)], heapEnd, pool)
  {
    var x := Block(c[i].start, c[i + 1].end, false);
    assert Header(a, c[i], LastStart(c[..i], 0), pool);
    assert c[i].start + HEADER <= c[i].end && c[i + 1 - 1].end == c[i + 1].start && c[i + 1].start + HEADER <= c[i + 1].end;
    assert Segment([x], c[i].start, c[i + 1].end);
    assert [x][..0] == [];
    assert Headers(b, [x], LastStart(c[..i], 0), pool);
  }

  /** The headers a split writes: the block itself, cut short, and a free remainder. */
  lemma CutBytes(a: Arena, b: Arena, c: Chain, i: nat, size: nat, heapEnd: nat, pool: int)
    requires Linked(a, c, heapEnd, pool) && i < |c| && Splits(c[i], size) && size % 4 == 0
    requires SameOutside(a, b, c[i].start, c[i].end) && c[i].end + HEADER <= |a|
    requires var m, cut := c[i].start, c[i].start + HEADER + size;
             && b[m] == pool + 1 && b[m + 4] == cut && b[m + 8] == a[m + 8]
             && b[cut] == pool && b[cut + 4] == c[i].end && b[cut + 8] == m
             && (c[i].end < heapEnd ==> b[c[i].end + 8] == cut)
    ensures SpliceBytes(a, b, c, i, 1, Halves(c[i], size), heapEnd, pool)
  {
    assert c[i].start % 4 == 0 && c[i].end % 4 == 0;
    var hs := Halves(c[i], size);
    PiecesCover(c[i], size);
    assert Header(a, c[i], LastStart(c[..i], 0), pool);
    SegmentBounds(c, 0, heapEnd, i);
    assert hs[..0] == [] && hs[..1] == [hs[0]];
    assert Header(b, hs[0], LastStart(hs[..0], LastStart(c[..i], 0)), pool);
    assert Header(b, hs[1], LastStart(hs[..1], LastStart(c[..i], 0)), pool);
  }

  /** Changing only the state of one block. */
  lemma MarkBytes(a: Arena, b: Arena, c: Chain, i: nat, used: bool, heapEnd: nat, pool: int)
    requires Linked(a, c, heapEnd, pool) && i < |c|
    requires |a| == |b| && forall j :: 0 <= j < |a| && !(c[i].start <= j < c[i].start + 4) ==> a[j] == b[j]
    requires b[c[i].start] == if used then pool + 1 else pool
    ensures SpliceBytes(a, b, c, i, 1, [c[i].(used := used)], heapEnd, pool)
  {
    var x := c[i].(used := used);
    assert Header(a, c[i], LastStart(c[..i], 0), pool);
    assert Segment([x], c[i].start, c[i].end) by {
      assert c[i].start % 4 == 0 && c[i].end % 4 == 0 && c[i].start + HEADER <= c[i].end;
    }
    NextPrev(a, c, i, heapEnd, pool);
    hide Linked, Segment;
    assert [x][..0] == [];
    assert Headers(b, [x], LastStart(c[..i], 0), pool);
  }

  lemma NextPrev(a: Arena, c: Chain, i: nat, heapEnd: nat, pool: int)
    requires Linked(a, c, heapEnd, pool) && i < |c|
    ensures c[i].start + HEADER <= c[i].end && c[i].end + HEADER <= |a|
    ensures c[i].end < heapEnd ==> a[c[i].end + 8] == c[i].start
  {
    HeaderAt(a, c, i, heapEnd, pool);
    if c[i].end < heapEnd {
      HeaderAt(a, c, i + 1, heapEnd, pool);
    }
  }

  /** Joining two free neighbours keeps the arena linked, the payloads untouched and the lowest free block. */
  lemma JoinLinked(a: Arena, b: Arena, c: Chain, i: nat, heapEnd: nat, pool: int, x: Block)
    requires Linked(a, c, heapEnd, pool) && i + 1 < |c| && !c[i].used && !c[i + 1].used
    requires x == Block(c[i].start, c[i + 1].end, false)
    requires SpliceBytes(a, b, c, i, 2, [x], heapEnd, pool)
    ensures Linked(b, Splice(c, i, 2, [x]), heapEnd, pool)
    ensures PayloadsKept(a, b, c, None)
    ensures LowestFree(Splice(c, i, 2, [x]), heapEnd) == LowestFree(c, heapEnd)
  {
    LinkedSplice(a, b, c, i, 2, [x], heapEnd, pool);
    hide Headers, Splice, Segment;
    PayloadsOutside(a, b, c, i, 2, heapEnd, None);
    Join(c, i, heapEnd, x);
  }

  class SmallHeap {
    const pool: nat        // the address of the control object, even and not null
    const heapEnd: nat     // the offset of the end marker
    const arena: array<int>
    var lfree: int
    var used: int
    var max: int
    ghost var chain: Chain

    ghost predicate Base()
      reads this, arena
    {
      Linked(arena[..], chain, heapEnd, pool) && pool % 2 == 0 && heapEnd + HEADER < WORD
    }

    ghost predicate LinkedNow()
      reads this, arena
    {
      Base() && lfree == LowestFree(chain, heapEnd)
    }

    ghost predicate Valid()
      reads this, arena
    {
      LinkedNow() && Compact(chain) && used == UsedSpan(chain) && used <= max
    }

    /** `rt_smem_init` once it has placed the object and the heap: one free block and the end marker. */
    constructor (address: nat, room: nat)
      requires address % 2 == 0 && address > 0 && room % 4 == 0 && room + 2 * HEADER < WORD
      ensures Valid() && fresh(arena)
      ensures chain == [Block(0, room + HEADER, false)] && heapEnd == room + HEADER && used == 0 && max == 0
    {
      pool, heapEnd, lfree, used, max := address, room + HEADER, 0, 0, 0;
      arena := new int[room + 2 * HEADER];
      chain := [Block(0, room + HEADER, false)];
      new;
      WriteWord(0, pool);
      WriteWord(4, heapEnd);
      WriteWord(8, 0);
      WriteWord(heapEnd, pool + 1);
      WriteWord(heapEnd + 4, heapEnd);
      WriteWord(heapEnd + 8, heapEnd);
      assert chain[..0] == [];
      SummariesOne(chain[0], heapEnd);
    }

    method WriteWord(o: nat, w: int)
      requires o + 4 <= arena.Length
      modifies arena
      ensures arena[o] == w
      ensures forall j :: 0 <= j < arena.Length && !(o <= j < o + 4) ==> arena[j] == old(arena[j])
    {
      arena[o], arena[o + 1], arena[o + 2], arena[o + 3] := w, 0, 0, 0;
    }

    /** Absorb the block at `nmem` into the block at `mem` before it. */
    method WriteJoin(mem: nat, nmem: nat, next: nat)
      requires mem + HEADER <= nmem && nmem + HEADER <= next && next + HEADER <= arena.Length
      modifies arena
      ensures arena[mem] == old(arena[mem]) && arena[mem + 4] == next && arena[mem + 8] == old(arena[mem + 8])
      ensures arena[next + 8] == mem
      ensures SameOutside(old(arena[..]), arena[..], mem, next)
    {
      WriteWord(nmem, 0);
      WriteWord(mem + 4, next);
      WriteWord(next + 8, mem);
    }

    /** The first half of `plug_holes`. */
    method PlugHoleForward(mem: nat, ghost i: nat)
      requires LinkedNow() && i < |chain| && chain[i].start == mem && !chain[i].used
      modifies this`lfree, this`chain, arena
      ensures LinkedNow() && chain == PlugForward(old(chain), i)
      ensures PayloadsKept(old(arena[..]), arena[..], old(chain), None)
    {
      hide Linked, Splice, LowestFree, PayloadsKept, SpliceBytes;
      ghost var a, c := arena[..], chain;
      PayloadsSame(a, c);
      HeaderAt(a, c, i, heapEnd, pool);
      if i + 1 < |c| {
        HeaderAt(a, c, i + 1, heapEnd, pool);
      }
      var nmem := arena[mem + 4];
      if mem != nmem && arena[nmem] % 2 == 0 && nmem != heapEnd {
        LowestAtMost(a, c, i, heapEnd, pool);
        lfree := if lfree == nmem then mem else lfree;
        ghost var x := Block(mem, c[i + 1].end, false);
        WriteJoin(mem, nmem, arena[nmem + 4]);
        JoinBytes(a, arena[..], c, i, heapEnd, pool);
        JoinLinked(a, arena[..], c, i, heapEnd, pool, x);
        chain := PlugForward(chain, i);
      }
    }

    /** The second half of `plug_holes`. */
    method PlugHoleBackward(mem: nat, ghost i: nat)
      requires LinkedNow() && i < |chain| && chain[i].start == mem && !chain[i].used
      modifies this`lfree, this`chain, arena
      ensures LinkedNow() && chain == PlugBackward(old(chain), i)
      ensures PayloadsKept(old(arena[..]), arena[..], old(chain), None)
    {
      hide Linked, Splice, LowestFree, PayloadsKept, SpliceBytes;
      ghost var a, c := arena[..], chain;
      PayloadsSame(a, c);
      HeaderAt(a, c, i, heapEnd, pool);
      var pmem: nat := arena[mem + 8];
      if i > 0 {
        HeaderAt(a, c, i - 1, heapEnd, pool);
      }
      if pmem != mem && arena[pmem] % 2 == 0 {
        LowestAtMost(a, c, i - 1, heapEnd, pool);
        lfree := if lfree == mem then pmem else lfree;
        ghost var x := Block(pmem, c[i].end, false);
        WriteJoin(pmem, mem, arena[mem + 4]);
        JoinBytes(a, arena[..], c, i - 1, heapEnd, pool);
        JoinLinked(a, arena[..], c, i - 1, heapEnd, pool, x);
        chain := PlugBackward(chain, i);
      }
    }

    /** `plug_holes` */
    method PlugHoles(mem: nat, ghost i: nat)
      requires LinkedNow() && i < |chain| && chain[i].start == mem && !chain[i].used
      modifies this`lfree, this`chain, arena
      ensures LinkedNow() && chain == Plug(old(chain), i)
      ensures PayloadsKept(old(arena[..]), arena[..], old(chain), None)
    {
      hide LinkedNow, PlugBackward, PayloadsKept;
      ghost var a, c := arena[..], chain;
      PlugHoleForward(mem, i);
      ghost var b := arena[..];
      assert chain[i].start == mem && !chain[i].used by {
        ForwardAt(c, i);
      }
      hide PlugForward;
      PlugHoleBackward(mem, i);
      assert OthersKept(c, PlugForward(c, i), None) by { ForwardAt(c, i); }
      PayloadsTwice(a, b, arena[..], c, PlugForward(c, i), None);
    }

    /** Write a new state into the header of block `i`. */
    method Mark(mem: nat, state: bool, ghost i: nat)
      requires Base() && i < |chain| && chain[i].start == mem
      modifies this`chain, arena
      ensures Base() && chain == old(chain)[i := old(chain)[i].(used := state)]
      ensures PayloadsKept(old(arena[..]), arena[..], old(chain), Some(mem + HEADER))
    {
      hide Linked, PayloadsKept, SpliceBytes;
      ghost var a, c := arena[..], chain;
      HeaderAt(a, c, i, heapEnd, pool);
      WriteWord(mem, if state then pool + 1 else pool);
      ghost var b, x := arena[..], c[i].(used := state);
      MarkBytes(a, b, c, i, state, heapEnd, pool);
      LinkedSplice(a, b, c, i, 1, [x], heapEnd, pool);
      assert Splice(c, i, 1, [x]) == c[i := x];
      chain := chain[i := x];
      PayloadsExcept(a, b, c, i, heapEnd, pool);
    }

    /** `rt_smem_free` */
    method Free(ptr: Option<nat>)
      requires Valid() && (ptr.Some? ==> Live(chain, ptr.value))
      modifies this`lfree, this`used, this`chain, arena
      ensures Valid() && chain == FreeChain(old(chain), ptr)
      ensures PayloadsKept(old(arena[..]), arena[..], old(chain), ptr)
    {
      hide Linked, PayloadsKept, Compact, UsedSpan, LowestFree, Plug, IndexOf;
      ghost var a, c := arena[..], chain;
      if ptr.None? {
        PayloadsSame(a, c);
        return;
      }
      var mem := ptr.value - HEADER;
      ghost var i := IndexOf(c, ptr.value);
      WellFormedNow(a, c, heapEnd, pool);
      FreedTiles(c, i, heapEnd);
      HeaderAt(a, c, i, heapEnd, pool);
      var next := arena[mem + 4];
      Mark(mem, false, i);
      ghost var b, d := arena[..], chain;
      if mem < lfree {
        lfree := mem;
      }
      used := used - (next - mem);
      PlugWellFormed(d, i, heapEnd);
      PlugHoles(mem, i);
      FreedKept(a, b, arena[..], c, i);
    }

    /** Write the header of a free remainder at `cut` and shorten the block at `mem` to end there. */
    method WriteCut(mem: nat, cut: nat, end: nat)
      requires mem + HEADER <= cut && cut + HEADER <= end <= heapEnd && arena.Length == heapEnd + HEADER
      requires end < heapEnd ==> end + HEADER <= heapEnd
      modifies arena
      ensures arena[mem] == old(arena[mem]) && arena[mem + 4] == cut && arena[mem + 8] == old(arena[mem + 8])
      ensures arena[cut] == pool && arena[cut + 4] == end && arena[cut + 8] == mem
      ensures forall j :: mem + HEADER <= j < cut ==> arena[j] == old(arena[j])
      ensures end < heapEnd ==> arena[end + 8] == cut
      ensures SameOutside(old(arena[..]), arena[..], mem, end)
    {
      WriteWord(cut, pool);
      WriteWord(cut + 4, end);
      WriteWord(cut + 8, mem);
      WriteWord(mem + 4, cut);
      if end != heapEnd {
        WriteWord(end + 8, cut);
      }
    }

    /** Move `lfree` up from block `k`, below which everything is in use, to the next free block or the end. */
    method AdvanceLowest(ghost k: nat)
      requires Base() && k < |chain| && lfree == chain[k].start && forall j :: 0 <= j < k ==> chain[j].used
      modifies this`lfree
      ensures LinkedNow()
    {
      hide Linked, LowestFree;
      ghost var j := k;
      HeaderAt(arena[..], chain, j, heapEnd, pool);
      while arena[lfree] % 2 == 1 && lfree != heapEnd
        invariant k <= j <= |chain| && arena.Length == heapEnd + HEADER
        invariant if j < |chain| then lfree == chain[j].start && chain[j].start + HEADER <= heapEnd else lfree == heapEnd
        invariant forall m :: 0 <= m < j ==> chain[m].used
        decreases |chain| - j
      {
        HeaderAt(arena[..], chain, j, heapEnd, pool);
        lfree := arena[lfree + 4];
        j := j + 1;
        if j < |chain| {
          HeaderAt(arena[..], chain, j, heapEnd, pool);
        }
      }
      if j < |chain| {
        HeaderAt(arena[..], chain, j, heapEnd, pool);
      }
      LowestIs(arena[..], chain, j, heapEnd, pool);
    }

    /** Take `n` bytes from the free block `i`, splitting it when the rest is large enough. */
    method Take(mem: nat, n: nat, ghost i: nat)
      requires Valid() && i < |chain| && chain[i].start == mem && Fits(chain[i], n) && n % 4 == 0
      modifies this, arena
      ensures Valid() && chain == Carve(old(chain), i, n)
      ensures max == if old(max) < used then used else old(max)
      ensures PayloadsKept(old(arena[..]), arena[..], old(chain), None)
    {
      hide Linked, PayloadsKept, Compact, UsedSpan, LowestFree, Carve, SpliceBytes;
      ghost var a, c := arena[..], chain;
      HeaderAt(a, c, i, heapEnd, pool);
      NextPrev(a, c, i, heapEnd, pool);
      CarveAccount(a, c, i, n, heapEnd, pool);
      var next := arena[mem + 4];
      if next - (mem + HEADER) >= n + HEADER + MIN_SIZE {
        AfterFacts(a, c, i, heapEnd, pool);
        WriteCut(mem, mem + HEADER + n, next);
        used := used + n + HEADER;
      } else {
        used := used + (next - mem);
      }
      if max < used {
        max := used;
      }
      WriteWord(mem, pool + 1);
      CarvedArena(a, arena[..], c, i, n, heapEnd, pool);
      chain := Carve(c, i, n);
      if mem == lfree {
        CarvedFirst(a, c, i, n, heapEnd, pool);
        AdvanceLowest(i);
      } else {
        CarvedLater(a, c, i, n, heapEnd, pool);
      }
    }

    /** `rt_smem_alloc`: search from the lowest free block, stop where nothing can fit any more. */
    method Alloc(size: nat) returns (ptr: Option<nat>)
      requires Valid() && size < WORD
      modifies this, arena
      ensures Valid() && Reply(chain, ptr) == AllocReply(old(chain), heapEnd - HEADER, size)
      ensures max == if old(max) < used then used else old(max)
      ensures PayloadsKept(old(arena[..]), arena[..], old(chain), None)
      ensures ptr.Some? ==> Live(chain, ptr.value) && (RoomAt(chain, ptr.value) >= size <==> size <= WORD - 4)
      ensures ptr.None? ==> arena[..] == old(arena[..]) && lfree == old(lfree) && used == old(used)
    {
      hide Linked, PayloadsKept, Compact, UsedSpan, LowestFree, Carve, FirstFit, Fits, Align, Live, RoomAt;
      ghost var a, c := arena[..], chain;
      RoomTaken(a, c, heapEnd, pool, size);
      PayloadsSame(a, c);
      HeaderAt(a, c, 0, heapEnd, pool) by { NotEmpty(a, c, heapEnd, pool); }
      if size == 0 {
        return None;
      }
      AlignFacts(size);
      var n := Align(size);
      if n < MIN_SIZE {
        n := MIN_SIZE;
      }
      var room := heapEnd - HEADER;
      if n > room {
        return None;
      }
      var at := lfree;
      ghost var i := StartOfSearch(a, c, n, heapEnd, pool);
      while at <= room - n
        invariant chain == c && arena[..] == a && Valid() && i <= |c|
        invariant at == if i < |c| then c[i].start else heapEnd
        invariant forall m :: 0 <= m < i ==> !Fits(c[m], n)
        invariant used == old(used) && max == old(max) && lfree == old(lfree)
        decreases |c| - i
      {
        HeaderAt(a, c, i, heapEnd, pool);
        FitsWord(c[i], n);
        if arena[at] % 2 == 0 && arena[at + 4] - (at + HEADER) >= n {
          FirstFitIs(c, n, i);
          Take(at, n, i);
          return Some(at + HEADER);
        }
        at := arena[at + 4];
        i := i + 1;
      }
      NothingFits(a, c, i, n, heapEnd, pool);
      FirstFitIs(c, n, |c|);
      return None;
    }

    /** `rt_memcpy` from one live payload to the front of another. */
    method Copy(target: nat, source: nat, length: nat, ghost i: nat)
      requires Valid() && i < |chain| && chain[i].used && chain[i].start + HEADER == target && target + length <= chain[i].end
      requires source + length <= arena.Length && (source + length <= chain[i].start || chain[i].end <= source)
      requires chain[i].end <= arena.Length
      modifies arena
      ensures Valid() && arena[target..target + length] == old(arena[source..source + length])
      ensures PayloadsKept(old(arena[..]), arena[..], chain, Some(target))
    {
      hide Linked, PayloadsKept, Compact, UsedSpan, LowestFree;
      ghost var a := arena[..];
      HeaderAt(a, chain, i, heapEnd, pool);
      var k := 0;
      while k < length
        invariant k <= length && |a| == arena.Length
        invariant arena[target..target + k] == a[source..source + k]
        invariant forall j :: 0 <= j < arena.Length && !(target <= j < target + k) ==> arena[j] == a[j]
      {
        assert arena[source + k] == a[source + k];
        ghost var done := arena[target..target + k];
        arena[target + k] := arena[source + k];
        assert arena[target..target + k] == done;
        k := k + 1;
        assert a[source..source + k] == a[source..source + k - 1] + [a[source + k - 1]];
        assert arena[target..target + k] == done + [a[source + k - 1]];
      }
      PayloadWritten(a, arena[..], chain, i, heapEnd, pool);
    }

    /** A thread writing a byte of a block it owns. */
    method Store(ptr: nat, k: nat, value: byte)
      requires Valid() && Live(chain, ptr) && k < RoomAt(chain, ptr)
      modifies arena
      ensures Valid() && forall j :: 0 <= j < arena.Length ==> arena[j] == if j == ptr + k then value else old(arena[j])
      ensures PayloadsKept(old(arena[..]), arena[..], chain, Some(ptr))
    {
      hide Linked, PayloadsKept, Compact, UsedSpan, LowestFree;
      ghost var a, i := arena[..], IndexOf(chain, ptr);
      HeaderAt(a, chain, i, heapEnd, pool);
      arena[ptr + k] := value;
      PayloadWritten(a, arena[..], chain, i, heapEnd, pool);
    }

    /** Cut the live block at `mem` down to `n` bytes; the rest becomes free. */
    method Trim(mem: nat, n: nat, ghost i: nat)
      requires Valid() && i < |chain| && chain[i].used && chain[i].start == mem && n % 4 == 0 && Splits(chain[i], n)
      modifies this`lfree, this`used, this`chain, arena
      ensures Valid() && chain == Shrink(old(chain), i, n)
      ensures PayloadsKept(old(arena[..]), arena[..], old(chain), Some(mem + HEADER))
      ensures forall j :: mem + HEADER <= j < mem + HEADER + n ==> arena[j] == old(arena[j])
    {
      hide Linked, PayloadsKept, Compact, UsedSpan, LowestFree, Splice, Plug, SpliceBytes, CompactAround;
      ghost var a, c := arena[..], chain;
      HeaderAt(a, c, i, heapEnd, pool);
      AfterFacts(a, c, i, heapEnd, pool);
      WellFormedNow(a, c, heapEnd, pool);
      CutTiles(c, i, n, heapEnd);
      CutLowest(c, i, n, heapEnd);
      var next, cut := arena[mem + 4], mem + HEADER + n;
      used := used - ((next - mem - HEADER) - n);
      WriteCut(mem, cut, next);
      ghost var b, hs := arena[..], Halves(c[i], n);
      CutBytes(a, b, c, i, n, heapEnd, pool);
      LinkedSplice(a, b, c, i, 1, hs, heapEnd, pool);
      PayloadsExcept(a, b, c, i, heapEnd, pool);
      ghost var d := Splice(c, i, 1, hs);
      chain := d;
      if cut < lfree {
        lfree := cut;
      }
      PlugWellFormed(d, i + 1, heapEnd);
      PlugHoles(cut, i + 1);
      TrimKept(a, b, arena[..], c, i, n);
    }

    /** The size of a live block as its header tells it. */
    method RoomNow(ptr: nat) returns (size: nat)
      requires Valid() && Live(chain, ptr)
      ensures size == RoomAt(chain, ptr) && ptr >= HEADER && ptr + size <= heapEnd && arena.Length == heapEnd + HEADER
      ensures var b := chain[IndexOf(chain, ptr)]; b.start + HEADER == ptr && b.end == ptr + size
    {
      HeaderAt(arena[..], chain, IndexOf(chain, ptr), heapEnd, pool);
      size := arena[ptr - HEADER + 4] - ptr;
    }

    /** The moving path of `rt_smem_realloc`: allocate, copy, free. */
    method Move(ptr: nat, n: nat) returns (r: Option<nat>)
      requires Valid() && Live(chain, ptr) && 0 < n <= heapEnd - HEADER && n % 4 == 0
      modifies this, arena
      ensures Valid() && max >= old(max)
      ensures var reply := AllocReply(old(chain), heapEnd - HEADER, n);
              Reply(chain, r) == if reply.ptr.None? then reply else Reply(FreeChain(reply.chain, Some(ptr)), reply.ptr)
      ensures PayloadsKept(old(arena[..]), arena[..], old(chain), Some(ptr))
      ensures r.Some? ==> FrontKept(old(arena[..]), arena[..], ptr, r.value, Least(RoomAt(old(chain), ptr), n))
      ensures r.None? ==> arena[..] == old(arena[..]) && lfree == old(lfree) && used == old(used)
    {
      hide Linked, PayloadsKept, Compact, UsedSpan, LowestFree, IndexOf, AllocReply, FreeChain, FrontKept, OthersKept,
        WellFormed, Live, RoomAt;
      ghost var a, c := arena[..], chain;
      var size := RoomNow(ptr);
      var room := heapEnd - HEADER;
      AllocFacts(a, c, room, n, pool);
      r := Alloc(n);
      ghost var b, d := arena[..], chain;
      WeakerKept(a, b, c, ptr);
      if r.Some? {
        MoveReady(a, b, c, d, room, n, ptr, r.value, pool);
        Copy(r.value, ptr, Least(size, n), IndexOf(d, r.value));
        ghost var e := arena[..];
        Free(Some(ptr));
        WellFormedNow(a, c, heapEnd, pool);
        MoveDone(a, b, e, arena[..], c, d, heapEnd, ptr, r.value, Least(size, n));
      }
    }

    /** `rt_smem_realloc` */
    method Realloc(ptr: Option<nat>, size: nat) returns (r: Option<nat>)
      requires Valid() && size < WORD && (ptr.Some? ==> Live(chain, ptr.value))
      modifies this, arena
      ensures Valid() && max >= old(max)
      ensures Reply(chain, r) == ReallocReply(old(chain), heapEnd - HEADER, ptr, size)
      ensures PayloadsKept(old(arena[..]), arena[..], old(chain), ptr)
      ensures ptr.Some? && r.Some? ==>
                FrontKept(old(arena[..]), arena[..], ptr.value, r.value, Least(RoomAt(old(chain), ptr.value), Align(size)))
      ensures r.Some? ==> Live(chain, r.value) && RoomAt(chain, r.value) >= Align(size) >= size
      ensures r.None? && Align(size) != 0 ==> arena[..] == old(arena[..]) && lfree == old(lfree) && used == old(used)
    {
      hide Linked, PayloadsKept, Compact, UsedSpan, LowestFree, IndexOf, AllocReply, FreeChain, FrontKept, Align, Shrink;
      ghost var a, c := arena[..], chain;
      RoomGiven(a, c, heapEnd, pool, ptr, size);
      AlignFacts(size);
      HeaderAt(a, c, 0, heapEnd, pool) by { NotEmpty(a, c, heapEnd, pool); }
      var n := Align(size);
      PayloadsNone(a, c, ptr);
      if n > heapEnd - HEADER {
        return None;
      }
      if n == 0 {
        Free(ptr);
        return None;
      }
      if ptr.None? {
        r := Alloc(n);
        return;
      }
      var p := ptr.value;
      ghost var i := IndexOf(c, p);
      HeaderAt(a, c, i, heapEnd, pool);
      var mem := p - HEADER;
      var oldSize := arena[mem + 4] - mem - HEADER;
      if oldSize == n {
        FrontSame(a, p, n);
        return ptr;
      }
      if n + HEADER + MIN_SIZE < oldSize {
        Trim(mem, n, i);
        FrontByte(a, arena[..], p, n);
        return ptr;
      }
      r := Move(p, n);
    }
  }

  /** Any sequence of requests on live pointers, one after the other. */
  method Execute(heap: SmallHeap, requests: seq<Request>)
    requires heap.Valid() && LegalRun(heap.chain, heap.heapEnd - HEADER, requests)
    modifies heap, heap.arena
    ensures heap.Valid() && heap.chain == Run(old(heap.chain), heap.heapEnd - HEADER, requests)
    ensures heap.max >= old(heap.max)
  {
    hide Linked, Compact, UsedSpan, LowestFree, AllocReply, ReallocReply, FreeChain, Live;
    HeapRoom(heap.arena[..], heap.chain, heap.heapEnd, heap.pool);
    var i := 0;
    while i < |requests|
      invariant i <= |requests| && heap.Valid() && LegalRun(heap.chain, heap.heapEnd - HEADER, requests[i..])
      invariant Run(heap.chain, heap.heapEnd - HEADER, requests[i..]) == Run(old(heap.chain), heap.heapEnd - HEADER, requests)
      invariant heap.max >= old(heap.max)
    {
      assert requests[i..][0] == requests[i] && requests[i..][1..] == requests[i + 1..];
      match requests[i] {
        case Alloc(size) =>
          var _ := heap.Alloc(size);
        case Realloc(ptr, size) =>
          var _ := heap.Realloc(ptr, size);
        case Free(ptr) =>
          heap.Free(ptr);
      }
      i := i + 1;
    }
  }

  lemma RoomTaken(a: Arena, c: Chain, heapEnd: nat, pool: int, size: nat)
    requires Linked(a, c, heapEnd, pool) && Compact(c) && size < WORD && heapEnd + HEADER < WORD
    ensures heapEnd >= HEADER
    ensures var r := AllocReply(c, heapEnd - HEADER, size);
            r.ptr.Some? ==> Live(r.chain, r.ptr.value) && (RoomAt(r.chain, r.ptr.value) >= size <==> size <= WORD - 4)
  {
    hide WellFormed, AllocReply, Linked, Live, RoomAt, Compact;
    HeapRoom(a, c, heapEnd, pool);
    LinkedWellFormed(a, c, heapEnd, pool);
    if AllocReply(c, heapEnd - HEADER, size).ptr.Some? {
      AllocRoom(c, heapEnd - HEADER, size);
    }
  }

  lemma RoomGiven(a: Arena, c: Chain, heapEnd: nat, pool: int, ptr: Option<nat>, size: nat)
    requires Linked(a, c, heapEnd, pool) && Compact(c) && size < WORD && (ptr.Some? ==> Live(c, ptr.value))
    requires heapEnd + HEADER < WORD
    ensures heapEnd >= HEADER
    ensures var r := ReallocReply(c, heapEnd - HEADER, ptr, size);
            r.ptr.Some? ==> Live(r.chain, r.ptr.value) && RoomAt(r.chain, r.ptr.value) >= Align(size) >= size
  {
    hide WellFormed, ReallocReply, Align, Linked, Live, RoomAt, Compact;
    HeapRoom(a, c, heapEnd, pool);
    LinkedWellFormed(a, c, heapEnd, pool);
    if ReallocReply(c, heapEnd - HEADER, ptr, size).ptr.Some? {
      ReallocRoom(c, heapEnd - HEADER, ptr, size);
    }
  }

  lemma HeapRoom(a: Arena, c: Chain, heapEnd: nat, pool: int)
    requires Linked(a, c, heapEnd, pool)
    ensures heapEnd >= HEADER
  {
    NotEmpty(a, c, heapEnd, pool);
    HeaderAt(a, c, 0, heapEnd, pool);
  }

  /** `rt_smem_init`: place the control object at the aligned start and the heap behind it, or fail. */
  method Init(begin: nat, size: nat, objectSize: nat) returns (heap: SmallHeap?)
    requires begin + size < WORD && 0 < begin && objectSize % 4 == 0
    ensures var start, end := Up(begin) + objectSize, (begin + size) / 4 * 4;
            if end > 2 * HEADER && end - 2 * HEADER >= start then
              heap != null && fresh(heap) && fresh(heap.arena) && heap.Valid() && heap.heapEnd + HEADER == end - start
              && heap.chain == [Block(0, heap.heapEnd, false)]
            else heap == null
  {
    UpOnce(begin, objectSize);
    hide Up;
    var smallMem := (begin + 3) / 4 * 4;
    var startAddr := smallMem + objectSize;
    var beginAlign := (startAddr + 3) / 4 * 4;
    var endAlign := (begin + size) / 4 * 4;
    if endAlign > 2 * HEADER && endAlign - 2 * HEADER >= startAddr {
      heap := new SmallHeap(smallMem, endAlign - beginAlign - 2 * HEADER);
    } else {
      heap := null;
    }
  }

  /** Aligned addresses stay where they are. */
  lemma UpOnce(begin: nat, offset: nat)
    requires offset % 4 == 0
    ensures Up(begin) == (begin + 3) / 4 * 4 && (Up(begin) + offset + 3) / 4 * 4 == Up(begin) + offset
    ensures (Up(begin) + offset) % 4 == 0 && begin <= Up(begin) < begin + 4
  {
  }

  function Up(n: nat): nat {
    (n + 3) / 4 * 4
  }

  function Least(x: int, y: int): (r: int)
    ensures r <= x && r <= y && (r == x || r == y)
  {
    if x < y then x else y
  }

  /** The first `length` bytes at `p` before are those at `q` after. */
  ghost predicate FrontKept(a: Arena, b: Arena, p: nat, q: nat, length: int) {
    0 <= length && p + length <= |a| && q + length <= |b| && a[p..p + length] == b[q..q + length]
  }

  lemma FrontSame(a: Arena, p: nat, length: nat)
    requires p + length <= |a|
    ensures FrontKept(a, a, p, p, length)
  {
  }

  lemma FrontByte(a: Arena, b: Arena, p: nat, length: nat)
    requires |a| == |b| && p + length <= |a| && forall j :: p <= j < p + length ==> a[j] == b[j]
    ensures FrontKept(a, b, p, p, length)
  {
    assert a[p..p + length] == b[p..p + length];
  }

  lemma PayloadsNone(a: Arena, c: Chain, except: Option<nat>)
    ensures PayloadsKept(a, a, c, except)
  {
  }

  lemma WeakerKept(a: Arena, b: Arena, c: Chain, p: nat)
    requires PayloadsKept(a, b, c, None)
    ensures PayloadsKept(a, b, c, Some(p))
  {
  }

  /** After the allocation the old block is still there, apart from the new one, which has room for `n` bytes. */
  lemma MoveReady(a: Arena, b: Arena, c: Chain, d: Chain, room: nat, n: nat, p: nat, q: nat, pool: int)
    requires Linked(a, c, room + HEADER, pool) && Compact(c) && Live(c, p) && 0 < n < WORD && n % 4 == 0
    requires room + HEADER + HEADER < WORD && AllocReply(c, room, n) == Reply(d, Some(q)) && Linked(b, d, room + HEADER, pool)
    ensures Live(d, p) && Live(d, q) && p != q && d[IndexOf(d, p)] == c[IndexOf(c, p)]
    ensures q + n <= d[IndexOf(d, q)].end <= |b|
    ensures var x, y := d[IndexOf(d, p)], d[IndexOf(d, q)]; x.end <= y.start || y.end <= x.start
  {
    hide Linked, AllocReply, WellFormed, OthersKept, Compact, IndexOf;
    AllocFacts(a, c, room, n, pool);
    AllocRoom(c, room, n) by { LinkedWellFormed(a, c, room + HEADER, pool); }
    StillLive(c, d, room + HEADER, p);
    HeaderAt(b, d, IndexOf(d, q), room + HEADER, pool);
    BlocksApart(b, d, room + HEADER, pool, IndexOf(d, p), IndexOf(d, q));
  }

  lemma LinkedWellFormed(a: Arena, c: Chain, heapEnd: nat, pool: int)
    requires Linked(a, c, heapEnd, pool) && Compact(c)
    ensures WellFormed(c, heapEnd)
  {
  }

  lemma BlocksApart(a: Arena, c: Chain, heapEnd: nat, pool: int, i: nat, j: nat)
    requires Linked(a, c, heapEnd, pool) && i < |c| && j < |c| && i != j
    ensures c[i].end <= c[j].start || c[j].end <= c[i].start
  {
    if i < j {
      BlocksDisjoint(c, heapEnd, i, j);
    } else {
      BlocksDisjoint(c, heapEnd, j, i);
    }
  }

  /** Allocation, copy and free together: other payloads kept, the front of the old block carried over. */
  lemma MoveDone(a: Arena, b: Arena, e: Arena, f: Arena, c: Chain, d: Chain, heapEnd: nat, p: nat, q: nat, length: int)
    requires PayloadsKept(a, b, c, None) && PayloadsKept(b, e, d, Some(q)) && PayloadsKept(e, f, d, Some(p))
    requires OthersKept(c, d, None) && Live(c, p) && Live(d, p) && Live(d, q) && p != q && !Live(c, q) && Tiles(c, heapEnd)
    requires d[IndexOf(d, p)] == c[IndexOf(c, p)] && d[IndexOf(d, p)].end <= |a| && d[IndexOf(d, q)].end <= |a|
    requires 0 <= length && p + length <= d[IndexOf(d, p)].end && q + length <= d[IndexOf(d, q)].end
    requires |a| == |b| == |e| && e[q..q + length] == b[p..p + length]
    ensures PayloadsKept(a, f, c, Some(p))
    ensures FrontKept(a, f, p, q, length)
  {
    KeptUnlessNew(a, b, e, c, d, heapEnd, q);
    WeakerKept(a, e, c, p);
    OthersFor(c, d, p);
    PayloadsTwice(a, e, f, c, d, Some(p));
    var i, k := IndexOf(c, p), IndexOf(d, q);
    hide PayloadsKept, OthersKept;
    PayloadSlice(a, b, c, i, p, length, None);
    PayloadSlice(e, f, d, k, q, length, Some(p));
  }

  lemma OthersFor(c: Chain, d: Chain, p: nat)
    requires OthersKept(c, d, None)
    ensures OthersKept(c, d, Some(p))
  {
  }

  /** Bytes of a block that is not live in `c` may change. */
  lemma KeptUnlessNew(a: Arena, b: Arena, e: Arena, c: Chain, d: Chain, heapEnd: nat, q: nat)
    requires PayloadsKept(a, b, c, None) && PayloadsKept(b, e, d, Some(q)) && OthersKept(c, d, None)
    requires Tiles(c, heapEnd) && !Live(c, q)
    ensures PayloadsKept(a, e, c, None)
  {
    forall m, j | 0 <= m < |c| && Protected(c[m], None) && c[m].start + HEADER <= j < c[m].end && j < |a|
      ensures a[j] == e[j]
    {
      assert c[m] in c;
      var k :| 0 <= k < |d| && d[k] == c[m];
      LiveBlock(c, heapEnd, c[m]);
      assert Protected(d[k], Some(q));
    }
  }

  lemma PayloadSlice(a: Arena, b: Arena, c: Chain, i: nat, lo: nat, length: nat, except: Option<nat>)
    requires PayloadsKept(a, b, c, except) && i < |c| && Protected(c[i], except)
    requires c[i].start + HEADER <= lo && lo + length <= c[i].end && lo + length <= |a|
    ensures |a| == |b| && a[lo..lo + length] == b[lo..lo + length]
  {
  }

  lemma AllocFacts(a: Arena, c: Chain, room: nat, n: nat, pool: int)
    requires Linked(a, c, room + HEADER, pool) && Compact(c) && n < WORD
    ensures var r := AllocReply(c, room, n);
            && OthersKept(c, r.chain, None) && WellFormed(r.chain, room + HEADER)
            && (r.ptr.Some? ==> Live(r.chain, r.ptr.value) && !Live(c, r.ptr.value))
  {
    AllocKeeps(c, room, n);
  }

  lemma PayloadWritten(a: Arena, b: Arena, c: Chain, i: nat, heapEnd: nat, pool: int)
    requires Linked(a, c, heapEnd, pool) && i < |c| && |a| == |b|
    requires forall j :: 0 <= j < |a| && !(c[i].start + HEADER <= j < c[i].end) ==> a[j] == b[j]
    ensures Linked(b, c, heapEnd, pool)
    ensures PayloadsKept(a, b, c, Some(c[i].start + HEADER))
  {
    hide SpliceBytes, Splice, Linked, SameOutside, PayloadsKept;
    RewrittenBytes(a, b, c, i, heapEnd, pool);
    PayloadsExcept(a, b, c, i, heapEnd, pool);
    SpliceSelf(c, i);
    LinkedSplice(a, b, c, i, 1, [c[i]], heapEnd, pool);
  }

  lemma SpliceSelf(c: Chain, i: nat)
    requires i < |c|
    ensures Splice(c, i, 1, [c[i]]) == c
  {
  }

  lemma RewrittenBytes(a: Arena, b: Arena, c: Chain, i: nat, heapEnd: nat, pool: int)
    requires Linked(a, c, heapEnd, pool) && i < |c| && |a| == |b|
    requires forall j :: 0 <= j < |a| && !(c[i].start + HEADER <= j < c[i].end) ==> a[j] == b[j]
    ensures SpliceBytes(a, b, c, i, 1, [c[i]], heapEnd, pool)
    ensures SameOutside(a, b, c[i].start, c[i].end)
  {
    assert Segment([c[i]], c[i].start, c[i].end) by {
      assert c[i].start % 4 == 0 && c[i].end % 4 == 0 && c[i].start + HEADER <= c[i].end;
    }
    assert Header(a, c[i], LastStart(c[..i], 0), pool);
    NextPrev(a, c, i, heapEnd, pool);
    hide Linked, Segment;
    assert [c[i]][..0] == [];
    assert Headers(b, [c[i]], LastStart(c[..i], 0), pool);
  }

  lemma TrimKept(a: Arena, b: Arena, e: Arena, c: Chain, i: nat, n: nat)
    requires i < |c| && c[i].used && PayloadsKept(a, b, c, Some(c[i].start + HEADER))
    requires PayloadsKept(b, e, Splice(c, i, 1, Halves(c[i], n)), None) && c[i].start + HEADER + n <= |a|
    requires forall j :: c[i].start + HEADER <= j < c[i].start + HEADER + n ==> a[j] == b[j]
    ensures PayloadsKept(a, e, c, Some(c[i].start + HEADER))
    ensures forall j :: c[i].start + HEADER <= j < c[i].start + HEADER + n ==> a[j] == e[j]
  {
    var d := Splice(c, i, 1, Halves(c[i], n));
    SpliceAt(c, i, 1, Halves(c[i], n), i);
    assert Protected(d[i], None);
    forall m, j | 0 <= m < |c| && Protected(c[m], Some(c[i].start + HEADER)) && c[m].start + HEADER <= j < c[m].end && j < |a|
      ensures a[j] == e[j]
    {
      var k := if m < i then m else m + 1;
      SpliceAt(c, i, 1, Halves(c[i], n), k);
      assert d[k] == c[m] && Protected(d[k], None);
    }
  }

  lemma NotEmpty(a: Arena, c: Chain, heapEnd: nat, pool: int)
    requires Linked(a, c, heapEnd, pool)
    ensures |c| > 0
  {
  }

  lemma FitsWord(b: Block, n: nat)
    ensures Fits(b, n) <==> !b.used && b.end - (b.start + HEADER) >= n
  {
  }

  lemma FirstFitIs(c: Chain, n: nat, i: nat)
    requires i <= |c| && (forall m :: 0 <= m < i ==> !Fits(c[m], n)) && (i < |c| ==> Fits(c[i], n))
    ensures FirstFit(c, n) == i
  {
  }

  /** The search may start at the lowest free block: nothing below it is free. */
  lemma StartOfSearch(a: Arena, c: Chain, n: nat, heapEnd: nat, pool: int) returns (i: nat)
    requires Linked(a, c, heapEnd, pool)
    ensures i <= |c| && LowestFree(c, heapEnd) == (if i < |c| then c[i].start else heapEnd)
    ensures forall m :: 0 <= m < i ==> !Fits(c[m], n)
  {
    i := 0;
    while i < |c| && c[i].used
      invariant i <= |c| && forall m :: 0 <= m < i ==> c[m].used
    {
      i := i + 1;
    }
    LowestIs(a, c, i, heapEnd, pool);
  }

  /** The search may stop early: past the cutoff no block reaches far enough before the end of the arena. */
  lemma NothingFits(a: Arena, c: Chain, i: nat, n: nat, heapEnd: nat, pool: int)
    requires Linked(a, c, heapEnd, pool) && i <= |c| && (i < |c| ==> c[i].start + HEADER + n > heapEnd)
    requires forall m :: 0 <= m < i ==> !Fits(c[m], n)
    ensures forall m :: 0 <= m < |c| ==> !Fits(c[m], n)
  {
    forall m | i <= m < |c| ensures !Fits(c[m], n) {
      SegmentBounds(c, 0, heapEnd, m);
      if i < m {
        BlocksDisjoint(c, heapEnd, i, m);
        assert c[i].start + HEADER <= c[i].end;
      }
    }
  }

  lemma LowestIs(a: Arena, c: Chain, j: nat, heapEnd: nat, pool: int)
    requires Linked(a, c, heapEnd, pool) && j <= |c| && (forall m :: 0 <= m < j ==> c[m].used) && (j < |c| ==> !c[j].used)
    ensures LowestFree(c, heapEnd) == if j < |c| then c[j].start else heapEnd
  {
    hide Linked, Headers, Segment;
    assert c == c[..j] + c[j..];
    LowestFreeConcat(c[..j], c[j..], heapEnd);
    AllUsed(c[..j], LowestFree(c[j..], heapEnd));
  }

  lemma AfterFacts(a: Arena, c: Chain, i: nat, heapEnd: nat, pool: int)
    requires Linked(a, c, heapEnd, pool) && i < |c|
    ensures c[i].end < heapEnd ==> c[i].end + HEADER <= heapEnd
  {
    AfterBlock(c, i, heapEnd);
  }

  lemma CarveAccount(a: Arena, c: Chain, i: nat, n: nat, heapEnd: nat, pool: int)
    requires Linked(a, c, heapEnd, pool) && Compact(c) && i < |c| && Fits(c[i], n) && n % 4 == 0
    ensures Compact(Carve(c, i, n))
    ensures UsedSpan(Carve(c, i, n)) == UsedSpan(c) + (if Splits(c[i], n) then HEADER + n else c[i].end - c[i].start)
  {
    CarveTiles(c, i, n, heapEnd);
    CarveCompact(c, i, n);
  }

  /** After either form of taking a block the arena holds the carved chain. */
  lemma CarvedArena(a: Arena, b: Arena, c: Chain, i: nat, n: nat, heapEnd: nat, pool: int)
    requires Linked(a, c, heapEnd, pool) && i < |c| && Fits(c[i], n) && n % 4 == 0
    requires c[i].start + HEADER <= c[i].end && c[i].end + HEADER <= |a|
    requires SameOutside(a, b, c[i].start, c[i].end) && b[c[i].start] == pool + 1 && b[c[i].start + 8] == a[c[i].start + 8]
    requires var m, cut, end := c[i].start, c[i].start + HEADER + n, c[i].end;
             if Splits(c[i], n) then
               && b[m + 4] == cut && b[cut] == pool && b[cut + 4] == end && b[cut + 8] == m
               && (end < heapEnd ==> b[end + 8] == cut)
             else
               forall j :: 0 <= j < |a| && !(m <= j < m + 4) ==> a[j] == b[j]
    ensures Linked(b, Carve(c, i, n), heapEnd, pool)
    ensures PayloadsKept(a, b, c, None)
  {
    if Splits(c[i], n) {
      CutBytes(a, b, c, i, n, heapEnd, pool);
    } else {
      MarkBytes(a, b, c, i, true, heapEnd, pool);
      assert Pieces(c[i], n) == [c[i].(used := true)];
    }
    hide SpliceBytes, Splice;
    LinkedSplice(a, b, c, i, 1, Pieces(c[i], n), heapEnd, pool);
    PayloadsOutside(a, b, c, i, 1, heapEnd, None);
  }

  /** The block taken was the lowest free one: everything below it is in use. */
  lemma CarvedFirst(a: Arena, c: Chain, i: nat, n: nat, heapEnd: nat, pool: int)
    requires Linked(a, c, heapEnd, pool) && i < |c| && !c[i].used && LowestFree(c, heapEnd) == c[i].start
    ensures i < |Carve(c, i, n)| && Carve(c, i, n)[i].start == c[i].start
    ensures forall j :: 0 <= j < i ==> Carve(c, i, n)[j].used
  {
    var ps := Pieces(c[i], n);
    SpliceSummaries(c, i, 1, ps, heapEnd);
    assert c[i..i + 1] == [c[i]];
    SummariesOne(c[i], LowestFree(c[i + 1..], heapEnd));
    LeftOfBlock(c, i, heapEnd, c[i].start);
    SpliceAt(c, i, 1, ps, i);
    forall j | 0 <= j < i ensures Carve(c, i, n)[j] == c[j] {
      SpliceAt(c, i, 1, ps, j);
    }
  }

  /** The block taken was a later one: the lowest free block stays. */
  lemma CarvedLater(a: Arena, c: Chain, i: nat, n: nat, heapEnd: nat, pool: int)
    requires Linked(a, c, heapEnd, pool) && i < |c| && !c[i].used && LowestFree(c, heapEnd) != c[i].start
    requires c[i].start + HEADER + n <= c[i].end
    ensures LowestFree(Carve(c, i, n), heapEnd) == LowestFree(c, heapEnd)
  {
    var ps := Pieces(c[i], n);
    var rest := LowestFree(c[i + 1..], heapEnd);
    hide Segment, LowestFree, Splice, Headers;
    RightOfBlock(c, i, heapEnd);
    SpliceSummaries(c, i, 1, ps, heapEnd);
    assert c[i..i + 1] == [c[i]];
    SummariesOne(c[i], rest);
    if Splits(c[i], n) {
      SummariesTwo(ps[0], ps[1], rest);
      assert ps == [ps[0], ps[1]];
    } else {
      SummariesOne(ps[0], rest);
      assert ps == [ps[0]];
    }
    var v := LowestFree(ps, rest);
    LeftOfBlock(c, i, heapEnd, v);
    if LowestFree(c[..i], v) == v {
      AllUsed(c[..i], c[i].start);
    }
  }

  lemma WellFormedNow(a: Arena, c: Chain, heapEnd: nat, pool: int)
    requires Linked(a, c, heapEnd, pool)
    ensures Tiles(c, heapEnd)
  {
  }

  /** Changing the state word of a block leaves every payload alone, in particular the others'. */
  lemma PayloadsExcept(a: Arena, b: Arena, c: Chain, i: nat, heapEnd: nat, pool: int)
    requires Linked(a, c, heapEnd, pool) && i < |c| && SameOutside(a, b, c[i].start, c[i].end)
    ensures PayloadsKept(a, b, c, Some(c[i].start + HEADER))
  {
    PayloadsOutside(a, b, c, i, 1, heapEnd, Some(c[i].start + HEADER));
  }

  lemma FreedKept(a: Arena, b: Arena, e: Arena, c: Chain, i: nat)
    requires i < |c| && PayloadsKept(a, b, c, Some(c[i].start + HEADER))
    requires PayloadsKept(b, e, c[i := c[i].(used := false)], None)
    ensures PayloadsKept(a, e, c, Some(c[i].start + HEADER))
  {
    var d := c[i := c[i].(used := false)];
    forall m, j | 0 <= m < |c| && Protected(c[m], Some(c[i].start + HEADER)) && c[m].start + HEADER <= j < c[m].end && j < |a|
      ensures a[j] == e[j]
    {
      assert d[m] == c[m] && Protected(d[m], None);
    }
  }

  lemma ForwardAt(c: Chain, i: nat)
    requires i < |c| && !c[i].used
    ensures PlugForward(c, i)[i].start == c[i].start && !PlugForward(c, i)[i].used
    ensures OthersKept(c, PlugForward(c, i), None)
  {
    if i + 1 < |c| && !c[i + 1].used {
      SpliceKeeps(c, i, 2, [Block(c[i].start, c[i + 1].end, false)]);
      assert c[i..i + 2] == [c[i], c[i + 1]];
    }
  }

  /** Payloads kept in two steps, when the live blocks of the first chain are in the second. */
  lemma PayloadsTwice(a: Arena, b: Arena, e: Arena, c: Chain, d: Chain, except: Option<nat>)
    requires PayloadsKept(a, b, c, except) && PayloadsKept(b, e, d, except) && OthersKept(c, d, except)
    ensures PayloadsKept(a, e, c, except)
  {
    forall i, j | 0 <= i < |c| && Protected(c[i], except) && c[i].start + HEADER <= j < c[i].end && j < |a|
      ensures a[j] == e[j]
    {
      assert c[i] in c;
      var k :| 0 <= k < |d| && d[k] == c[i];
    }
  }
}
