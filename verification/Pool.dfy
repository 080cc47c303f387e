/** The fixed-block memory pool with waiting threads: every interrupt-disabled region is one atomic step. */
module PoolModel {
  type Thread = nat

  /** What the steps of all threads act on: the free list, the blocks handed out, the suspend list from its head,
      the threads woken by a free or by their timer that have not run since, and the time each waiter has left. */
  datatype State = State(free: seq<nat>, held: set<nat>, suspended: seq<Thread>, resumed: set<Thread>,
                         expired: set<Thread>, left: map<Thread, int>)

  datatype Event = Alloc(thread: Thread, time: int)
                 | Free(block: nat)
                 | Expire(thread: Thread)
                 | Rerun(thread: Thread, elapsed: nat)

  datatype Outcome = Took(block: nat) | Failed | Blocked | Done

  /** The loop condition of `rt_mp_alloc` and what follows it, in one interrupt-disabled region. */
  function Enter(s: State, t: Thread, time: int): (State, Outcome) {
    if s.free == [] then
      if time == 0 then (s, Failed)
      else (s.(suspended := [t] + s.suspended, left := s.left[t := time]), Blocked)
    else (s.(free := s.free[1..], held := s.held + {s.free[0]}), Took(s.free[0]))
  }

  /** The time left after a sleep; a negative time waits for ever. */
  function Remaining(time: int, elapsed: nat): int {
    if time <= 0 then time else if time < elapsed then 0 else time - elapsed
  }

  /** Which steps can happen: a thread is in one place, only held blocks are freed, only a timed waiter times out. */
  predicate Legal(s: State, e: Event) {
    match e
    case Alloc(t, _) => t !in s.suspended && t !in s.resumed && t !in s.expired
    case Free(b) => b in s.held
    case Expire(t) => t in s.suspended && t in s.left && s.left[t] > 0
    case Rerun(t, _) => (t in s.resumed && t in s.left) || t in s.expired
  }

  function Without(list: seq<Thread>, t: Thread): seq<Thread> {
    if list == [] then [] else if list[0] == t then list[1..] else [list[0]] + Without(list[1..], t)
  }

  function Step(s: State, e: Event): (State, Outcome)
    requires Legal(s, e)
  {
    match e
    case Alloc(t, time) => Enter(s, t, time)
    case Free(b) =>
      var freed := s.(free := [b] + s.free, held := s.held - {b});
      if s.suspended == [] then (freed, Done)
      else (freed.(suspended := s.suspended[1..], resumed := s.resumed + {s.suspended[0]}), Done)
    case Expire(t) => (s.(suspended := Without(s.suspended, t), expired := s.expired + {t}), Done)
    case Rerun(t, elapsed) =>
      if t in s.expired then (s.(expired := s.expired - {t}), Failed)
      else Enter(s.(resumed := s.resumed - {t}), t, Remaining(s.left[t], elapsed))
  }

  // ----- the invariant

  ghost predicate Distinct(s: seq<nat>) {
    forall i, j :: 0 <= i < j < |s| ==> s[i] != s[j]
  }

  /** Every block is free once or held, and nothing else is. */
  ghost predicate Conserved(total: nat, s: State) {
    Distinct(s.free) && (forall b :: b in s.free ==> b !in s.held) && (forall b :: (b in s.free || b in s.held) <==> 0 <= b < total)
  }

  /** A thread is in at most one place, and a waiter knows its time. */
  ghost predicate Placed(s: State) {
    Distinct(s.suspended) && s.resumed !! s.expired &&
    (forall t :: t in s.suspended ==> t !in s.resumed && t !in s.expired) &&
    (forall t :: t in s.suspended || t in s.resumed ==> t in s.left)
  }

  /** No lost wakeup: while a thread waits, every free block is spoken for by a thread already woken. */
  ghost predicate Awake(s: State) {
    s.suspended != [] ==> |s.free| <= |s.resumed|
  }

  ghost predicate Inv(total: nat, s: State) {
    Conserved(total, s) && Placed(s) && Awake(s)
  }

  lemma EnterKeeps(total: nat, s: State, t: Thread, time: int)
    requires Conserved(total, s) && Placed(s) && t !in s.suspended && t !in s.resumed && t !in s.expired
    requires s.suspended != [] ==> |s.free| <= |s.resumed| + 1
    ensures Inv(total, Enter(s, t, time).0)
  {
    if s.free == [] {
      if time != 0 {
        var u := Enter(s, t, time).0;
        assert u.suspended[0] == t && u.suspended[1..] == s.suspended;
      }
    } else {
      assert s.free == [s.free[0]] + s.free[1..];
    }
  }

  lemma {:induction false} WithoutIs(list: seq<Thread>, t: Thread)
    requires Distinct(list) && t in list
    ensures var w := Without(list, t);
            Distinct(w) && t !in w && |w| + 1 == |list| && forall u :: u in list <==> u in w || u == t
  {
    assert list == [list[0]] + list[1..];
    assert Distinct(list[1..]) && list[0] !in list[1..];
    if list[0] != t {
      WithoutIs(list[1..], t);
    }
  }

  /** A thread whose timer fires leaves the list, and the others keep their order. */
  lemma {:induction false} WithoutOne(list: seq<Thread>, t: Thread) returns (i: nat)
    requires t in list
    ensures i < |list| && list[i] == t && Without(list, t) == list[..i] + list[i + 1..]
  {
    if list[0] == t {
      i := 0;
    } else {
      assert list == [list[0]] + list[1..];
      var k := WithoutOne(list[1..], t);
      i := k + 1;
      assert list[1..][..k] == list[1..i] && list[1..][k + 1..] == list[i + 1..];
    }
  }

  lemma StepKeeps(total: nat, s: State, e: Event)
    requires Inv(total, s) && Legal(s, e)
    ensures Inv(total, Step(s, e).0)
  {
    match e {
      case Alloc(t, time) => EnterKeeps(total, s, t, time);
      case Free(b) => FreeKeeps(total, s, b);
      case Expire(t) => WithoutIs(s.suspended, t);
      case Rerun(t, elapsed) =>
        if t !in s.expired {
          EnterKeeps(total, s.(resumed := s.resumed - {t}), t, Remaining(s.left[t], elapsed));
        }
    }
  }

  lemma FreeKeeps(total: nat, s: State, b: nat)
    requires Inv(total, s) && b in s.held
    ensures Inv(total, Step(s, Free(b)).0)
  {
    FreeConserves(total, s, b);
    FreePlaces(s, b);
  }

  lemma FreeConserves(total: nat, s: State, b: nat)
    requires Conserved(total, s) && b in s.held
    ensures Conserved(total, Step(s, Free(b)).0)
  {
    var u := Step(s, Free(b)).0;
    assert u.free[0] == b && u.free[1..] == s.free;
  }

  lemma FreePlaces(s: State, b: nat)
    requires Placed(s) && Awake(s) && b in s.held
    ensures Placed(Step(s, Free(b)).0) && Awake(Step(s, Free(b)).0)
  {
    var u := Step(s, Free(b)).0;
    if s.suspended != [] {
      assert s.suspended == [s.suspended[0]] + u.suspended;
      assert s.suspended[0] in s.suspended && s.suspended[0] !in u.suspended;
    }
  }

  // ----- every interleaving

  predicate LegalRun(s: State, events: seq<Event>)
    decreases |events|
  {
    events == [] || (Legal(s, events[0]) && LegalRun(Step(s, events[0]).0, events[1..]))
  }

  function Run(s: State, events: seq<Event>): State
    requires LegalRun(s, events)
    decreases |events|
  {
    if events == [] then s else Run(Step(s, events[0]).0, events[1..])
  }

  /** A fresh pool of `total` blocks, linked in address order. */
  function Fresh(total: nat): State {
    State(seq(total, i => i), {}, [], {}, {}, map[])
  }

  lemma FreshHolds(total: nat)
    ensures Inv(total, Fresh(total))
  {
    var s := Fresh(total);
    forall b | 0 <= b < total ensures b in s.free {
      assert s.free[b] == b;
    }
  }

  lemma {:induction false} RunKeeps(total: nat, s: State, events: seq<Event>)
    requires Inv(total, s) && LegalRun(s, events)
    ensures Inv(total, Run(s, events))
    decreases |events|
  {
    hide Inv, Step;
    if events != [] {
      StepKeeps(total, s, events[0]);
      RunKeeps(total, Step(s, events[0]).0, events[1..]);
    }
  }

  /** Over every interleaving of a pool's life: blocks are conserved, none is free and held at once, and no wakeup
      is lost; in particular nothing is free while threads wait and every woken thread has run. */
  lemma PoolIsSafe(total: nat, events: seq<Event>)
    requires LegalRun(Fresh(total), events)
    ensures var s := Run(Fresh(total), events);
            Inv(total, s) && |s.free| + |s.held| == total && (s.suspended != [] && s.resumed == {} ==> s.free == [])
  {
    FreshHolds(total);
    RunKeeps(total, Fresh(total), events);
    Counted(total, Run(Fresh(total), events));
  }

  lemma {:induction false} Numbers(total: nat, all: set<nat>)
    requires forall b :: b in all <==> 0 <= b < total
    ensures |all| == total
  {
    if total > 0 {
      assert total - 1 in all;
      Numbers(total - 1, all - {total - 1});
    } else {
      assert all == {};
    }
  }

  ghost function SetOf(s: seq<nat>): set<nat> {
    if s == [] then {} else {s[0]} + SetOf(s[1..])
  }

  lemma {:induction false} DistinctSize(s: seq<nat>)
    requires Distinct(s)
    ensures |SetOf(s)| == |s| && forall b :: b in SetOf(s) <==> b in s
  {
    if s != [] {
      DistinctSize(s[1..]);
      assert s == [s[0]] + s[1..];
    }
  }

  lemma Counted(total: nat, s: State)
    requires Conserved(total, s)
    ensures |s.free| + |s.held| == total
  {
    DistinctSize(s.free);
    Numbers(total, SetOf(s.free) + s.held);
    assert SetOf(s.free) !! s.held;
  }

  /** A held block is not handed out again before it is freed, whatever the other threads do. */
  lemma {:induction false} HeldIsExclusive(total: nat, s: State, events: seq<Event>, b: nat, k: nat)
    requires Inv(total, s) && LegalRun(s, events) && b in s.held && k < |events|
    requires forall i :: 0 <= i < k ==> events[i] != Free(b)
    ensures LegalRun(s, events[..k])
    ensures Legal(Run(s, events[..k]), events[k]) && Step(Run(s, events[..k]), events[k]).1 != Took(b)
    decreases |events|
  {
    StepKeeps(total, s, events[0]);
    var next := Step(s, events[0]).0;
    if k == 0 {
      assert events[..0] == [];
      NotGranted(total, s, events[0], b);
    } else {
      assert events[0] != Free(b);
      assert forall i :: 0 <= i < k - 1 ==> events[1..][i] == events[i + 1];
      HeldIsExclusive(total, next, events[1..], b, k - 1);
      assert events[..k][0] == events[0] && events[..k][1..] == events[1..][..k - 1];
    }
  }

  // ----- what each call answers

  /** An allocation takes a block exactly when one is free. With none free it fails exactly when it may not wait, and
      otherwise the thread is suspended; a block that is taken is the one freed last. */
  lemma AllocAnswers(s: State, t: Thread, time: int)
    requires Legal(s, Alloc(t, time))
    ensures var (u, o) := Step(s, Alloc(t, time));
            (o.Took? <==> s.free != []) && (o.Failed? <==> s.free == [] && time == 0) &&
            (o.Blocked? <==> s.free == [] && time != 0) && (o.Blocked? <==> t in u.suspended) &&
            (o.Took? ==> o.block == s.free[0] && o.block in u.held) && (o.Failed? ==> u == s)
  {
  }

  /** With nobody waiting, freeing a block and allocating again gives that block and the old state back. */
  lemma FreeThenAlloc(total: nat, s: State, b: nat, t: Thread, time: int)
    requires Inv(total, s) && s.suspended == [] && Legal(s, Free(b)) && Legal(s, Alloc(t, time))
    ensures LegalRun(s, [Free(b), Alloc(t, time)])
    ensures Step(Step(s, Free(b)).0, Alloc(t, time)) == (s, Took(b))
  {
    var u := Step(s, Free(b)).0;
    assert [Free(b), Alloc(t, time)][1..] == [Alloc(t, time)] && [Alloc(t, time)][1..] == [];
    assert ([b] + s.free)[1..] == s.free && s.held - {b} + {b} == s.held;
  }

  /** The thread suspended last is woken first, and takes the block whose freeing woke it unless another thread gets in
      between. */
  lemma LastInFirstServed(s: State, t: Thread, time: int, b: nat, elapsed: nat)
    requires s.free == [] && time != 0 && Legal(s, Alloc(t, time)) && b in s.held
    ensures var waiting := Step(s, Alloc(t, time)).0;
            Legal(waiting, Free(b)) && var freed := Step(waiting, Free(b)).0;
            Legal(freed, Rerun(t, elapsed)) && freed.suspended == s.suspended && freed.resumed == s.resumed + {t} &&
            Step(freed, Rerun(t, elapsed)) == (s.(left := s.left[t := time]), Took(b))
  {
    var waiting := Step(s, Alloc(t, time)).0;
    assert waiting.suspended[0] == t && waiting.suspended[1..] == s.suspended;
    var freed := Step(waiting, Free(b)).0;
    assert freed.free == [b] && freed.free[1..] == s.free;
    assert s.resumed + {t} - {t} == s.resumed && s.held - {b} + {b} == s.held;
  }

  // ----- how long a thread waits

  /** Inside `rt_mp_alloc`, suspended or woken by a free. */
  predicate Waits(s: State, t: Thread) {
    (t in s.suspended || t in s.resumed) && t in s.left
  }

  lemma {:induction false} OthersStay(list: seq<Thread>, t: Thread, u: Thread)
    requires u in list && u != t
    ensures u in Without(list, t)
  {
    if list[0] != t && u != list[0] {
      OthersStay(list[1..], t, u);
    }
  }

  /** One step for a waiting thread: it waits on with its time reduced by what it has slept, or it leaves with a block,
      or its timer fires, or its time is used up and no block is free. */
  lemma WaitStep(total: nat, s: State, e: Event, t: Thread)
    requires Inv(total, s) && Legal(s, e) && Waits(s, t)
    ensures var (u, o) := Step(s, e);
            var slept := if e.Rerun? && e.thread == t then e.elapsed else 0;
            || (Waits(u, t) && u.left[t] == if s.left[t] < 0 then s.left[t] else s.left[t] - slept)
            || (e.Rerun? && e.thread == t && o.Took?)
            || (e == Expire(t) && s.left[t] > 0)
            || (e.Rerun? && e.thread == t && o.Failed? && 0 <= s.left[t] <= slept && s.free == [])
  {
    var u := Step(s, e).0;
    match e {
      case Alloc(r, _) =>
        assert r != t;
        assert t in s.suspended ==> t in [r] + s.suspended;
      case Free(b) =>
        if t in s.suspended && s.suspended[0] != t {
          assert s.suspended == [s.suspended[0]] + s.suspended[1..];
        }
      case Expire(r) =>
        if r != t && t in s.suspended {
          OthersStay(s.suspended, r, t);
        }
      case Rerun(r, _) =>
        assert t in s.suspended ==> t in [r] + s.suspended;
    }
  }

  /** A thread that waits for ever only ever leaves with a block, whatever the other threads do. */
  lemma {:induction false} WaitsForever(total: nat, s: State, events: seq<Event>, t: Thread) returns (k: nat)
    requires Inv(total, s) && LegalRun(s, events) && Waits(s, t) && s.left[t] < 0
    ensures k <= |events| && LegalRun(s, events[..k])
    ensures var u := Run(s, events[..k]);
            Waits(u, t) && u.left[t] < 0 &&
            (k < |events| ==> Legal(u, events[k]) && events[k].Rerun? && events[k].thread == t && Step(u, events[k]).1.Took?)
    decreases |events|
  {
    if events == [] {
      k := 0;
      assert events[..0] == [];
    } else {
      var e := events[0];
      var (u, o) := Step(s, e);
      WaitStep(total, s, e, t);
      StepKeeps(total, s, e);
      if e.Rerun? && e.thread == t && o.Took? {
        k := 0;
        assert events[..0] == [];
      } else {
        k := WaitsForever(total, u, events[1..], t);
        assert events[..k + 1][0] == e && events[..k + 1][1..] == events[1..][..k];
        k := k + 1;
      }
    }
  }

  /** The time a thread has slept in the events of a run. */
  function Slept(events: seq<Event>, t: Thread): nat
    decreases |events|
  {
    if events == [] then 0
    else (if events[0].Rerun? && events[0].thread == t then events[0].elapsed else 0) + Slept(events[1..], t)
  }

  /** The thread waits before and after every step. */
  ghost predicate KeepsWaiting(s: State, events: seq<Event>, t: Thread)
    requires LegalRun(s, events)
    decreases |events|
  {
    Waits(s, t) && (events == [] || KeepsWaiting(Step(s, events[0]).0, events[1..], t))
  }

  /** While a thread with a timeout waits, what it has slept and what is left add up to the time it asked for. */
  lemma {:induction false} TimeAddsUp(total: nat, s: State, events: seq<Event>, t: Thread)
    requires Inv(total, s) && LegalRun(s, events) && KeepsWaiting(s, events, t) && s.left[t] > 0
    ensures var u := Run(s, events); Waits(u, t) && u.left[t] > 0 && u.left[t] + Slept(events, t) == s.left[t]
    decreases |events|
  {
    if events != [] {
      WaitStep(total, s, events[0], t);
      StepKeeps(total, s, events[0]);
      StillTimed(total, s, events[0], t);
      TimeAddsUp(total, Step(s, events[0]).0, events[1..], t);
    }
  }

  lemma StillTimed(total: nat, s: State, e: Event, t: Thread)
    requires Inv(total, s) && Legal(s, e) && Waits(s, t) && Waits(Step(s, e).0, t) && s.left[t] > 0
    ensures Step(s, e).0.left[t] > 0
    ensures Step(s, e).0.left[t] == s.left[t] - if e.Rerun? && e.thread == t then e.elapsed else 0
  {
    if e == Expire(t) {
      WithoutIs(s.suspended, t);
    }
  }

  lemma NotGranted(total: nat, s: State, e: Event, b: nat)
    requires Inv(total, s) && Legal(s, e) && b in s.held
    ensures Step(s, e).1 != Took(b)
  {
  }
}

/** The pool as the kernel keeps it: a header word per block links the free ones and marks the others as owned. */
module Pool {
  import opened PoolModel
  import HeapChain

  /** The word in front of a block: the next free block, null, or the pool that owns it. */
  datatype Word = Null | Block(index: nat) | Owner

  const POINTER_SIZE := 4

  function AlignDown(size: nat): nat {
    size / 4 * 4
  }

  /** How many blocks `rt_mp_init` makes of an area. */
  function BlockCount(size: nat, blockSize: nat): nat {
    AlignDown(size) / (HeapChain.Align(blockSize) + POINTER_SIZE)
  }

  function BlockStart(i: nat, blockSize: nat): nat {
    i * (HeapChain.Align(blockSize) + POINTER_SIZE)
  }

  /** Every block of an area at `start` lies inside it, is as large as asked, ends before the next one starts, and has
      an aligned address exactly when the area has. */
  lemma BlocksFit(start: nat, size: nat, blockSize: nat, i: nat)
    requires i < BlockCount(size, blockSize) && 0 < blockSize <= HeapChain.WORD - 4
    ensures BlockStart(i, blockSize) + POINTER_SIZE + blockSize <= BlockStart(i + 1, blockSize) <= size
    ensures (start + BlockStart(i, blockSize)) % 4 == 0 <==> start % 4 == 0
  {
    HeapChain.AlignFacts(blockSize);
    hide HeapChain.Align;
    var unit := HeapChain.Align(blockSize) + POINTER_SIZE;
    assert unit % 4 == 0;
    hide HeapChain.Rounded;
    UnitsFit(AlignDown(size), unit, i);
    Multiple(i, unit);
    SameRest(start, i * unit);
  }

  /** No further block would fit. */
  lemma NoFurtherBlock(size: nat, blockSize: nat)
    requires 0 < blockSize <= HeapChain.WORD - 4
    ensures BlockStart(BlockCount(size, blockSize), blockSize) <= AlignDown(size) < BlockStart(BlockCount(size, blockSize) + 1, blockSize)
    ensures AlignDown(size) <= size < AlignDown(size) + 4 && AlignDown(size) % 4 == 0
  {
    hide HeapChain.Align, HeapChain.Rounded;
    var unit := HeapChain.Align(blockSize) + POINTER_SIZE;
    var n := AlignDown(size) / unit;
    assert n * unit + AlignDown(size) % unit == AlignDown(size);
    assert (n + 1) * unit == n * unit + unit;
  }

  /** The loop of `rt_mp_init` ends with a store into the last block: it falls inside the area exactly when the area,
      rounded down, holds one block with its header word. */
  lemma LastStoreInside(size: nat, blockSize: nat)
    ensures var unit := HeapChain.Align(blockSize) + POINTER_SIZE;
            var at := (BlockCount(size, blockSize) - 1) * unit;
            (0 <= at && at + POINTER_SIZE <= size) <==> unit <= AlignDown(size)
  {
    hide HeapChain.Align;
    var unit := HeapChain.Align(blockSize) + POINTER_SIZE;
    var count := BlockCount(size, blockSize);
    if unit <= AlignDown(size) {
      assert AlignDown(size) / unit >= 1;
      UnitsFit(AlignDown(size), unit, count - 1);
    } else {
      assert count == 0;
    }
  }

  lemma UnitsFit(size: nat, unit: nat, i: nat)
    requires unit > 0 && i < size / unit
    ensures i * unit + unit == (i + 1) * unit <= size
  {
    Below(i + 1, size / unit, unit);
    assert size / unit * unit <= size;
  }

  lemma SameRest(start: nat, offset: nat)
    requires offset % 4 == 0
    ensures (start + offset) % 4 == start % 4
  {
  }

  lemma Below(a: nat, b: nat, unit: nat)
    requires a <= b
    ensures a * unit <= b * unit
  {
  }

  lemma Multiple(i: nat, unit: nat)
    requires unit % 4 == 0
    ensures (i * unit) % 4 == 0
  {
    assert i * unit == 4 * (i * (unit / 4));
  }

  /** The free list as the header words hold it, from `first` on. */
  ghost predicate Threaded(headers: seq<Word>, first: Word, free: seq<nat>) {
    first == (if free == [] then Null else Block(free[0])) &&
    forall i :: 0 <= i < |free| ==> free[i] < |headers| && headers[free[i]] == NextWord(free, i)
  }

  lemma AllThreaded(words: seq<Word>)
    requires words != [] && (forall i :: 0 <= i < |words| - 1 ==> words[i] == Block(i + 1)) && words[|words| - 1] == Null
    ensures Threaded(words, Block(0), seq(|words|, i => i))
  {
  }

  ghost function NextWord(free: seq<nat>, i: nat): Word {
    if i + 1 < |free| then Block(free[i + 1]) else Null
  }

  class Mempool {
    const total: nat
    const headers: array<Word>
    var blockList: Word
    var freeCount: nat
    var suspendThread: seq<Thread>
    // kept in the threads themselves
    var resumed: set<Thread>
    var expired: set<Thread>
    var left: map<Thread, int>
    ghost var free: seq<nat>
    ghost var held: set<nat>

    ghost function Abs(): State
      reads this
    {
      State(free, held, suspendThread, resumed, expired, left)
    }

    /** The counter and the header words agree with the free list. */
    ghost predicate Stored()
      reads this, headers
    {
      headers.Length == total && freeCount == |free| && Threaded(headers[..], blockList, free) &&
      forall b :: b in held ==> b < total && headers[b] == Owner
    }

    ghost predicate Valid()
      reads this, headers
    {
      Stored() && Inv(total, Abs())
    }

    /** `rt_mp_init` on an area that holds at least one block. */
    constructor (size: nat, blockSize: nat)
      requires BlockCount(size, blockSize) > 0
      ensures Valid() && total == BlockCount(size, blockSize) && Abs() == Fresh(total)
    {
      hide BlockCount, Inv, Threaded;
      var count := BlockCount(size, blockSize);
      var words := new Word[count];
      total := count;
      headers := words;
      freeCount := count;
      suspendThread, resumed, expired, left := [], {}, {}, map[];
      free := seq(count, i => i);
      held := {};
      blockList := Block(0);
      var offset := 0;
      while offset < count
        invariant 0 <= offset <= count
        invariant forall i :: 0 <= i < offset ==> words[i] == Block(i + 1)
      {
        words[offset] := Block(offset + 1);
        offset := offset + 1;
      }
      words[offset - 1] := Null;
      AllThreaded(words[..]);
      FreshHolds(count);
    }

    /** The region of `rt_mp_alloc` with interrupts disabled: take the first free block, give up, or suspend. */
    method EnterRegion(t: Thread, time: int) returns (o: Outcome)
      requires Stored() && Conserved(total, Abs())
      modifies this, headers
      ensures Stored()
      ensures (Abs(), o) == Enter(old(Abs()), t, time)
    {
      if freeCount == 0 {
        if time == 0 {
          return Failed;
        }
        suspendThread := [t] + suspendThread;
        left := left[t := time];
        return Blocked;
      }
      freeCount := freeCount - 1;
      var b := blockList.index;
      assert b == free[0];
      blockList := headers[b];
      headers[b] := Owner;
      free := free[1..];
      held := held + {b};
      o := Took(b);
    }

    /** A running thread calls `rt_mp_alloc`. */
    method Alloc(t: Thread, time: int) returns (o: Outcome)
      requires Valid() && Legal(Abs(), Event.Alloc(t, time))
      modifies this, headers
      ensures Valid() && (Abs(), o) == Step(old(Abs()), Event.Alloc(t, time))
    {
      hide Inv;
      InvParts(total, Abs());
      StepKeeps(total, Abs(), Event.Alloc(t, time));
      o := EnterRegion(t, time);
    }

    /** Links a block in front of the free list. */
    method PushBlock(b: nat)
      requires Stored() && b in held && b !in free
      modifies this`freeCount, this`blockList, this`free, this`held, headers
      ensures Stored() && free == [b] + old(free) && held == old(held) - {b}
    {
      freeCount := freeCount + 1;
      headers[b] := blockList;
      blockList := Block(b);
      free := [b] + free;
      held := held - {b};
    }

    /** `rt_mp_free`: the block goes to the front of the free list, and the thread suspended last is woken. */
    method Free(b: nat)
      requires Valid() && Legal(Abs(), Event.Free(b))
      modifies this, headers
      ensures Valid() && Abs() == Step(old(Abs()), Event.Free(b)).0
    {
      hide Inv, Threaded;
      InvParts(total, Abs());
      StepKeeps(total, Abs(), Event.Free(b));
      PushBlock(b);
      if suspendThread != [] {
        resumed := resumed + {suspendThread[0]};
        suspendThread := suspendThread[1..];
      }
    }

    /** The timer of a waiting thread fires. */
    method Expire(t: Thread)
      requires Valid() && Legal(Abs(), Event.Expire(t))
      modifies this
      ensures Valid() && Abs() == Step(old(Abs()), Event.Expire(t)).0
    {
      hide Inv;
      StepKeeps(total, Abs(), Event.Expire(t));
      suspendThread := Without(suspendThread, t);
      expired := expired + {t};
    }

    /** A woken thread returns from the scheduler inside `rt_mp_alloc`. */
    method Rerun(t: Thread, elapsed: nat) returns (o: Outcome)
      requires Valid() && Legal(Abs(), Event.Rerun(t, elapsed))
      modifies this, headers
      ensures Valid() && (Abs(), o) == Step(old(Abs()), Event.Rerun(t, elapsed))
    {
      hide Inv;
      InvParts(total, Abs());
      StepKeeps(total, Abs(), Event.Rerun(t, elapsed));
      if t in expired {
        expired := expired - {t};
        return Failed;
      }
      var time := left[t];
      if time > 0 {
        time := time - elapsed;
        if time < 0 {
          time := 0;
        }
      }
      resumed := resumed - {t};
      o := EnterRegion(t, time);
    }
  }

  lemma InvParts(total: nat, s: State)
    requires Inv(total, s)
    ensures Conserved(total, s)
  {
  }

  /** A pool that any number of threads use in any interleaving stays well formed and does what the transition
      system says. */
  method Perform(pool: Mempool, events: seq<Event>)
    requires pool.Valid() && LegalRun(pool.Abs(), events)
    modifies pool, pool.headers
    ensures pool.Valid() && pool.Abs() == Run(old(pool.Abs()), events)
  {
    hide Step, Legal, Mempool.Valid, Mempool.Abs;
    var i := 0;
    assert events[0..] == events;
    while i < |events|
      invariant 0 <= i <= |events| && pool.Valid() && LegalRun(pool.Abs(), events[i..])
      invariant Run(pool.Abs(), events[i..]) == Run(old(pool.Abs()), events)
    {
      assert events[i..][1..] == events[i + 1..];
      match events[i] {
        case Alloc(t, time) => var _ := pool.Alloc(t, time);
        case Free(b) => pool.Free(b);
        case Expire(t) => pool.Expire(t);
        case Rerun(t, elapsed) => var _ := pool.Rerun(t, elapsed);
      }
      i := i + 1;
    }
  }
}
