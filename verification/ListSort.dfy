/** `sort_list` on the linked children themselves: the nodes are relinked in exactly the order `KeySort` describes. */
module ListSort {
  import opened Bytes
  import opened KeySort
  import opened LooseList
  import opened SiblingList

  /** The children as the sequence that `KeySort` sorts. */
  ghost function Keys(s: seq<Node>): (r: seq<Keyed<Node>>)
    ensures |r| == |s| && forall i :: 0 <= i < |s| ==> r[i] == Keyed(s[i].key, s[i])
  {
    seq(|s|, i requires 0 <= i < |s| => Keyed(s[i].key, s[i]))
  }

  ghost function Nodes(s: seq<Node>): set<Node> {
    set n | n in s
  }

  lemma KeysConcat(a: seq<Node>, b: seq<Node>)
    ensures Keys(a + b) == Keys(a) + Keys(b)
  {
  }

  lemma KeysSlice(s: seq<Node>, i: nat, j: nat)
    requires i <= j <= |s|
    ensures Keys(s[i..j]) == Keys(s)[i..j]
  {
  }

  ghost predicate OpenAt(s: seq<Node>, i: int)
    requires 0 <= i < |s|
    reads s
  {
    (i + 1 < |s| ==> s[i].next == s[i + 1]) && (i > 0 ==> s[i].prev == s[i - 1])
  }

  /** Neighbours point to each other; nothing is said of the two ends. */
  ghost predicate Open(s: seq<Node>)
    reads s
  {
    forall i {:trigger OpenAt(s, i)} :: 0 <= i < |s| ==> OpenAt(s, i)
  }

  /** A list that ends in null; the head may point back anywhere. */
  ghost predicate Chain(s: seq<Node>)
    reads s
  {
    Distinct(s) && Open(s) && (s != [] ==> s[|s| - 1].next == null)
  }

  ghost function First(s: seq<Node>): Node? {
    if s == [] then null else s[0]
  }

  lemma OpenSlice(s: seq<Node>, i: nat, j: nat)
    requires Open(s) && i <= j <= |s|
    ensures Open(s[i..j])
  {
    var t := s[i..j];
    forall k | 0 <= k < |t| ensures OpenAt(t, k) {
      assert OpenAt(s, i + k);
    }
  }

  lemma ChainTail(s: seq<Node>)
    requires Chain(s) && s != []
    ensures Chain(s[1..]) && s[0].next == First(s[1..]) && s[0] !in s[1..]
  {
    OpenSlice(s, 1, |s|);
    assert s[1..|s|] == s[1..];
    assert OpenAt(s, 0);
  }

  /** Links the end of one list to the start of another. */
  method Link(p: Node, q: Node, ghost front: seq<Node>, ghost back: seq<Node>)
    requires front != [] && back != [] && front[|front| - 1] == p && back[0] == q
    requires Open(front) && Open(back) && Distinct(front + back)
    modifies p, q
    ensures Open(front + back) && q.next == old(q.next) && p.prev == old(p.prev)
  {
    assert (front + back)[|front| - 1] == p && (front + back)[|front|] == q;
    p.next := q;
    q.prev := p;
    ghost var s := front + back;
    forall i | 0 <= i < |s| ensures OpenAt(s, i) {
      if i < |front| {
        assert old(OpenAt(front, i));
        assert i + 1 < |front| ==> s[i] != p;
      } else {
        assert old(OpenAt(back, i - |front|));
        assert i > |front| ==> s[i] != q && s[i] != p;
      }
    }
  }

  /** Splits a list in front of `second`. */
  method Cut(second: Node, ghost s: seq<Node>, ghost mid: nat)
    requires Chain(s) && 0 < mid < |s| && s[mid] == second
    modifies Nodes(s)
    ensures Chain(s[..mid]) && Chain(s[mid..]) && second.prev == null && s[0].prev == old(s[0].prev)
  {
    assert OpenAt(s, mid);
    second.prev.next := null;
    second.prev := null;
    ghost var a, b := s[..mid], s[mid..];
    forall i | 0 <= i < mid ensures OpenAt(a, i) {
      assert old(OpenAt(s, i));
    }
    forall i | 0 <= i < |b| ensures OpenAt(b, i) {
      assert old(OpenAt(s, mid + i));
    }
  }

  /** Whether every neighbour pair strictly increases, as the sort checks first. */
  method IsStrict(list: Node?, caseSensitive: bool, ghost s: seq<Node>) returns (strict: bool)
    requires Chain(s) && list == First(s)
    ensures strict == StrictRun(Keys(s), caseSensitive)
  {
    hide CompareStrings;
    var current := list;
    ghost var i := 0;
    while current != null && current.next != null && CompareStrings(current.key, current.next.key, caseSensitive) < 0
      invariant 0 <= i <= |s| && (i < |s| ==> current == s[i]) && (i == |s| ==> current == null && s == [])
      invariant forall j :: 0 <= j < i ==> CompareStrings(Keys(s)[j].key, Keys(s)[j + 1].key, caseSensitive) < 0
      decreases |s| - i
    {
      assert OpenAt(s, i);
      current := current.next;
      i := i + 1;
    }
    if i < |s| {
      assert OpenAt(s, i);
    }
    strict := current == null || current.next == null;
    if !strict {
      assert !(CompareStrings(Keys(s)[i].key, Keys(s)[i + 1].key, caseSensitive) < 0);
    }
  }

  /** Two pointers, one at double speed. */
  method Middle(list: Node, ghost s: seq<Node>) returns (second: Node?)
    requires Chain(s) && |s| > 1 && list == s[0]
    ensures second == s[(|s| + 1) / 2]
  {
    second := list;
    var current: Node? := list;
    ghost var k := 0;
    while current != null
      invariant 0 <= k < |s| && second == s[k] && 2 * k <= |s| + 1
      invariant if 2 * k < |s| then current == s[2 * k] else current == null
      decreases |s| + 2 - 2 * k
    {
      assert OpenAt(s, k) && OpenAt(s, 2 * k);
      assert 2 * k + 1 < |s| ==> OpenAt(s, 2 * k + 1);
      second := second.next;
      current := current.next;
      if current != null {
        current := current.next;
      }
      k := k + 1;
    }
  }

  // ----- merging

  /** Three lists share no node. */
  ghost predicate Apart(d: seq<Node>, x: seq<Node>, y: seq<Node>) {
    Distinct(d + x + y)
  }

  lemma ApartParts(d: seq<Node>, x: seq<Node>, y: seq<Node>)
    requires Apart(d, x, y)
    ensures Distinct(d) && Distinct(x) && Distinct(y)
    ensures forall n :: n in d ==> n !in x && n !in y
    ensures forall n :: n in x ==> n !in y
    ensures Distinct(d + x) && Distinct(d + y)
  {
    var s := d + x + y;
    forall n | n in d ensures n !in x && n !in y {
      var i :| 0 <= i < |d| && d[i] == n;
      assert s[i] == n;
      assert forall j :: 0 <= j < |x| ==> s[|d| + j] == x[j];
      assert forall j :: 0 <= j < |y| ==> s[|d| + |x| + j] == y[j];
    }
    forall n | n in x ensures n !in y {
      var i :| 0 <= i < |x| && x[i] == n;
      assert s[|d| + i] == n;
      assert forall j :: 0 <= j < |y| ==> s[|d| + |x| + j] == y[j];
    }
    DistinctPart(s, 0, |d|, d);
    DistinctPart(s, |d|, |d| + |x|, x);
    DistinctPart(s, |d| + |x|, |s|, y);
    DistinctJoin(d, x);
    DistinctJoin(d, y);
  }

  lemma DistinctPart(s: seq<Node>, i: nat, j: nat, t: seq<Node>)
    requires Distinct(s) && i <= j <= |s| && t == s[i..j]
    ensures Distinct(t)
  {
  }

  lemma DistinctJoin(x: seq<Node>, y: seq<Node>)
    requires Distinct(x) && Distinct(y) && forall n :: n in x ==> n !in y
    ensures Distinct(x + y)
  {
    var s := x + y;
    forall i, j | 0 <= i < j < |s| ensures s[i] != s[j] {
      if i < |x| && j >= |x| {
        assert x[i] in x && y[j - |x|] in y;
      }
    }
  }

  /** The head of the second or third list may move to the end of the first. */
  lemma MoveHead(d: seq<Node>, x: seq<Node>, y: seq<Node>)
    requires Apart(d, x, y)
    ensures x != [] ==> Apart(d + [x[0]], x[1..], y)
    ensures y != [] ==> Apart(d + [y[0]], x, y[1..])
  {
    ApartParts(d, x, y);
    if x != [] {
      assert d + x + y == d + [x[0]] + x[1..] + y;
    }
    if y != [] {
      assert Distinct(y[1..]) && y[0] !in y[1..];
      DistinctJoin(d, [y[0]]);
      DistinctJoin(d + [y[0]], x);
      DistinctJoin(d + [y[0]] + x, y[1..]);
    }
  }

  /** One step of the merge on the keys. */
  lemma MergeStep(x: seq<Node>, y: seq<Node>, caseSensitive: bool)
    requires x != [] && y != []
    ensures Merge(Keys(x), Keys(y), caseSensitive)
            == if CompareStrings(x[0].key, y[0].key, caseSensitive) < 0
               then [Keyed(x[0].key, x[0])] + Merge(Keys(x[1..]), Keys(y), caseSensitive)
               else [Keyed(y[0].key, y[0])] + Merge(Keys(x), Keys(y[1..]), caseSensitive)
  {
    hide CompareStrings;
    KeysSlice(x, 1, |x|);
    KeysSlice(y, 1, |y|);
    assert x[1..|x|] == x[1..] && y[1..|y|] == y[1..];
    assert Keys(x)[1..|x|] == Keys(x)[1..] && Keys(y)[1..|y|] == Keys(y)[1..];
  }

  lemma KeysSnoc(d: seq<Node>, n: Node, rest: seq<Keyed<Node>>)
    ensures Keys(d) + ([Keyed(n.key, n)] + rest) == Keys(d + [n]) + rest
  {
    KeysConcat(d, [n]);
    assert Keys([n]) == [Keyed(n.key, n)];
  }

  /** Adds a node behind the merged part, or starts it. */
  method Extend(tail: Node?, node: Node, ghost done: seq<Node>)
    requires Open(done) && Distinct(done + [node]) && tail == (if done == [] then null else done[|done| - 1])
    modifies if tail == null then {} else {tail, node}
    ensures Open(done + [node]) && node.next == old(node.next) && (tail != null ==> tail.prev == old(tail.prev))
  {
    if tail != null {
      Link(tail, node, done, [node]);
    } else {
      assert done + [node] == [node];
    }
  }

  /** Appends the rest of a list behind the merged part. */
  method Finish(tail: Node, rest: Node, ghost done: seq<Node>, ghost x: seq<Node>)
    requires done != [] && x != [] && tail == done[|done| - 1] && rest == x[0]
    requires Open(done) && Chain(x) && Distinct(done + x)
    modifies tail, rest
    ensures Chain(done + x) && tail.prev == old(tail.prev)
  {
    assert (done + x)[|done| - 1] == tail && (done + x)[|done + x| - 1] == x[|x| - 1];
    Link(tail, rest, done, x);
  }

  lemma MergeEnds(x: seq<Node>, y: seq<Node>, caseSensitive: bool)
    requires x == [] || y == []
    ensures Merge(Keys(x), Keys(y), caseSensitive) == Keys(x + y)
  {
    KeysConcat(x, y);
  }

  /** After the loop one list is empty; the other goes behind the merged part. */
  method AttachRest(tail: Node, first: Node?, second: Node?, ghost r: seq<Node>, ghost x: seq<Node>, ghost y: seq<Node>)
    requires Chain(x) && Chain(y) && Open(r) && Apart(r, x, y) && first == First(x) && second == First(y)
    requires r != [] && tail == r[|r| - 1] && (x == [] || y == [])
    requires first != null || second != null
    modifies {tail} + Nodes(x) + Nodes(y)
    ensures Chain(r + (x + y)) && tail.prev == old(tail.prev)
    ensures forall n :: n in r ==> n.prev == old(n.prev)
  {
    hide Chain, Open, Apart, Distinct;
    ApartParts(r, x, y);
    if first != null {
      assert x + y == x && first in x;
      Finish(tail, first, r, x);
    } else {
      assert x + y == y && second in y;
      Finish(tail, second, r, y);
    }
  }

  /** The facts about the smaller head that one turn of the merge loop rests on. */
  lemma MergeTurn(r: seq<Node>, x: seq<Node>, y: seq<Node>, node: Node, restX: seq<Node>, restY: seq<Node>, caseSensitive: bool)
    requires x != [] && y != [] && Apart(r, x, y)
    requires if CompareStrings(x[0].key, y[0].key, caseSensitive) < 0
             then node == x[0] && restX == x[1..] && restY == y
             else node == y[0] && restX == x && restY == y[1..]
    ensures Keys(r) + Merge(Keys(x), Keys(y), caseSensitive) == Keys(r + [node]) + Merge(Keys(restX), Keys(restY), caseSensitive)
    ensures Apart(r + [node], restX, restY) && Distinct(r + [node])
    ensures node !in restX && node !in restY && node !in r
    ensures forall n :: n in r ==> n !in restX && n !in restY
  {
    hide CompareStrings, Merge, Keys, Distinct, Apart;
    MergeStep(x, y, caseSensitive);
    ApartParts(r, x, y);
    assert node in x || node in y;
    MoveHead(r, x, y);
    ApartParts(r + [node], restX, restY);
    assert node in r + [node] && forall n :: n in r ==> n in r + [node];
    KeysSnoc(r, node, Merge(Keys(restX), Keys(restY), caseSensitive));
  }

  /** The merge loop, then the rest of the list that is left. */
  method MergeLists(a0: Node, b0: Node, caseSensitive: bool, ghost a: seq<Node>, ghost b: seq<Node>)
    returns (result: Node?, ghost r: seq<Node>)
    requires a != [] && b != [] && a0 == a[0] && b0 == b[0] && Chain(a) && Chain(b) && Distinct(a + b)
    modifies Nodes(a), Nodes(b)
    ensures Chain(r) && result == First(r) && Keys(r) == Merge(Keys(a), Keys(b), caseSensitive)
    ensures result != null && (result == a0 || result == b0) && result.prev == old(result.prev)
  {
    hide CompareStrings, Merge, Keys, Chain, Open, Apart, Distinct;
    var first: Node?, second: Node?, tail: Node? := a0, b0, null;
    result := null;
    ghost var x, y := a, b;
    r := [];
    ghost var target := Merge(Keys(a), Keys(b), caseSensitive);
    StartMerge(a, b, target);
    ghost var backA, backB := a0.prev, b0.prev;
    while first != null && second != null
      invariant Chain(x) && Chain(y) && Open(r) && Apart(r, x, y)
      invariant first == First(x) && second == First(y) && result == First(r)
      invariant tail == (if r == [] then null else r[|r| - 1]) && (tail != null ==> tail in r)
      invariant Keys(r) + Merge(Keys(x), Keys(y), caseSensitive) == target
      invariant forall n :: n in r || n in x || n in y ==> n in a || n in b
      invariant (x != [] || y != []) && (result == null ==> first == a0 && second == b0)
      invariant (result == null || result == a0 ==> a0.prev == backA) && (result == null || result == b0 ==> b0.prev == backB)
      invariant result == null || ((result == a0 || result == b0) && result in r)
      decreases |x| + |y|
    {
      ChainTail(x);
      ChainTail(y);
      ghost var restX, restY := x, y[1..];
      var smaller := second;
      if CompareStrings(first.key, second.key, caseSensitive) < 0 {
        smaller := first;
        restX, restY := x[1..], y;
      }
      assert smaller in x || smaller in y;
      MergeTurn(r, x, y, smaller, restX, restY, caseSensitive);
      Extend(tail, smaller, r);
      if result == null {
        result := smaller;
      }
      tail := smaller;
      r := r + [smaller];
      if first == smaller {
        first := first.next;
      } else {
        second := second.next;
      }
      x, y := restX, restY;
    }
    MergeEnds(x, y, caseSensitive);
    KeysConcat(r, x + y);
    AttachRest(tail, first, second, r, x, y);
    r := r + (x + y);
  }

  lemma StartMerge(a: seq<Node>, b: seq<Node>, target: seq<Keyed<Node>>)
    requires Distinct(a + b)
    ensures Apart([], a, b) && Open([]) && Keys([]) + target == target
  {
    assert [] + a + b == a + b;
    assert Keys([]) == [];
  }

  lemma KeysMember(s: seq<Node>, n: Node)
    ensures n in s <==> Keyed(n.key, n) in Keys(s)
  {
    if n in s {
      var i :| 0 <= i < |s| && s[i] == n;
      assert Keys(s)[i] == Keyed(n.key, n);
    }
  }

  /** Sorting keeps the set of nodes. */
  lemma SortedNodes(s: seq<Node>, r: seq<Node>, caseSensitive: bool)
    requires Keys(r) == SortSeq(Keys(s), caseSensitive)
    ensures |r| == |s| && forall n :: n in r <==> n in s
  {
    hide SortSeq, Keys;
    SortPermutes(Keys(s), caseSensitive);
    forall n: Node ensures n in r <==> n in s {
      KeysMember(s, n);
      KeysMember(r, n);
      SameMembers(Keys(s), Keys(r), Keyed(n.key, n));
    }
  }

  lemma SortOfSorted(s: seq<Node>, caseSensitive: bool)
    ensures |s| <= 1 || StrictRun(Keys(s), caseSensitive) ==> SortSeq(Keys(s), caseSensitive) == Keys(s)
    ensures |s| > 1 && !StrictRun(Keys(s), caseSensitive) ==>
              var mid := (|s| + 1) / 2;
              SortSeq(Keys(s), caseSensitive)
              == Merge(SortSeq(Keys(s)[..mid], caseSensitive), SortSeq(Keys(s)[mid..], caseSensitive), caseSensitive)
  {
    hide StrictRun, Merge;
  }

  /** `sort_list`: relinks the nodes in the order of the merge sort of their keys. */
  method SortList(list: Node?, caseSensitive: bool, ghost s: seq<Node>) returns (head: Node?, ghost r: seq<Node>)
    requires Chain(s) && list == First(s)
    modifies Nodes(s)
    ensures Chain(r) && head == First(r) && Keys(r) == SortSeq(Keys(s), caseSensitive)
    ensures head != null ==> head.prev == if head == list then old(list.prev) else null
    decreases |s|, 1
  {
    hide StrictRun, Merge, Keys, Chain, Distinct, SortSeq;
    SortOfSorted(s, caseSensitive);
    Ends(s);
    if list == null || list.next == null {
      return list, s;
    }
    var strict := IsStrict(list, caseSensitive, s);
    if strict {
      return list, s;
    }
    ghost var mid := (|s| + 1) / 2;
    var second := Middle(list, s);
    Cut(second, s, mid);
    SplitParts(s, mid);
    head, r := SortHalves(list, second, caseSensitive, s[..mid], s[mid..]);
  }

  /** The two recursive calls and the merge. */
  method SortHalves(list: Node, second: Node, caseSensitive: bool, ghost front: seq<Node>, ghost back: seq<Node>)
    returns (head: Node?, ghost r: seq<Node>)
    requires front != [] && back != [] && list == front[0] && second == back[0]
    requires Chain(front) && Chain(back) && Distinct(front + back) && second.prev == null
    modifies Nodes(front), Nodes(back)
    ensures Chain(r) && head == First(r)
    ensures Keys(r) == Merge(SortSeq(Keys(front), caseSensitive), SortSeq(Keys(back), caseSensitive), caseSensitive)
    ensures head != null && head.prev == if head == list then old(list.prev) else null
    decreases |front| + |back|, 0
  {
    hide Merge, Keys, Chain, Distinct, SortSeq, Apart;
    StartMerge(front, back, []);
    ApartParts([], front, back);
    assert forall n :: n in back ==> n !in front;
    var first, sortedFront := SortList(list, caseSensitive, front);
    SortedNodes(front, sortedFront, caseSensitive);
    assert forall n :: n in sortedFront ==> n in front && n !in back;
    var other, sortedBack := SortList(second, caseSensitive, back);
    SortedNodes(back, sortedBack, caseSensitive);
    assert forall n :: n in sortedBack ==> n in back && n !in sortedFront;
    ChainDistinct(sortedFront);
    ChainDistinct(sortedBack);
    DistinctJoin(sortedFront, sortedBack);
    head, r := MergeLists(first, other, caseSensitive, sortedFront, sortedBack);
  }

  lemma ChainDistinct(s: seq<Node>)
    requires Chain(s)
    ensures Distinct(s)
  {
  }

  lemma Ends(s: seq<Node>)
    requires Chain(s)
    ensures Distinct(s) && (s != [] ==> (s[0].next == null <==> |s| == 1))
  {
    if s != [] {
      assert OpenAt(s, 0);
    }
  }

  lemma SplitParts(s: seq<Node>, mid: nat)
    requires Distinct(s) && mid <= |s|
    ensures s[..mid] + s[mid..] == s && Keys(s[..mid]) == Keys(s)[..mid] && Keys(s[mid..]) == Keys(s)[mid..]
  {
    KeysSlice(s, 0, mid);
    KeysSlice(s, mid, |s|);
    assert s[0..mid] == s[..mid] && s[mid..|s|] == s[mid..];
    assert Keys(s)[0..mid] == Keys(s)[..mid] && Keys(s)[mid..|s|] == Keys(s)[mid..];
  }

  // ----- the pointer of the head

  ghost function IndexIn(s: seq<Node>, p: Node): (k: nat)
    requires p in s
    ensures k < |s| && s[k] == p
  {
    if s[0] == p then 0 else 1 + IndexIn(s[1..], p)
  }

  /** Where a pointer in the head of a list leads. */
  ghost function BackOf(s: seq<Node>, p: Node?): Back {
    if s == [] then Tail else if p == null then Lost else if p in s then PointTo(|s|, IndexIn(s, p)) else Gone
  }

  ghost function HeadBack(s: seq<Node>): Back
    reads s
  {
    if s == [] then Tail else BackOf(s, s[0].prev)
  }

  lemma IndexUnique(s: seq<Node>, k: nat)
    requires Distinct(s) && k < |s|
    ensures IndexIn(s, s[k]) == k && BackOf(s, s[k]) == PointTo(|s|, k)
  {
  }

  /** `sort_object` on children whose head may point back anywhere: the same nodes in the order of the sort, and where
      the new head points back to. */
  method SortLoose(parent: Container, caseSensitive: bool, ghost s: seq<Node>) returns (ghost r: seq<Node>)
    requires Chain(s) && parent.child == First(s)
    modifies parent, Nodes(s)
    ensures Chain(r) && parent.child == First(r) && Keys(r) == SortSeq(Keys(s), caseSensitive) && |r| == |s|
    ensures var o := Order(Keys(s), caseSensitive); forall i :: 0 <= i < |s| ==> o[i] < |s| && r[i] == s[o[i]]
    ensures HeadBack(r) == SortBack(Order(Keys(s), caseSensitive), old(HeadBack(s)))
  {
    hide SortSeq, Keys, Chain;
    ChainDistinct(s);
    ghost var p: Node? := if s == [] then null else s[0].prev;
    parent.child, r := SortList(parent.child, caseSensitive, s);
    ghost var o := Order(Keys(s), caseSensitive);
    OrderSorts(Keys(s), caseSensitive);
    ChainDistinct(r);
    forall i | 0 <= i < |s| ensures r[i] == s[o[i]] {
      assert Keys(r)[i] == Keys(s)[o[i]];
    }
    if s != [] {
      MovedPointer(s, r, o, p);
    }
  }

  /** A node that was child `k` is found where the order puts child `k`. */
  lemma MovedPointer(s: seq<Node>, r: seq<Node>, o: seq<nat>, p: Node?)
    requires s != [] && |r| == |s| == |o| && Distinct(s) && Distinct(r)
    requires forall i :: 0 <= i < |s| ==> o[i] < |s| && r[i] == s[o[i]]
    requires forall k :: 0 <= k < |s| ==> Place(o, k) < |s|
    ensures r[0] == s[0] <==> o[0] == 0
    ensures BackOf(r, if r[0] == s[0] then p else null) == SortBack(o, BackOf(s, p))
  {
    forall n | n in r ensures n in s {
      var j :| 0 <= j < |r| && r[j] == n;
      assert s[o[j]] == n;
    }
    if p != null && p in s {
      var k := IndexIn(s, p);
      assert r[Place(o, k)] == p;
      IndexUnique(r, Place(o, k));
    }
  }

  /** `sort_object`: the children stay the same nodes and come in order, but the head's pointer back to the tail
      survives exactly when the first key is strictly least and the last key strictly greatest beforehand. */
  method SortObject(parent: Container, caseSensitive: bool) returns (ghost r: seq<Node>)
    requires parent.Valid()
    modifies parent, Nodes(parent.items)
    ensures Chain(r) && parent.child == First(r) && Keys(r) == SortSeq(Keys(old(parent.items)), caseSensitive)
    ensures multiset(Keys(r)) == multiset(Keys(old(parent.items))) && Sorted(Keys(r), caseSensitive)
    ensures |r| == |old(parent.items)| && forall n :: n in r <==> n in old(parent.items)
    ensures var s := old(parent.items);
            r != [] ==> (Linked(r) <==> FirstIsLeast(Keys(s), caseSensitive) && LastIsGreatest(Keys(s), caseSensitive))
    ensures var s := old(parent.items);
            r != [] ==> (r[0].prev == null <==> !FirstIsLeast(Keys(s), caseSensitive))
    ensures HeadBack(r) == SortBack(Order(Keys(old(parent.items)), caseSensitive), Tail)
  {
    hide SortSeq, Sorted, FirstIsLeast, LastIsGreatest, Keys, Linked, Chain, Distinct, SortBack, Order;
    ghost var s := parent.items;
    LinkedIsChain(s);
    LinkedBack(s);
    r := SortLoose(parent, caseSensitive, s);
    SortPermutes(Keys(s), caseSensitive);
    SortSorts(Keys(s), caseSensitive);
    SortedNodes(s, r, caseSensitive);
    if r != [] {
      ClosedWhen(r);
      LinkedWhen(r);
      BackAfterSort(Keys(s), caseSensitive);
    }
  }

  lemma LinkedBack(s: seq<Node>)
    requires Distinct(s) && Linked(s)
    ensures HeadBack(s) == Tail
  {
    if s != [] {
      assert LinkedAt(s, 0);
      IndexUnique(s, |s| - 1);
    }
  }

  lemma LinkedWhen(r: seq<Node>)
    requires Chain(r) && r != []
    ensures HeadBack(r) == Tail <==> r[0].prev == r[|r| - 1]
    ensures HeadBack(r) == Lost <==> r[0].prev == null
  {
    IndexUnique(r, |r| - 1);
  }

  // ----- taking out and appending, wherever the head points

  /** `cJSON_DetachItemViaPointer` on children whose head may point back anywhere. */
  method DetachLoose(parent: Container, item: Node, ghost s: seq<Node>, ghost k: nat) returns (ghost r: seq<Node>)
    requires Chain(s) && parent.child == First(s) && k < |s| && s[k] == item
    modifies parent, Nodes(s)
    ensures r == s[..k] + s[k + 1..] && Chain(r) && parent.child == First(r)
    ensures item.next == null && item.prev == null
    ensures HeadBack(r) == DetachBack(|s|, k, old(HeadBack(s)))
  {
    r := s[..k] + s[k + 1..];
    ghost var p := s[0].prev;
    assert OpenAt(s, k);
    assert k > 0 ==> OpenAt(s, k - 1);
    if item != parent.child {
      item.prev.next := item.next;
    }
    if item.next != null {
      item.next.prev := item.prev;
    }
    if item == parent.child {
      parent.child := item.next;
    } else if item.next == null {
      parent.child.prev := item.prev;
    }
    item.prev := null;
    item.next := null;
    forall i | 0 <= i < |r| ensures OpenAt(r, i) {
      assert old(OpenAt(s, if i < k then i else i + 1));
    }
    if r != [] {
      assert r[0].prev == if k == |s| - 1 then s[k - 1] else p;
      RemainingPointer(s, r, k, p);
    }
  }

  lemma RemainingPointer(s: seq<Node>, r: seq<Node>, k: nat, p: Node?)
    requires Distinct(s) && |s| > 1 && k < |s| && r == s[..k] + s[k + 1..]
    ensures BackOf(r, if k == |s| - 1 then s[k - 1] else p) == DetachBack(|s|, k, BackOf(s, p))
  {
    assert Distinct(r);
    if k == |s| - 1 {
      assert r[k - 1] == s[k - 1];
      IndexUnique(r, k - 1);
    } else if p != null && p in s {
      var i := IndexIn(s, p);
      if i != k {
        assert r[if i < k then i else i - 1] == p;
        IndexUnique(r, if i < k then i else i - 1);
      } else {
        assert p !in r;
      }
    }
  }

  /** `add_item_to_array`: without a back pointer nothing is linked at all, and with a stale one everything behind it
      is cut off. */
  method AddItem(parent: Container, item: Node, ghost r: seq<Node>) returns (ghost after: seq<Node>)
    requires Chain(r) && parent.child == First(r) && item !in r && item.next == null && !HeadBack(r).Gone?
    modifies parent, item, Nodes(r)
    ensures Chain(after) && parent.child == First(after)
    ensures after == AppendTo(r, old(HeadBack(r)), item) && HeadBack(after) == AppendBack(|r|, old(HeadBack(r)))
  {
    var child := parent.child;
    if child == null {
      parent.child := item;
      item.prev := item;
      item.next := null;
      after := [item];
    } else if child.prev != null {
      ghost var j := IndexIn(r, child.prev);
      ghost var kept := r[..j + 1];
      OpenSlice(r, 0, j + 1);
      assert r[0..j + 1] == kept;
      DistinctPart(r, 0, j + 1, kept);
      DistinctJoin(kept, [item]);
      after := kept + [item];
      Link(child.prev, item, kept, [item]);
      label linked:
      child.prev := item;
      forall i | 0 <= i < |after| ensures OpenAt(after, i) {
        assert old@linked(OpenAt(after, i));
        assert i > 0 ==> after[i] != after[0];
      }
      assert r[..|r|] == r;
      IndexUnique(after, |after| - 1);
    } else {
      after := r;
    }
  }

  lemma LinkedIsChain(s: seq<Node>)
    requires Distinct(s) && Linked(s)
    ensures Chain(s) && (s != [] ==> s[0].prev == s[|s| - 1])
  {
    forall i | 0 <= i < |s| ensures OpenAt(s, i) {
      assert LinkedAt(s, i);
    }
    if s != [] {
      assert LinkedAt(s, 0) && LinkedAt(s, |s| - 1);
    }
  }

  lemma ClosedWhen(r: seq<Node>)
    requires Chain(r) && r != []
    ensures Linked(r) <==> r[0].prev == r[|r| - 1]
  {
    if r[0].prev == r[|r| - 1] {
      forall i | 0 <= i < |r| ensures LinkedAt(r, i) {
        assert OpenAt(r, i);
      }
    } else {
      assert !LinkedAt(r, 0);
    }
  }

  /** The list after an append to sorted children: the item arrives behind all of them exactly when the first key was
      strictly least and the last strictly greatest before the sort. With the first key not least it is lost, although
      the append reports success; with only the last key not greatest it replaces what now follows the old tail. */
  method SortThenAppend(parent: Container, caseSensitive: bool, item: Node) returns (ghost r: seq<Node>, ghost after: seq<Node>)
    requires parent.Valid() && item !in parent.items && item.next == null
    modifies parent, item, Nodes(parent.items)
    ensures Keys(r) == SortSeq(Keys(old(parent.items)), caseSensitive)
    ensures Chain(after) && parent.child == First(after)
    ensures var s := Keys(old(parent.items));
            after == r + [item] <==> s == [] || (FirstIsLeast(s, caseSensitive) && LastIsGreatest(s, caseSensitive))
    ensures var s := Keys(old(parent.items));
            item !in after <==> s != [] && !FirstIsLeast(s, caseSensitive)
    ensures var s := Keys(old(parent.items));
            s != [] && FirstIsLeast(s, caseSensitive) && !LastIsGreatest(s, caseSensitive) ==>
              |after| <= |r| && after[..|after| - 1] == r[..|after| - 1] && after[|after| - 1] == item
  {
    hide FirstIsLeast, LastIsGreatest, SortSeq, Sorted, SortBack, Order, Linked, Chain;
    ghost var s := parent.items;
    r := SortObject(parent, caseSensitive);
    if s != [] {
      BackAfterSort(Keys(s), caseSensitive);
    }
    ghost var back := HeadBack(r);
    after := AddItem(parent, item, r);
    AppendShapes(r, back, item);
  }

  lemma AppendShapes(r: seq<Node>, back: Back, item: Node)
    requires item !in r && (back.Stale? ==> back.k + 1 < |r|) && !back.Gone?
    ensures var after := AppendTo(r, back, item);
            (after == r + [item] <==> r == [] || back == Tail) && (item !in after <==> r != [] && back == Lost) &&
            (r != [] && back.Stale? ==>
               |after| <= |r| && after[..|after| - 1] == r[..|after| - 1] && after[|after| - 1] == item)
  {
    var after := AppendTo(r, back, item);
    if r == [] || !back.Lost? {
      assert after[|after| - 1] == item;
      assert r == [] ==> r + [item] == [item];
    }
  }
}
