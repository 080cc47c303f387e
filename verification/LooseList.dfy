/** Lists of children as cJSON keeps them: the children in order, and where the head's back pointer leads. Only while it
    leads to the tail does the next append find the end of the list. */
module LooseList {
  import opened Bytes
  import opened KeySort

  /** The head points back to the tail, to nothing, to an earlier child, or to one that has left the list. */
  datatype Back = Tail | Lost | Stale(k: nat) | Gone

  /** The pointer to child `k` of `n`. */
  function PointTo(n: nat, k: nat): Back {
    if k + 1 == n then Tail else Stale(k)
  }

  // ----- sorting

  function Tags<T>(s: seq<Keyed<T>>): (r: seq<Keyed<nat>>)
    ensures |r| == |s|
  {
    seq(|s|, i requires 0 <= i < |s| => Keyed(s[i].key, i))
  }

  /** Which child comes where when the list is sorted. */
  function Order<T>(s: seq<Keyed<T>>, caseSensitive: bool): (r: seq<nat>)
    ensures |r| == |s|
  {
    var t := SortSeq(Tags(s), caseSensitive);
    seq(|t|, i requires 0 <= i < |t| => t[i].value)
  }

  /** Where a child comes to stand, or the length of the list. */
  function Place(order: seq<nat>, k: nat): (j: nat)
    ensures j <= |order| && (j < |order| ==> order[j] == k)
    ensures forall i :: 0 <= i < j ==> order[i] != k
  {
    if order == [] || order[0] == k then 0 else 1 + Place(order[1..], k)
  }

  /** `sort_list` leaves the pointer in the old head alone and clears it in every other child that becomes the head. */
  function SortBack(order: seq<nat>, back: Back): Back {
    if order == [] then back
    else if order[0] != 0 then Lost
    else
      match back
      case Tail => PointTo(|order|, Place(order, |order| - 1))
      case Stale(k) => PointTo(|order|, Place(order, k))
      case _ => back
  }

  // ----- taking out and appending

  /** `cJSON_DetachItemViaPointer` on child `i` of `n`: taking out the last child mends the pointer. */
  function DetachBack(n: nat, i: nat, back: Back): Back
    requires i < n
  {
    if i == n - 1 then Tail
    else
      match back
      case Stale(k) => if k == i then Gone else if k > i then Stale(k - 1) else back
      case _ => back
  }

  /** `add_item_to_array`: behind the child the pointer leads to, which cuts off the rest, or not at all. */
  function AppendTo<T>(s: seq<T>, back: Back, x: T): seq<T> {
    if s == [] then [x]
    else
      match back
      case Tail => s + [x]
      case Stale(k) => if k < |s| then s[..k + 1] + [x] else s
      case _ => s
  }

  function AppendBack(n: nat, back: Back): Back {
    if n > 0 && back.Lost? then Lost else Tail
  }

  // ----- the sorted list and its order

  function Relabel<S, T>(f: S -> T, s: seq<Keyed<S>>): (r: seq<Keyed<T>>)
    ensures |r| == |s|
  {
    seq(|s|, i requires 0 <= i < |s| => Keyed(s[i].key, f(s[i].value)))
  }

  lemma RelabelConcat<S, T>(f: S -> T, a: seq<Keyed<S>>, b: seq<Keyed<S>>)
    ensures Relabel(f, a + b) == Relabel(f, a) + Relabel(f, b)
  {
  }

  lemma {:induction false} MergeRelabel<S, T>(f: S -> T, a: seq<Keyed<S>>, b: seq<Keyed<S>>, caseSensitive: bool)
    ensures Merge(Relabel(f, a), Relabel(f, b), caseSensitive) == Relabel(f, Merge(a, b, caseSensitive))
  {
    hide CompareStrings;
    if a == [] || b == [] {
    } else {
      var front := CompareStrings(a[0].key, b[0].key, caseSensitive) < 0;
      var x, rest := if front then a[0] else b[0],
                     if front then Merge(a[1..], b, caseSensitive) else Merge(a, b[1..], caseSensitive);
      RelabelConcat(f, [x], rest);
      if front {
        MergeRelabel(f, a[1..], b, caseSensitive);
        assert Relabel(f, a)[1..] == Relabel(f, a[1..]);
      } else {
        MergeRelabel(f, a, b[1..], caseSensitive);
        assert Relabel(f, b)[1..] == Relabel(f, b[1..]);
      }
    }
  }

  /** Lists with the same keys are in the same order. */
  lemma OnlyKeysCount<S, T>(a: seq<Keyed<S>>, b: seq<Keyed<T>>, caseSensitive: bool)
    requires |a| == |b| && forall i :: 0 <= i < |a| ==> a[i].key == b[i].key
    ensures StrictRun(a, caseSensitive) <==> StrictRun(b, caseSensitive)
    ensures FirstIsLeast(a, caseSensitive) <==> FirstIsLeast(b, caseSensitive)
    ensures LastIsGreatest(a, caseSensitive) <==> LastIsGreatest(b, caseSensitive)
  {
    hide CompareStrings;
    NoOrderLost(a, b, caseSensitive);
    NoOrderLost(b, a, caseSensitive);
  }

  lemma NoOrderLost<S, T>(a: seq<Keyed<S>>, b: seq<Keyed<T>>, caseSensitive: bool)
    requires |a| == |b| && forall i :: 0 <= i < |a| ==> a[i].key == b[i].key
    ensures StrictRun(a, caseSensitive) ==> StrictRun(b, caseSensitive)
    ensures FirstIsLeast(a, caseSensitive) ==> FirstIsLeast(b, caseSensitive)
    ensures LastIsGreatest(a, caseSensitive) ==> LastIsGreatest(b, caseSensitive)
  {
    hide CompareStrings;
    if StrictRun(a, caseSensitive) {
      forall i | 0 <= i < |b| - 1 ensures CompareStrings(b[i].key, b[i + 1].key, caseSensitive) < 0 {
        assert CompareStrings(a[i].key, a[i + 1].key, caseSensitive) < 0;
      }
    }
  }

  /** The sort looks at the keys only. */
  lemma {:induction false} SortRelabel<S, T>(f: S -> T, s: seq<Keyed<S>>, caseSensitive: bool)
    ensures SortSeq(Relabel(f, s), caseSensitive) == Relabel(f, SortSeq(s, caseSensitive))
    decreases |s|
  {
    hide CompareStrings, Merge, SortSeq;
    var r := Relabel(f, s);
    OnlyKeysCount(r, s, caseSensitive);
    if |s| <= 1 || StrictRun(s, caseSensitive) {
      AlreadySorted(s, caseSensitive);
      AlreadySorted(r, caseSensitive);
    } else {
      var mid := (|s| + 1) / 2;
      SortUnfold(s, mid, caseSensitive);
      SortUnfold(r, mid, caseSensitive);
      assert r[..mid] == Relabel(f, s[..mid]) && r[mid..] == Relabel(f, s[mid..]);
      SortRelabel(f, s[..mid], caseSensitive);
      SortRelabel(f, s[mid..], caseSensitive);
      MergeRelabel(f, SortSeq(s[..mid], caseSensitive), SortSeq(s[mid..], caseSensitive), caseSensitive);
    }
  }

  /** The order is a permutation of the positions, and the sorted list is the list in that order. */
  lemma OrderSorts<T>(s: seq<Keyed<T>>, caseSensitive: bool)
    ensures var o := Order(s, caseSensitive);
            (forall i :: 0 <= i < |s| ==> o[i] < |s| && SortSeq(s, caseSensitive)[i] == s[o[i]]) &&
            (forall k :: 0 <= k < |s| ==> Place(o, k) < |s|)
  {
    hide SortSeq;
    var o, tags := Order(s, caseSensitive), Tags(s);
    var sorted := SortSeq(tags, caseSensitive);
    SortPermutes(tags, caseSensitive);
    forall i | 0 <= i < |s| ensures o[i] < |s| && sorted[i] == tags[o[i]] {
      SameMembers(sorted, tags, sorted[i]);
    }
    forall k | 0 <= k < |s| ensures Place(o, k) < |s| {
      SameMembers(sorted, tags, tags[k]);
      var i :| 0 <= i < |s| && sorted[i] == tags[k];
      assert o[i] == k;
    }
    if s != [] {
      var f := (i: nat) => if i < |s| then s[i].value else s[0].value;
      assert Relabel(f, tags) == s;
      SortRelabel(f, tags, caseSensitive);
    }
  }

  /** After a sort the pointer still leads to the tail exactly when the first key was strictly least and the last
      strictly greatest, and it is lost exactly when the first key was not strictly least. */
  lemma BackAfterSort<T>(s: seq<Keyed<T>>, caseSensitive: bool)
    requires s != []
    ensures var back := SortBack(Order(s, caseSensitive), Tail);
            (back == Tail <==> FirstIsLeast(s, caseSensitive) && LastIsGreatest(s, caseSensitive)) &&
            (back == Lost <==> !FirstIsLeast(s, caseSensitive)) && !back.Gone? && (back.Stale? ==> back.k + 1 < |s|)
  {
    hide SortSeq, CompareStrings;
    var tags, o := Tags(s), Order(s, caseSensitive);
    OrderSorts(s, caseSensitive);
    EndsStay(tags, caseSensitive);
    SortPermutes(tags, caseSensitive);
    var sorted := SortSeq(tags, caseSensitive);
    SameMembers(sorted, tags, sorted[0]);
    SameMembers(sorted, tags, sorted[|s| - 1]);
    OnlyKeysCount(tags, s, caseSensitive);
    hide FirstIsLeast, LastIsGreatest;
    assert sorted[0] == tags[0] <==> o[0] == 0;
    assert sorted[|s| - 1] == tags[|s| - 1] <==> o[|s| - 1] == |s| - 1;
    OrderDistinct(s, caseSensitive);
    assert Place(o, |s| - 1) == |s| - 1 <==> o[|s| - 1] == |s| - 1;
  }

  /** No position comes twice. */
  lemma OrderDistinct<T>(s: seq<Keyed<T>>, caseSensitive: bool)
    ensures var o := Order(s, caseSensitive); forall i, j :: 0 <= i < j < |s| ==> o[i] != o[j]
  {
    hide SortSeq;
    var o, tags := Order(s, caseSensitive), Tags(s);
    var sorted := SortSeq(tags, caseSensitive);
    SortPermutes(tags, caseSensitive);
    forall i, j | 0 <= i < j < |s| ensures o[i] != o[j] {
      if o[i] == o[j] {
        SameMembers(sorted, tags, sorted[i]);
        SameMembers(sorted, tags, sorted[j]);
        OnlyOnce(tags, sorted[i]);
        MultiplicityTwo(sorted, i, j);
      }
    }
  }

  lemma {:induction false} OnlyOnce<T>(s: seq<T>, x: T)
    requires forall i, j :: 0 <= i < j < |s| ==> s[i] != s[j]
    ensures multiset(s)[x] <= 1
    decreases |s|
  {
    if s != [] {
      OnlyOnce(s[1..], x);
      assert s == [s[0]] + s[1..];
    }
  }
}
