/** What `sort_list` computes on the sequence of children of an object: a merge sort
    that leaves a strictly increasing list alone and, on equal keys, takes the later half first. */
module KeySort {
  import opened Bytes

  datatype Keyed<+T> = Keyed(key: bytes, value: T)

  /** The key order of a comparison mode, "not after". */
  predicate NotAfter(a: bytes, b: bytes, caseSensitive: bool) {
    CompareStrings(a, b, caseSensitive) <= 0
  }

  predicate Sorted<T>(s: seq<Keyed<T>>, caseSensitive: bool) {
    forall i, j :: 0 <= i < j < |s| ==> NotAfter(s[i].key, s[j].key, caseSensitive)
  }

  /** The test the sort makes before splitting: every neighbour pair strictly increases. */
  predicate StrictRun<T>(s: seq<Keyed<T>>, caseSensitive: bool) {
    forall i :: 0 <= i < |s| - 1 ==> CompareStrings(s[i].key, s[i + 1].key, caseSensitive) < 0
  }

  function Merge<T>(a: seq<Keyed<T>>, b: seq<Keyed<T>>, caseSensitive: bool): (r: seq<Keyed<T>>)
    ensures |r| == |a| + |b|
  {
    if a == [] then b
    else if b == [] then a
    else if CompareStrings(a[0].key, b[0].key, caseSensitive) < 0 then
      [a[0]] + Merge(a[1..], b, caseSensitive)
    else
      [b[0]] + Merge(a, b[1..], caseSensitive)
  }

  function SortSeq<T>(s: seq<Keyed<T>>, caseSensitive: bool): (r: seq<Keyed<T>>)
    ensures |r| == |s|
    decreases |s|
  {
    if |s| <= 1 || StrictRun(s, caseSensitive) then s
    else
      var mid := (|s| + 1) / 2;
      Merge(SortSeq(s[..mid], caseSensitive), SortSeq(s[mid..], caseSensitive), caseSensitive)
  }

  // ----- the sort permutes

  /** Putting the same element in front of one part and of the whole. */
  lemma ConsBoth<T>(x: T, a: seq<T>, b: seq<T>, rest: seq<T>)
    requires multiset(rest) == multiset(a) + multiset(b)
    ensures multiset([x] + rest) == multiset([x] + a) + multiset(b)
  {
  }

  lemma MultisetSplit<T>(s: seq<T>, i: nat)
    requires i <= |s|
    ensures multiset(s) == multiset(s[..i]) + multiset(s[i..])
  {
    assert s == s[..i] + s[i..];
  }

  lemma {:induction false} MergePermutes<T>(a: seq<Keyed<T>>, b: seq<Keyed<T>>, caseSensitive: bool)
    ensures multiset(Merge(a, b, caseSensitive)) == multiset(a) + multiset(b)
  {
    hide CompareStrings;
    if a == [] || b == [] {
    } else if CompareStrings(a[0].key, b[0].key, caseSensitive) < 0 {
      MergePermutes(a[1..], b, caseSensitive);
      ConsBoth(a[0], a[1..], b, Merge(a[1..], b, caseSensitive));
      assert a == [a[0]] + a[1..];
    } else {
      MergePermutes(a, b[1..], caseSensitive);
      ConsBoth(b[0], b[1..], a, Merge(a, b[1..], caseSensitive));
      assert b == [b[0]] + b[1..];
    }
  }

  lemma {:induction false} SortPermutes<T>(s: seq<Keyed<T>>, caseSensitive: bool)
    ensures multiset(SortSeq(s, caseSensitive)) == multiset(s)
    decreases |s|
  {
    hide StrictRun, Merge;
    if |s| <= 1 || StrictRun(s, caseSensitive) {
    } else {
      var mid := (|s| + 1) / 2;
      SortPermutes(s[..mid], caseSensitive);
      SortPermutes(s[mid..], caseSensitive);
      MergePermutes(SortSeq(s[..mid], caseSensitive), SortSeq(s[mid..], caseSensitive), caseSensitive);
      MultisetSplit(s, mid);
    }
  }

  /** A permutation holds the same members. */
  lemma SameMembers<T>(a: seq<T>, b: seq<T>, x: T)
    requires multiset(a) == multiset(b)
    ensures x in a <==> x in b
  {
    assert x in a <==> x in multiset(a);
    assert x in b <==> x in multiset(b);
  }

  /** An element at two places counts twice. */
  lemma {:induction false} MultiplicityTwo<T>(s: seq<T>, i: nat, j: nat)
    requires i < j < |s| && s[i] == s[j]
    ensures multiset(s)[s[i]] >= 2
  {
    assert s == s[..j] + s[j..];
    assert s[..j][i] in multiset(s[..j]);
    assert s[j..][0] in multiset(s[j..]);
  }

  // ----- the sort sorts

  lemma {:induction false} NotAfterTransitive(a: bytes, b: bytes, c: bytes, caseSensitive: bool)
    requires NotAfter(a, b, caseSensitive) && NotAfter(b, c, caseSensitive)
    ensures NotAfter(a, c, caseSensitive)
  {
    StrCmpTransitive(Key(a, caseSensitive), Key(b, caseSensitive), Key(c, caseSensitive));
  }

  lemma {:induction false} NotAfterTotal(a: bytes, b: bytes, caseSensitive: bool)
    ensures CompareStrings(a, b, caseSensitive) < 0 || NotAfter(b, a, caseSensitive)
    ensures CompareStrings(a, b, caseSensitive) < 0 ==> !NotAfter(b, a, caseSensitive)
  {
    StrCmpAntisymmetric(Key(a, caseSensitive), Key(b, caseSensitive));
    StrCmpAntisymmetric(Key(b, caseSensitive), Key(a, caseSensitive));
  }

  ghost predicate LowerBound<T>(k: bytes, s: seq<Keyed<T>>, caseSensitive: bool) {
    forall i :: 0 <= i < |s| ==> NotAfter(k, s[i].key, caseSensitive)
  }

  lemma {:induction false} MergeLowerBound<T>(k: bytes, a: seq<Keyed<T>>, b: seq<Keyed<T>>, caseSensitive: bool)
    requires LowerBound(k, a, caseSensitive) && LowerBound(k, b, caseSensitive)
    ensures LowerBound(k, Merge(a, b, caseSensitive), caseSensitive)
  {
    if a == [] || b == [] {
    } else if CompareStrings(a[0].key, b[0].key, caseSensitive) < 0 {
      MergeLowerBound(k, a[1..], b, caseSensitive);
    } else {
      MergeLowerBound(k, a, b[1..], caseSensitive);
    }
  }

  lemma ConsSorted<T>(x: Keyed<T>, s: seq<Keyed<T>>, caseSensitive: bool)
    requires Sorted(s, caseSensitive) && LowerBound(x.key, s, caseSensitive)
    ensures Sorted([x] + s, caseSensitive)
  {
  }

  lemma HeadBound<T>(k: bytes, s: seq<Keyed<T>>, caseSensitive: bool)
    requires Sorted(s, caseSensitive) && s != [] && NotAfter(k, s[0].key, caseSensitive)
    ensures LowerBound(k, s, caseSensitive)
  {
    forall i | 0 <= i < |s| ensures NotAfter(k, s[i].key, caseSensitive) {
      if i > 0 {
        NotAfterTransitive(k, s[0].key, s[i].key, caseSensitive);
      }
    }
  }

  lemma {:induction false} MergeSorts<T>(a: seq<Keyed<T>>, b: seq<Keyed<T>>, caseSensitive: bool)
    requires Sorted(a, caseSensitive) && Sorted(b, caseSensitive)
    ensures Sorted(Merge(a, b, caseSensitive), caseSensitive)
  {
    if a == [] || b == [] {
    } else {
      NotAfterTotal(a[0].key, b[0].key, caseSensitive);
      if CompareStrings(a[0].key, b[0].key, caseSensitive) < 0 {
        MergeSorts(a[1..], b, caseSensitive);
        HeadBound(a[0].key, b, caseSensitive);
        MergeLowerBound(a[0].key, a[1..], b, caseSensitive);
        ConsSorted(a[0], Merge(a[1..], b, caseSensitive), caseSensitive);
      } else {
        MergeSorts(a, b[1..], caseSensitive);
        HeadBound(b[0].key, a, caseSensitive);
        MergeLowerBound(b[0].key, a, b[1..], caseSensitive);
        ConsSorted(b[0], Merge(a, b[1..], caseSensitive), caseSensitive);
      }
    }
  }

  lemma {:induction false} StrictRunSorted<T>(s: seq<Keyed<T>>, caseSensitive: bool)
    requires StrictRun(s, caseSensitive)
    ensures Sorted(s, caseSensitive)
    decreases |s|
  {
    if |s| > 1 {
      assert StrictRun(s[1..], caseSensitive) by {
        forall i | 0 <= i < |s[1..]| - 1
          ensures CompareStrings(s[1..][i].key, s[1..][i + 1].key, caseSensitive) < 0
        {
          assert CompareStrings(s[i + 1].key, s[i + 1 + 1].key, caseSensitive) < 0;
        }
      }
      StrictRunSorted(s[1..], caseSensitive);
      assert CompareStrings(s[0].key, s[0 + 1].key, caseSensitive) < 0;
      HeadBound(s[0].key, s[1..], caseSensitive);
      ConsSorted(s[0], s[1..], caseSensitive);
      assert s == [s[0]] + s[1..];
    }
  }

  /** The result of the sort never decreases by key, in either comparison mode. */
  lemma {:induction false} SortSorts<T>(s: seq<Keyed<T>>, caseSensitive: bool)
    ensures Sorted(SortSeq(s, caseSensitive), caseSensitive)
    decreases |s|
  {
    if |s| <= 1 {
    } else if StrictRun(s, caseSensitive) {
      StrictRunSorted(s, caseSensitive);
    } else {
      var mid := (|s| + 1) / 2;
      SortSorts(s[..mid], caseSensitive);
      SortSorts(s[mid..], caseSensitive);
      MergeSorts(SortSeq(s[..mid], caseSensitive), SortSeq(s[mid..], caseSensitive), caseSensitive);
    }
  }

  // ----- who comes first and last

  /** Member `k` comes first: not after any earlier member, strictly before any later one. */
  ghost predicate Leads<T>(s: seq<Keyed<T>>, k: int, caseSensitive: bool)
    requires 0 <= k < |s|
  {
    (forall i :: 0 <= i < k ==> NotAfter(s[k].key, s[i].key, caseSensitive)) &&
    (forall i :: k < i < |s| ==> CompareStrings(s[k].key, s[i].key, caseSensitive) < 0)
  }

  /** Member `k` comes last: strictly after any earlier member, not before any later one. */
  ghost predicate Trails<T>(s: seq<Keyed<T>>, k: int, caseSensitive: bool)
    requires 0 <= k < |s|
  {
    (forall i :: 0 <= i < k ==> CompareStrings(s[i].key, s[k].key, caseSensitive) < 0) &&
    (forall i :: k < i < |s| ==> NotAfter(s[i].key, s[k].key, caseSensitive))
  }

  /** The order as a bare relation: strict and weak steps compose. */
  lemma Compose(a: bytes, b: bytes, c: bytes, caseSensitive: bool)
    ensures NotAfter(a, b, caseSensitive) && NotAfter(b, c, caseSensitive) ==> NotAfter(a, c, caseSensitive)
    ensures CompareStrings(a, b, caseSensitive) < 0 && NotAfter(b, c, caseSensitive) ==> CompareStrings(a, c, caseSensitive) < 0
    ensures NotAfter(a, b, caseSensitive) && CompareStrings(b, c, caseSensitive) < 0 ==> CompareStrings(a, c, caseSensitive) < 0
  {
    hide StrCmp;
    NotAfterTotal(a, c, caseSensitive);
    NotAfterTotal(a, b, caseSensitive);
    NotAfterTotal(b, c, caseSensitive);
    if NotAfter(a, b, caseSensitive) && NotAfter(b, c, caseSensitive) {
      NotAfterTransitive(a, b, c, caseSensitive);
      if NotAfter(c, a, caseSensitive) {
        NotAfterTransitive(c, a, b, caseSensitive);
        NotAfterTransitive(b, c, a, caseSensitive);
      }
    }
  }

  lemma {:induction false} MergeLast<T>(a: seq<Keyed<T>>, b: seq<Keyed<T>>, caseSensitive: bool)
    requires Sorted(a, caseSensitive) && Sorted(b, caseSensitive) && a != [] && b != []
    ensures var x, y := a[|a| - 1], b[|b| - 1];
            var r := Merge(a, b, caseSensitive);
            r[|r| - 1] == if NotAfter(y.key, x.key, caseSensitive) then x else y
  {
    hide CompareStrings, StrCmp, Merge, Sorted;
    var x, y := a[|a| - 1], b[|b| - 1];
    NotAfterTotal(a[0].key, b[0].key, caseSensitive);
    NotAfterTotal(x.key, y.key, caseSensitive);
    MergeUnfold(a, b, caseSensitive);
    if CompareStrings(a[0].key, b[0].key, caseSensitive) < 0 {
      if |a| == 1 {
        Weakly(b, caseSensitive);
        Compose(a[0].key, b[0].key, y.key, caseSensitive);
      } else {
        SortedTail(a, caseSensitive);
        MergeLast(a[1..], b, caseSensitive);
      }
    } else {
      if |b| == 1 {
        Weakly(a, caseSensitive);
        Compose(b[0].key, a[0].key, x.key, caseSensitive);
      } else {
        SortedTail(b, caseSensitive);
        MergeLast(a, b[1..], caseSensitive);
      }
    }
  }

  lemma MergeUnfold<T>(a: seq<Keyed<T>>, b: seq<Keyed<T>>, caseSensitive: bool)
    requires a != [] && b != []
    ensures Merge(a, b, caseSensitive)
            == if CompareStrings(a[0].key, b[0].key, caseSensitive) < 0
               then [a[0]] + (if |a| == 1 then b else Merge(a[1..], b, caseSensitive))
               else [b[0]] + (if |b| == 1 then a else Merge(a, b[1..], caseSensitive))
  {
    hide CompareStrings;
    assert |a| == 1 ==> a[1..] == [];
    assert |b| == 1 ==> b[1..] == [];
  }

  lemma SortedTail<T>(s: seq<Keyed<T>>, caseSensitive: bool)
    requires Sorted(s, caseSensitive) && s != []
    ensures Sorted(s[1..], caseSensitive)
  {
  }

  lemma Weakly<T>(s: seq<Keyed<T>>, caseSensitive: bool)
    requires Sorted(s, caseSensitive) && s != []
    ensures NotAfter(s[0].key, s[|s| - 1].key, caseSensitive)
  {
    StrCmpEqual(Key(s[0].key, caseSensitive), Key(s[0].key, caseSensitive));
  }

  /** The sorted list starts with the last of the least members. */
  lemma {:induction false} SortHead<T>(s: seq<Keyed<T>>, caseSensitive: bool) returns (k: int)
    requires s != []
    ensures 0 <= k < |s| && SortSeq(s, caseSensitive)[0] == s[k] && Leads(s, k, caseSensitive)
    decreases |s|
  {
    hide CompareStrings, StrCmp;
    if |s| == 1 {
      k := 0;
    } else if StrictRun(s, caseSensitive) {
      k := 0;
      StrictEnds(s, caseSensitive);
    } else {
      var mid := (|s| + 1) / 2;
      var front, back := s[..mid], s[mid..];
      var i := SortHead(front, caseSensitive);
      var j := SortHead(back, caseSensitive);
      NotAfterTotal(front[i].key, back[j].key, caseSensitive);
      if CompareStrings(front[i].key, back[j].key, caseSensitive) < 0 {
        k := i;
        assert s[k] == front[i];
        LeadsFront(s, mid, i, j, caseSensitive);
      } else {
        k := mid + j;
        assert s[k] == back[j];
        LeadsBack(s, mid, i, j, caseSensitive);
      }
    }
  }

  lemma StrictEnds<T>(s: seq<Keyed<T>>, caseSensitive: bool)
    requires StrictRun(s, caseSensitive) && s != []
    ensures Leads(s, 0, caseSensitive) && Trails(s, |s| - 1, caseSensitive)
    decreases |s|
  {
    hide CompareStrings, StrCmp;
    if |s| > 1 {
      assert StrictRun(s[1..], caseSensitive) by { StrictTail(s, caseSensitive); }
      assert CompareStrings(s[0].key, s[0 + 1].key, caseSensitive) < 0;
      var rest := s[1..];
      StrictEnds(rest, caseSensitive);
      var last := s[|s| - 1];
      assert last == rest[|rest| - 1];
      forall i | 0 < i < |s| ensures CompareStrings(s[0].key, s[i].key, caseSensitive) < 0 {
        assert s[i] == rest[i - 1];
        NotAfterTotal(rest[0].key, s[i].key, caseSensitive);
        Compose(s[0].key, rest[0].key, s[i].key, caseSensitive);
        Reflexive(s[i].key, caseSensitive);
      }
      forall i | 0 <= i < |s| - 1 ensures CompareStrings(s[i].key, last.key, caseSensitive) < 0 {
        if i > 0 {
          assert s[i] == rest[i - 1];
        }
      }
    }
  }

  lemma Reflexive(a: bytes, caseSensitive: bool)
    ensures NotAfter(a, a, caseSensitive) && !(CompareStrings(a, a, caseSensitive) < 0)
  {
    StrCmpEqual(Key(a, caseSensitive), Key(a, caseSensitive));
  }

  lemma StrictTail<T>(s: seq<Keyed<T>>, caseSensitive: bool)
    requires StrictRun(s, caseSensitive) && s != []
    ensures StrictRun(s[1..], caseSensitive)
  {
    hide CompareStrings;
    forall i | 0 <= i < |s[1..]| - 1 ensures CompareStrings(s[1..][i].key, s[1..][i + 1].key, caseSensitive) < 0 {
      assert CompareStrings(s[i + 1].key, s[i + 1 + 1].key, caseSensitive) < 0;
    }
  }

  lemma LeadsFront<T>(s: seq<Keyed<T>>, mid: int, i: int, j: int, caseSensitive: bool)
    requires 0 < mid < |s| && 0 <= i < mid && 0 <= j < |s| - mid
    requires Leads(s[..mid], i, caseSensitive) && Leads(s[mid..], j, caseSensitive)
    requires CompareStrings(s[i].key, s[mid + j].key, caseSensitive) < 0
    ensures Leads(s, i, caseSensitive)
  {
    hide CompareStrings, StrCmp;
    forall m | mid <= m < |s| ensures CompareStrings(s[i].key, s[m].key, caseSensitive) < 0 {
      assert s[m] == s[mid..][m - mid];
      NotAfterTotal(s[mid + j].key, s[m].key, caseSensitive);
      Reflexive(s[m].key, caseSensitive);
      Compose(s[i].key, s[mid + j].key, s[m].key, caseSensitive);
      StrictIsWeak(s[mid + j].key, s[m].key, caseSensitive);
    }
    forall m | 0 <= m < mid ensures s[m] == s[..mid][m] {
    }
  }

  lemma StrictIsWeak(a: bytes, b: bytes, caseSensitive: bool)
    ensures CompareStrings(a, b, caseSensitive) < 0 ==> NotAfter(a, b, caseSensitive)
  {
  }

  lemma LeadsBack<T>(s: seq<Keyed<T>>, mid: int, i: int, j: int, caseSensitive: bool)
    requires 0 < mid < |s| && 0 <= i < mid && 0 <= j < |s| - mid
    requires Leads(s[..mid], i, caseSensitive) && Leads(s[mid..], j, caseSensitive)
    requires NotAfter(s[mid + j].key, s[i].key, caseSensitive)
    ensures Leads(s, mid + j, caseSensitive)
  {
    hide CompareStrings, StrCmp;
    forall m | 0 <= m < mid ensures NotAfter(s[mid + j].key, s[m].key, caseSensitive) {
      assert s[m] == s[..mid][m];
      StrictIsWeak(s[i].key, s[m].key, caseSensitive);
      Reflexive(s[i].key, caseSensitive);
      Compose(s[mid + j].key, s[i].key, s[m].key, caseSensitive);
    }
    forall m | mid <= m < |s| ensures s[m] == s[mid..][m - mid] {
    }
  }

  /** The sorted list ends with the first of the greatest members. */
  lemma {:induction false} SortTail<T>(s: seq<Keyed<T>>, caseSensitive: bool) returns (k: int)
    requires s != []
    ensures 0 <= k < |s| && SortSeq(s, caseSensitive)[|s| - 1] == s[k] && Trails(s, k, caseSensitive)
    decreases |s|
  {
    hide SortSeq, StrictRun, Merge, Sorted, Trails, CompareStrings;
    if |s| <= 1 || StrictRun(s, caseSensitive) {
      k := |s| - 1;
      AlreadySorted(s, caseSensitive);
      StrictEnds(s, caseSensitive);
    } else {
      var mid := (|s| + 1) / 2;
      var front, back := s[..mid], s[mid..];
      SortUnfold(s, mid, caseSensitive);
      var i := SortTail(front, caseSensitive);
      var j := SortTail(back, caseSensitive);
      SortSorts(front, caseSensitive);
      SortSorts(back, caseSensitive);
      k := TailOfHalves(s, mid, SortSeq(front, caseSensitive), SortSeq(back, caseSensitive), i, j, caseSensitive);
    }
  }

  lemma TailOfHalves<T>(s: seq<Keyed<T>>, mid: int, a: seq<Keyed<T>>, b: seq<Keyed<T>>, i: int, j: int, caseSensitive: bool)
    returns (k: int)
    requires 0 < mid < |s| && 0 <= i < mid && 0 <= j < |s| - mid
    requires |a| == mid && |b| == |s| - mid && a[|a| - 1] == s[i] && b[|b| - 1] == s[mid + j]
    requires Sorted(a, caseSensitive) && Sorted(b, caseSensitive)
    requires Trails(s[..mid], i, caseSensitive) && Trails(s[mid..], j, caseSensitive)
    ensures 0 <= k < |s| && Merge(a, b, caseSensitive)[|s| - 1] == s[k] && Trails(s, k, caseSensitive)
  {
    hide Merge, Sorted, Trails, CompareStrings, NotAfter;
    MergeLast(a, b, caseSensitive);
    NotAfterTotal(s[i].key, s[mid + j].key, caseSensitive);
    if NotAfter(s[mid + j].key, s[i].key, caseSensitive) {
      k := i;
      TrailsFront(s, mid, i, j, caseSensitive);
    } else {
      k := mid + j;
      TrailsBack(s, mid, i, j, caseSensitive);
    }
  }

  lemma AlreadySorted<T>(s: seq<Keyed<T>>, caseSensitive: bool)
    requires |s| <= 1 || StrictRun(s, caseSensitive)
    ensures SortSeq(s, caseSensitive) == s && StrictRun(s, caseSensitive)
  {
    hide CompareStrings;
  }

  lemma SortUnfold<T>(s: seq<Keyed<T>>, mid: int, caseSensitive: bool)
    requires |s| > 1 && !StrictRun(s, caseSensitive) && mid == (|s| + 1) / 2
    ensures SortSeq(s, caseSensitive) == Merge(SortSeq(s[..mid], caseSensitive), SortSeq(s[mid..], caseSensitive), caseSensitive)
  {
    hide StrictRun, Merge;
  }

  lemma TrailsFront<T>(s: seq<Keyed<T>>, mid: int, i: int, j: int, caseSensitive: bool)
    requires 0 < mid < |s| && 0 <= i < mid && 0 <= j < |s| - mid
    requires Trails(s[..mid], i, caseSensitive) && Trails(s[mid..], j, caseSensitive)
    requires NotAfter(s[mid + j].key, s[i].key, caseSensitive)
    ensures Trails(s, i, caseSensitive)
  {
    hide CompareStrings, StrCmp;
    forall m | mid <= m < |s| ensures NotAfter(s[m].key, s[i].key, caseSensitive) {
      assert s[m] == s[mid..][m - mid];
      StrictIsWeak(s[m].key, s[mid + j].key, caseSensitive);
      Reflexive(s[m].key, caseSensitive);
      Compose(s[m].key, s[mid + j].key, s[i].key, caseSensitive);
    }
    forall m | 0 <= m < mid ensures s[m] == s[..mid][m] {
    }
  }

  lemma TrailsBack<T>(s: seq<Keyed<T>>, mid: int, i: int, j: int, caseSensitive: bool)
    requires 0 < mid < |s| && 0 <= i < mid && 0 <= j < |s| - mid
    requires Trails(s[..mid], i, caseSensitive) && Trails(s[mid..], j, caseSensitive)
    requires CompareStrings(s[i].key, s[mid + j].key, caseSensitive) < 0
    ensures Trails(s, mid + j, caseSensitive)
  {
    hide CompareStrings, StrCmp;
    forall m | 0 <= m < mid ensures CompareStrings(s[m].key, s[mid + j].key, caseSensitive) < 0 {
      assert s[m] == s[..mid][m];
      StrictIsWeak(s[m].key, s[i].key, caseSensitive);
      Reflexive(s[i].key, caseSensitive);
      Compose(s[m].key, s[i].key, s[mid + j].key, caseSensitive);
    }
    forall m | mid <= m < |s| ensures s[m] == s[mid..][m - mid] {
    }
  }

  /** The first key is strictly least, so that sorting leaves the first member first. */
  ghost predicate FirstIsLeast<T>(s: seq<Keyed<T>>, caseSensitive: bool) {
    forall i :: 0 < i < |s| ==> CompareStrings(s[0].key, s[i].key, caseSensitive) < 0
  }

  /** The last key is strictly greatest, so that sorting leaves the last member last. */
  ghost predicate LastIsGreatest<T>(s: seq<Keyed<T>>, caseSensitive: bool) {
    forall i :: 0 <= i < |s| - 1 ==> CompareStrings(s[i].key, s[|s| - 1].key, caseSensitive) < 0
  }

  /** Among members that are all different, the ends of the list stay the ends exactly when their keys are strictly
      extreme; ties move them, because the later half goes first. */
  lemma EndsStay<T>(s: seq<Keyed<T>>, caseSensitive: bool)
    requires s != [] && forall i, j :: 0 <= i < j < |s| ==> s[i] != s[j]
    ensures SortSeq(s, caseSensitive)[0] == s[0] <==> FirstIsLeast(s, caseSensitive)
    ensures SortSeq(s, caseSensitive)[|s| - 1] == s[|s| - 1] <==> LastIsGreatest(s, caseSensitive)
  {
    hide SortSeq, CompareStrings, StrCmp;
    var h := SortHead(s, caseSensitive);
    var t := SortTail(s, caseSensitive);
    NotAfterTotal(s[0].key, s[h].key, caseSensitive);
    NotAfterTotal(s[t].key, s[|s| - 1].key, caseSensitive);
  }
}
