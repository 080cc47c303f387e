/** `compare_json`: it sorts the members of both objects and walks them side by side. */
module JsonCompare {
  import opened Bytes
  import opened KeySort
  import opened JsonTree

  // ----- numbers

  /** `valueint` as the parser and the setters derive it from `valuedouble`: truncation with saturation. */
  function ValueInt(d: real): int {
    if d >= INT_MAX as real then INT_MAX
    else if d <= INT_MIN as real then INT_MIN
    else if d >= 0.0 then d.Floor
    else -(-d).Floor
  }

  function Abs(d: real): real {
    if d < 0.0 then -d else d
  }

  const DBL_EPSILON := 1.0 / 4503599627370496.0

  /** `compare_double`: equality up to a relative error of DBL_EPSILON. */
  predicate CompareDouble(a: real, b: real) {
    var most := if Abs(a) > Abs(b) then Abs(a) else Abs(b);
    Abs(a - b) <= most * DBL_EPSILON
  }

  predicate SameNumber(a: real, b: real) {
    ValueInt(a) == ValueInt(b) && CompareDouble(a, b)
  }

  /** On ints the tolerance never blurs two values. */
  lemma SameNumberExact(a: real, b: real)
    requires IntRange(a) && IntRange(b)
    ensures SameNumber(a, b) <==> a == b
  {
    assert ValueInt(a) == a.Floor && ValueInt(b) == b.Floor by {
      assert (-a).Floor == -a.Floor && (-b).Floor == -b.Floor;
    }
    var most := if Abs(a) > Abs(b) then Abs(a) else Abs(b);
    assert a == b ==> 0.0 <= most * DBL_EPSILON;
  }

  /** `valueint` drops the fraction, and stops at the two ends of the int range. */
  lemma ValueIntTruncates(d: real)
    ensures INT_MIN as real < d < INT_MAX as real ==>
              Abs(ValueInt(d) as real) <= Abs(d) < Abs(ValueInt(d) as real) + 1.0 &&
              (ValueInt(d) > 0 ==> d > 0.0) && (ValueInt(d) < 0 ==> d < 0.0)
    ensures d >= INT_MAX as real ==> ValueInt(d) == 2147483647
    ensures d <= INT_MIN as real ==> ValueInt(d) == -2147483648
  {
  }

  /** Neither half of the comparison can be left out: close numbers may have different ints, and far ones the same. */
  lemma BothHalvesCount()
    ensures var near := 3.0 - 1.0 / 4503599627370496.0; CompareDouble(3.0, near) && !SameNumber(3.0, near)
    ensures ValueInt(0.25) == ValueInt(0.5) && !SameNumber(0.25, 0.5)
  {
    var near := 3.0 - 1.0 / 4503599627370496.0;
    assert near.Floor == 2;
  }

  // ----- trees

  /** Every value in the list sits strictly inside `bound`. */
  ghost predicate Within(members: seq<Member>, bound: Json) {
    forall m :: m in members ==> m.value < bound
  }

  lemma SortWithin(members: seq<Member>, caseSensitive: bool)
    ensures Within(SortSeq(members, caseSensitive), Object(members))
  {
    var s := SortSeq(members, caseSensitive);
    SortPermutes(members, caseSensitive);
    forall m | m in s ensures m.value < Object(members) {
      SameMembers(s, members, m);
      var i :| 0 <= i < |members| && members[i] == m;
      assert members[i].value < Object(members);
    }
  }

  predicate CompareJson(a: Json, b: Json, caseSensitive: bool)
    decreases a, 1
  {
    match (a, b)
    case (Invalid, Invalid) => true
    case (Null, Null) => true
    case (False, False) => true
    case (True, True) => true
    case (Number(x), Number(y)) => SameNumber(x, y)
    case (String(x), String(y)) => x == y
    case (Array(x), Array(y)) =>
      |x| == |y| && forall i :: 0 <= i < |x| ==> CompareJson(x[i], y[i], caseSensitive)
    case (Object(x), Object(y)) =>
      SortWithin(x, caseSensitive);
      CompareMembers(SortSeq(x, caseSensitive), SortSeq(y, caseSensitive), caseSensitive, a)
    case (_, _) => false
  }

  predicate CompareMembers(xs: seq<Member>, ys: seq<Member>, caseSensitive: bool, ghost bound: Json)
    requires Within(xs, bound)
    decreases bound, 0, |xs|
  {
    if xs == [] || ys == [] then
      xs == [] && ys == []
    else
      && CompareStrings(xs[0].key, ys[0].key, caseSensitive) == 0
      && CompareJson(xs[0].value, ys[0].value, caseSensitive)
      && CompareMembers(xs[1..], ys[1..], caseSensitive, bound)
  }

  /** The comparison decides equality up to member order. */
  lemma {:induction false} CompareDecidesEquality(a: Json, b: Json, caseSensitive: bool, keys: iset<bytes>)
    requires Tidy(a, keys) && Tidy(b, keys)
    requires caseSensitive || FoldInjective(keys)
    ensures CompareJson(a, b, caseSensitive) <==> Denote(a) == Denote(b)
    decreases a, 1
  {
    match (a, b) {
      case (Number(x), Number(y)) =>
        SameNumberExact(x, y);
      case (Array(x), Array(y)) =>
        if |x| == |y| {
          forall i | 0 <= i < |x|
            ensures CompareJson(x[i], y[i], caseSensitive) <==> Denote(x[i]) == Denote(y[i])
          {
            CompareDecidesEquality(x[i], y[i], caseSensitive, keys);
          }
          if Denote(a) == Denote(b) {
            forall i | 0 <= i < |x| ensures Denote(x[i]) == Denote(y[i]) {
              assert DenoteItems(x)[i] == DenoteItems(y)[i];
            }
          } else {
            assert exists i :: 0 <= i < |x| && DenoteItems(x)[i] != DenoteItems(y)[i];
          }
        } else {
          assert |DenoteItems(x)| != |DenoteItems(y)|;
        }
      case (Object(x), Object(y)) =>
        SortWithin(x, caseSensitive);
        SortMembers(x, caseSensitive, keys);
        SortMembers(y, caseSensitive, keys);
        CompareMembersDecides(SortSeq(x, caseSensitive), SortSeq(y, caseSensitive), caseSensitive, keys, a);
      case (_, _) =>
    }
  }

  lemma {:induction false} CompareMembersDecides(xs: seq<Member>, ys: seq<Member>, caseSensitive: bool,
                                                 keys: iset<bytes>, bound: Json)
    requires Within(xs, bound)
    requires TidyMembers(xs, keys) && TidyMembers(ys, keys)
    requires StrictlySorted(xs, caseSensitive) && StrictlySorted(ys, caseSensitive)
    requires caseSensitive || FoldInjective(keys)
    ensures CompareMembers(xs, ys, caseSensitive, bound) <==> DenoteMembers(xs) == DenoteMembers(ys)
    decreases bound, 0, |xs|
  {
    hide StrCmp, Denote, DenoteMembers, KeysOf, CompareJson, TidyMembers, StrictlySorted, FoldInjective;
    if xs == [] || ys == [] {
      EmptyMeans(xs, ys);
    } else {
      OnwardFrom(xs, caseSensitive, keys);
      OnwardFrom(ys, caseSensitive, keys);
      SameKeys(xs[0].key, ys[0].key, caseSensitive, keys);
      if CompareStrings(xs[0].key, ys[0].key, caseSensitive) != 0 {
        SmallestDiffers(xs, ys, caseSensitive);
        KeysDecide(xs, ys);
      } else {
        assert xs[0].value < bound;
        CompareDecidesEquality(xs[0].value, ys[0].value, caseSensitive, keys);
        CompareMembersDecides(xs[1..], ys[1..], caseSensitive, keys, bound);
        HeadAndRest(xs, ys);
      }
    }
  }

  lemma SameKeys(a: bytes, b: bytes, caseSensitive: bool, keys: iset<bytes>)
    requires a in keys && b in keys && (caseSensitive || FoldInjective(keys))
    ensures CompareStrings(a, b, caseSensitive) == 0 <==> a == b
  {
    StrCmpEqual(Key(a, caseSensitive), Key(b, caseSensitive));
  }

  lemma OnwardFrom(xs: seq<Member>, caseSensitive: bool, keys: iset<bytes>)
    requires xs != [] && TidyMembers(xs, keys) && StrictlySorted(xs, caseSensitive)
    ensures TidyMembers(xs[1..], keys) && StrictlySorted(xs[1..], caseSensitive) && DistinctKeys(xs)
    ensures xs[0].key in keys && Tidy(xs[0].value, keys)
  {
    hide Tidy, StrCmp;
  }

  lemma EmptyMeans(xs: seq<Member>, ys: seq<Member>)
    requires xs == [] || ys == []
    ensures DenoteMembers(xs) == DenoteMembers(ys) <==> xs == [] && ys == []
  {
    hide Denote;
    DenoteMembersDomain(xs);
    DenoteMembersDomain(ys);
    assert xs != [] ==> xs[0] in xs && xs[0].key in KeysOf(xs);
    assert ys != [] ==> ys[0] in ys && ys[0].key in KeysOf(ys);
  }

  lemma KeysDecide(xs: seq<Member>, ys: seq<Member>)
    requires KeysOf(xs) != KeysOf(ys)
    ensures DenoteMembers(xs) != DenoteMembers(ys)
  {
    hide DenoteMembers;
    DenoteMembersDomain(xs);
    DenoteMembersDomain(ys);
  }

  /** Two objects with the same first key agree exactly when its values and the other members do. */
  lemma HeadAndRest(xs: seq<Member>, ys: seq<Member>)
    requires DistinctKeys(xs) && DistinctKeys(ys) && xs != [] && ys != [] && xs[0].key == ys[0].key
    ensures DenoteMembers(xs) == DenoteMembers(ys) <==>
            Denote(xs[0].value) == Denote(ys[0].value) && DenoteMembers(xs[1..]) == DenoteMembers(ys[1..])
  {
    HeadFirst(xs);
    HeadFirst(ys);
    hide Denote, DenoteMembers, DistinctKeys;
    var k := xs[0].key;
    SameUpdate(DenoteMembers(xs[1..]), DenoteMembers(ys[1..]), k, Denote(xs[0].value), Denote(ys[0].value));
  }

  lemma SameUpdate<K, V>(x: map<K, V>, y: map<K, V>, k: K, u: V, v: V)
    requires k !in x && k !in y
    ensures x[k := u] == y[k := v] <==> u == v && x == y
  {
    if x[k := u] == y[k := v] {
      assert x[k := u][k] == u && y[k := v][k] == v;
      assert x == x[k := u] - {k};
      assert y == y[k := v] - {k};
    }
  }

  lemma HeadFirst(xs: seq<Member>)
    requires DistinctKeys(xs) && xs != []
    ensures xs[0].key !in DenoteMembers(xs[1..])
    ensures DenoteMembers(xs) == DenoteMembers(xs[1..])[xs[0].key := Denote(xs[0].value)]
  {
    hide Denote;
    DenoteMembersDomain(xs);
    DenoteMembersWithout(xs, 0);
    assert Without(xs, 0) == xs[1..];
    DenoteMembersAt(xs, 0);
  }

  /** Two sorted lists whose first keys differ in the mode do not have the same keys. */
  lemma SmallestDiffers(xs: seq<Member>, ys: seq<Member>, caseSensitive: bool)
    requires xs != [] && ys != [] && StrictlySorted(xs, caseSensitive) && StrictlySorted(ys, caseSensitive)
    requires CompareStrings(xs[0].key, ys[0].key, caseSensitive) != 0
    ensures KeysOf(xs) != KeysOf(ys)
  {
    hide StrCmp;
    assert xs[0] in xs && ys[0] in ys;
    StrCmpAntisymmetric(Key(xs[0].key, caseSensitive), Key(ys[0].key, caseSensitive));
    StrCmpAntisymmetric(Key(ys[0].key, caseSensitive), Key(xs[0].key, caseSensitive));
    if CompareStrings(xs[0].key, ys[0].key, caseSensitive) < 0 {
      BelowAll(xs[0].key, ys, caseSensitive);
    } else {
      BelowAll(ys[0].key, xs, caseSensitive);
    }
  }

  /** A key below the first key of a sorted list is not in the list. */
  lemma BelowAll(k: bytes, s: seq<Member>, caseSensitive: bool)
    requires StrictlySorted(s, caseSensitive)
    requires s != [] ==> CompareStrings(k, s[0].key, caseSensitive) < 0
    ensures k !in KeysOf(s)
    ensures forall x :: x in s ==> CompareStrings(k, x.key, caseSensitive) < 0
  {
    hide StrCmp;
    StrCmpEqual(Key(k, caseSensitive), Key(k, caseSensitive));
    forall x | x in s ensures CompareStrings(k, x.key, caseSensitive) < 0 && k != x.key {
      var i :| 0 <= i < |s| && s[i] == x;
      if i > 0 {
        assert CompareStrings(s[0].key, s[i].key, caseSensitive) < 0;
        StrCmpTransitive(Key(k, caseSensitive), Key(s[0].key, caseSensitive), Key(s[i].key, caseSensitive));
      }
    }
  }
}
