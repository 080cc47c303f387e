/** What a `test` means for the document it is run on, and exactly when an `add` behind it is kept. */
module TestedPatches {
  import opened Bytes
  import opened KeySort
  import opened LooseList
  import opened JsonTree
  import opened JsonCompare
  import opened JsonPointer
  import opened JsonPatch
  import opened PatchRoundTrip
  import opened LoosePatch

  // ----- the round trip on documents

  /** Generated patches hold no `test`, so that applying them to a new tree reaches the target there too. */
  lemma PatchesRoundTripInPlace(from: Json, to: Json, caseSensitive: bool, keys: iset<bytes>)
    requires Tidy(from, keys) && Tidy(to, keys) && PatchableKeys(keys)
    ensures var r := PatchItems(Fresh(from), PatchesOf(Diff([], from, to, caseSensitive)), caseSensitive);
            r.Done? && r.status == 0 && Intact(r.root) && Denote(Plain(r.root)) == Denote(to)
  {
    hide Diff, PatchItems, ApplyPatches, PatchOf, Tidy, PatchableKeys, Denote, Plain, Intact, Fresh;
    var edits := Diff([], from, to, caseSensitive);
    FreshIsPlain(from);
    DiffShape(from, to, caseSensitive);
    forall i | 0 <= i < |edits| ensures DecodeOperation(PatchesOf(edits)[i], caseSensitive) != Test {
      OperationDecodes(edits[i], caseSensitive);
    }
    PatchesAgree(Fresh(from), PatchesOf(edits), caseSensitive);
    PatchesRoundTrip(from, to, caseSensitive, keys);
  }

  // ----- a test changes nothing but order and pointers

  /** The comparison leaves an item that means the same. */
  lemma {:induction false} CompareKeeps(a: Item, b: Json, caseSensitive: bool, keys: iset<bytes>)
    requires Tidy(Plain(a), keys) && (caseSensitive || FoldInjective(keys))
    ensures var c := CompareItem(a, b, caseSensitive).left;
            Denote(Plain(c)) == Denote(Plain(a)) && Tidy(Plain(c), keys)
    decreases a, 1
  {
    hide SortSeq, SortBack, Order, CompareElements, CompareRecord, FoldInjective, CompareStrings;
    match (a, b) {
      case (Elements(items), Array(ys)) =>
        var r := CompareElements(items, ys, caseSensitive, a).left;
        TidyElements(items, keys);
        ElementsKeep(items, ys, caseSensitive, a, keys);
        TidyElements(r, keys);
        assert DenoteItems(PlainItems(r)) == DenoteItems(PlainItems(items));
        hide Tidy;
      case (Record(members, back), Object(ys)) =>
        var sorted := SortSeq(members, caseSensitive);
        SortBelow(a, caseSensitive);
        SortMembers(PlainMembers(members), caseSensitive, keys);
        PlainSort(members, caseSensitive);
        ValuesTidy(sorted, keys);
        RecordKeeps(sorted, SortSeq(ys, caseSensitive), caseSensitive, a, keys);
        var r := CompareRecord(sorted, SortSeq(ys, caseSensitive), caseSensitive, a).left;
        SameFields(r, sorted);
        SameKeysTidy(sorted, r, keys);
        hide Tidy, TidyMembers, PlainMembers, DenoteMembers, DistinctKeys;
      case (_, _) =>
    }
  }

  lemma ValuesTidy(members: seq<Keyed<Item>>, keys: iset<bytes>)
    requires TidyMembers(PlainMembers(members), keys)
    ensures forall i :: 0 <= i < |members| ==> Tidy(Plain(members[i].value), keys)
  {
    hide Tidy, Plain;
    assert forall i :: 0 <= i < |members| ==> PlainMembers(members)[i].value == Plain(members[i].value);
  }

  lemma SameKeysTidy(xs: seq<Keyed<Item>>, r: seq<Keyed<Item>>, keys: iset<bytes>)
    requires TidyMembers(PlainMembers(xs), keys) && |r| == |xs|
    requires forall i :: 0 <= i < |r| ==> r[i].key == xs[i].key && Tidy(Plain(r[i].value), keys)
    ensures Tidy(Object(PlainMembers(r)), keys)
  {
    TidyObject(PlainMembers(r), keys);
    hide Tidy, Plain;
    var a, b := PlainMembers(xs), PlainMembers(r);
    assert forall i :: 0 <= i < |xs| ==> a[i].key == xs[i].key;
    assert forall i :: 0 <= i < |xs| ==> b[i].key == r[i].key && b[i].value == Plain(r[i].value);
    forall i, j | 0 <= i < j < |b| ensures b[i].key != b[j].key {
      assert a[i].key != a[j].key;
    }
  }

  lemma TidyObject(members: seq<Member>, keys: iset<bytes>)
    ensures Tidy(Object(members), keys) <==> TidyMembers(members, keys)
  {
    hide TidyMembers;
  }

  lemma TidyElements(items: seq<Item>, keys: iset<bytes>)
    ensures Tidy(Plain(Elements(items)), keys) <==> |items| <= WORD && AllTidy(items, keys)
  {
    var plain := PlainItems(items);
    assert forall i :: 0 <= i < |items| ==> plain[i] == Plain(items[i]);
    assert Plain(Elements(items)) == Array(plain);
  }

  ghost predicate AllTidy(items: seq<Item>, keys: iset<bytes>) {
    forall i :: 0 <= i < |items| ==> Tidy(Plain(items[i]), keys)
  }

  lemma {:induction false} ElementsKeep(xs: seq<Item>, ys: seq<Json>, caseSensitive: bool, bound: Item,
                                        keys: iset<bytes>)
    requires forall i :: 0 <= i < |xs| ==> xs[i] < bound
    requires AllTidy(xs, keys) && (caseSensitive || FoldInjective(keys))
    ensures var r := CompareElements(xs, ys, caseSensitive, bound).left;
            |r| == |xs| && AllTidy(r, keys) && forall i :: 0 <= i < |xs| ==> Denote(Plain(r[i])) == Denote(Plain(xs[i]))
    decreases bound, 0, |xs|
  {
    hide CompareItem, Plain, Tidy, Denote, FoldInjective;
    if xs != [] && ys != [] {
      CompareKeeps(xs[0], ys[0], caseSensitive, keys);
      ElementsKeep(xs[1..], ys[1..], caseSensitive, bound, keys);
    }
  }

  lemma {:induction false} RecordKeeps(xs: seq<Keyed<Item>>, ys: seq<Member>, caseSensitive: bool, bound: Item,
                                       keys: iset<bytes>)
    requires Below(xs, bound) && (caseSensitive || FoldInjective(keys))
    requires forall i :: 0 <= i < |xs| ==> Tidy(Plain(xs[i].value), keys)
    ensures var r := CompareRecord(xs, ys, caseSensitive, bound).left;
            |r| == |xs| && forall i :: 0 <= i < |xs| ==>
              r[i].key == xs[i].key && Tidy(Plain(r[i].value), keys) && Denote(Plain(r[i].value)) == Denote(Plain(xs[i].value))
    decreases bound, 0, |xs|
  {
    hide CompareItem, CompareRecord, CompareStrings, Plain, Tidy, Denote, FoldInjective;
    if xs != [] && ys != [] {
      BelowTail(xs, bound);
      RecordStep(xs, ys, caseSensitive, bound);
      CompareKeeps(xs[0].value, ys[0].value, caseSensitive, keys);
      RecordKeeps(xs[1..], ys[1..], caseSensitive, bound, keys);
    } else {
      RecordEnd(xs, ys, caseSensitive, bound);
    }
  }

  /** One turn of the walk over two member lists. */
  lemma RecordStep(xs: seq<Keyed<Item>>, ys: seq<Member>, caseSensitive: bool, bound: Item)
    requires Below(xs, bound) && xs != [] && ys != [] && Below(xs[1..], bound)
    ensures var c := CompareItem(xs[0].value, ys[0].value, caseSensitive);
            CompareRecord(xs, ys, caseSensitive, bound).left
            == if CompareStrings(xs[0].key, ys[0].key, caseSensitive) != 0 then xs
               else [Keyed(xs[0].key, c.left)]
                    + (if c.same then CompareRecord(xs[1..], ys[1..], caseSensitive, bound).left else xs[1..])
  {
    hide CompareItem, CompareStrings;
  }

  lemma RecordEnd(xs: seq<Keyed<Item>>, ys: seq<Member>, caseSensitive: bool, bound: Item)
    requires Below(xs, bound) && (xs == [] || ys == [])
    ensures CompareRecord(xs, ys, caseSensitive, bound).left == xs
  {
  }

  lemma {:induction false} SameFields(a: seq<Keyed<Item>>, b: seq<Keyed<Item>>)
    requires |a| == |b|
    requires forall i :: 0 <= i < |a| ==> a[i].key == b[i].key && Denote(Plain(a[i].value)) == Denote(Plain(b[i].value))
    ensures DenoteMembers(PlainMembers(a)) == DenoteMembers(PlainMembers(b))
    decreases |a|
  {
    hide Denote, Plain;
    if a != [] {
      assert PlainMembers(a)[1..] == PlainMembers(a[1..]) && PlainMembers(b)[1..] == PlainMembers(b[1..]);
      SameFields(a[1..], b[1..]);
    }
  }

  // ----- replacing a node

  lemma {:induction false} PutTidy(v: Json, p: Path, x: Json, keys: iset<bytes>)
    requires Tidy(v, keys) && Tidy(x, keys) && ValidPath(v, p)
    ensures Tidy(Put(v, p, x), keys) && Tidy(At(v, p), keys)
    decreases |p|
  {
    if p != [] {
      PutTidy(Children(v)[p[0]], p[1..], x, keys);
    }
  }

  /** Trees that differ in one node mean the same exactly when those nodes do. */
  lemma {:induction false} PutMeans(v: Json, p: Path, x: Json, y: Json, keys: iset<bytes>)
    requires Tidy(v, keys) && ValidPath(v, p)
    ensures Denote(Put(v, p, x)) == Denote(Put(v, p, y)) <==> Denote(x) == Denote(y)
    decreases |p|
  {
    if p != [] {
      var i := p[0];
      var a, b := Put(Children(v)[i], p[1..], x), Put(Children(v)[i], p[1..], y);
      PutMeans(Children(v)[i], p[1..], x, y, keys);
      hide Put;
      match v {
        case Array(items) => ItemsDiffer(items, i, a, b);
        case Object(members) =>
          DenoteMembersUpdate(members, i, a);
          DenoteMembersUpdate(members, i, b);
          FieldsDiffer(DenoteMembers(members), members[i].key, Denote(a), Denote(b));
      }
    }
  }

  lemma ItemsDiffer(items: seq<Json>, i: nat, a: Json, b: Json)
    requires i < |items|
    ensures DenoteItems(items[i := a]) == DenoteItems(items[i := b]) <==> Denote(a) == Denote(b)
  {
    hide Denote;
    assert DenoteItems(items[i := a])[i] == Denote(a) && DenoteItems(items[i := b])[i] == Denote(b);
  }

  lemma FieldsDiffer(m: map<bytes, Value>, k: bytes, a: Value, b: Value)
    ensures m[k := a] == m[k := b] <==> a == b
  {
    assert m[k := a][k] == a && m[k := b][k] == b;
  }

  lemma {:induction false} PutAgain(t: Item, p: Path, x: Item, y: Item)
    requires ValidPath(Plain(t), p)
    ensures ValidPath(Plain(ItemPut(t, p, x)), p)
    ensures ItemAt(ItemPut(t, p, x), p) == x && ItemPut(ItemPut(t, p, x), p, y) == ItemPut(t, p, y)
    decreases |p|
  {
    hide Plain, WithChild;
    PlainPosition(t, p, x);
    if p != [] {
      PlainKids(t);
      PutAgain(Kids(t)[p[0]], p[1..], x, y);
      var c := ItemPut(Kids(t)[p[0]], p[1..], x);
      KidReplaced(t, p[0], c, ItemPut(c, p[1..], y));
      PlainKids(ItemPut(t, p, x));
    }
  }

  lemma KidReplaced(t: Item, i: nat, c: Item, d: Item)
    requires i < |Kids(t)|
    ensures |Kids(WithKid(t, i, c))| == |Kids(t)| && Kids(WithKid(t, i, c))[i] == c
    ensures WithKid(WithKid(t, i, c), i, d) == WithKid(t, i, d)
  {
  }

  /** Replacing a node does not change its pointer. */
  lemma {:induction false} PointerStays(v: Json, p: Path, x: Json)
    requires ValidPath(v, p)
    ensures ValidPath(Put(v, p, x), p) && PointerTo(Put(v, p, x), p) == PointerTo(v, p)
    decreases |p|
  {
    if p != [] {
      var c := Put(Children(v)[p[0]], p[1..], x);
      PointerStays(Children(v)[p[0]], p[1..], x);
      WithChildFacts(v, p[0], c, c);
      TokenStays(v, p[0], c);
      hide WithChild, TokenOf;
    }
  }

  lemma TokenStays(v: Json, i: nat, c: Json)
    requires i < |Children(v)| == |Children(WithChild(v, i, c))|
    ensures TokenOf(WithChild(v, i, c), i) == TokenOf(v, i)
  {
    hide Decimal, Encode;
  }

  lemma {:induction false} TidyUnambiguous(v: Json, caseSensitive: bool, keys: iset<bytes>)
    requires Tidy(v, keys) && (caseSensitive || FoldInjective(keys))
    ensures Unambiguous(v, caseSensitive)
    decreases v
  {
    match v {
      case Array(items) =>
        forall i | 0 <= i < |items| ensures Unambiguous(items[i], caseSensitive) {
          TidyUnambiguous(items[i], caseSensitive, keys);
        }
      case Object(members) =>
        forall i | 0 <= i < |members| ensures Unambiguous(members[i].value, caseSensitive) {
          TidyUnambiguous(members[i].value, caseSensitive, keys);
        }
      case _ =>
    }
  }

  // ----- what a test means

  /** A test succeeds exactly when the node is there and equal up to member order, and the document then means what it
      meant before, whatever the answer. */
  lemma TestMeans(t: Item, path: bytes, w: Json, caseSensitive: bool, keys: iset<bytes>)
    requires Tidy(Plain(t), keys) && Tidy(w, keys) && (caseSensitive || FoldInjective(keys))
    ensures var e := TestPath(t, path, Some(w), caseSensitive);
            var found := GetPath(Plain(t), path, caseSensitive);
            e.Done? && Denote(Plain(e.root)) == Denote(Plain(t)) && Tidy(Plain(e.root), keys) &&
            (e.status == 0 <==> found.Some? && Denote(found.value) == Denote(w))
  {
    hide Resolve, CompareItem, CompareJson, Plain, Tidy, Denote, At, Put, ItemAt, ItemPut, FoldInjective;
    var v := Plain(t);
    match Resolve(v, path, caseSensitive) {
      case None =>
      case Some(p) =>
        var a := ItemAt(t, p);
        var c := CompareItem(a, w, caseSensitive);
        PlainPosition(t, p, c.left);
        PutTidy(v, p, w, keys);
        CompareAnswers(a, w, caseSensitive);
        CompareDecidesEquality(Plain(a), w, caseSensitive, keys);
        CompareKeeps(a, w, caseSensitive, keys);
        PutTidy(v, p, Plain(c.left), keys);
        PutMeans(v, p, Plain(c.left), At(v, p), keys);
        PutSame(v, p);
    }
  }

  // ----- an add behind a test

  function TestAndAdd(pointer: bytes, w: Json, key: bytes, x: Json): seq<Json> {
    [PatchOf(Edit(Test, pointer, Some(w))), PatchOf(Edit(Add, pointer + [SLASH] + Encode(key), Some(x)))]
  }

  lemma TestDecodes(t: Item, path: bytes, w: Json, caseSensitive: bool)
    ensures PatchItem(t, PatchOf(Edit(Test, path, Some(w))), caseSensitive) == TestPath(t, path, Some(w), caseSensitive)
  {
    hide TestPath, PatchOf, GetObjectItem;
    PatchMembers(Edit(Test, path, Some(w)), caseSensitive);
    assert |TEST| == 4 && |ADD| == 3 && |REMOVE| == 6 && |REPLACE| == 7 && |MOVE| == 4 && |COPY| == 4;
    assert TEST[0] != MOVE[0] && TEST[0] != COPY[0];
  }

  lemma AddDecodes(t: Item, path: bytes, x: Json, caseSensitive: bool)
    requires path != []
    ensures PatchItem(t, PatchOf(Edit(Add, path, Some(x))), caseSensitive) == PutPath(t, path, Fresh(x), caseSensitive)
  {
    hide PutPath, PatchOf, GetObjectItem, Fresh;
    PatchMembers(Edit(Add, path, Some(x)), caseSensitive);
    OperationDecodes(Edit(Add, path, Some(x)), caseSensitive);
  }

  /** Adding a member with a new name to the object at `p` appends to its list as it stands. */
  lemma AddAppends(t: Item, p: Path, key: bytes, x: Item, caseSensitive: bool, keys: iset<bytes>)
    requires Tidy(Plain(t), keys) && PatchableKeys(keys) && ValidPath(Plain(t), p) && ItemAt(t, p).Record?
    requires key in keys && key !in KeysOf(PlainMembers(ItemAt(t, p).members))
    ensures var r := ItemAt(t, p);
            PutPath(t, PointerTo(Plain(t), p) + [SLASH] + Encode(key), x, caseSensitive)
            == Upwards(t, p, AppendMember(r.members, r.back, Keyed(key, x)))
  {
    hide Resolve, Plain, Tidy, At, Put, ItemAt, ItemPut, PointerTo, Encode, DecodeInPlace, AppendMember, FindKey,
         LastSlash;
    var pointer, token := PointerTo(Plain(t), p), Encode(key);
    var r := ItemAt(t, p);
    EncodeShape(key);
    TopSlash(token);
    LastSlashBelow(pointer, [SLASH] + token);
    var path := pointer + [SLASH] + token;
    assert path == pointer + ([SLASH] + token);
    assert path[..|pointer|] == pointer && path[|pointer| + 1..] == token;
    TidyUnambiguous(Plain(t), caseSensitive, keys);
    PointerRoundTrip(Plain(t), p, caseSensitive);
    assert HoldsStill(key);
    SurvivesExactly(key);
    PlainPosition(t, p, t);
    NullIsTidy(keys);
    PutTidy(Plain(t), p, Null, keys);
    RecordKeysKnown(r, keys);
    FindKeyExact(PlainMembers(r.members), key, caseSensitive, keys);
  }

  lemma NullIsTidy(keys: iset<bytes>)
    ensures Tidy(Null, keys)
  {
  }

  lemma RecordKeysKnown(r: Item, keys: iset<bytes>)
    requires r.Record? && Tidy(Plain(r), keys)
    ensures forall i :: 0 <= i < |r.members| ==> PlainMembers(r.members)[i].key in keys
    ensures DistinctKeys(PlainMembers(r.members)) && Plain(r) == Object(PlainMembers(r.members))
  {
  }

  /** An append to a list in a different order with the same meaning adds the member exactly when the pointer leads to
      the tail, and changes nothing exactly when it is lost; otherwise the last children are cut off. */
  lemma AppendMeans(ms: seq<Member>, ns: seq<Member>, back: Back, x: Member)
    requires DistinctKeys(ms) && DistinctKeys(ns) && DenoteMembers(ns) == DenoteMembers(ms) && x.key !in KeysOf(ms)
    requires !back.Gone? && (back.Stale? ==> back.k + 1 < |ns|)
    ensures var after := DenoteMembers(AppendTo(ns, back, x));
            (after == DenoteMembers(ms + [x]) <==> ns == [] || back == Tail) &&
            (after == DenoteMembers(ms) <==> ns != [] && back == Lost)
  {
    hide Denote, DistinctKeys, DenoteMembers;
    DenoteMembersAppend(ms, x);
    DenoteMembersDomain(ms);
    DenoteMembersDomain(ns);
    if ns == [] || back == Tail {
      assert ns == [] ==> ns + [x] == [x];
      DenoteMembersAppend(ns, x);
    } else if back.Stale? {
      CutMeans(ns, back.k, x);
    }
  }

  lemma CutMeans(ns: seq<Member>, k: nat, x: Member)
    requires DistinctKeys(ns) && k + 1 < |ns| && x.key !in KeysOf(ns)
    ensures var last := ns[|ns| - 1].key;
            last in DenoteMembers(ns) && last !in DenoteMembers(ns[..k + 1] + [x])
  {
    var last := ns[|ns| - 1];
    assert last in ns;
    DenoteMembersDomain(ns);
    DenoteMembersDomain(ns[..k + 1] + [x]);
    hide DenoteMembers, Denote;
    forall y | y in ns[..k + 1] + [x] ensures y.key != last.key {
      if y in ns[..k + 1] {
        var i :| 0 <= i < k + 1 && ns[i] == y;
      }
    }
  }

  lemma PlainAppend(members: seq<Keyed<Item>>, back: Back, x: Keyed<Item>)
    ensures PlainMembers(AppendTo(members, back, x))
            == AppendTo(PlainMembers(members), back, Keyed(x.key, Plain(x.value)))
  {
  }

  /** The object after a successful test. */
  lemma TestedObject(a: Item, w: Json, caseSensitive: bool, keys: iset<bytes>)
    requires a.Record? && a.back == Tail && Tidy(Plain(a), keys) && Tidy(w, keys) && Denote(w) == Denote(Plain(a))
    requires caseSensitive || FoldInjective(keys)
    ensures var c := CompareItem(a, w, caseSensitive);
            c.same && c.left.Record? && |c.left.members| == |a.members| &&
            c.left.back == SortBack(Order(a.members, caseSensitive), Tail)
    ensures var left := CompareItem(a, w, caseSensitive).left;
            Denote(Plain(left)) == Denote(Plain(a)) && Tidy(Plain(left), keys)
  {
    hide SortSeq, SortBack, Order, CompareRecord, CompareJson, Tidy, Plain, FoldInjective;
    CompareAnswers(a, w, caseSensitive);
    CompareDecidesEquality(Plain(a), w, caseSensitive, keys);
    CompareKeeps(a, w, caseSensitive, keys);
    RecordsMatch(a, w);
    SortBelow(a, caseSensitive);
    RecordLength(SortSeq(a.members, caseSensitive), SortSeq(w.members, caseSensitive), caseSensitive, a);
  }

  lemma {:induction false} RecordLength(xs: seq<Keyed<Item>>, ys: seq<Member>, caseSensitive: bool, bound: Item)
    requires Below(xs, bound)
    ensures |CompareRecord(xs, ys, caseSensitive, bound).left| == |xs|
    decreases |xs|
  {
    hide CompareItem, CompareStrings;
    if xs != [] && ys != [] {
      BelowTail(xs, bound);
      RecordLength(xs[1..], ys[1..], caseSensitive, bound);
    }
  }

  lemma RecordsMatch(a: Item, w: Json)
    requires a.Record? && Denote(w) == Denote(Plain(a))
    ensures w.Object?
  {
  }

  /** The pointer after the test, told from the plain members. */
  lemma PointerAfterTest(members: seq<Keyed<Item>>, caseSensitive: bool)
    requires members != []
    ensures var back, ms := SortBack(Order(members, caseSensitive), Tail), PlainMembers(members);
            (back == Tail <==> FirstIsLeast(ms, caseSensitive) && LastIsGreatest(ms, caseSensitive)) &&
            (back == Lost <==> !FirstIsLeast(ms, caseSensitive)) && !back.Gone? &&
            (back.Stale? ==> back.k + 1 < |members|)
  {
    hide SortBack, Order;
    BackAfterSort(members, caseSensitive);
    OnlyKeysCount(members, PlainMembers(members), caseSensitive);
    hide FirstIsLeast, LastIsGreatest;
  }

  /** The object at `p` as an item. */
  lemma ObjectThere(t: Item, p: Path, keys: iset<bytes>)
    requires Intact(t) && Tidy(Plain(t), keys) && ValidPath(Plain(t), p) && At(Plain(t), p).Object?
    ensures var a := ItemAt(t, p);
            a.Record? && a.back == Tail && Tidy(Plain(a), keys) &&
            Plain(a) == At(Plain(t), p) == Object(PlainMembers(a.members))
  {
    PlainPosition(t, p, t);
    NullIsTidy(keys);
    PutTidy(Plain(t), p, Null, keys);
    hide ItemAt, ItemPut, At, Put, Tidy;
  }

  lemma FirstPatch(t: Item, p: Path, w: Json, caseSensitive: bool, keys: iset<bytes>)
    requires Tidy(Plain(t), keys) && ValidPath(Plain(t), p) && (caseSensitive || FoldInjective(keys))
    requires CompareItem(ItemAt(t, p), w, caseSensitive).same
    ensures PatchItem(t, PatchOf(Edit(Test, PointerTo(Plain(t), p), Some(w))), caseSensitive)
            == Done(0, ItemPut(t, p, CompareItem(ItemAt(t, p), w, caseSensitive).left))
  {
    hide PatchItem, PatchOf, Resolve, PointerTo, CompareItem, ItemAt, ItemPut, Plain, Tidy, FoldInjective, Unambiguous;
    TidyUnambiguous(Plain(t), caseSensitive, keys);
    PointerRoundTrip(Plain(t), p, caseSensitive);
    TestDecodes(t, PointerTo(Plain(t), p), w, caseSensitive);
  }

  lemma SecondPatch(t: Item, p: Path, left: Item, key: bytes, x: Json, caseSensitive: bool, keys: iset<bytes>)
    requires Tidy(Plain(t), keys) && ValidPath(Plain(t), p) && PatchableKeys(keys) && key in keys
    requires left.Record? && Tidy(Plain(left), keys) && key !in KeysOf(PlainMembers(left.members))
    requires !(left.members != [] && left.back.Gone?)
    ensures var path := PointerTo(Plain(t), p) + [SLASH] + Encode(key);
            PatchItem(ItemPut(t, p, left), PatchOf(Edit(Add, path, Some(x))), caseSensitive)
            == Done(0, ItemPut(t, p, AppendedRecord(left, Keyed(key, Fresh(x)))))
  {
    hide PatchItem, PatchOf, Resolve, PointerTo, ItemAt, ItemPut, Plain, Tidy, PatchableKeys, Put, Encode, Fresh,
         KeysOf, PlainMembers;
    var t1 := ItemPut(t, p, left);
    PlainPosition(t, p, left);
    PutTidy(Plain(t), p, Plain(left), keys);
    PointerStays(Plain(t), p, Plain(left));
    var rec := AppendedRecord(left, Keyed(key, Fresh(x)));
    PutAgain(t, p, left, rec);
    AddDecodes(t1, PointerTo(Plain(t), p) + [SLASH] + Encode(key), x, caseSensitive);
    AddAppends(t1, p, key, Fresh(x), caseSensitive, keys);
  }

  function AppendedRecord(r: Item, x: Keyed<Item>): Item
    requires r.Record?
  {
    Record(AppendTo(r.members, r.back, x), AppendBack(|r.members|, r.back))
  }

  lemma TwoPatches(t: Item, t1: Item, t2: Item, first: Json, second: Json, caseSensitive: bool)
    requires PatchItem(t, first, caseSensitive) == Done(0, t1) && PatchItem(t1, second, caseSensitive) == Done(0, t2)
    ensures PatchItems(t, [first, second], caseSensitive) == Done(0, t2)
  {
    hide PatchItem;
    assert [first, second][1..] == [second] && [second][1..] == [];
    assert PatchItems(t2, [], caseSensitive) == Done(0, t2);
    assert PatchItems(t1, [second], caseSensitive) == Done(0, t2);
  }

  /** What the append to the tested object means. */
  lemma AppendedMeans(a: Item, left: Item, key: bytes, x: Json, keys: iset<bytes>)
    requires a.Record? && left.Record? && Tidy(Plain(a), keys) && Tidy(Plain(left), keys)
    requires Denote(Plain(left)) == Denote(Plain(a))
    requires key !in KeysOf(PlainMembers(a.members))
    requires !left.back.Gone? && (left.back.Stale? ==> left.back.k + 1 < |left.members|)
    ensures key !in KeysOf(PlainMembers(left.members))
    ensures var after := Denote(Plain(AppendedRecord(left, Keyed(key, Fresh(x)))));
            (after == Denote(Object(PlainMembers(a.members) + [Keyed(key, x)])) <==>
             left.members == [] || left.back == Tail) &&
            (after == Denote(Plain(a)) <==> left.members != [] && left.back == Lost)
  {
    FreshIsPlain(x);
    RecordKeysKnown(a, keys);
    RecordKeysKnown(left, keys);
    var ms, ns := PlainMembers(a.members), PlainMembers(left.members);
    var more := Keyed(key, Fresh(x));
    PlainAppend(left.members, left.back, more);
    hide Fresh, Intact, Tidy, PlainMembers, DistinctKeys, DenoteMembers;
    assert DenoteMembers(ns) == DenoteMembers(ms);
    DenoteMembersDomain(ms);
    DenoteMembersDomain(ns);
    AppendMeans(ms, ns, left.back, Keyed(key, x));
  }

  /** A successful test of an object followed by the addition of a new member to it: both patches report success, but the
      member is there exactly when the first key of the object was strictly least and the last strictly greatest; with
      the first key not least the document means what it meant before. */
  lemma TestThenAdd(t: Item, p: Path, w: Json, key: bytes, x: Json, caseSensitive: bool, keys: iset<bytes>)
    requires Intact(t) && Tidy(Plain(t), keys) && Tidy(w, keys) && PatchableKeys(keys)
    requires ValidPath(Plain(t), p) && At(Plain(t), p).Object? && Denote(w) == Denote(At(Plain(t), p))
    requires key in keys && key !in KeysOf(At(Plain(t), p).members)
    ensures var v := Plain(t);
            var ms := At(v, p).members;
            var r := PatchItems(t, TestAndAdd(PointerTo(v, p), w, key, x), caseSensitive);
            r.Done? && r.status == 0 &&
            (Denote(Plain(r.root)) == Denote(Put(v, p, Object(ms + [Keyed(key, x)]))) <==>
             ms == [] || (FirstIsLeast(ms, caseSensitive) && LastIsGreatest(ms, caseSensitive))) &&
            (Denote(Plain(r.root)) == Denote(v) <==> ms != [] && !FirstIsLeast(ms, caseSensitive))
  {
    hide PatchItem, PatchItems, PatchOf, Tidy, Plain, PlainMembers, At, Put, ItemAt, ItemPut, PointerTo,
         CompareItem, Denote, SortBack, Order, FirstIsLeast, LastIsGreatest, Intact, KeysOf, Encode, Fresh, HoldsStill,
         AppendedRecord;
    var v, a := Plain(t), ItemAt(t, p);
    var left := CompareItem(a, w, caseSensitive).left;
    ObjectThere(t, p, keys);
    TestedObject(a, w, caseSensitive, keys);
    FirstPatch(t, p, w, caseSensitive, keys);
    if a.members != [] {
      PointerAfterTest(a.members, caseSensitive);
    } else {
      EmptyOrder(caseSensitive);
    }
    AppendedMeans(a, left, key, x, keys);
    SecondPatch(t, p, left, key, x, caseSensitive, keys);
    var rec := AppendedRecord(left, Keyed(key, Fresh(x)));
    var pointer := PointerTo(v, p);
    TwoPatches(t, ItemPut(t, p, left), ItemPut(t, p, rec), PatchOf(Edit(Test, pointer, Some(w))),
               PatchOf(Edit(Add, pointer + [SLASH] + Encode(key), Some(x))), caseSensitive);
    PlainPosition(t, p, rec);
    PutMeans(v, p, Plain(rec), Object(PlainMembers(a.members) + [Keyed(key, x)]), keys);
    PutMeans(v, p, Plain(rec), At(v, p), keys);
    PutSame(v, p);
  }

  lemma EmptyOrder(caseSensitive: bool)
    ensures SortBack(Order<Item>([], caseSensitive), Tail) == Tail
  {
  }

  /** The smallest case: on the object {"b": null, "a": null} the test of that very object and the addition of "c" both
      report success, and there is no "c". */
  lemma LostMember(caseSensitive: bool)
    ensures var v := Object([Keyed([98], Null), Keyed([97], Null)]);
            var r := PatchItems(Fresh(v), TestAndAdd([], v, [99], Null), caseSensitive);
            r.Done? && r.status == 0 && Denote(Plain(r.root)) == Denote(v)
  {
    hide PatchItems, TestAndAdd, Plain, Denote, Intact, Fresh, PatchableKeys, Encode;
    var v := Object([Keyed([98], Null), Keyed([97], Null)]);
    var keys := iset k: bytes | LowerCase(k) && EscapeFree(k);
    PlainKeysArePatchable();
    FreshIsPlain(v);
    TestThenAdd(Fresh(v), [], v, [99], Null, caseSensitive, keys);
    assert CompareStrings([98], [97], caseSensitive) > 0;
  }
}
