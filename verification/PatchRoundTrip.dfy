/** Applying generated patches to the tree they were generated from gives the tree they were generated for. */
module PatchRoundTrip {
  import opened Bytes
  import opened KeySort
  import opened JsonTree
  import opened JsonCompare
  import opened JsonPointer
  import opened JsonPatch

  // ----- edits instead of patch objects

  function ApplyEdits(root: Json, edits: seq<Edit>, caseSensitive: bool): Outcome
    decreases |edits|
  {
    if edits == [] then Outcome(0, root)
    else
      var r := ApplyEdit(root, edits[0].op, edits[0].path, edits[0].value, None, caseSensitive);
      if r.status != 0 then r else ApplyEdits(r.root, edits[1..], caseSensitive)
  }

  predicate Generated(op: Operation) {
    op == Add || op == Remove || op == Replace
  }

  /** The three members `compose_patch` writes are found by name in either mode. */
  lemma PatchMembers(e: Edit, caseSensitive: bool)
    ensures GetObjectItem(PatchOf(e), OP, caseSensitive) == Some(String(OperationName(e.op)))
    ensures GetObjectItem(PatchOf(e), PATH, caseSensitive) == Some(String(e.path))
    ensures GetObjectItem(PatchOf(e), VALUE, caseSensitive) == e.value
  {
    var ms := PatchOf(e).members;
    assert ms[0].key == OP && ms[1].key == PATH && (e.value.Some? ==> |ms| == 3 && ms[2].key == VALUE);
    assert |Key(OP, caseSensitive)| == 2 && |Key(PATH, caseSensitive)| == 4 && |Key(VALUE, caseSensitive)| == 5;
    assert FindKey(ms, OP, caseSensitive) == 0;
    assert FindKey(ms, PATH, caseSensitive) == 1;
    assert FindKey(ms, VALUE, caseSensitive) == 2;
  }

  lemma OperationDecodes(e: Edit, caseSensitive: bool)
    requires Generated(e.op)
    ensures DecodeOperation(PatchOf(e), caseSensitive) == e.op
  {
    PatchMembers(e, caseSensitive);
    assert |ADD| == 3 && |REMOVE| == 6 && |REPLACE| == 7;
  }

  /** Writing an edit out as a patch object and applying that object performs the edit. */
  lemma PatchPerformsEdit(root: Json, e: Edit, caseSensitive: bool)
    requires Generated(e.op)
    ensures ApplyPatch(root, PatchOf(e), caseSensitive) == ApplyEdit(root, e.op, e.path, e.value, None, caseSensitive)
  {
    PatchMembers(e, caseSensitive);
    OperationDecodes(e, caseSensitive);
    FromUnused(root, e, GetObjectItem(PatchOf(e), FROM, caseSensitive), caseSensitive);
  }

  lemma FromUnused(root: Json, e: Edit, from: Option<Json>, caseSensitive: bool)
    requires Generated(e.op)
    ensures ApplyEdit(root, e.op, e.path, e.value, from, caseSensitive)
            == ApplyEdit(root, e.op, e.path, e.value, None, caseSensitive)
  {
  }

  lemma {:induction false} PatchesPerformEdits(root: Json, edits: seq<Edit>, caseSensitive: bool)
    requires forall i :: 0 <= i < |edits| ==> Generated(edits[i].op)
    ensures ApplyPatches(root, PatchesOf(edits), caseSensitive) == ApplyEdits(root, edits, caseSensitive)
    decreases |edits|
  {
    hide ApplyPatch, ApplyEdit, PatchOf;
    if edits != [] {
      PatchPerformsEdit(root, edits[0], caseSensitive);
      assert PatchesOf(edits)[0] == PatchOf(edits[0]);
      var r := ApplyEdit(root, edits[0].op, edits[0].path, edits[0].value, None, caseSensitive);
      PatchesPerformEdits(r.root, edits[1..], caseSensitive);
      assert PatchesOf(edits)[1..] == PatchesOf(edits[1..]);
    }
  }

  lemma {:induction false} ApplyConcat(root: Json, a: seq<Edit>, b: seq<Edit>, caseSensitive: bool)
    requires ApplyEdits(root, a, caseSensitive).status == 0
    ensures ApplyEdits(root, a + b, caseSensitive) == ApplyEdits(ApplyEdits(root, a, caseSensitive).root, b, caseSensitive)
    decreases |a|
  {
    hide ApplyEdit;
    if a == [] {
      assert a + b == b;
    } else {
      var r := ApplyEdit(root, a[0].op, a[0].path, a[0].value, None, caseSensitive);
      ApplyConcat(r.root, a[1..], b, caseSensitive);
      assert (a + b)[1..] == a[1..] + b;
    }
  }

  // ----- generating below a path only prefixes the paths

  function Prefix(path: bytes, edits: seq<Edit>): (r: seq<Edit>)
    ensures |r| == |edits|
  {
    seq(|edits|, i requires 0 <= i < |edits| => edits[i].(path := path + edits[i].path))
  }

  lemma PrefixConcat(path: bytes, a: seq<Edit>, b: seq<Edit>)
    ensures Prefix(path, a + b) == Prefix(path, a) + Prefix(path, b)
  {
  }

  lemma PrefixCons(path: bytes, e: Edit, es: seq<Edit>)
    ensures Prefix(path, [e] + es) == [e.(path := path + e.path)] + Prefix(path, es)
  {
  }

  lemma PrefixTwice(a: bytes, b: bytes, edits: seq<Edit>)
    ensures Prefix(a, Prefix(b, edits)) == Prefix(a + b, edits)
  {
    forall i | 0 <= i < |edits| ensures a + (b + edits[i].path) == (a + b) + edits[i].path {
    }
  }

  lemma {:induction false} DiffPrefix(path: bytes, from: Json, to: Json, caseSensitive: bool)
    ensures Diff(path, from, to, caseSensitive) == Prefix(path, Diff([], from, to, caseSensitive))
    decreases from, 1
  {
    if SameType(from, to) {
      match from {
        case Array(items) =>
          DiffItemsPrefix(path, items, to.items, 0, caseSensitive);
        case Object(members) =>
          SortWithin(members, caseSensitive);
          DiffMembersPrefix(path, SortSeq(members, caseSensitive), SortSeq(to.members, caseSensitive), caseSensitive, from);
        case _ =>
          assert path + [] == path;
      }
    } else {
      assert path + [] == path;
    }
  }

  /** The same, for a child reached by one token. */
  lemma {:induction false} DiffBelow(path: bytes, token: bytes, from: Json, to: Json, caseSensitive: bool)
    ensures Diff(path + [SLASH] + token, from, to, caseSensitive)
            == Prefix(path, Diff([] + [SLASH] + token, from, to, caseSensitive))
    decreases from, 2
  {
    var es := Diff([], from, to, caseSensitive);
    DiffPrefix(path + [SLASH] + token, from, to, caseSensitive);
    DiffPrefix([] + [SLASH] + token, from, to, caseSensitive);
    PrefixTwice(path, [] + [SLASH] + token, es);
    assert path + ([] + [SLASH] + token) == path + [SLASH] + token;
  }

  lemma {:induction false} DiffItemsPrefix(path: bytes, from: seq<Json>, to: seq<Json>, index: nat, caseSensitive: bool)
    ensures DiffItems(path, from, to, index, caseSensitive) == Prefix(path, DiffItems([], from, to, index, caseSensitive))
    decreases from, 0, |to|
  {
    if from != [] && to != [] {
      DiffBelow(path, Decimal(index), from[0], to[0], caseSensitive);
      DiffItemsPrefix(path, from[1..], to[1..], index + 1, caseSensitive);
      PrefixConcat(path, Diff([] + [SLASH] + Decimal(index), from[0], to[0], caseSensitive),
                   DiffItems([], from[1..], to[1..], index + 1, caseSensitive));
    } else if from != [] {
      DiffItemsPrefix(path, from[1..], [], index, caseSensitive);
      assert path + ([] + [SLASH] + Encode(Decimal(index))) == path + [SLASH] + Encode(Decimal(index));
    } else if to != [] {
      DiffItemsPrefix(path, [], to[1..], index + 1, caseSensitive);
      assert path + ([] + [SLASH] + Encode([MINUS])) == path + [SLASH] + Encode([MINUS]);
    }
  }

  lemma {:induction false} DiffMembersPrefix(path: bytes, from: seq<Member>, to: seq<Member>, caseSensitive: bool, bound: Json)
    requires Within(from, bound)
    ensures DiffMembers(path, from, to, caseSensitive, bound)
            == Prefix(path, DiffMembers([], from, to, caseSensitive, bound))
    decreases bound, 0, |from| + |to|
  {
    hide Diff, CompareStrings, Encode, Prefix;
    if from == [] && to == [] {
    } else {
      var diff := if from == [] then 1
                  else if to == [] then -1
                  else CompareStrings(from[0].key, to[0].key, caseSensitive);
      if diff == 0 {
        DiffBelow(path, Encode(from[0].key), from[0].value, to[0].value, caseSensitive);
        DiffMembersPrefix(path, from[1..], to[1..], caseSensitive, bound);
        PrefixConcat(path, Diff([] + [SLASH] + Encode(from[0].key), from[0].value, to[0].value, caseSensitive),
                     DiffMembers([], from[1..], to[1..], caseSensitive, bound));
      } else if diff < 0 {
        DiffMembersPrefix(path, from[1..], to, caseSensitive, bound);
        PrefixCons(path, Edit(Remove, [] + [SLASH] + Encode(from[0].key), None),
                   DiffMembers([], from[1..], to, caseSensitive, bound));
        assert path + ([] + [SLASH] + Encode(from[0].key)) == path + [SLASH] + Encode(from[0].key);
      } else {
        DiffMembersPrefix(path, from, to[1..], caseSensitive, bound);
        PrefixCons(path, Edit(Add, [] + [SLASH] + Encode(to[0].key), Some(to[0].value)),
                   DiffMembers([], from, to[1..], caseSensitive, bound));
        assert path + ([] + [SLASH] + Encode(to[0].key)) == path + [SLASH] + Encode(to[0].key);
      }
    }
  }

  // ----- a generated list of edits either replaces the node or stays inside it

  ghost predicate Inside(edits: seq<Edit>) {
    forall i :: 0 <= i < |edits| ==>
      Generated(edits[i].op) && |edits[i].path| > 0 && edits[i].path[0] == SLASH
  }

  ghost predicate Whole(edits: seq<Edit>, to: Json) {
    edits == [Edit(Replace, [], Some(to))]
  }

  lemma WholeBelow(path: bytes, edits: seq<Edit>, to: Json)
    requires Whole(edits, to)
    ensures edits != [] && Prefix(path, edits) == [Edit(Replace, path, Some(to))]
  {
    assert path + [] == path;
  }

  lemma InsideBelow(token: bytes, edits: seq<Edit>, to: Json)
    requires Inside(edits) || Whole(edits, to)
    ensures Inside(Prefix([] + [SLASH] + token, edits))
  {
  }

  lemma {:induction false} DiffShape(from: Json, to: Json, caseSensitive: bool)
    ensures Inside(Diff([], from, to, caseSensitive)) || Whole(Diff([], from, to, caseSensitive), to)
    decreases from, 1
  {
    if SameType(from, to) {
      match from {
        case Array(items) =>
          DiffItemsShape(items, to.items, 0, caseSensitive);
        case Object(members) =>
          SortWithin(members, caseSensitive);
          DiffMembersShape(SortSeq(members, caseSensitive), SortSeq(to.members, caseSensitive), caseSensitive, from);
        case _ =>
      }
    }
  }

  lemma {:induction false} DiffBelowShape(token: bytes, from: Json, to: Json, caseSensitive: bool)
    ensures Inside(Diff([] + [SLASH] + token, from, to, caseSensitive))
    decreases from, 2
  {
    DiffShape(from, to, caseSensitive);
    DiffPrefix([] + [SLASH] + token, from, to, caseSensitive);
    InsideBelow(token, Diff([], from, to, caseSensitive), to);
  }

  lemma {:induction false} DiffItemsShape(from: seq<Json>, to: seq<Json>, index: nat, caseSensitive: bool)
    ensures Inside(DiffItems([], from, to, index, caseSensitive))
    decreases from, 0, |to|
  {
    if from != [] && to != [] {
      DiffBelowShape(Decimal(index), from[0], to[0], caseSensitive);
      DiffItemsShape(from[1..], to[1..], index + 1, caseSensitive);
    } else if from != [] {
      DiffItemsShape(from[1..], [], index, caseSensitive);
    } else if to != [] {
      DiffItemsShape([], to[1..], index + 1, caseSensitive);
    }
  }

  lemma {:induction false} DiffMembersShape(from: seq<Member>, to: seq<Member>, caseSensitive: bool, bound: Json)
    requires Within(from, bound)
    ensures Inside(DiffMembers([], from, to, caseSensitive, bound))
    decreases bound, 0, |from| + |to|
  {
    if from == [] && to == [] {
    } else {
      var diff := if from == [] then 1
                  else if to == [] then -1
                  else CompareStrings(from[0].key, to[0].key, caseSensitive);
      if diff == 0 {
        DiffBelowShape(Encode(from[0].key), from[0].value, to[0].value, caseSensitive);
        DiffMembersShape(from[1..], to[1..], caseSensitive, bound);
      } else if diff < 0 {
        DiffMembersShape(from[1..], to, caseSensitive, bound);
      } else {
        DiffMembersShape(from, to[1..], caseSensitive, bound);
      }
    }
  }

  // ----- an edit below a token is an edit of that child

  /** Whatever pointer follows, this token selects child `i`. */
  ghost predicate Names(v: Json, token: bytes, i: nat, caseSensitive: bool) {
    && i < |Children(v)|
    && SLASH !in token
    && forall rest :: AtBoundary(rest) ==> Select(v, token + rest, caseSensitive) == Some(i)
  }

  lemma NamesAfterUpdate(v: Json, token: bytes, i: nat, c: Json, caseSensitive: bool)
    requires Names(v, token, i, caseSensitive)
    ensures Names(WithChild(v, i, c), token, i, caseSensitive)
  {
    var w := WithChild(v, i, c);
    forall rest | AtBoundary(rest) ensures Select(w, token + rest, caseSensitive) == Some(i) {
      assert Select(v, token + rest, caseSensitive) == Some(i);
      match v {
        case Array(items) =>
        case Object(members) =>
          assert FindMatch(members, token + rest, caseSensitive) == i;
          assert forall j :: 0 <= j < |members| ==> w.members[j].key == members[j].key;
          assert FindMatch(w.members, token + rest, caseSensitive) == i;
      }
    }
  }

  lemma WithChildFacts(v: Json, i: nat, c: Json, d: Json)
    requires i < |Children(v)|
    ensures |Children(WithChild(v, i, c))| == |Children(v)|
    ensures Children(WithChild(v, i, c))[i] == c
    ensures WithChild(WithChild(v, i, c), i, d) == WithChild(v, i, d)
    ensures WithChild(v, i, Children(v)[i]) == v
  {
  }

  lemma {:induction false} LastSlashBelow(a: bytes, q: bytes)
    requires |q| > 0 && q[0] == SLASH
    ensures LastSlash(q) >= 0
    ensures LastSlash(a + q) == |a| + LastSlash(q)
    decreases |q|
  {
    assert (a + q)[|a + q| - 1] == q[|q| - 1];
    if q[|q| - 1] != SLASH {
      assert |q| > 1;
      assert (a + q)[..|a + q| - 1] == a + q[..|q| - 1];
      LastSlashBelow(a, q[..|q| - 1]);
    }
  }

  /** The two halves `strrchr` splits a path below a token into. */
  lemma SplitBelow(token: bytes, q: bytes, path: bytes)
    requires |q| > 0 && q[0] == SLASH && path == [SLASH] + token + q
    ensures 0 <= LastSlash(q) && LastSlash(path) == 1 + |token| + LastSlash(q)
    ensures path[..LastSlash(path)] == [SLASH] + token + q[..LastSlash(q)]
    ensures path[LastSlash(path) + 1..] == q[LastSlash(q) + 1..]
    ensures AtBoundary(q[..LastSlash(q)])
  {
    var a := [SLASH] + token;
    LastSlashBelow(a, q);
    hide LastSlash;
    var j := LastSlash(q);
    assert (a + q)[..|a| + j] == a + q[..j];
    assert (a + q)[|a| + j + 1..] == q[j + 1..];
  }

  lemma ResolveBelow(v: Json, token: bytes, i: nat, rest: bytes, caseSensitive: bool)
    requires Names(v, token, i, caseSensitive) && AtBoundary(rest)
    ensures var r := Resolve(v, [SLASH] + token + rest, caseSensitive);
            var s := Resolve(Children(v)[i], rest, caseSensitive);
            if s.None? then r.None? else r == Some([i] + s.value)
  {
    var pointer := [SLASH] + token + rest;
    assert pointer[1..] == token + rest;
    SkipTokenOver(token, rest);
  }

  lemma PutBelow(v: Json, i: nat, p: Path, x: Json)
    requires i < |Children(v)| && ValidPath(Children(v)[i], p)
    ensures ValidPath(v, [i] + p)
    ensures At(v, [i] + p) == At(Children(v)[i], p)
    ensures Put(v, [i] + p, x) == WithChild(v, i, Put(Children(v)[i], p, x))
  {
    assert ([i] + p)[1..] == p;
  }

  lemma DetachAtBelow(v: Json, token: bytes, i: nat, rest: bytes, name: bytes, caseSensitive: bool)
    requires Names(v, token, i, caseSensitive) && AtBoundary(rest)
    ensures var d := DetachAt(v, [SLASH] + token + rest, name, caseSensitive);
            var e := DetachAt(Children(v)[i], rest, name, caseSensitive);
            d.item == e.item && d.rest == WithChild(v, i, e.rest)
  {
    ResolveBelow(v, token, i, rest, caseSensitive);
    var child := Children(v)[i];
    match Resolve(child, rest, caseSensitive) {
      case None =>
        WithChildFacts(v, i, child, child);
      case Some(p) =>
        PutBelow(v, i, p, DetachChild(At(child, p), name).rest);
    }
  }

  /** Both halves of a path below a token, as the two editing steps see them. */
  lemma PathsBelow(v: Json, token: bytes, q: bytes, path: bytes, value: Json, caseSensitive: bool)
    requires |q| > 0 && q[0] == SLASH && path == [SLASH] + token + q
    ensures 0 <= LastSlash(q) && AtBoundary(q[..LastSlash(q)])
    ensures DetachPath(v, path, caseSensitive)
            == DetachAt(v, [SLASH] + token + q[..LastSlash(q)], DecodeInPlace(q[LastSlash(q) + 1..]), caseSensitive)
    ensures InsertPath(v, path, value, caseSensitive)
            == InsertAt(v, [SLASH] + token + q[..LastSlash(q)], DecodeInPlace(q[LastSlash(q) + 1..]), value, caseSensitive)
  {
    hide DetachAt, InsertAt, DecodeInPlace, LastSlash;
    SplitBelow(token, q, path);
    hide AtBoundary;
    PathParts(v, path, value, caseSensitive);
  }

  lemma PathParts(v: Json, path: bytes, value: Json, caseSensitive: bool)
    requires LastSlash(path) >= 0
    ensures var i := LastSlash(path);
            DetachPath(v, path, caseSensitive) == DetachAt(v, path[..i], DecodeInPlace(path[i + 1..]), caseSensitive) &&
            InsertPath(v, path, value, caseSensitive) == InsertAt(v, path[..i], DecodeInPlace(path[i + 1..]), value, caseSensitive)
  {
    hide DetachAt, InsertAt, DecodeInPlace, LastSlash;
  }

  lemma DetachBelow(v: Json, token: bytes, i: nat, q: bytes, caseSensitive: bool)
    requires Names(v, token, i, caseSensitive) && |q| > 0 && q[0] == SLASH
    ensures var d := DetachPath(v, [SLASH] + token + q, caseSensitive);
            var e := DetachPath(Children(v)[i], q, caseSensitive);
            d.item == e.item && d.rest == WithChild(v, i, e.rest)
  {
    hide DetachAt, DecodeInPlace, LastSlash, Names;
    PathsBelow(v, token, q, [SLASH] + token + q, Null, caseSensitive);
    var j := LastSlash(q);
    DetachAtBelow(v, token, i, q[..j], DecodeInPlace(q[j + 1..]), caseSensitive);
  }

  lemma InsertAtBelow(v: Json, token: bytes, i: nat, rest: bytes, name: bytes, value: Json, caseSensitive: bool)
    requires Names(v, token, i, caseSensitive) && AtBoundary(rest)
    ensures var d := InsertAt(v, [SLASH] + token + rest, name, value, caseSensitive);
            var e := InsertAt(Children(v)[i], rest, name, value, caseSensitive);
            d.status == e.status && d.root == WithChild(v, i, e.root)
  {
    ResolveBelow(v, token, i, rest, caseSensitive);
    var child := Children(v)[i];
    match Resolve(child, rest, caseSensitive) {
      case None =>
        WithChildFacts(v, i, child, child);
      case Some(p) =>
        PutBelow(v, i, p, InsertChild(At(child, p), name, value, caseSensitive).root);
    }
  }

  lemma InsertBelow(v: Json, token: bytes, i: nat, q: bytes, value: Json, caseSensitive: bool)
    requires Names(v, token, i, caseSensitive) && |q| > 0 && q[0] == SLASH
    ensures var d := InsertPath(v, [SLASH] + token + q, value, caseSensitive);
            var e := InsertPath(Children(v)[i], q, value, caseSensitive);
            d.status == e.status && d.root == WithChild(v, i, e.root)
  {
    hide InsertAt, DecodeInPlace, LastSlash, Names;
    PathsBelow(v, token, q, [SLASH] + token + q, value, caseSensitive);
    var j := LastSlash(q);
    InsertAtBelow(v, token, i, q[..j], DecodeInPlace(q[j + 1..]), value, caseSensitive);
  }

  lemma EditBelow(v: Json, token: bytes, i: nat, e: Edit, caseSensitive: bool)
    requires Names(v, token, i, caseSensitive)
    requires Generated(e.op) && |e.path| > 0 && e.path[0] == SLASH
    ensures var r := ApplyEdit(v, e.op, [SLASH] + token + e.path, e.value, None, caseSensitive);
            var s := ApplyEdit(Children(v)[i], e.op, e.path, e.value, None, caseSensitive);
            r.status == s.status && r.root == WithChild(v, i, s.root)
  {
    hide DetachPath, InsertPath, WithChild;
    var child := Children(v)[i];
    WithChildFacts(v, i, child, child);
    if e.op == Add {
      if e.value.Some? {
        InsertBelow(v, token, i, e.path, e.value.value, caseSensitive);
      }
    } else {
      DetachBelow(v, token, i, e.path, caseSensitive);
      var d := DetachPath(child, e.path, caseSensitive);
      if e.op == Replace && d.item.Some? && e.value.Some? {
        var w := WithChild(v, i, d.rest);
        NamesAfterUpdate(v, token, i, d.rest, caseSensitive);
        InsertBelow(w, token, i, e.path, e.value.value, caseSensitive);
        var s := InsertPath(d.rest, e.path, e.value.value, caseSensitive);
        WithChildFacts(v, i, d.rest, s.root);
      }
    }
  }

  /** Edits that stay inside a child, run below its token, change that child and nothing else. */
  lemma {:induction false} EditsBelow(v: Json, token: bytes, i: nat, edits: seq<Edit>, caseSensitive: bool)
    requires Names(v, token, i, caseSensitive) && Inside(edits)
    requires ApplyEdits(Children(v)[i], edits, caseSensitive).status == 0
    ensures ApplyEdits(v, Prefix([SLASH] + token, edits), caseSensitive)
            == Outcome(0, WithChild(v, i, ApplyEdits(Children(v)[i], edits, caseSensitive).root))
    decreases |edits|
  {
    var child := Children(v)[i];
    WithChildFacts(v, i, child, child);
    if edits != [] {
      EditBelow(v, token, i, edits[0], caseSensitive);
      var s := ApplyEdit(child, edits[0].op, edits[0].path, edits[0].value, None, caseSensitive);
      var w := WithChild(v, i, s.root);
      NamesAfterUpdate(v, token, i, s.root, caseSensitive);
      EditsBelow(w, token, i, edits[1..], caseSensitive);
      WithChildFacts(v, i, s.root, ApplyEdits(child, edits, caseSensitive).root);
      assert Prefix([SLASH] + token, edits)[1..] == Prefix([SLASH] + token, edits[1..]);
    }
  }

  // ----- edits of a container's own children

  lemma TopEdits(v: Json, token: bytes, value: Json, caseSensitive: bool)
    requires SLASH !in token
    ensures DetachPath(v, [SLASH] + token, caseSensitive) == DetachChild(v, DecodeInPlace(token))
    ensures InsertPath(v, [SLASH] + token, value, caseSensitive)
            == InsertChild(v, DecodeInPlace(token), value, caseSensitive)
  {
    hide DetachChild, InsertChild, DecodeInPlace;
    TopSlash(token);
    var path := [SLASH] + token;
    assert path[..0] == [] && path[0 + 1..] == token;
  }

  lemma {:induction false} TopSlash(token: bytes)
    requires SLASH !in token
    ensures LastSlash([SLASH] + token) == 0
    decreases |token|
  {
    var path := [SLASH] + token;
    if token != [] {
      assert path[|path| - 1] == token[|token| - 1] && token[|token| - 1] in token;
      assert path[..|path| - 1] == [SLASH] + token[..|token| - 1];
      TopSlash(token[..|token| - 1]);
    }
  }

  lemma PlainToken(token: bytes)
    requires EscapeFree(token)
    ensures Encode(token) == token && DecodeInPlace(token) == token
  {
    EncodeEscapeFree(token);
    DecodePlain(token, 0);
  }

  lemma IndexToken(i: nat)
    ensures EscapeFree(Decimal(i))
  {
    DecimalRoundTrip(i);
  }

  /** What the three generated operations do to an array. */
  lemma ArrayEdits(items: seq<Json>, i: nat, value: Json, caseSensitive: bool)
    requires i < WORD
    ensures i < |items| ==>
              ApplyEdit(Array(items), Remove, [SLASH] + Decimal(i), None, None, caseSensitive)
              == Outcome(0, Array(Without(items, i)))
    ensures i < |items| ==>
              ApplyEdit(Array(items), Replace, [SLASH] + Decimal(i), Some(value), None, caseSensitive)
              == Outcome(0, Array(items[i := value]))
    ensures ApplyEdit(Array(items), Add, [SLASH, MINUS], Some(value), None, caseSensitive)
            == Outcome(0, Array(items + [value]))
  {
    hide ApplyEdit, Decimal;
    if i < |items| {
      ArrayAt(items, i, value, caseSensitive);
    }
    ArrayGrows(items, value, caseSensitive);
  }

  lemma ArrayAt(items: seq<Json>, i: nat, value: Json, caseSensitive: bool)
    requires i < |items| && i < WORD
    ensures ApplyEdit(Array(items), Remove, [SLASH] + Decimal(i), None, None, caseSensitive) == Outcome(0, Array(Without(items, i)))
    ensures ApplyEdit(Array(items), Replace, [SLASH] + Decimal(i), Some(value), None, caseSensitive)
            == Outcome(0, Array(items[i := value]))
  {
    hide Decimal, DetachPath, InsertPath, DecodeArrayIndex, DecodeInPlace;
    DecodeDecimal(i, []);
    assert Decimal(i) + [] == Decimal(i);
    IndexToken(i);
    PlainToken(Decimal(i));
    TopEdits(Array(items), Decimal(i), value, caseSensitive);
    var rest := Without(items, i);
    TopEdits(Array(rest), Decimal(i), value, caseSensitive);
    assert rest[..i] + [value] + rest[i..] == items[i := value];
  }

  lemma ArrayGrows(items: seq<Json>, value: Json, caseSensitive: bool)
    ensures ApplyEdit(Array(items), Add, [SLASH, MINUS], Some(value), None, caseSensitive) == Outcome(0, Array(items + [value]))
  {
    hide DetachPath, InsertPath, DecodeArrayIndex, DecodeInPlace;
    PlainToken([MINUS]);
    TopEdits(Array(items), [MINUS], value, caseSensitive);
    assert [SLASH] + [MINUS] == [SLASH, MINUS];
  }

  lemma NamesIndex(items: seq<Json>, i: nat, caseSensitive: bool)
    requires i < |items| <= WORD
    ensures Names(Array(items), Decimal(i), i, caseSensitive)
  {
    hide Decimal, DecodeArrayIndex;
    IndexToken(i);
    forall rest | AtBoundary(rest) ensures Select(Array(items), Decimal(i) + rest, caseSensitive) == Some(i) {
      DecodeDecimal(i, rest);
    }
  }

  /** The keys that patch paths can carry: intact in their escape, and not confused by case. */
  ghost predicate PatchableKeys(keys: iset<bytes>) {
    FoldInjective(keys) && forall k :: k in keys ==> HoldsStill(k)
  }

  lemma NamesKey(members: seq<Member>, i: nat, caseSensitive: bool, keys: iset<bytes>)
    requires HasKeys(members, keys) && FoldInjective(keys) && i < |members|
    ensures Names(Object(members), Encode(members[i].key), i, caseSensitive)
  {
    hide Encode, ComparePointers;
    var token := Encode(members[i].key);
    EncodeShape(members[i].key);
    forall rest | AtBoundary(rest) ensures Select(Object(members), token + rest, caseSensitive) == Some(i) {
      forall j | 0 <= j < |members| ensures ComparePointers(members[j].key, token + rest, caseSensitive) <==> j == i {
        CompareEncoded(members[j].key, members[i].key, rest, caseSensitive);
        DistinctPositions(members, i, j);
      }
      assert FindMatch(members, token + rest, caseSensitive) == i;
    }
  }

  lemma DistinctPositions(members: seq<Member>, i: nat, j: nat)
    requires DistinctKeys(members) && i < |members| && j < |members|
    ensures members[i].key == members[j].key <==> i == j
  {
    if i < j {
      assert members[i].key != members[j].key;
    } else if j < i {
      assert members[j].key != members[i].key;
    }
  }

  /** Removing member `i` by its name. */
  lemma ObjectRemove(members: seq<Member>, i: nat, caseSensitive: bool, keys: iset<bytes>)
    requires HasKeys(members, keys) && PatchableKeys(keys) && i < |members|
    ensures DetachPath(Object(members), [SLASH] + Encode(members[i].key), caseSensitive)
            == Detached(Some(members[i].value), Object(Without(members, i)))
  {
    hide Encode, DecodeInPlace, DetachPath, FindKey;
    var k := members[i].key;
    EncodeShape(k);
    assert HoldsStill(k);
    SurvivesExactly(k);
    TopEdits(Object(members), Encode(k), Null, caseSensitive);
    assert k in KeysOf(members) by {
      assert members[i] in members;
    }
    FindKeyExact(members, k, false, keys);
    DistinctPositions(members, i, FindKey(members, k, false));
  }

  /** Adding a member with a new name. */
  lemma ObjectAdd(members: seq<Member>, x: Member, caseSensitive: bool, keys: iset<bytes>)
    requires HasKeys(members, keys) && PatchableKeys(keys) && x.key in keys && x.key !in KeysOf(members)
    ensures InsertPath(Object(members), [SLASH] + Encode(x.key), x.value, caseSensitive)
            == Outcome(0, Object(members + [x]))
  {
    hide Encode, DecodeInPlace, InsertPath, FindKey;
    EncodeShape(x.key);
    assert HoldsStill(x.key);
    SurvivesExactly(x.key);
    TopEdits(Object(members), Encode(x.key), x.value, caseSensitive);
    FindKeyExact(members, x.key, caseSensitive, keys);
  }

  // ----- the round trip

  /** Running these edits on `v` succeeds and leaves a tree that means the same as `to`. */
  ghost predicate Reaches(v: Json, edits: seq<Edit>, to: Json, caseSensitive: bool) {
    var r := ApplyEdits(v, edits, caseSensitive);
    r.status == 0 && Denote(r.root) == Denote(to)
  }

  lemma ApplyOne(v: Json, e: Edit, caseSensitive: bool)
    ensures ApplyEdits(v, [e], caseSensitive) == ApplyEdit(v, e.op, e.path, e.value, None, caseSensitive)
  {
    hide ApplyEdit;
    var r := ApplyEdit(v, e.op, e.path, e.value, None, caseSensitive);
    assert [e][1..] == [];
    assert r == Outcome(r.status, r.root);
  }

  /** The edits generated for one array element turn that element into its new value, in place. */
  lemma ElementEdits(items: seq<Json>, i: nat, to: Json, caseSensitive: bool) returns (c: Json)
    requires i < |items| <= WORD
    requires Reaches(items[i], Diff([], items[i], to, caseSensitive), to, caseSensitive)
    ensures ApplyEdits(Array(items), Diff([] + [SLASH] + Decimal(i), items[i], to, caseSensitive), caseSensitive)
            == Outcome(0, Array(items[i := c]))
    ensures Denote(c) == Denote(to)
  {
    hide Diff, Decimal, Denote, Names, ApplyEdit, Prefix;
    var edits := Diff([], items[i], to, caseSensitive);
    var path := [SLASH] + Decimal(i);
    assert [] + [SLASH] + Decimal(i) == path;
    DiffPrefix(path, items[i], to, caseSensitive);
    DiffShape(items[i], to, caseSensitive);
    if Whole(edits, to) {
      WholeBelow(path, edits, to);
      ApplyOne(Array(items), Edit(Replace, path, Some(to)), caseSensitive);
      ArrayEdits(items, i, to, caseSensitive);
      c := to;
    } else {
      NamesIndex(items, i, caseSensitive);
      EditsBelow(Array(items), Decimal(i), i, edits, caseSensitive);
      c := ApplyEdits(items[i], edits, caseSensitive).root;
    }
  }

  /** What the edits for one member leave of an object: the new value under that key, the other members untouched. */
  ghost predicate MemberSet(before: seq<Member>, after: seq<Member>, key: bytes, to: Json, keys: iset<bytes>) {
    && HasKeys(after, keys)
    && DenoteMembers(after) == DenoteMembers(before)[key := Denote(to)]
    && KeysOf(after) == KeysOf(before)
    && forall x :: x in before && x.key != key ==> x in after
  }

  lemma MemberReplaced(members: seq<Member>, i: nat, to: Json, keys: iset<bytes>)
    requires HasKeys(members, keys) && i < |members|
    ensures MemberSet(members, Without(members, i) + [Keyed(members[i].key, to)], members[i].key, to, keys)
  {
    hide Denote, DenoteMembers, Without, KeysOf;
    var k := members[i].key;
    var rest := Without(members, i);
    WithoutHasKeys(members, i, keys);
    DenoteMembersWithout(members, i);
    DenoteMembersAppend(rest, Keyed(k, to));
    AppendHasKeys(rest, Keyed(k, to), keys);
    var after := rest + [Keyed(k, to)];
    KeyIn(members, members[i]);
    DenoteMembersDomain(members);
    assert DenoteMembers(after) == DenoteMembers(members)[k := Denote(to)];
  }

  lemma MemberUpdated(members: seq<Member>, i: nat, c: Json, to: Json, keys: iset<bytes>)
    requires HasKeys(members, keys) && i < |members| && Denote(c) == Denote(to)
    ensures MemberSet(members, members[i := Keyed(members[i].key, c)], members[i].key, to, keys)
  {
    hide Denote;
    DenoteMembersUpdate(members, i, c);
    var after := members[i := Keyed(members[i].key, c)];
    forall x | x in members && x.key != members[i].key ensures x in after {
      var j :| 0 <= j < |members| && members[j] == x;
      assert after[j] == x;
    }
  }

  lemma ReplaceMember(members: seq<Member>, i: nat, to: Json, caseSensitive: bool, keys: iset<bytes>)
    requires HasKeys(members, keys) && PatchableKeys(keys) && i < |members|
    ensures ApplyEdit(Object(members), Replace, [SLASH] + Encode(members[i].key), Some(to), None, caseSensitive)
            == Outcome(0, Object(Without(members, i) + [Keyed(members[i].key, to)]))
  {
    assert members[i].key in keys;
    hide Encode, DetachPath, InsertPath, HasKeys, PatchableKeys;
    ObjectRemove(members, i, caseSensitive, keys);
    WithoutHasKeys(members, i, keys);
    ObjectAdd(Without(members, i), Keyed(members[i].key, to), caseSensitive, keys);
  }

  lemma MemberEdits(members: seq<Member>, i: nat, to: Json, caseSensitive: bool, keys: iset<bytes>)
    returns (after: seq<Member>)
    requires HasKeys(members, keys) && PatchableKeys(keys) && i < |members|
    requires Reaches(members[i].value, Diff([], members[i].value, to, caseSensitive), to, caseSensitive)
    ensures ApplyEdits(Object(members),
                       Diff([] + [SLASH] + Encode(members[i].key), members[i].value, to, caseSensitive), caseSensitive)
            == Outcome(0, Object(after))
    ensures MemberSet(members, after, members[i].key, to, keys)
  {
    assert FoldInjective(keys);
    hide Diff, Encode, Denote, Names, ApplyEdit, Prefix, HasKeys, PatchableKeys, FoldInjective, MemberSet;
    var from := members[i].value;
    var edits := Diff([], from, to, caseSensitive);
    var path := [SLASH] + Encode(members[i].key);
    assert [] + [SLASH] + Encode(members[i].key) == path;
    DiffPrefix(path, from, to, caseSensitive);
    DiffShape(from, to, caseSensitive);
    if Whole(edits, to) {
      WholeBelow(path, edits, to);
      ApplyOne(Object(members), Edit(Replace, path, Some(to)), caseSensitive);
      ReplaceMember(members, i, to, caseSensitive, keys);
      after := Without(members, i) + [Keyed(members[i].key, to)];
      MemberReplaced(members, i, to, keys);
    } else {
      NamesKey(members, i, caseSensitive, keys);
      EditsBelow(Object(members), Encode(members[i].key), i, edits, caseSensitive);
      var c := ApplyEdits(from, edits, caseSensitive).root;
      after := members[i := Keyed(members[i].key, c)];
      MemberUpdated(members, i, c, to, keys);
    }
  }

  /** Running the edits for the elements from `|done|` on. */
  ghost predicate ItemsReach(done: seq<Json>, from: seq<Json>, to: seq<Json>, caseSensitive: bool) {
    var r := ApplyEdits(Array(done + from), DiffItems([], from, to, |done|, caseSensitive), caseSensitive);
    r.status == 0 && r.root.Array? && DenoteItems(r.root.items) == DenoteItems(done + to)
  }

  lemma KeepElement(done: seq<Json>, from: seq<Json>, to: seq<Json>, c: Json, caseSensitive: bool)
    requires from != [] && to != []
    requires ApplyEdits(Array(done + from), Diff([] + [SLASH] + Decimal(|done|), from[0], to[0], caseSensitive), caseSensitive)
             == Outcome(0, Array((done + from)[|done| := c]))
    requires Denote(c) == Denote(to[0])
    requires ItemsReach(done + [c], from[1..], to[1..], caseSensitive)
    ensures ItemsReach(done, from, to, caseSensitive)
  {
    hide Diff, Denote, Decimal, ApplyEdit;
    var items, n := done + from, |done|;
    assert items[n := c] == (done + [c]) + from[1..];
    ApplyConcat(Array(items), Diff([] + [SLASH] + Decimal(n), from[0], to[0], caseSensitive),
                DiffItems([], from[1..], to[1..], n + 1, caseSensitive), caseSensitive);
    assert DenoteItems((done + [c]) + to[1..]) == DenoteItems(done + to);
  }

  lemma RemoveElement(done: seq<Json>, from: seq<Json>, caseSensitive: bool)
    requires from != [] && |done| < WORD
    requires ItemsReach(done, from[1..], [], caseSensitive)
    ensures ItemsReach(done, from, [], caseSensitive)
  {
    hide Diff, Denote, Decimal, Encode, ApplyEdit;
    var items, n := done + from, |done|;
    ArrayEdits(items, n, Null, caseSensitive);
    IndexToken(n);
    PlainToken(Decimal(n));
    var e := Edit(Remove, [] + [SLASH] + Encode(Decimal(n)), None);
    assert e.path == [SLASH] + Decimal(n);
    ApplyOne(Array(items), e, caseSensitive);
    assert Without(items, n) == done + from[1..];
    ApplyConcat(Array(items), [e], DiffItems([], from[1..], [], n, caseSensitive), caseSensitive);
  }

  lemma AddElement(done: seq<Json>, to: seq<Json>, caseSensitive: bool)
    requires to != []
    requires ItemsReach(done + [to[0]], [], to[1..], caseSensitive)
    ensures ItemsReach(done, [], to, caseSensitive)
  {
    hide Diff, Denote, Decimal, Encode, ApplyEdit;
    var items := done + [];
    ArrayEdits(items, 0, to[0], caseSensitive);
    PlainToken([MINUS]);
    var e := Edit(Add, [] + [SLASH] + Encode([MINUS]), Some(to[0]));
    assert e.path == [SLASH, MINUS];
    ApplyOne(Array(items), e, caseSensitive);
    assert items + [to[0]] == (done + [to[0]]) + [];
    ApplyConcat(Array(items), [e], DiffItems([], [], to[1..], |done| + 1, caseSensitive), caseSensitive);
    assert (done + [to[0]]) + to[1..] == done + to;
  }

  lemma {:induction false} ItemsRoundTrip(done: seq<Json>, from: seq<Json>, to: seq<Json>, caseSensitive: bool,
                                          keys: iset<bytes>)
    requires from != [] ==> |done| + |from| <= WORD
    requires forall i :: 0 <= i < |from| ==> Tidy(from[i], keys)
    requires forall i :: 0 <= i < |to| ==> Tidy(to[i], keys)
    requires PatchableKeys(keys)
    ensures ItemsReach(done, from, to, caseSensitive)
    decreases from, 0, |to|
  {
    hide Diff, Denote, Decimal, Tidy, PatchableKeys, Reaches;
    if from != [] && to != [] {
      assert (done + from)[|done|] == from[0];
      NodeRoundTrip(from[0], to[0], caseSensitive, keys);
      var c := ElementEdits(done + from, |done|, to[0], caseSensitive);
      ItemsRoundTrip(done + [c], from[1..], to[1..], caseSensitive, keys);
      KeepElement(done, from, to, c, caseSensitive);
    } else if from != [] {
      assert to == [];
      ItemsRoundTrip(done, from[1..], [], caseSensitive, keys);
      RemoveElement(done, from, caseSensitive);
    } else if to != [] {
      assert from == [];
      ItemsRoundTrip(done + [to[0]], [], to[1..], caseSensitive, keys);
      AddElement(done, to, caseSensitive);
    } else {
      assert done + from == done && done + to == done;
    }
  }

  /** The state of an object while the two sorted member lists are walked: the members of `from` are still to be
      treated, the keys of `to` still to be reached, and every other key of the object is settled. */
  ghost predicate Pending(members: seq<Member>, from: seq<Member>, to: seq<Member>, caseSensitive: bool, keys: iset<bytes>) {
    && HasKeys(members, keys) && (forall x :: x in from ==> x in members)
    && TidyMembers(from, keys) && StrictlySorted(from, caseSensitive)
    && TidyMembers(to, keys) && StrictlySorted(to, caseSensitive)
    && forall k :: k in KeysOf(to) && k in KeysOf(members) ==> k in KeysOf(from)
  }

  /** The meaning the object will have at the end of the walk. */
  ghost function Goal(members: seq<Member>, from: seq<Member>, to: seq<Member>): map<bytes, Value> {
    (DenoteMembers(members) - KeysOf(from)) + DenoteMembers(to)
  }

  lemma Tail(s: seq<Member>, caseSensitive: bool, keys: iset<bytes>)
    requires s != [] && TidyMembers(s, keys) && StrictlySorted(s, caseSensitive)
    ensures TidyMembers(s[1..], keys) && StrictlySorted(s[1..], caseSensitive)
    ensures KeysOf(s) == {s[0].key} + KeysOf(s[1..]) && s[0].key !in KeysOf(s[1..])
    ensures DenoteMembers(s) == DenoteMembers(s[1..])[s[0].key := Denote(s[0].value)]
    ensures DenoteMembers(s[1..]).Keys == KeysOf(s[1..])
  {
    hide Tidy, StrCmp, Denote;
    assert s == [s[0]] + s[1..];
    forall x | x in s[1..] ensures x.key != s[0].key {
      var i :| 0 <= i < |s[1..]| && s[1..][i] == x;
      assert s[0].key != s[i + 1].key;
    }
    DenoteMembersDomain(s[1..]);
  }

  lemma GoalSet(m: map<bytes, Value>, from: set<bytes>, from': set<bytes>, to: map<bytes, Value>, to': map<bytes, Value>,
                k: bytes, v: Value)
    requires from == {k} + from' && k !in from' && k !in to' && to == to'[k := v]
    ensures (m[k := v] - from') + to' == (m - from) + to
  {
  }

  lemma GoalRemoved(m: map<bytes, Value>, from: set<bytes>, from': set<bytes>, to: map<bytes, Value>, k: bytes)
    requires from == {k} + from'
    ensures ((m - {k}) - from') + to == (m - from) + to
  {
  }

  lemma GoalAdded(m: map<bytes, Value>, from: set<bytes>, to: map<bytes, Value>, to': map<bytes, Value>, k: bytes, v: Value)
    requires k !in from && k !in to' && to == to'[k := v]
    ensures (m[k := v] - from) + to' == (m - from) + to
  {
  }

  lemma PendingSet(members: seq<Member>, after: seq<Member>, from: seq<Member>, to: seq<Member>, caseSensitive: bool, keys: iset<bytes>)
    requires Pending(members, from, to, caseSensitive, keys) && from != [] && to != [] && from[0].key == to[0].key
    requires MemberSet(members, after, to[0].key, to[0].value, keys)
    ensures Pending(after, from[1..], to[1..], caseSensitive, keys)
    ensures Goal(after, from[1..], to[1..]) == Goal(members, from, to)
  {
    Tail(from, caseSensitive, keys);
    Tail(to, caseSensitive, keys);
    hide TidyMembers, StrictlySorted, HasKeys, Denote, DenoteMembers, KeysOf;
    forall x | x in from[1..] ensures x in after {
      assert x in from;
      KeyIn(from[1..], x);
    }
    GoalSet(DenoteMembers(members), KeysOf(from), KeysOf(from[1..]), DenoteMembers(to), DenoteMembers(to[1..]),
            to[0].key, Denote(to[0].value));
  }

  lemma KeyIn(s: seq<Member>, x: Member)
    requires x in s
    ensures x.key in KeysOf(s)
  {
  }

  lemma PendingRemoved(members: seq<Member>, i: nat, from: seq<Member>, to: seq<Member>, caseSensitive: bool, keys: iset<bytes>)
    requires Pending(members, from, to, caseSensitive, keys) && from != [] && from[0].key !in KeysOf(to)
    requires i < |members| && members[i] == from[0]
    ensures Pending(Without(members, i), from[1..], to, caseSensitive, keys)
    ensures Goal(Without(members, i), from[1..], to) == Goal(members, from, to)
  {
    Tail(from, caseSensitive, keys);
    DenoteMembersWithout(members, i);
    WithoutHasKeys(members, i, keys);
    var after := Without(members, i);
    hide TidyMembers, StrictlySorted, HasKeys, Denote, DenoteMembers, KeysOf, Without;
    forall x | x in from[1..] ensures x in after {
      assert x in from;
      KeyIn(from[1..], x);
    }
    GoalRemoved(DenoteMembers(members), KeysOf(from), KeysOf(from[1..]), DenoteMembers(to), from[0].key);
  }

  lemma PendingAdded(members: seq<Member>, from: seq<Member>, to: seq<Member>, caseSensitive: bool, keys: iset<bytes>)
    requires Pending(members, from, to, caseSensitive, keys) && to != [] && to[0].key !in KeysOf(from)
    ensures to[0].key !in KeysOf(members) && to[0].key in keys
    ensures Pending(members + [to[0]], from, to[1..], caseSensitive, keys)
    ensures Goal(members + [to[0]], from, to[1..]) == Goal(members, from, to)
  {
    Tail(to, caseSensitive, keys);
    assert to[0].key in keys;
    KeyIn(to, to[0]);
    AppendHasKeys(members, to[0], keys);
    DenoteMembersAppend(members, to[0]);
    hide TidyMembers, StrictlySorted, HasKeys, Denote, DenoteMembers, KeysOf;
    GoalAdded(DenoteMembers(members), KeysOf(from), DenoteMembers(to), DenoteMembers(to[1..]), to[0].key, Denote(to[0].value));
  }

  /** A key before the first key of a sorted list is not in it. */
  lemma NotLater(k: bytes, s: seq<Member>, caseSensitive: bool, keys: iset<bytes>)
    requires k in keys && TidyMembers(s, keys) && StrictlySorted(s, caseSensitive)
    requires s != [] ==> CompareStrings(k, s[0].key, caseSensitive) < 0
    ensures k !in KeysOf(s)
  {
    BelowAll(k, s, caseSensitive);
  }

  /** Running the edits for the remaining members reaches the goal. */
  lemma {:induction false} MembersRoundTrip(members: seq<Member>, from: seq<Member>, to: seq<Member>, caseSensitive: bool,
                                            keys: iset<bytes>, bound: Json)
    requires Within(from, bound) && Pending(members, from, to, caseSensitive, keys)
    requires PatchableKeys(keys)
    ensures var r := ApplyEdits(Object(members), DiffMembers([], from, to, caseSensitive, bound), caseSensitive);
            r.status == 0 && r.root.Object? && DenoteMembers(r.root.members) == Goal(members, from, to)
    decreases bound, 0, |from| + |to|
  {
    if from == [] && to == [] {
      assert KeysOf(from) == {};
    } else {
      var diff := if from == [] then 1
                  else if to == [] then -1
                  else CompareStrings(from[0].key, to[0].key, caseSensitive);
      if diff == 0 {
        KeepStep(members, from, to, caseSensitive, keys, bound);
      } else if diff < 0 {
        RemoveStep(members, from, to, caseSensitive, keys, bound);
      } else {
        AddStep(members, from, to, caseSensitive, keys, bound);
      }
    }
  }

  lemma {:induction false} KeepStep(members: seq<Member>, from: seq<Member>, to: seq<Member>, caseSensitive: bool,
                                    keys: iset<bytes>, bound: Json)
    requires Within(from, bound) && Pending(members, from, to, caseSensitive, keys)
    requires PatchableKeys(keys)
    requires from != [] && to != [] && CompareStrings(from[0].key, to[0].key, caseSensitive) == 0
    ensures var r := ApplyEdits(Object(members), DiffMembers([], from, to, caseSensitive, bound), caseSensitive);
            r.status == 0 && r.root.Object? && DenoteMembers(r.root.members) == Goal(members, from, to)
    decreases bound, 0, |from| + |to|, 0
  {
    var f, t := from[0], to[0];
    assert f.key == t.key by {
      StrCmpEqual(f.key, t.key);
      StrCmpEqual(Key(f.key, caseSensitive), Key(t.key, caseSensitive));
    }
    assert f in members && f.value < bound && Tidy(f.value, keys) && Tidy(t.value, keys);
    var i :| 0 <= i < |members| && members[i] == f;
    hide Diff, Denote, Tidy, Encode, PatchableKeys, CompareStrings, Goal, Pending, MemberSet, ApplyEdit;
    NodeRoundTrip(f.value, t.value, caseSensitive, keys);
    assert HasKeys(members, keys) by { PendingHas(members, from, to, caseSensitive, keys); }
    hide HasKeys;
    var after := MemberEdits(members, i, t.value, caseSensitive, keys);
    PendingSet(members, after, from, to, caseSensitive, keys);
    MembersRoundTrip(after, from[1..], to[1..], caseSensitive, keys, bound);
    ApplyConcat(Object(members), Diff([] + [SLASH] + Encode(f.key), f.value, t.value, caseSensitive),
                DiffMembers([], from[1..], to[1..], caseSensitive, bound), caseSensitive);
  }

  lemma PendingHas(members: seq<Member>, from: seq<Member>, to: seq<Member>, caseSensitive: bool, keys: iset<bytes>)
    requires Pending(members, from, to, caseSensitive, keys)
    ensures HasKeys(members, keys)
  {
  }

  lemma RemoveEdit(members: seq<Member>, i: nat, caseSensitive: bool, keys: iset<bytes>)
    requires HasKeys(members, keys) && PatchableKeys(keys) && i < |members|
    ensures ApplyEdits(Object(members), [Edit(Remove, [] + [SLASH] + Encode(members[i].key), None)], caseSensitive)
            == Outcome(0, Object(Without(members, i)))
  {
    hide HasKeys, PatchableKeys, Encode, DetachPath, Without;
    ObjectRemove(members, i, caseSensitive, keys);
    var e := Edit(Remove, [] + [SLASH] + Encode(members[i].key), None);
    assert e.path == [SLASH] + Encode(members[i].key);
    ApplyOne(Object(members), e, caseSensitive);
  }

  lemma AddEdit(members: seq<Member>, x: Member, caseSensitive: bool, keys: iset<bytes>)
    requires HasKeys(members, keys) && PatchableKeys(keys) && x.key in keys && x.key !in KeysOf(members)
    ensures ApplyEdits(Object(members), [Edit(Add, [] + [SLASH] + Encode(x.key), Some(x.value))], caseSensitive)
            == Outcome(0, Object(members + [x]))
  {
    hide HasKeys, PatchableKeys, Encode, InsertPath;
    ObjectAdd(members, x, caseSensitive, keys);
    var e := Edit(Add, [] + [SLASH] + Encode(x.key), Some(x.value));
    assert e.path == [SLASH] + Encode(x.key);
    ApplyOne(Object(members), e, caseSensitive);
  }

  lemma {:induction false} RemoveStep(members: seq<Member>, from: seq<Member>, to: seq<Member>, caseSensitive: bool,
                                      keys: iset<bytes>, bound: Json)
    requires Within(from, bound) && Pending(members, from, to, caseSensitive, keys)
    requires PatchableKeys(keys)
    requires from != [] && (to != [] ==> CompareStrings(from[0].key, to[0].key, caseSensitive) < 0)
    ensures var r := ApplyEdits(Object(members), DiffMembers([], from, to, caseSensitive, bound), caseSensitive);
            r.status == 0 && r.root.Object? && DenoteMembers(r.root.members) == Goal(members, from, to)
    decreases bound, 0, |from| + |to|, 0
  {
    var f := from[0];
    assert f in members && f.key in keys;
    var i :| 0 <= i < |members| && members[i] == f;
    NotLater(f.key, to, caseSensitive, keys);
    PendingHas(members, from, to, caseSensitive, keys);
    hide Diff, Denote, Tidy, Encode, PatchableKeys, CompareStrings, Goal, Pending, HasKeys, ApplyEdit, KeysOf,
      Without;
    PendingRemoved(members, i, from, to, caseSensitive, keys);
    RemoveEdit(members, i, caseSensitive, keys);
    MembersRoundTrip(Without(members, i), from[1..], to, caseSensitive, keys, bound);
    ApplyConcat(Object(members), [Edit(Remove, [] + [SLASH] + Encode(f.key), None)],
                DiffMembers([], from[1..], to, caseSensitive, bound), caseSensitive);
  }

  lemma {:induction false} AddStep(members: seq<Member>, from: seq<Member>, to: seq<Member>, caseSensitive: bool,
                                   keys: iset<bytes>, bound: Json)
    requires Within(from, bound) && Pending(members, from, to, caseSensitive, keys)
    requires PatchableKeys(keys)
    requires to != [] && (from != [] ==> CompareStrings(from[0].key, to[0].key, caseSensitive) > 0)
    ensures var r := ApplyEdits(Object(members), DiffMembers([], from, to, caseSensitive, bound), caseSensitive);
            r.status == 0 && r.root.Object? && DenoteMembers(r.root.members) == Goal(members, from, to)
    decreases bound, 0, |from| + |to|, 0
  {
    var t := to[0];
    assert t.key in keys;
    if from != [] {
      StrCmpAntisymmetric(Key(t.key, caseSensitive), Key(from[0].key, caseSensitive));
    }
    NotLater(t.key, from, caseSensitive, keys);
    PendingHas(members, from, to, caseSensitive, keys);
    hide Diff, Denote, Tidy, Encode, PatchableKeys, CompareStrings, Goal, Pending, HasKeys, ApplyEdit, KeysOf;
    PendingAdded(members, from, to, caseSensitive, keys);
    AddEdit(members, t, caseSensitive, keys);
    MembersRoundTrip(members + [t], from, to[1..], caseSensitive, keys, bound);
    ApplyConcat(Object(members), [Edit(Add, [] + [SLASH] + Encode(t.key), Some(t.value))],
                DiffMembers([], from, to[1..], caseSensitive, bound), caseSensitive);
  }

  lemma {:induction false} NodeRoundTrip(from: Json, to: Json, caseSensitive: bool, keys: iset<bytes>)
    requires Tidy(from, keys) && Tidy(to, keys)
    requires PatchableKeys(keys)
    ensures Reaches(from, Diff([], from, to, caseSensitive), to, caseSensitive)
    decreases from, 1
  {
    var edits := Diff([], from, to, caseSensitive);
    if Whole(edits, to) {
      ApplyOne(from, edits[0], caseSensitive);
    } else {
      match from {
        case Number(d) =>
          SameNumberExact(d, to.d);
        case Array(items) =>
          assert [] + items == items && [] + to.items == to.items;
          ItemsRoundTrip([], items, to.items, caseSensitive, keys);
        case Object(members) =>
          ObjectRoundTrip(members, to.members, caseSensitive, keys);
        case _ =>
      }
    }
  }

  lemma {:induction false} ObjectRoundTrip(from: seq<Member>, to: seq<Member>, caseSensitive: bool, keys: iset<bytes>)
    requires TidyMembers(from, keys) && TidyMembers(to, keys)
    requires PatchableKeys(keys)
    ensures Reaches(Object(from), Diff([], Object(from), Object(to), caseSensitive), Object(to), caseSensitive)
    decreases Object(from), 0, |from| + |to| + 1
  {
    var fs, ts := SortSeq(from, caseSensitive), SortSeq(to, caseSensitive);
    SortWithin(from, caseSensitive);
    StartWalk(from, to, caseSensitive, keys);
    hide SortSeq, TidyMembers, PatchableKeys, Pending, Goal, DiffMembers;
    MembersRoundTrip(from, fs, ts, caseSensitive, keys, Object(from));
  }

  lemma StartWalk(from: seq<Member>, to: seq<Member>, caseSensitive: bool, keys: iset<bytes>)
    requires TidyMembers(from, keys) && TidyMembers(to, keys) && FoldInjective(keys)
    ensures Pending(from, SortSeq(from, caseSensitive), SortSeq(to, caseSensitive), caseSensitive, keys)
    ensures Goal(from, SortSeq(from, caseSensitive), SortSeq(to, caseSensitive)) == DenoteMembers(to)
  {
    hide SortSeq, TidyMembers, StrictlySorted, FoldInjective, Denote, DenoteMembers, HasKeys, KeysOf;
    TidyHasKeys(from, keys);
    SortMembers(from, caseSensitive, keys);
    SortMembers(to, caseSensitive, keys);
    DenoteMembersDomain(from);
    NothingLeft(DenoteMembers(from), DenoteMembers(to));
  }

  lemma NothingLeft(m: map<bytes, Value>, to: map<bytes, Value>)
    ensures (m - m.Keys) + to == to
  {
  }

  /** Applying the patches generated for (`from`, `to`) to `from` succeeds and gives `to` up to member order. */
  ghost predicate RoundTrips(from: Json, to: Json, caseSensitive: bool) {
    var r := ApplyPatches(from, PatchesOf(Diff([], from, to, caseSensitive)), caseSensitive);
    r.status == 0 && Denote(r.root) == Denote(to)
  }

  lemma RoundTripsByEdits(from: Json, to: Json, caseSensitive: bool)
    ensures RoundTrips(from, to, caseSensitive) <==> Reaches(from, Diff([], from, to, caseSensitive), to, caseSensitive)
  {
    var edits := Diff([], from, to, caseSensitive);
    DiffShape(from, to, caseSensitive);
    PatchesPerformEdits(from, edits, caseSensitive);
  }

  /** The patch round trip, in either comparison mode. */
  lemma PatchesRoundTrip(from: Json, to: Json, caseSensitive: bool, keys: iset<bytes>)
    requires Tidy(from, keys) && Tidy(to, keys)
    requires PatchableKeys(keys)
    ensures RoundTrips(from, to, caseSensitive)
  {
    NodeRoundTrip(from, to, caseSensitive, keys);
    RoundTripsByEdits(from, to, caseSensitive);
  }

  /** Lower-case keys without '~' and '/' are safe in both modes. */
  lemma PlainKeysArePatchable()
    ensures PatchableKeys(iset k: bytes | LowerCase(k) && EscapeFree(k))
  {
    var keys := iset k: bytes | LowerCase(k) && EscapeFree(k);
    LowerCaseIsNeutral();
    assert CaseNeutral(keys);
    NeutralIsInjective(keys);
    forall k | k in keys ensures HoldsStill(k) {
      EscapeFreeSurvives(k);
      SurvivesExactly(k);
    }
  }

  // ----- the condition on the keys is exact

  lemma AddOneDiff(k: bytes, caseSensitive: bool)
    ensures Diff([], Object([]), Object([Keyed(k, Null)]), caseSensitive) == [Edit(Add, [SLASH] + Encode(k), Some(Null))]
  {
    hide Encode;
    SortWithin([], caseSensitive);
    var to: seq<Member> := [Keyed(k, Null)];
    var e := Edit(Add, [] + [SLASH] + Encode(k), Some(Null));
    assert e.path == [SLASH] + Encode(k);
    assert to[1..] == [];
    assert DiffMembers([], [], to, caseSensitive, Object([])) == [e] + DiffMembers([], [], [], caseSensitive, Object([]));
    assert SortSeq(to, caseSensitive) == to;
  }

  lemma AddOneKey(k: bytes, caseSensitive: bool)
    ensures RoundTrips(Object([]), Object([Keyed(k, Null)]), caseSensitive) <==> HoldsStill(k)
  {
    hide Diff, Encode, DecodeInPlace, InsertPath, RoundTrips, DenoteMembers, HoldsStill;
    SurvivesExactly(k);
    var from, to := Object([]), Object([Keyed(k, Null)]);
    RoundTripsByEdits(from, to, caseSensitive);
    AddOneDiff(k, caseSensitive);
    EncodeShape(k);
    TopEdits(from, Encode(k), Null, caseSensitive);
    ApplyOne(from, Edit(Add, [SLASH] + Encode(k), Some(Null)), caseSensitive);
    var name := DecodeInPlace(Encode(k));
    assert InsertChild(from, name, Null, caseSensitive) == Outcome(0, Object([Keyed(name, Null)]));
    OneField(name);
    OneField(k);
    assert k in map[k := VNull];
  }

  lemma OneField(k: bytes)
    ensures DenoteMembers([Keyed(k, Null)]) == map[k := VNull]
  {
    assert [Keyed(k, Null)][1..] == [];
  }

  lemma RemoveOneDiff(a: bytes, b: bytes)
    requires StrCmp(a, b) < 0
    ensures Diff([], Object([Keyed(b, Null), Keyed(a, Null)]), Object([Keyed(b, Null)]), true)
            == [Edit(Remove, [SLASH] + Encode(a), None)]
  {
    hide Encode, StrCmp, SortSeq;
    var x, y: Member := Keyed(a, Null), Keyed(b, Null);
    var from := Object([y, x]);
    SortTwo(a, b);
    SortWithin([y, x], true);
    StrCmpEqual(b, b);
    var e := Edit(Remove, [] + [SLASH] + Encode(a), None);
    assert e.path == [SLASH] + Encode(a);
    assert [x, y][1..] == [y] && [y][1..] == [];
    assert Diff([] + [SLASH] + Encode(b), Null, Null, true) == [];
    assert DiffMembers([], [y], [y], true, from) == DiffMembers([], [], [], true, from);
    assert DiffMembers([], [x, y], [y], true, from) == [e] + DiffMembers([], [y], [y], true, from);
  }

  /** With two keys equal up to case, removing one removes whichever comes first. */
  lemma RemoveConfusedKey(a: bytes, b: bytes)
    requires Fold(a) == Fold(b) && StrCmp(a, b) < 0 && HoldsStill(a)
    ensures !RoundTrips(Object([Keyed(b, Null), Keyed(a, Null)]), Object([Keyed(b, Null)]), true)
  {
    assert a != b by { StrCmpEqual(a, b); }
    assert Survives(a) by { SurvivesExactly(a); }
    RemoveOneDiff(a, b);
    hide Diff, Encode, DecodeInPlace, DetachPath, RoundTrips, StrCmp, DenoteMembers;
    var x, y: Member := Keyed(a, Null), Keyed(b, Null);
    var from, to := Object([y, x]), Object([y]);
    RoundTripsByEdits(from, to, true);
    EncodeShape(a);
    TopEdits(from, Encode(a), Null, true);
    ApplyOne(from, Edit(Remove, [SLASH] + Encode(a), None), true);
    assert FindKey([y, x], a, false) == 0;
    assert Without([y, x], 0) == [x];
    OneField(a);
    OneField(b);
    assert a in map[a := VNull] && a !in map[b := VNull];
  }

  lemma SortTwo(a: bytes, b: bytes)
    requires StrCmp(a, b) < 0
    ensures SortSeq([Keyed(b, Null), Keyed(a, Null)], true) == [Keyed(a, Null), Keyed(b, Null)]
    ensures SortSeq([Keyed(b, Null)], true) == [Keyed(b, Null)]
  {
    var s: seq<Member> := [Keyed(b, Null), Keyed(a, Null)];
    StrCmpAntisymmetric(a, b);
    hide StrCmp;
    assert s[0].key == b && s[0 + 1].key == a;
    assert !StrictRun(s, true);
    assert s[..1] == [Keyed(b, Null)] && s[1..] == [Keyed(a, Null)];
    assert s[..1][1..] == [] && s[1..][1..] == [];
    assert Merge([Keyed(b, Null)], [Keyed(a, Null)], true) == [Keyed(a, Null)] + Merge([Keyed(b, Null)], [], true);
  }

  lemma TidyPair(a: bytes, b: bytes, keys: iset<bytes>)
    requires a in keys && b in keys
    ensures Tidy(Object([]), keys) && Tidy(Object([Keyed(a, Null)]), keys)
    ensures a != b ==> Tidy(Object([Keyed(a, Null), Keyed(b, Null)]), keys)
  {
  }

  /** Without case, a key renamed to one equal up to case is not noticed. */
  lemma RenameConfusedKey(a: bytes, b: bytes)
    requires Fold(a) == Fold(b) && a != b
    ensures !RoundTrips(Object([Keyed(a, Null)]), Object([Keyed(b, Null)]), false)
  {
    RenameDiff(a, b);
    hide Diff, RoundTrips, DenoteMembers;
    RoundTripsByEdits(Object([Keyed(a, Null)]), Object([Keyed(b, Null)]), false);
    OneField(a);
    OneField(b);
    assert a in map[a := VNull] && a !in map[b := VNull];
  }

  lemma RenameDiff(a: bytes, b: bytes)
    requires Fold(a) == Fold(b)
    ensures Diff([], Object([Keyed(a, Null)]), Object([Keyed(b, Null)]), false) == []
  {
    hide StrCmp, SortSeq, Encode;
    var x, y: seq<Member> := [Keyed(a, Null)], [Keyed(b, Null)];
    SortWithin(x, false);
    assert SortSeq(x, false) == x && SortSeq(y, false) == y by { SortsOne(x); SortsOne(y); }
    StrCmpEqual(Fold(a), Fold(b));
    assert x[1..] == [] && y[1..] == [];
    assert Diff([] + [SLASH] + Encode(a), Null, Null, false) == [];
    assert DiffMembers([], x, y, false, Object(x)) == [] + DiffMembers([], [], [], false, Object(x));
  }

  lemma SortsOne(s: seq<Member>)
    requires |s| == 1
    ensures SortSeq(s, false) == s
  {
  }

  /** In either mode, a set of keys is safe for every pair of trees built from it exactly when all its keys survive
      escaping and no two of them differ only by case. */
  lemma PatchableKeysExact(keys: iset<bytes>, caseSensitive: bool)
    ensures PatchableKeys(keys) <==>
            forall from, to :: Tidy(from, keys) && Tidy(to, keys) ==> RoundTrips(from, to, caseSensitive)
  {
    hide RoundTrips, Tidy, HoldsStill, StrCmp;
    if PatchableKeys(keys) {
      forall from, to | Tidy(from, keys) && Tidy(to, keys) ensures RoundTrips(from, to, caseSensitive) {
        PatchesRoundTrip(from, to, caseSensitive, keys);
      }
    } else if k :| k in keys && !HoldsStill(k) {
      AddOneKey(k, caseSensitive);
      TidyPair(k, k, keys);
    } else {
      var a, b :| a in keys && b in keys && Fold(a) == Fold(b) && a != b;
      ConfusedKeys(a, b, caseSensitive, keys);
    }
  }

  /** Two keys equal up to case always give a pair of trees that does not round-trip. */
  lemma ConfusedKeys(a: bytes, b: bytes, caseSensitive: bool, keys: iset<bytes>)
    requires a in keys && b in keys && Fold(a) == Fold(b) && a != b && HoldsStill(a) && HoldsStill(b)
    ensures exists from, to :: Tidy(from, keys) && Tidy(to, keys) && !RoundTrips(from, to, caseSensitive)
  {
    hide RoundTrips, Tidy, HoldsStill, StrCmp;
    TidyPair(a, b, keys);
    TidyPair(b, a, keys);
    if caseSensitive {
      StrCmpEqual(a, b);
      StrCmpAntisymmetric(a, b);
      StrCmpAntisymmetric(b, a);
      var lo, hi := if StrCmp(a, b) < 0 then a else b, if StrCmp(a, b) < 0 then b else a;
      RemoveConfusedKey(lo, hi);
    } else {
      RenameConfusedKey(a, b);
    }
  }
}
