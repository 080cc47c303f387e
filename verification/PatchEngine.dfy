/** The generation of patches as it runs: a growing list of patch objects. */
module PatchEngine {
  import opened Bytes
  import opened KeySort
  import opened JsonTree
  import opened JsonCompare
  import opened JsonPointer
  import opened JsonPatch
  import opened PatchRoundTrip

  lemma PatchesOfConcat(a: seq<Edit>, b: seq<Edit>)
    ensures PatchesOf(a + b) == PatchesOf(a) + PatchesOf(b)
  {
  }

  /** The array `create_patches` appends to. */
  class Recorder {
    var patches: seq<Json>

    constructor ()
      ensures patches == []
    {
      patches := [];
    }

    /** `compose_patch`: the object appended, when applied to any document, performs the edit. */
    method Compose(op: Operation, path: bytes, value: Option<Json>)
      modifies this
      ensures patches == old(patches) + PatchesOf([Edit(op, path, value)])
      ensures |patches| == |old(patches)| + 1 && patches[..|patches| - 1] == old(patches)
      ensures Generated(op) ==>
                forall root: Json, caseSensitive ::
                  ApplyPatch(root, patches[|patches| - 1], caseSensitive) == ApplyEdit(root, op, path, value, None, caseSensitive)
    {
      hide ApplyPatch, ApplyEdit;
      ghost var e := Edit(op, path, value);
      patches := patches + [PatchOf(Edit(op, path, value))];
      if Generated(op) {
        forall root: Json, caseSensitive
          ensures ApplyPatch(root, PatchOf(e), caseSensitive) == ApplyEdit(root, op, path, value, None, caseSensitive)
        {
          PatchPerformsEdit(root, e, caseSensitive);
        }
      }
    }

    /** `create_patches` */
    method Create(path: bytes, from: Json, to: Json, caseSensitive: bool)
      modifies this
      ensures patches == old(patches) + PatchesOf(Diff(path, from, to, caseSensitive))
      decreases from, 1
    {
      if !SameType(from, to) {
        Compose(Replace, path, Some(to));
        return;
      }
      match from {
        case Number(d) =>
          if !SameNumber(d, to.d) {
            Compose(Replace, path, Some(to));
          }
        case String(s) =>
          if s != to.s {
            Compose(Replace, path, Some(to));
          }
        case Array(items) =>
          CreateForItems(path, items, to.items, caseSensitive);
        case Object(members) =>
          SortWithin(members, caseSensitive);
          CreateForMembers(path, SortSeq(members, caseSensitive), SortSeq(to.members, caseSensitive), caseSensitive, from);
        case _ =>
      }
    }

    method CreateForItems(path: bytes, from: seq<Json>, to: seq<Json>, caseSensitive: bool)
      modifies this
      ensures patches == old(patches) + PatchesOf(DiffItems(path, from, to, 0, caseSensitive))
      decreases from, 0
    {
      hide Diff, PatchesOf, Encode, Decimal;
      var f, t, index := from, to, 0;
      ghost var all := old(patches) + PatchesOf(DiffItems(path, from, to, 0, caseSensitive));
      while f != [] && t != []
        invariant index + |f| == |from| && f == from[index..]
        invariant patches + PatchesOf(DiffItems(path, f, t, index, caseSensitive)) == all
        decreases |f|
      {
        var here := path + [SLASH] + Decimal(index);
        PatchesOfConcat(Diff(here, f[0], t[0], caseSensitive), DiffItems(path, f[1..], t[1..], index + 1, caseSensitive));
        assert f[0] == from[index];
        Create(here, f[0], t[0], caseSensitive);
        f, t, index := f[1..], t[1..], index + 1;
      }
      while f != []
        invariant f != [] ==> t == []
        invariant patches + PatchesOf(DiffItems(path, f, t, index, caseSensitive)) == all
        decreases |f|
      {
        var here := path + [SLASH] + Encode(Decimal(index));
        PatchesOfConcat([Edit(Remove, here, None)], DiffItems(path, f[1..], [], index, caseSensitive));
        Compose(Remove, here, None);
        f := f[1..];
      }
      while t != []
        invariant f == []
        invariant patches + PatchesOf(DiffItems(path, f, t, index, caseSensitive)) == all
        decreases |t|
      {
        var here := path + [SLASH] + Encode([MINUS]);
        PatchesOfConcat([Edit(Add, here, Some(t[0]))], DiffItems(path, [], t[1..], index + 1, caseSensitive));
        Compose(Add, here, Some(t[0]));
        t, index := t[1..], index + 1;
      }
      NoPatches();
    }

    static lemma NoPatches()
      ensures PatchesOf([]) == []
    {
    }

    method CreateForMembers(path: bytes, from: seq<Member>, to: seq<Member>, caseSensitive: bool, ghost bound: Json)
      requires Within(from, bound)
      modifies this
      ensures patches == old(patches) + PatchesOf(DiffMembers(path, from, to, caseSensitive, bound))
      decreases bound, 0
    {
      hide Diff, PatchesOf, Encode, CompareStrings, DiffMembers, Within;
      NoEdits(path, caseSensitive, bound);
      var f, t := from, to;
      ghost var all := old(patches) + PatchesOf(DiffMembers(path, from, to, caseSensitive, bound));
      while f != [] || t != []
        invariant Within(f, bound)
        invariant patches + PatchesOf(DiffMembers(path, f, t, caseSensitive, bound)) == all
        decreases |f| + |t|
      {
        MembersStep(path, f, t, caseSensitive, bound);
        var diff := if f == [] then 1 else if t == [] then -1 else CompareStrings(f[0].key, t[0].key, caseSensitive);
        if diff == 0 {
          var here := path + [SLASH] + Encode(f[0].key);
          Create(here, f[0].value, t[0].value, caseSensitive);
          f, t := f[1..], t[1..];
        } else if diff < 0 {
          var here := path + [SLASH] + Encode(f[0].key);
          Compose(Remove, here, None);
          f := f[1..];
        } else {
          var here := path + [SLASH] + Encode(t[0].key);
          Compose(Add, here, Some(t[0].value));
          t := t[1..];
        }
      }
    }

    static lemma NoEdits(path: bytes, caseSensitive: bool, bound: Json)
      requires Within([], bound)
      ensures PatchesOf(DiffMembers(path, [], [], caseSensitive, bound)) == []
    {
    }

    /** One turn of the walk over two sorted lists of members. */
    static lemma MembersStep(path: bytes, f: seq<Member>, t: seq<Member>, caseSensitive: bool, bound: Json)
      requires Within(f, bound) && (f != [] || t != [])
      ensures f != [] ==> Within(f[1..], bound) && f[0].value < bound
      ensures var diff := if f == [] then 1 else if t == [] then -1 else CompareStrings(f[0].key, t[0].key, caseSensitive);
              PatchesOf(DiffMembers(path, f, t, caseSensitive, bound))
              == if diff == 0 then
                   PatchesOf(Diff(path + [SLASH] + Encode(f[0].key), f[0].value, t[0].value, caseSensitive))
                   + PatchesOf(DiffMembers(path, f[1..], t[1..], caseSensitive, bound))
                 else if diff < 0 then
                   PatchesOf([Edit(Remove, path + [SLASH] + Encode(f[0].key), None)])
                   + PatchesOf(DiffMembers(path, f[1..], t, caseSensitive, bound))
                 else
                   PatchesOf([Edit(Add, path + [SLASH] + Encode(t[0].key), Some(t[0].value))])
                   + PatchesOf(DiffMembers(path, f, t[1..], caseSensitive, bound))
    {
      hide Diff, PatchesOf, Encode, CompareStrings;
      var diff := if f == [] then 1 else if t == [] then -1 else CompareStrings(f[0].key, t[0].key, caseSensitive);
      if diff == 0 {
        PatchesOfConcat(Diff(path + [SLASH] + Encode(f[0].key), f[0].value, t[0].value, caseSensitive),
                        DiffMembers(path, f[1..], t[1..], caseSensitive, bound));
      } else if diff < 0 {
        PatchesOfConcat([Edit(Remove, path + [SLASH] + Encode(f[0].key), None)],
                        DiffMembers(path, f[1..], t, caseSensitive, bound));
      } else {
        PatchesOfConcat([Edit(Add, path + [SLASH] + Encode(t[0].key), Some(t[0].value))],
                        DiffMembers(path, f, t[1..], caseSensitive, bound));
      }
    }
  }
}
