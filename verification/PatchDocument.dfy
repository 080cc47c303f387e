/** The patch code as it runs on a document edited in place, back pointers of its member lists included. */
module PatchDocument {
  import opened Bytes
  import opened JsonTree
  import opened JsonPointer
  import opened JsonPatch
  import opened LoosePatch

  class Document {
    var root: Item

    /** A document as the parser or `cJSON_Duplicate` builds it. */
    constructor (v: Json)
      ensures root == Fresh(v)
    {
      root := Fresh(v);
    }

    /** `detach_path`: take the item at a path out of the document. */
    method Detach(path: bytes, caseSensitive: bool) returns (item: Option<Item>)
      modifies this
      ensures Taken(item, root) == TakePath(old(root), path, caseSensitive)
      ensures item.None? ==> root == old(root)
    {
      TakeNothing(root, path, caseSensitive);
      var i := LastSlash(path);
      if i < 0 {
        return None;
      }
      var parent := Resolve(Plain(root), path[..i], caseSensitive);
      if parent.None? {
        return None;
      }
      var d := TakeKid(ItemAt(root, parent.value), DecodeInPlace(path[i + 1..]));
      root := ItemPut(root, parent.value, d.rest);
      return d.item;
    }

    /** The part of `apply_patch` that adds a value at a path. */
    method Insert(path: bytes, value: Item, caseSensitive: bool) returns (status: int)
      modifies this
      ensures Performed(PutPath(old(root), path, value, caseSensitive), status, root)
      ensures status != 0 ==> root == old(root)
    {
      PutNothing(root, path, value, caseSensitive);
      var i := LastSlash(path);
      if i < 0 {
        return 9;
      }
      var parent := Resolve(Plain(root), path[..i], caseSensitive);
      if parent.None? {
        return 9;
      }
      var e := PutKid(ItemAt(root, parent.value), DecodeInPlace(path[i + 1..]), value, caseSensitive);
      if e.Undefined? {
        return 0;
      }
      root := ItemPut(root, parent.value, e.root);
      return e.status;
    }

    /** `compare_json` on the item at a path; it sorts what it compares. */
    method Examine(path: bytes, value: Option<Json>, caseSensitive: bool) returns (status: int)
      modifies this
      ensures TestPath(old(root), path, value, caseSensitive) == Done(status, root)
    {
      var found := Resolve(Plain(root), path, caseSensitive);
      if found.None? || value.None? {
        return 1;
      }
      var c := CompareItem(ItemAt(root, found.value), value.value, caseSensitive);
      root := ItemPut(root, found.value, c.left);
      return if c.same then 0 else 1;
    }

    /** `apply_patch` */
    method Apply(patch: Json, caseSensitive: bool) returns (status: int)
      modifies this
      ensures Performed(PatchItem(old(root), patch, caseSensitive), status, root)
    {
      hide TakePath, PutPath, TestPath, GetPath, GetObjectItem, Plain, Fresh;
      var path := GetObjectItem(patch, PATH, caseSensitive);
      if path.None? || !path.value.String? {
        return 2;
      }
      var at := path.value.s;
      var op := DecodeOperation(patch, caseSensitive);
      var given := GetObjectItem(patch, VALUE, caseSensitive);
      if op == BadOperation {
        return 3;
      }
      if op == Test {
        status := Examine(at, given, caseSensitive);
        return;
      }
      if at == [] {
        if op == Remove {
          root := Scalar(Invalid);
          return 0;
        }
        if op == Replace || op == Add {
          if given.None? {
            return 7;
          }
          root := Fresh(given.value);
          return 0;
        }
      }
      if op == Remove || op == Replace {
        var item := Detach(at, caseSensitive);
        if item.None? {
          return 13;
        }
        if op == Remove {
          return 0;
        }
      }
      var value: Option<Item>;
      if op == Move || op == Copy {
        var from := GetObjectItem(patch, FROM, caseSensitive);
        if from.None? {
          return 4;
        }
        if !from.value.String? {
          return 5;
        }
        if op == Move {
          value := Detach(from.value.s, caseSensitive);
        } else {
          var source := GetPath(Plain(root), from.value.s, caseSensitive);
          value := if source.Some? then Some(Fresh(source.value)) else None;
        }
        if value.None? {
          return 5;
        }
      } else {
        if given.None? {
          return 7;
        }
        value := Some(Fresh(given.value));
      }
      status := Insert(at, value.value, caseSensitive);
    }

    /** `cJSONUtils_ApplyPatches` and its case-sensitive twin; without a `test`, what happens is what happens to the
        plain tree. */
    method ApplyAll(patches: Json, caseSensitive: bool) returns (status: int)
      modifies this
      ensures !patches.Array? ==> status == 1 && root == old(root)
      ensures patches.Array? ==> Performed(PatchItems(old(root), patches.items, caseSensitive), status, root)
      ensures patches.Array? && Intact(old(root)) &&
              (forall i :: 0 <= i < |patches.items| ==> DecodeOperation(patches.items[i], caseSensitive) != Test) ==>
                Intact(root) && Outcome(status, Plain(root)) == ApplyPatches(Plain(old(root)), patches.items, caseSensitive)
    {
      if !patches.Array? {
        return 1;
      }
      if Intact(root) && forall i :: 0 <= i < |patches.items| ==> DecodeOperation(patches.items[i], caseSensitive) != Test {
        PatchesAgree(root, patches.items, caseSensitive);
      }
      status := ApplyInOrder(patches.items, caseSensitive);
    }

    /** The loop over the patches, up to the first failure. */
    method ApplyInOrder(patches: seq<Json>, caseSensitive: bool) returns (status: int)
      modifies this
      ensures Performed(PatchItems(old(root), patches, caseSensitive), status, root)
    {
      hide PatchItem, PatchItems, Plain, Intact, DecodeOperation, ApplyPatch;
      ghost var effect := PatchItems(root, patches, caseSensitive);
      var i := 0;
      assert patches[0..] == patches;
      while i < |patches|
        invariant i <= |patches|
        invariant effect.Undefined? || effect == PatchItems(root, patches[i..], caseSensitive)
      {
        assert patches[i..][0] == patches[i] && patches[i..][1..] == patches[i + 1..];
        NextPatch(root, patches[i..], caseSensitive);
        status := Apply(patches[i], caseSensitive);
        if status != 0 {
          return;
        }
        i := i + 1;
      }
      NoMorePatches(root, caseSensitive);
      return 0;
    }
  }

  lemma NextPatch(root: Item, patches: seq<Json>, caseSensitive: bool)
    requires patches != []
    ensures var r := PatchItem(root, patches[0], caseSensitive);
            PatchItems(root, patches, caseSensitive)
            == if r.Undefined? || r.status != 0 then r else PatchItems(r.root, patches[1..], caseSensitive)
  {
    hide PatchItem;
  }

  lemma NoMorePatches(root: Item, caseSensitive: bool)
    ensures PatchItems(root, [], caseSensitive) == Done(0, root)
  {
  }

  /** What a method did is what its effect describes, if that is defined. */
  ghost predicate Performed(e: Effect, status: int, root: Item) {
    e.Undefined? || e == Done(status, root)
  }

  lemma {:induction false} PutBack(t: Item, p: Path)
    requires ValidPath(Plain(t), p)
    ensures ItemPut(t, p, ItemAt(t, p)) == t
    decreases |p|
  {
    hide Plain;
    PlainKids(t);
    if p != [] {
      PutBack(Kids(t)[p[0]], p[1..]);
    }
  }

  /** A detach that finds nothing leaves the document as it was. */
  lemma TakeNothing(root: Item, path: bytes, caseSensitive: bool)
    ensures var d := TakePath(root, path, caseSensitive); d.item.None? ==> d.rest == root
  {
    hide DecodeInPlace, DecodeArrayIndex, Plain, Resolve, ItemAt, ItemPut, AppendMember;
    var i := LastSlash(path);
    if i >= 0 {
      match Resolve(Plain(root), path[..i], caseSensitive) {
        case None =>
        case Some(p) => PutBack(root, p);
      }
    }
  }

  /** An insertion that reports an error leaves the document as it was. */
  lemma KidRefused(parent: Item, name: bytes, value: Item, caseSensitive: bool)
    ensures var e := PutKid(parent, name, value, caseSensitive); e.Done? && e.status != 0 ==> e.root == parent
  {
    hide DecodeArrayIndex;
  }

  lemma PutNothing(root: Item, path: bytes, value: Item, caseSensitive: bool)
    ensures var e := PutPath(root, path, value, caseSensitive); e.Done? && e.status != 0 ==> e.root == root
  {
    hide DecodeInPlace, PutKid, Plain, Resolve, ItemAt, ItemPut;
    var i := LastSlash(path);
    if i >= 0 {
      match Resolve(Plain(root), path[..i], caseSensitive) {
        case None =>
        case Some(p) =>
          PutBack(root, p);
          KidRefused(ItemAt(root, p), DecodeInPlace(path[i + 1..]), value, caseSensitive);
      }
    }
  }
}
