/** JSON Patch (section 4 of RFC 6902): what one patch does to a document, and the patches `create_patches` generates. */
module JsonPatch {
  import opened Bytes
  import opened KeySort
  import opened JsonTree
  import opened JsonCompare
  import opened JsonPointer

  // The member names and operation names of a patch, in ASCII.
  const OP: bytes := [111, 112]
  const PATH: bytes := [112, 97, 116, 104]
  const VALUE: bytes := [118, 97, 108, 117, 101]
  const FROM: bytes := [102, 114, 111, 109]
  const ADD: bytes := [97, 100, 100]
  const REMOVE: bytes := [114, 101, 109, 111, 118, 101]
  const REPLACE: bytes := [114, 101, 112, 108, 97, 99, 101]
  const MOVE: bytes := [109, 111, 118, 101]
  const COPY: bytes := [99, 111, 112, 121]
  const TEST: bytes := [116, 101, 115, 116]

  datatype Operation = BadOperation | Add | Remove | Replace | Move | Copy | Test

  datatype Outcome = Outcome(status: int, root: Json)

  /** `decode_patch_operation` */
  function DecodeOperation(patch: Json, caseSensitive: bool): Operation {
    match GetObjectItem(patch, OP, caseSensitive)
    case Some(String(s)) =>
      if s == ADD then Add
      else if s == REMOVE then Remove
      else if s == REPLACE then Replace
      else if s == MOVE then Move
      else if s == COPY then Copy
      else if s == TEST then Test
      else BadOperation
    case _ => BadOperation
  }

  // ----- editing one container

  datatype Detached = Detached(item: Option<Json>, rest: Json)

  /** Take the child with this unescaped name out of a container. Members are matched without case. */
  function DetachChild(parent: Json, name: bytes): Detached {
    match parent
    case Array(items) =>
      (match DecodeArrayIndex(name)
       case Some(i) =>
         if i < |items| then Detached(Some(items[i]), Array(Without(items, i))) else Detached(None, parent)
       case None => Detached(None, parent))
    case Object(members) =>
      var i := FindKey(members, name, false);
      if i < |members| then Detached(Some(members[i].value), Object(Without(members, i))) else Detached(None, parent)
    case _ => Detached(None, parent)
  }

  function DeleteMember(members: seq<Member>, name: bytes, caseSensitive: bool): seq<Member> {
    var i := FindKey(members, name, caseSensitive);
    if i < |members| then Without(members, i) else members
  }

  /** Put a value into a container under this unescaped name; the status is the error number of the failing case. */
  function InsertChild(parent: Json, name: bytes, value: Json, caseSensitive: bool): Outcome {
    match parent
    case Array(items) =>
      if name == [MINUS] then Outcome(0, Array(items + [value]))
      else
        (match DecodeArrayIndex(name)
         case None => Outcome(11, parent)
         case Some(i) =>
           if i <= |items| then Outcome(0, Array(items[..i] + [value] + items[i..])) else Outcome(10, parent))
    case Object(members) =>
      Outcome(0, Object(DeleteMember(members, name, caseSensitive) + [Keyed(name, value)]))
    case _ => Outcome(9, parent)
  }

  // ----- editing a document

  /** `strrchr(path, '/')`, or -1 */
  function LastSlash(path: bytes): (i: int)
    ensures -1 <= i < |path|
    ensures i >= 0 ==> path[i] == SLASH
  {
    if path == [] then -1
    else if path[|path| - 1] == SLASH then |path| - 1
    else LastSlash(path[..|path| - 1])
  }

  /** `detach_path` */
  function DetachPath(root: Json, path: bytes, caseSensitive: bool): Detached {
    var i := LastSlash(path);
    if i < 0 then Detached(None, root)
    else DetachAt(root, path[..i], DecodeInPlace(path[i + 1..]), caseSensitive)
  }

  /** A detach that finds nothing leaves the document as it was. */
  lemma DetachNothing(root: Json, path: bytes, caseSensitive: bool)
    requires DetachPath(root, path, caseSensitive).item.None?
    ensures DetachPath(root, path, caseSensitive).rest == root
  {
    hide DecodeInPlace, DecodeArrayIndex;
    var i := LastSlash(path);
    if i >= 0 {
      match Resolve(root, path[..i], caseSensitive) {
        case None =>
        case Some(p) => PutSame(root, p);
      }
    }
  }

  lemma {:induction false} PutSame(v: Json, p: Path)
    requires ValidPath(v, p)
    ensures Put(v, p, At(v, p)) == v
    decreases |p|
  {
    if p != [] {
      PutSame(Children(v)[p[0]], p[1..]);
    }
  }

  function DetachAt(root: Json, parent: bytes, name: bytes, caseSensitive: bool): Detached {
    match Resolve(root, parent, caseSensitive)
    case None => Detached(None, root)
    case Some(p) =>
      var d := DetachChild(At(root, p), name);
      Detached(d.item, Put(root, p, d.rest))
  }

  /** The closing part of `apply_patch`: add a value at a path. */
  function InsertPath(root: Json, path: bytes, value: Json, caseSensitive: bool): Outcome {
    var i := LastSlash(path);
    if i < 0 then Outcome(9, root)
    else InsertAt(root, path[..i], DecodeInPlace(path[i + 1..]), value, caseSensitive)
  }

  function InsertAt(root: Json, parent: bytes, name: bytes, value: Json, caseSensitive: bool): Outcome {
    match Resolve(root, parent, caseSensitive)
    case None => Outcome(9, root)
    case Some(p) =>
      var r := InsertChild(At(root, p), name, value, caseSensitive);
      Outcome(r.status, Put(root, p, r.root))
  }

  /** An insertion that reports an error leaves the document as it was. */
  lemma InsertNothing(root: Json, path: bytes, value: Json, caseSensitive: bool)
    ensures var r := InsertPath(root, path, value, caseSensitive); r.status != 0 ==> r.root == root
  {
    hide DecodeInPlace, InsertChild, Resolve;
    var i := LastSlash(path);
    if i >= 0 {
      match Resolve(root, path[..i], caseSensitive) {
        case None =>
        case Some(p) =>
          PutSame(root, p);
          ChildRefused(At(root, p), DecodeInPlace(path[i + 1..]), value, caseSensitive);
      }
    }
  }

  lemma ChildRefused(parent: Json, name: bytes, value: Json, caseSensitive: bool)
    ensures var r := InsertChild(parent, name, value, caseSensitive); r.status != 0 ==> r.root == parent
  {
    hide DecodeArrayIndex;
  }

  function GetPath(root: Json, pointer: bytes, caseSensitive: bool): Option<Json> {
    match Resolve(root, pointer, caseSensitive)
    case None => None
    case Some(p) => Some(At(root, p))
  }

  /** "add" and "replace" once the old item is gone. */
  function AddValue(root: Json, path: bytes, value: Option<Json>, caseSensitive: bool): Outcome {
    match value
    case None => Outcome(7, root)
    case Some(v) => InsertPath(root, path, v, caseSensitive)
  }

  /** What "move" and "copy" take their value from, and what is left of the document. */
  function TakeFrom(root: Json, move: bool, from: Json, caseSensitive: bool): Detached {
    if !from.String? then Detached(None, root)
    else if move then DetachPath(root, from.s, caseSensitive)
    else Detached(GetPath(root, from.s, caseSensitive), root)
  }

  /** `apply_patch` after its operation and path have been read. */
  function ApplyEdit(root: Json, op: Operation, path: bytes, value: Option<Json>, from: Option<Json>,
                     caseSensitive: bool): Outcome
  {
    if op == Test then
      var same := match (GetPath(root, path, caseSensitive), value)
        case (Some(a), Some(b)) => CompareJson(a, b, caseSensitive)
        case (_, _) => false;
      Outcome(if same then 0 else 1, root)
    else if path == [] && op == Remove then Outcome(0, Invalid)
    else if path == [] && (op == Replace || op == Add) then
      match value
      case None => Outcome(7, root)
      case Some(v) => Outcome(0, v)
    else if op == Remove || op == Replace then
      var d := DetachPath(root, path, caseSensitive);
      if d.item.None? then Outcome(13, d.rest)
      else if op == Remove then Outcome(0, d.rest)
      else AddValue(d.rest, path, value, caseSensitive)
    else if op == Move || op == Copy then
      match from
      case None => Outcome(4, root)
      case Some(f) =>
        var d := TakeFrom(root, op == Move, f, caseSensitive);
        if d.item.None? then Outcome(5, d.rest) else InsertPath(d.rest, path, d.item.value, caseSensitive)
    else AddValue(root, path, value, caseSensitive)
  }

  /** `apply_patch` */
  function ApplyPatch(root: Json, patch: Json, caseSensitive: bool): Outcome {
    match GetObjectItem(patch, PATH, caseSensitive)
    case Some(String(path)) =>
      var op := DecodeOperation(patch, caseSensitive);
      if op == BadOperation then Outcome(3, root)
      else ApplyEdit(root, op, path, GetObjectItem(patch, VALUE, caseSensitive), GetObjectItem(patch, FROM, caseSensitive),
                     caseSensitive)
    case _ => Outcome(2, root)
  }

  /** `cJSONUtils_ApplyPatches` on the elements of a patch array: stop at the first failure. */
  function ApplyPatches(root: Json, patches: seq<Json>, caseSensitive: bool): Outcome
    decreases |patches|
  {
    if patches == [] then Outcome(0, root)
    else
      var r := ApplyPatch(root, patches[0], caseSensitive);
      if r.status != 0 then r else ApplyPatches(r.root, patches[1..], caseSensitive)
  }

  // ----- generating patches

  /** One generated patch before it is written out as an object. */
  datatype Edit = Edit(op: Operation, path: bytes, value: Option<Json>)

  function OperationName(op: Operation): bytes {
    match op
    case Add => ADD
    case Remove => REMOVE
    case Replace => REPLACE
    case Move => MOVE
    case Copy => COPY
    case Test => TEST
    case BadOperation => []
  }

  /** `compose_patch` */
  function PatchOf(e: Edit): Json {
    Object([Keyed(OP, String(OperationName(e.op))), Keyed(PATH, String(e.path))] +
           (if e.value.Some? then [Keyed(VALUE, e.value.value)] else []))
  }

  function PatchesOf(edits: seq<Edit>): seq<Json> {
    seq(|edits|, i requires 0 <= i < |edits| => PatchOf(edits[i]))
  }

  /** Do two items have the same `type`? */
  predicate SameType(a: Json, b: Json) {
    && (a.Invalid? <==> b.Invalid?) && (a.Null? <==> b.Null?) && (a.False? <==> b.False?) && (a.True? <==> b.True?)
    && (a.Number? <==> b.Number?) && (a.String? <==> b.String?) && (a.Array? <==> b.Array?)
  }

  /** `create_patches` */
  function Diff(path: bytes, from: Json, to: Json, caseSensitive: bool): seq<Edit>
    decreases from, 1
  {
    if !SameType(from, to) then [Edit(Replace, path, Some(to))]
    else
      match from
      case Number(d) => if SameNumber(d, to.d) then [] else [Edit(Replace, path, Some(to))]
      case String(s) => if s == to.s then [] else [Edit(Replace, path, Some(to))]
      case Array(items) => DiffItems(path, items, to.items, 0, caseSensitive)
      case Object(members) =>
        SortWithin(members, caseSensitive);
        DiffMembers(path, SortSeq(members, caseSensitive), SortSeq(to.members, caseSensitive), caseSensitive, from)
      case _ => []
  }

  function DiffItems(path: bytes, from: seq<Json>, to: seq<Json>, index: nat, caseSensitive: bool): seq<Edit>
    decreases from, 0, |to|
  {
    if from != [] && to != [] then
      Diff(path + [SLASH] + Decimal(index), from[0], to[0], caseSensitive)
      + DiffItems(path, from[1..], to[1..], index + 1, caseSensitive)
    else if from != [] then
      [Edit(Remove, path + [SLASH] + Encode(Decimal(index)), None)] + DiffItems(path, from[1..], [], index, caseSensitive)
    else if to != [] then
      [Edit(Add, path + [SLASH] + Encode([MINUS]), Some(to[0]))] + DiffItems(path, [], to[1..], index + 1, caseSensitive)
    else []
  }

  function DiffMembers(path: bytes, from: seq<Member>, to: seq<Member>, caseSensitive: bool, ghost bound: Json): seq<Edit>
    requires Within(from, bound)
    decreases bound, 0, |from| + |to|
  {
    if from == [] && to == [] then []
    else
      var diff := if from == [] then 1
                  else if to == [] then -1
                  else CompareStrings(from[0].key, to[0].key, caseSensitive);
      if diff == 0 then
        Diff(path + [SLASH] + Encode(from[0].key), from[0].value, to[0].value, caseSensitive)
        + DiffMembers(path, from[1..], to[1..], caseSensitive, bound)
      else if diff < 0 then
        [Edit(Remove, path + [SLASH] + Encode(from[0].key), None)] + DiffMembers(path, from[1..], to, caseSensitive, bound)
      else
        [Edit(Add, path + [SLASH] + Encode(to[0].key), Some(to[0].value))]
        + DiffMembers(path, from, to[1..], caseSensitive, bound)
  }
}
