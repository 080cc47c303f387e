/** What patch objects do, spelled as section 4 of RFC 6902 spells them: the six operations by name, on the nodes of a
    document. */
module PatchObjects {
  import opened Bytes
  import opened KeySort
  import opened JsonTree
  import opened JsonCompare
  import opened JsonPointer
  import opened JsonPatch
  import opened PatchRoundTrip
  import opened PatchPositions

  // ----- reading a patch object

  /** A patch object with this member, and no other before it with the same name up to case. */
  ghost predicate Says(patch: Json, name: bytes, v: Json) {
    patch.Object? && exists i :: 0 <= i < |patch.members| && SaysAt(patch.members, i, name, v)
  }

  ghost predicate SaysAt(members: seq<Member>, i: nat, name: bytes, v: Json)
    requires i < |members|
  {
    members[i] == Keyed(name, v) && forall j :: 0 <= j < i ==> Fold(members[j].key) != Fold(name)
  }

  lemma SaidIsFound(patch: Json, name: bytes, v: Json, caseSensitive: bool)
    requires Says(patch, name, v)
    ensures GetObjectItem(patch, name, caseSensitive) == Some(v)
  {
    var i :| 0 <= i < |patch.members| && SaysAt(patch.members, i, name, v);
    hide Fold;
    assert FindKey(patch.members, name, caseSensitive) == i;
  }

  /** A patch object that asks for an operation, by its name, at a path. */
  ghost predicate Asks(patch: Json, op: bytes, path: bytes) {
    Says(patch, Ascii("op"), String(op)) && Says(patch, Ascii("path"), String(path))
  }

  lemma Spellings()
    ensures OP == Ascii("op") && PATH == Ascii("path") && VALUE == Ascii("value") && FROM == Ascii("from")
    ensures ADD == Ascii("add") && REMOVE == Ascii("remove") && REPLACE == Ascii("replace")
    ensures MOVE == Ascii("move") && COPY == Ascii("copy") && TEST == Ascii("test")
  {
  }

  /** The operation each name stands for. */
  lemma NamesDecode(patch: Json, op: bytes, caseSensitive: bool)
    requires Says(patch, Ascii("op"), String(op))
    ensures var o := DecodeOperation(patch, caseSensitive);
            (o == Add <==> op == Ascii("add")) && (o == Remove <==> op == Ascii("remove")) &&
            (o == Replace <==> op == Ascii("replace")) && (o == Move <==> op == Ascii("move")) &&
            (o == Copy <==> op == Ascii("copy")) && (o == Test <==> op == Ascii("test"))
  {
    Spellings();
    SaidIsFound(patch, OP, String(op), caseSensitive);
    assert |MOVE| == 4 && |COPY| == 4 && |TEST| == 4 && MOVE[0] != COPY[0] && MOVE[0] != TEST[0] && COPY[0] != TEST[0];
    assert |ADD| == 3 && |REMOVE| == 6 && |REPLACE| == 7;
  }

  /** What is left to do once the operation and the path are read. */
  lemma AskedFor(root: Json, patch: Json, op: bytes, path: bytes, caseSensitive: bool)
    requires Asks(patch, op, path)
    ensures var o := DecodeOperation(patch, caseSensitive);
            ApplyPatch(root, patch, caseSensitive)
            == if o == BadOperation then Outcome(3, root)
               else ApplyEdit(root, o, path, GetObjectItem(patch, Ascii("value"), caseSensitive),
                              GetObjectItem(patch, Ascii("from"), caseSensitive), caseSensitive)
  {
    hide DecodeOperation, ApplyEdit, GetObjectItem, Ascii;
    Spellings();
    SaidIsFound(patch, PATH, String(path), caseSensitive);
  }

  /** A generated patch as an object: its operation, its path and, if it has one, its value. */
  lemma Composed(e: Edit)
    requires Generated(e.op)
    ensures var name := if e.op == Add then Ascii("add") else if e.op == Remove then Ascii("remove") else Ascii("replace");
            PatchOf(e) == Object([Keyed(Ascii("op"), String(name)), Keyed(Ascii("path"), String(e.path))] +
                                 (if e.value.Some? then [Keyed(Ascii("value"), e.value.value)] else []))
  {
    Spellings();
    hide Ascii;
  }

  // ----- the six operations on the nodes of a document

  /** The path of child `i` of the node at `p`. */
  function ChildPath(v: Json, p: Path, i: nat): bytes
    requires ValidPath(v, p) && i < |Children(At(v, p))|
  {
    PointerTo(v, p) + [SLASH] + TokenOf(At(v, p), i)
  }

  /** The path of a new child of the node at `p`. */
  function PlacePath(v: Json, p: Path, place: Place): bytes
    requires ValidPath(v, p)
  {
    PointerTo(v, p) + [SLASH] + TokenFor(place)
  }

  /** "add" at a free place puts the value there. */
  lemma AddPatch(v: Json, p: Path, place: Place, x: Json, patch: Json, caseSensitive: bool, keys: iset<bytes>)
    requires Tidy(v, keys) && PatchableKeys(keys) && ValidPath(v, p) && Free(At(v, p), place, keys)
    requires Asks(patch, Ascii("add"), PlacePath(v, p, place)) && Says(patch, Ascii("value"), x)
    ensures ApplyPatch(v, patch, caseSensitive) == Outcome(0, Put(v, p, Grown(At(v, p), place, x)))
  {
    hide Ascii, DecodeOperation, InsertPath, PatchableKeys, Tidy, Free, ApplyPatch, Says, GetObjectItem, TokenFor, PointerTo;
    NamesDecode(patch, Ascii("add"), caseSensitive);
    AskedFor(v, patch, Ascii("add"), PlacePath(v, p, place), caseSensitive);
    SaidIsFound(patch, Ascii("value"), x, caseSensitive);
    InsertAtPointer(v, p, place, x, caseSensitive, keys);
  }

  /** "remove" takes the child out. */
  lemma RemovePatch(v: Json, p: Path, i: nat, patch: Json, caseSensitive: bool, keys: iset<bytes>)
    requires Tidy(v, keys) && PatchableKeys(keys) && ValidPath(v, p) && i < |Children(At(v, p))|
    requires Asks(patch, Ascii("remove"), ChildPath(v, p, i))
    ensures ApplyPatch(v, patch, caseSensitive) == Outcome(0, Put(v, p, WithoutChild(At(v, p), i)))
  {
    hide Ascii, DecodeOperation, DetachPath, PatchableKeys, Tidy, ApplyPatch, Says, GetObjectItem, TokenOf, PointerTo;
    NamesDecode(patch, Ascii("remove"), caseSensitive);
    AskedFor(v, patch, Ascii("remove"), ChildPath(v, p, i), caseSensitive);
    DetachAtPointer(v, p, i, caseSensitive, keys);
  }

  /** A container with another value in the place of child `i`; a member is written behind the others. */
  function Exchanged(v: Json, i: nat, x: Json): Json
    requires i < |Children(v)|
  {
    match v
    case Array(items) => Array(items[i := x])
    case Object(members) => Object(Without(members, i) + [Keyed(members[i].key, x)])
  }

  lemma ExchangeHere(v: Json, i: nat, x: Json, caseSensitive: bool, keys: iset<bytes>)
    requires Tidy(v, keys) && PatchableKeys(keys) && i < |Children(v)|
    ensures InsertPath(WithoutChild(v, i), [SLASH] + TokenOf(v, i), x, caseSensitive) == Outcome(0, Exchanged(v, i, x))
    ensures v.Object? ==> InsertPath(v, [SLASH] + TokenOf(v, i), x, caseSensitive) == Outcome(0, Exchanged(v, i, x))
  {
    hide Encode, Decimal, InsertPath, PatchableKeys, HasKeys, Tidy, TidyMembers, Without, KeysOf;
    match v {
      case Array(items) =>
        ShortArray(items, i, keys);
        ElementInserted(Without(items, i), i, x, caseSensitive);
      case Object(members) =>
        MembersHaveKeys(members, keys);
        NameIn(members, i, keys);
        WithoutHasKeys(members, i, keys);
        ObjectAdd(Without(members, i), Keyed(members[i].key, x), caseSensitive, keys);
        MemberOver(members, i, x, caseSensitive, keys);
    }
  }

  lemma ShortArray(items: seq<Json>, i: nat, keys: iset<bytes>)
    requires Tidy(Array(items), keys) && i < |items|
    ensures i < WORD && forall x :: Without(items, i)[..i] + [x] + Without(items, i)[i..] == items[i := x]
  {
    hide Tidy;
    assert |items| <= WORD by { ArrayFits(items, keys); }
  }

  lemma ArrayFits(items: seq<Json>, keys: iset<bytes>)
    requires Tidy(Array(items), keys)
    ensures |items| <= WORD
  {
  }

  lemma NameIn(members: seq<Member>, i: nat, keys: iset<bytes>)
    requires HasKeys(members, keys) && i < |members|
    ensures members[i].key in keys
  {
  }

  lemma MemberOver(members: seq<Member>, i: nat, x: Json, caseSensitive: bool, keys: iset<bytes>)
    requires HasKeys(members, keys) && PatchableKeys(keys) && i < |members|
    ensures InsertPath(Object(members), [SLASH] + Encode(members[i].key), x, caseSensitive)
            == Outcome(0, Object(Without(members, i) + [Keyed(members[i].key, x)]))
  {
    hide Encode, DecodeInPlace, InsertPath, FindKey, Without;
    var k := members[i].key;
    EncodeShape(k);
    assert HoldsStill(k);
    SurvivesExactly(k);
    TopEdits(Object(members), Encode(k), x, caseSensitive);
    assert k in KeysOf(members) by {
      assert members[i] in members;
    }
    FindKeyExact(members, k, caseSensitive, keys);
    DistinctPositions(members, i, FindKey(members, k, caseSensitive));
  }

  /** "replace" exchanges the value of a child. */
  lemma ReplacePatch(v: Json, p: Path, i: nat, x: Json, patch: Json, caseSensitive: bool, keys: iset<bytes>)
    requires Tidy(v, keys) && PatchableKeys(keys) && ValidPath(v, p) && i < |Children(At(v, p))|
    requires Asks(patch, Ascii("replace"), ChildPath(v, p, i)) && Says(patch, Ascii("value"), x)
    ensures ApplyPatch(v, patch, caseSensitive) == Outcome(0, Put(v, p, Exchanged(At(v, p), i, x)))
  {
    hide Ascii, DecodeOperation, DetachPath, InsertPath, PatchableKeys, Tidy, ApplyPatch, Says, GetObjectItem, TokenOf,
      PointerTo, Exchanged, WithoutChild;
    NamesDecode(patch, Ascii("replace"), caseSensitive);
    AskedFor(v, patch, Ascii("replace"), ChildPath(v, p, i), caseSensitive);
    SaidIsFound(patch, Ascii("value"), x, caseSensitive);
    DetachAtPointer(v, p, i, caseSensitive, keys);
    TidyBelow(v, p, keys);
    ExchangeHere(At(v, p), i, x, caseSensitive, keys);
    var last := [SLASH] + TokenOf(At(v, p), i);
    assert ChildPath(v, p, i) == PointerTo(v, p) + last;
    EditDown(v, p, WithoutChild(At(v, p), i), last, x, caseSensitive, keys);
  }

  /** "add" under a name that is taken replaces that member. */
  lemma AddOverPatch(v: Json, p: Path, i: nat, x: Json, patch: Json, caseSensitive: bool, keys: iset<bytes>)
    requires Tidy(v, keys) && PatchableKeys(keys) && ValidPath(v, p) && At(v, p).Object? && i < |Children(At(v, p))|
    requires Asks(patch, Ascii("add"), ChildPath(v, p, i)) && Says(patch, Ascii("value"), x)
    ensures ApplyPatch(v, patch, caseSensitive) == Outcome(0, Put(v, p, Exchanged(At(v, p), i, x)))
  {
    hide Ascii, DecodeOperation, InsertPath, PatchableKeys, Tidy, ApplyPatch, Says, GetObjectItem, TokenOf, PointerTo,
      Exchanged;
    NamesDecode(patch, Ascii("add"), caseSensitive);
    AskedFor(v, patch, Ascii("add"), ChildPath(v, p, i), caseSensitive);
    SaidIsFound(patch, Ascii("value"), x, caseSensitive);
    TidyBelow(v, p, keys);
    ExchangeHere(At(v, p), i, x, caseSensitive, keys);
    var last := [SLASH] + TokenOf(At(v, p), i);
    assert ChildPath(v, p, i) == PointerTo(v, p) + last;
    PutSame(v, p);
    EditDown(v, p, At(v, p), last, x, caseSensitive, keys);
  }

  /** "move" takes the child out and puts its value at a place that is free in the document without it. */
  lemma MovePatch(v: Json, p: Path, i: nat, q: Path, place: Place, patch: Json, caseSensitive: bool, keys: iset<bytes>)
    requires Tidy(v, keys) && PatchableKeys(keys) && ValidPath(v, p) && i < |Children(At(v, p))|
    requires var d := Put(v, p, WithoutChild(At(v, p), i));
             ValidPath(d, q) && Free(At(d, q), place, keys) && Asks(patch, Ascii("move"), PlacePath(d, q, place))
    requires Says(patch, Ascii("from"), String(ChildPath(v, p, i)))
    ensures var d := Put(v, p, WithoutChild(At(v, p), i));
            ApplyPatch(v, patch, caseSensitive) == Outcome(0, Put(d, q, Grown(At(d, q), place, Children(At(v, p))[i])))
  {
    hide Ascii, DecodeOperation, DetachPath, InsertPath, PatchableKeys, Tidy, Free, ApplyPatch, Says, GetObjectItem, TokenOf,
      TokenFor, PointerTo, Grown, WithoutChild;
    var d := Put(v, p, WithoutChild(At(v, p), i));
    NamesDecode(patch, Ascii("move"), caseSensitive);
    AskedFor(v, patch, Ascii("move"), PlacePath(d, q, place), caseSensitive);
    SaidIsFound(patch, Ascii("from"), String(ChildPath(v, p, i)), caseSensitive);
    DetachAtPointer(v, p, i, caseSensitive, keys);
    TidyBelow(v, p, keys);
    TidyWithout(At(v, p), i, keys);
    TidyPut(v, p, WithoutChild(At(v, p), i), keys);
    InsertAtPointer(d, q, place, Children(At(v, p))[i], caseSensitive, keys);
  }

  lemma TidyWithout(v: Json, i: nat, keys: iset<bytes>)
    requires Tidy(v, keys) && i < |Children(v)|
    ensures Tidy(WithoutChild(v, i), keys)
  {
    match v {
      case Array(items) =>
        forall j | 0 <= j < |items| - 1 ensures Tidy(Without(items, i)[j], keys) {
          WithoutAt(items, i, j);
        }
      case Object(members) =>
        WithoutHasKeys(members, i, keys);
        forall j | 0 <= j < |members| - 1 ensures Tidy(Without(members, i)[j].value, keys) {
          WithoutAt(members, i, j);
        }
    }
  }

  lemma {:induction false} TidyPut(v: Json, p: Path, x: Json, keys: iset<bytes>)
    requires Tidy(v, keys) && ValidPath(v, p) && Tidy(x, keys)
    ensures Tidy(Put(v, p, x), keys)
    decreases |p|
  {
    if p != [] {
      TidyPut(Children(v)[p[0]], p[1..], x, keys);
    }
  }

  /** A tidy document has unambiguous pointers. */
  lemma {:induction false} TidyIsUnambiguous(v: Json, caseSensitive: bool, keys: iset<bytes>)
    requires Tidy(v, keys) && FoldInjective(keys)
    ensures Unambiguous(v, caseSensitive)
  {
    match v {
      case Array(items) =>
        forall i | 0 <= i < |items| ensures Unambiguous(items[i], caseSensitive) {
          TidyIsUnambiguous(items[i], caseSensitive, keys);
        }
      case Object(members) =>
        forall i | 0 <= i < |members| ensures Unambiguous(members[i].value, caseSensitive) {
          TidyIsUnambiguous(members[i].value, caseSensitive, keys);
        }
      case _ =>
    }
  }

  /** "copy" leaves the document as it is and puts the value of the node at `r` at a free place. */
  lemma CopyPatch(v: Json, r: Path, q: Path, place: Place, patch: Json, caseSensitive: bool, keys: iset<bytes>)
    requires Tidy(v, keys) && PatchableKeys(keys) && ValidPath(v, r)
    requires ValidPath(v, q) && Free(At(v, q), place, keys) && Asks(patch, Ascii("copy"), PlacePath(v, q, place))
    requires Says(patch, Ascii("from"), String(PointerTo(v, r)))
    ensures ApplyPatch(v, patch, caseSensitive) == Outcome(0, Put(v, q, Grown(At(v, q), place, At(v, r))))
  {
    hide Ascii, DecodeOperation, Resolve, InsertPath, PatchableKeys, Tidy, Free, ApplyPatch, Says, GetObjectItem, TokenOf,
      TokenFor, PointerTo, Grown, Unambiguous;
    NamesDecode(patch, Ascii("copy"), caseSensitive);
    AskedFor(v, patch, Ascii("copy"), PlacePath(v, q, place), caseSensitive);
    SaidIsFound(patch, Ascii("from"), String(PointerTo(v, r)), caseSensitive);
    InjectiveKeys(keys);
    TidyIsUnambiguous(v, caseSensitive, keys);
    PointerRoundTrip(v, r, caseSensitive);
    InsertAtPointer(v, q, place, At(v, r), caseSensitive, keys);
  }

  lemma InjectiveKeys(keys: iset<bytes>)
    requires PatchableKeys(keys)
    ensures FoldInjective(keys)
  {
  }

  /** "test" succeeds exactly when the node means the same as the value, and changes nothing. */
  lemma TestPatch(v: Json, r: Path, x: Json, patch: Json, caseSensitive: bool, keys: iset<bytes>)
    requires Tidy(v, keys) && FoldInjective(keys) && ValidPath(v, r) && Tidy(x, keys)
    requires Asks(patch, Ascii("test"), PointerTo(v, r)) && Says(patch, Ascii("value"), x)
    ensures ApplyPatch(v, patch, caseSensitive) == Outcome(if Denote(At(v, r)) == Denote(x) then 0 else 1, v)
  {
    hide Ascii, DecodeOperation, Resolve, CompareJson, FoldInjective, Tidy, ApplyPatch, Says, GetObjectItem, PointerTo,
      Unambiguous, Denote;
    NamesDecode(patch, Ascii("test"), caseSensitive);
    AskedFor(v, patch, Ascii("test"), PointerTo(v, r), caseSensitive);
    SaidIsFound(patch, Ascii("value"), x, caseSensitive);
    TidyIsUnambiguous(v, caseSensitive, keys);
    PointerRoundTrip(v, r, caseSensitive);
    TidyBelow(v, r, keys);
    CompareDecidesEquality(At(v, r), x, caseSensitive, keys);
  }

  // ----- the whole document

  /** At the empty path "remove" leaves an Invalid item. */
  lemma RemoveDocument(v: Json, patch: Json, caseSensitive: bool)
    requires Asks(patch, Ascii("remove"), [])
    ensures ApplyPatch(v, patch, caseSensitive) == Outcome(0, Invalid)
  {
    hide Ascii, DecodeOperation, ApplyPatch, Says, GetObjectItem, DetachPath, InsertPath;
    NamesDecode(patch, Ascii("remove"), caseSensitive);
    AskedFor(v, patch, Ascii("remove"), [], caseSensitive);
  }

  /** At the empty path "add" and "replace" exchange the document. */
  lemma NewDocument(v: Json, x: Json, patch: Json, op: bytes, caseSensitive: bool)
    requires op in [Ascii("add"), Ascii("replace")] && Asks(patch, op, []) && Says(patch, Ascii("value"), x)
    ensures ApplyPatch(v, patch, caseSensitive) == Outcome(0, x)
  {
    hide Ascii, DecodeOperation, ApplyPatch, Says, GetObjectItem, DetachPath, InsertPath;
    Asked(v, patch, op, [], caseSensitive);
    SaidIsFound(patch, Ascii("value"), x, caseSensitive);
  }

  // ----- refusals

  /** A patch without a member of this name, up to case. */
  ghost predicate Lacks(patch: Json, name: bytes) {
    patch.Object? ==> forall i :: 0 <= i < |patch.members| ==> Fold(patch.members[i].key) != Fold(name)
  }

  lemma LackedIsNone(patch: Json, name: bytes, caseSensitive: bool)
    requires Lacks(patch, name)
    ensures GetObjectItem(patch, name, caseSensitive) == None
  {
  }

  /** Without a path that is a string the status is 2, with an operation that is none of the six it is 3. */
  lemma BadPatch(v: Json, patch: Json, op: bytes, path: bytes, x: Json, caseSensitive: bool)
    ensures Lacks(patch, Ascii("path")) || (Says(patch, Ascii("path"), x) && !x.String?) ==>
              ApplyPatch(v, patch, caseSensitive) == Outcome(2, v)
    ensures Asks(patch, op, path) && op !in [Ascii("add"), Ascii("remove"), Ascii("replace")] &&
            op !in [Ascii("move"), Ascii("copy"), Ascii("test")] ==>
              ApplyPatch(v, patch, caseSensitive) == Outcome(3, v)
  {
    hide Ascii, DecodeOperation, ApplyEdit, Says, GetObjectItem, Lacks;
    Spellings();
    if Lacks(patch, PATH) {
      LackedIsNone(patch, PATH, caseSensitive);
    }
    if Says(patch, PATH, x) {
      SaidIsFound(patch, PATH, x, caseSensitive);
    }
    if Asks(patch, op, path) {
      NamesDecode(patch, op, caseSensitive);
      AskedFor(v, patch, op, path, caseSensitive);
    }
  }

  /** Without a value, "add" is refused with status 7, and so is "replace", which has taken the child out by then;
      without a `from`, "move" and "copy" are refused with status 4. */
  lemma Incomplete(v: Json, p: Path, i: nat, patch: Json, path: bytes, caseSensitive: bool, keys: iset<bytes>)
    requires Tidy(v, keys) && PatchableKeys(keys) && ValidPath(v, p) && i < |Children(At(v, p))|
    ensures Asks(patch, Ascii("add"), path) && Lacks(patch, Ascii("value")) ==>
              ApplyPatch(v, patch, caseSensitive) == Outcome(7, v)
    ensures Asks(patch, Ascii("replace"), ChildPath(v, p, i)) && Lacks(patch, Ascii("value")) ==>
              ApplyPatch(v, patch, caseSensitive) == Outcome(7, Put(v, p, WithoutChild(At(v, p), i)))
    ensures (Asks(patch, Ascii("move"), path) || Asks(patch, Ascii("copy"), path)) && Lacks(patch, Ascii("from")) ==>
              ApplyPatch(v, patch, caseSensitive) == Outcome(4, v)
  {
    hide Ascii, DecodeOperation, DetachPath, InsertPath, PatchableKeys, Tidy, ApplyPatch, Says, GetObjectItem, TokenOf,
      PointerTo, Lacks, WithoutChild;
    if Lacks(patch, Ascii("value")) {
      LackedIsNone(patch, Ascii("value"), caseSensitive);
      if Asks(patch, Ascii("add"), path) {
        Asked(v, patch, Ascii("add"), path, caseSensitive);
      }
      if Asks(patch, Ascii("replace"), ChildPath(v, p, i)) {
        Asked(v, patch, Ascii("replace"), ChildPath(v, p, i), caseSensitive);
        DetachAtPointer(v, p, i, caseSensitive, keys);
      }
    }
    if Lacks(patch, Ascii("from")) {
      LackedIsNone(patch, Ascii("from"), caseSensitive);
      if Asks(patch, Ascii("move"), path) {
        Asked(v, patch, Ascii("move"), path, caseSensitive);
      }
      if Asks(patch, Ascii("copy"), path) {
        Asked(v, patch, Ascii("copy"), path, caseSensitive);
      }
    }
  }

  /** The two steps of reading a patch in one. */
  lemma Asked(v: Json, patch: Json, op: bytes, path: bytes, caseSensitive: bool)
    requires Asks(patch, op, path) && op in [Ascii("add"), Ascii("replace"), Ascii("move"), Ascii("copy")]
    ensures var o := if op == Ascii("add") then Add else if op == Ascii("replace") then Replace
                     else if op == Ascii("move") then Move else Copy;
            ApplyPatch(v, patch, caseSensitive)
            == ApplyEdit(v, o, path, GetObjectItem(patch, Ascii("value"), caseSensitive),
                         GetObjectItem(patch, Ascii("from"), caseSensitive), caseSensitive)
  {
    hide Ascii, DecodeOperation, ApplyEdit, ApplyPatch, Says, GetObjectItem;
    NamesDecode(patch, op, caseSensitive);
    AskedFor(v, patch, op, path, caseSensitive);
  }

  /** A place in a container that holds nothing: a name that is not there, or an index that is too large. */
  ghost predicate Vacant(v: Json, place: Place, keys: iset<bytes>) {
    match place
    case Name(key) => v.Object? && key in keys && key !in KeysOf(v.members)
    case Index(k) => v.Array? && |v.items| <= k < WORD
    case End => false
  }

  /** Nothing can be removed or replaced at a vacant place: the status is 13. */
  lemma NothingThere(v: Json, p: Path, place: Place, patch: Json, caseSensitive: bool, keys: iset<bytes>)
    requires Tidy(v, keys) && PatchableKeys(keys) && ValidPath(v, p) && Vacant(At(v, p), place, keys)
    requires Asks(patch, Ascii("remove"), PlacePath(v, p, place)) || Asks(patch, Ascii("replace"), PlacePath(v, p, place))
    ensures ApplyPatch(v, patch, caseSensitive) == Outcome(13, v)
  {
    hide Ascii, DecodeOperation, DetachPath, InsertPath, PatchableKeys, Tidy, ApplyPatch, Says, GetObjectItem, TokenFor,
      PointerTo, Vacant;
    var path := PlacePath(v, p, place);
    var op := if Asks(patch, Ascii("remove"), path) then Ascii("remove") else Ascii("replace");
    NamesDecode(patch, op, caseSensitive);
    AskedFor(v, patch, op, path, caseSensitive);
    var last := [SLASH] + TokenFor(place);
    assert path == PointerTo(v, p) + last;
    TidyBelow(v, p, keys);
    NothingHere(At(v, p), place, caseSensitive, keys);
    PutSame(v, p);
    EditDown(v, p, At(v, p), last, Null, caseSensitive, keys);
  }

  lemma NothingHere(v: Json, place: Place, caseSensitive: bool, keys: iset<bytes>)
    requires Tidy(v, keys) && PatchableKeys(keys) && Vacant(v, place, keys)
    ensures DetachPath(v, [SLASH] + TokenFor(place), caseSensitive) == Detached(None, v)
  {
    hide Encode, Decimal, DecodeInPlace, DecodeArrayIndex, DetachPath, FindKey, Tidy;
    match place {
      case Name(key) =>
        MembersHaveKeys(v.members, keys);
        EncodeShape(key);
        assert HoldsStill(key);
        SurvivesExactly(key);
        TopEdits(v, Encode(key), Null, caseSensitive);
        FindKeyExact(v.members, key, false, keys);
      case Index(k) =>
        DecodeDecimal(k, []);
        assert Decimal(k) + [] == Decimal(k);
        IndexToken(k);
        PlainToken(Decimal(k));
        TopEdits(v, Decimal(k), Null, caseSensitive);
    }
  }

  /** Nothing can be added in front of an element that is not there, with status 10, or below a node that has no
      children, with status 9. */
  lemma NoRoom(v: Json, p: Path, place: Place, x: Json, patch: Json, caseSensitive: bool, keys: iset<bytes>)
    requires Tidy(v, keys) && PatchableKeys(keys) && ValidPath(v, p)
    requires Asks(patch, Ascii("add"), PlacePath(v, p, place)) && Says(patch, Ascii("value"), x)
    ensures At(v, p).Array? && place.Index? && |At(v, p).items| < place.k < WORD ==>
              ApplyPatch(v, patch, caseSensitive) == Outcome(10, v)
    ensures !At(v, p).Array? && !At(v, p).Object? ==> ApplyPatch(v, patch, caseSensitive) == Outcome(9, v)
  {
    hide Ascii, DecodeOperation, InsertPath, PatchableKeys, Tidy, ApplyPatch, Says, GetObjectItem, TokenFor, PointerTo;
    Asked(v, patch, Ascii("add"), PlacePath(v, p, place), caseSensitive);
    SaidIsFound(patch, Ascii("value"), x, caseSensitive);
    var last := [SLASH] + TokenFor(place);
    assert PlacePath(v, p, place) == PointerTo(v, p) + last;
    NoRoomHere(At(v, p), place, x, caseSensitive);
    PutSame(v, p);
    EditDown(v, p, At(v, p), last, x, caseSensitive, keys);
  }

  /** In an array a token that is neither `-` nor taken for an index is refused with status 11. */
  lemma NoIndex(v: Json, p: Path, token: bytes, x: Json, patch: Json, caseSensitive: bool, keys: iset<bytes>)
    requires Tidy(v, keys) && PatchableKeys(keys) && ValidPath(v, p) && At(v, p).Array?
    requires EscapeFree(token) && token != Ascii("-") && DecodeArrayIndex(token).None?
    requires Asks(patch, Ascii("add"), PointerTo(v, p) + [SLASH] + token) && Says(patch, Ascii("value"), x)
    ensures ApplyPatch(v, patch, caseSensitive) == Outcome(11, v)
  {
    hide *;
    var path, last := PointerTo(v, p) + [SLASH] + token, [SLASH] + token;
    assert path == PointerTo(v, p) + last && path != [];
    NoIndexHere(At(v, p), token, x, caseSensitive);
    PutSame(v, p);
    EditDown(v, p, At(v, p), last, x, caseSensitive, keys);
    Asked(v, patch, Ascii("add"), path, caseSensitive);
    SaidIsFound(patch, Ascii("value"), x, caseSensitive);
    AddIs(v, path, x, caseSensitive);
  }

  lemma AddIs(v: Json, path: bytes, x: Json, caseSensitive: bool)
    requires path != []
    ensures forall from :: ApplyEdit(v, Add, path, Some(x), from, caseSensitive) == InsertPath(v, path, x, caseSensitive)
  {
    hide InsertPath, DetachPath;
  }

  lemma NoIndexHere(v: Json, token: bytes, x: Json, caseSensitive: bool)
    requires v.Array? && EscapeFree(token) && token != Ascii("-") && DecodeArrayIndex(token).None?
    ensures InsertPath(v, [SLASH] + token, x, caseSensitive) == Outcome(11, v)
  {
    assert Ascii("-") == [MINUS];
    hide Encode, DecodeInPlace, DecodeArrayIndex, InsertPath;
    PlainToken(token);
    TopEdits(v, token, x, caseSensitive);
  }

  lemma NoRoomHere(v: Json, place: Place, x: Json, caseSensitive: bool)
    ensures v.Array? && place.Index? && |v.items| < place.k < WORD ==>
              InsertPath(v, [SLASH] + TokenFor(place), x, caseSensitive) == Outcome(10, v)
    ensures !v.Array? && !v.Object? ==> InsertPath(v, [SLASH] + TokenFor(place), x, caseSensitive) == Outcome(9, v)
  {
    hide Encode, Decimal, DecodeInPlace, DecodeArrayIndex, InsertPath;
    match place {
      case Name(key) => EncodeShape(key);
      case Index(k) =>
        IndexToken(k);
        PlainToken(Decimal(k));
        if k < WORD {
          DecodeDecimal(k, []);
          assert Decimal(k) + [] == Decimal(k);
        }
      case End =>
    }
    assert SLASH !in TokenFor(place);
    TopEdits(v, TokenFor(place), x, caseSensitive);
  }

  /** A patch that fails leaves the document as it was, except that a "replace" or a "move" may have taken its child
      out already. */
  lemma FailedPatch(v: Json, patch: Json, caseSensitive: bool)
    requires ApplyPatch(v, patch, caseSensitive).status != 0
    ensures var r := ApplyPatch(v, patch, caseSensitive);
            r.root == v ||
            (DecodeOperation(patch, caseSensitive) in [Replace, Move] &&
             exists path :: DetachPath(v, path, caseSensitive).item.Some? && r.root == DetachPath(v, path, caseSensitive).rest)
  {
    hide DecodeOperation, DetachPath, InsertPath, GetPath, CompareJson, GetObjectItem;
    match GetObjectItem(patch, PATH, caseSensitive) {
      case Some(String(path)) =>
        FailedEdit(v, DecodeOperation(patch, caseSensitive), path, GetObjectItem(patch, VALUE, caseSensitive),
                   GetObjectItem(patch, FROM, caseSensitive), caseSensitive);
      case _ =>
    }
  }

  lemma FailedEdit(v: Json, op: Operation, path: bytes, value: Option<Json>, from: Option<Json>, caseSensitive: bool)
    ensures var r := ApplyEdit(v, op, path, value, from, caseSensitive);
            r.status == 0 || r.root == v ||
            (op in [Replace, Move] &&
             exists q :: DetachPath(v, q, caseSensitive).item.Some? && r.root == DetachPath(v, q, caseSensitive).rest)
  {
    hide DetachPath, InsertPath, GetPath, CompareJson;
    var d := DetachPath(v, path, caseSensitive);
    if d.item.None? {
      DetachNothing(v, path, caseSensitive);
    }
    if value.Some? {
      InsertNothing(v, path, value.value, caseSensitive);
      InsertNothing(d.rest, path, value.value, caseSensitive);
    }
    if from.Some? && from.value.String? {
      var t := TakeFrom(v, op == Move, from.value, caseSensitive);
      if op == Move && t.item.None? {
        DetachNothing(v, from.value.s, caseSensitive);
      }
      if t.item.Some? {
        InsertNothing(t.rest, path, t.item.value, caseSensitive);
      }
    }
  }
}
