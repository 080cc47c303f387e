/** What detaching and inserting at a pointer mean for the nodes of a document. */
module PatchPositions {
  import opened Bytes
  import opened KeySort
  import opened JsonTree
  import opened JsonPointer
  import opened JsonPatch
  import opened PatchRoundTrip

  /** A container without its child `i`. */
  function WithoutChild(v: Json, i: nat): Json
    requires i < |Children(v)|
  {
    match v
    case Array(items) => Array(Without(items, i))
    case Object(members) => Object(Without(members, i))
  }

  /** Where in a container a new child goes: under a new name, in front of an element, or behind the last one. */
  datatype Place = Name(key: bytes) | Index(k: nat) | End

  function TokenFor(place: Place): bytes {
    match place
    case Name(key) => Encode(key)
    case Index(k) => Decimal(k)
    case End => [MINUS]
  }

  ghost predicate Free(v: Json, place: Place, keys: iset<bytes>) {
    match place
    case Name(key) => v.Object? && key in keys && key !in KeysOf(v.members)
    case Index(k) => v.Array? && k <= |v.items| && k < WORD
    case End => v.Array?
  }

  /** A container with a new child at a place. */
  function Grown(v: Json, place: Place, value: Json): Json {
    match (v, place)
    case (Object(members), Name(key)) => Object(members + [Keyed(key, value)])
    case (Array(items), Index(k)) =>
      if k <= |items| then Array(items[..k] + [value] + items[k..]) else v
    case (Array(items), End) => Array(items + [value])
    case (_, _) => v
  }

  // ----- in one container

  lemma DetachHere(v: Json, i: nat, caseSensitive: bool, keys: iset<bytes>)
    requires Tidy(v, keys) && PatchableKeys(keys) && i < |Children(v)|
    ensures DetachPath(v, [SLASH] + TokenOf(v, i), caseSensitive) == Detached(Some(Children(v)[i]), WithoutChild(v, i))
  {
    match v {
      case Array(items) => ElementDetached(items, i, caseSensitive);
      case Object(members) =>
        TidyHasKeys(members, keys);
        ObjectRemove(members, i, caseSensitive, keys);
    }
  }

  lemma ElementDetached(items: seq<Json>, i: nat, caseSensitive: bool)
    requires i < |items| && i < WORD
    ensures DetachPath(Array(items), [SLASH] + Decimal(i), caseSensitive) == Detached(Some(items[i]), Array(Without(items, i)))
  {
    hide Decimal, DetachPath, DecodeArrayIndex, DecodeInPlace;
    DecodeDecimal(i, []);
    assert Decimal(i) + [] == Decimal(i);
    IndexToken(i);
    PlainToken(Decimal(i));
    TopEdits(Array(items), Decimal(i), Null, caseSensitive);
  }

  lemma ElementInserted(items: seq<Json>, k: nat, value: Json, caseSensitive: bool)
    requires k <= |items| && k < WORD
    ensures InsertPath(Array(items), [SLASH] + Decimal(k), value, caseSensitive)
            == Outcome(0, Array(items[..k] + [value] + items[k..]))
  {
    hide Decimal, InsertPath, DecodeArrayIndex, DecodeInPlace;
    DecodeDecimal(k, []);
    assert Decimal(k) + [] == Decimal(k);
    IndexToken(k);
    PlainToken(Decimal(k));
    TopEdits(Array(items), Decimal(k), value, caseSensitive);
  }

  lemma ElementAppended(items: seq<Json>, value: Json, caseSensitive: bool)
    ensures InsertPath(Array(items), [SLASH] + [MINUS], value, caseSensitive) == Outcome(0, Array(items + [value]))
  {
    hide InsertPath, DecodeInPlace;
    PlainToken([MINUS]);
    TopEdits(Array(items), [MINUS], value, caseSensitive);
  }

  lemma InsertHere(v: Json, place: Place, value: Json, caseSensitive: bool, keys: iset<bytes>)
    requires Tidy(v, keys) && PatchableKeys(keys) && Free(v, place, keys)
    ensures InsertPath(v, [SLASH] + TokenFor(place), value, caseSensitive) == Outcome(0, Grown(v, place, value))
  {
    match place {
      case Name(key) =>
        TidyHasKeys(v.members, keys);
        ObjectAdd(v.members, Keyed(key, value), caseSensitive, keys);
      case Index(k) => ElementInserted(v.items, k, value, caseSensitive);
      case End => ElementAppended(v.items, value, caseSensitive);
    }
  }

  lemma MembersHaveKeys(members: seq<Member>, keys: iset<bytes>)
    requires Tidy(Object(members), keys)
    ensures HasKeys(members, keys)
  {
  }

  /** Detaching under the token an insertion used takes the inserted child out again. */
  lemma UndoHere(v: Json, place: Place, value: Json, caseSensitive: bool, keys: iset<bytes>)
    requires Tidy(v, keys) && PatchableKeys(keys) && Free(v, place, keys) && !place.End?
    ensures DetachPath(Grown(v, place, value), [SLASH] + TokenFor(place), caseSensitive) == Detached(Some(value), v)
  {
    hide Encode, Decimal, DetachPath, PatchableKeys, Tidy, TidyMembers, HasKeys;
    match place {
      case Name(key) =>
        var x := Keyed(key, value);
        MembersHaveKeys(v.members, keys);
        AppendHasKeys(v.members, x, keys);
        ObjectRemove(v.members + [x], |v.members|, caseSensitive, keys);
        assert Without(v.members + [x], |v.members|) == v.members;
      case Index(k) =>
        var grown := v.items[..k] + [value] + v.items[k..];
        ElementDetached(grown, k, caseSensitive);
        assert Without(grown, k) == v.items;
    }
  }

  // ----- anywhere in a document

  lemma NamesChild(v: Json, i: nat, caseSensitive: bool, keys: iset<bytes>)
    requires Tidy(v, keys) && PatchableKeys(keys) && i < |Children(v)|
    ensures Names(v, TokenOf(v, i), i, caseSensitive) && Tidy(Children(v)[i], keys)
  {
    match v {
      case Array(items) => NamesIndex(items, i, caseSensitive);
      case Object(members) =>
        TidyHasKeys(members, keys);
        NamesKey(members, i, caseSensitive, keys);
    }
  }

  lemma Below(v: Json, p: Path, last: bytes)
    requires p != [] && ValidPath(v, p) && last != [] && last[0] == SLASH
    ensures var q := PointerTo(Children(v)[p[0]], p[1..]) + last;
            PointerTo(v, p) + last == [SLASH] + TokenOf(v, p[0]) + q && |q| > 0 && q[0] == SLASH
  {
    hide TokenOf;
    var token, rest := TokenOf(v, p[0]), PointerTo(Children(v)[p[0]], p[1..]);
    assert PointerTo(v, p) == [SLASH] + token + rest;
    PointerToAtBoundary(Children(v)[p[0]], p[1..]);
    hide PointerTo;
    Grouped(token, rest, last);
  }

  lemma Grouped(token: bytes, rest: bytes, last: bytes)
    requires AtBoundary(rest) && last != [] && last[0] == SLASH
    ensures [SLASH] + token + rest + last == [SLASH] + token + (rest + last)
    ensures |rest + last| > 0 && (rest + last)[0] == SLASH
  {
  }

  /** Below the pointer of a node, an edit does to the document what it does to that node alone, whatever stands there. */
  lemma {:induction false} EditDown(v: Json, p: Path, w: Json, last: bytes, value: Json, caseSensitive: bool, keys: iset<bytes>)
    requires Tidy(v, keys) && PatchableKeys(keys) && ValidPath(v, p) && last != [] && last[0] == SLASH
    ensures var d, e := DetachPath(Put(v, p, w), PointerTo(v, p) + last, caseSensitive), DetachPath(w, last, caseSensitive);
            d == Detached(e.item, Put(v, p, e.rest))
    ensures var d := InsertPath(Put(v, p, w), PointerTo(v, p) + last, value, caseSensitive);
            var e := InsertPath(w, last, value, caseSensitive);
            d == Outcome(e.status, Put(v, p, e.root))
    decreases |p|
  {
    hide InsertPath, DetachPath, PatchableKeys, Tidy, TokenOf, WithChild, Names;
    if p == [] {
      assert [] + last == last;
    } else {
      var i, token, child := p[0], TokenOf(v, p[0]), Children(v)[p[0]];
      var q, u := PointerTo(child, p[1..]) + last, Put(child, p[1..], w);
      NamesChild(v, i, caseSensitive, keys);
      EditDown(child, p[1..], w, last, value, caseSensitive, keys);
      Below(v, p, last);
      NamesAfterUpdate(v, token, i, u, caseSensitive);
      WithChildFacts(v, i, u, DetachPath(u, q, caseSensitive).rest);
      WithChildFacts(v, i, u, InsertPath(u, q, value, caseSensitive).root);
      DetachBelow(WithChild(v, i, u), token, i, q, caseSensitive);
      InsertBelow(WithChild(v, i, u), token, i, q, value, caseSensitive);
    }
  }

  /** A node below a tidy document is tidy. */
  lemma {:induction false} TidyBelow(v: Json, p: Path, keys: iset<bytes>)
    requires Tidy(v, keys) && ValidPath(v, p)
    ensures Tidy(At(v, p), keys)
    decreases |p|
  {
    if p != [] {
      TidyBelow(Children(v)[p[0]], p[1..], keys);
    }
  }

  /** Detaching at the pointer of a node returns that node and leaves the document without it, and otherwise as it was. */
  lemma DetachAtPointer(v: Json, p: Path, i: nat, caseSensitive: bool, keys: iset<bytes>)
    requires Tidy(v, keys) && PatchableKeys(keys) && ValidPath(v, p) && i < |Children(At(v, p))|
    ensures DetachPath(v, PointerTo(v, p) + [SLASH] + TokenOf(At(v, p), i), caseSensitive)
            == Detached(Some(Children(At(v, p))[i]), Put(v, p, WithoutChild(At(v, p), i)))
  {
    hide DetachPath, InsertPath, PatchableKeys, Tidy, TokenOf, WithoutChild;
    var last := [SLASH] + TokenOf(At(v, p), i);
    assert PointerTo(v, p) + [SLASH] + TokenOf(At(v, p), i) == PointerTo(v, p) + last;
    PutSame(v, p);
    TidyBelow(v, p, keys);
    DetachHere(At(v, p), i, caseSensitive, keys);
    EditDown(v, p, At(v, p), last, Null, caseSensitive, keys);
  }

  /** Inserting at a free place below the pointer of a node adds the value there, and changes nothing else. */
  lemma InsertAtPointer(v: Json, p: Path, place: Place, value: Json, caseSensitive: bool, keys: iset<bytes>)
    requires Tidy(v, keys) && PatchableKeys(keys) && ValidPath(v, p) && Free(At(v, p), place, keys)
    ensures InsertPath(v, PointerTo(v, p) + [SLASH] + TokenFor(place), value, caseSensitive)
            == Outcome(0, Put(v, p, Grown(At(v, p), place, value)))
  {
    hide DetachPath, InsertPath, PatchableKeys, Tidy, TokenFor, Grown, Free;
    var last := [SLASH] + TokenFor(place);
    assert PointerTo(v, p) + [SLASH] + TokenFor(place) == PointerTo(v, p) + last;
    PutSame(v, p);
    TidyBelow(v, p, keys);
    InsertHere(At(v, p), place, value, caseSensitive, keys);
    EditDown(v, p, At(v, p), last, value, caseSensitive, keys);
  }

  /** Detaching what was just inserted, with the same path, gives the value and the old document back. */
  lemma DetachUndoesInsert(v: Json, p: Path, place: Place, value: Json, caseSensitive: bool, keys: iset<bytes>)
    requires Tidy(v, keys) && PatchableKeys(keys) && ValidPath(v, p) && Free(At(v, p), place, keys) && !place.End?
    ensures var path := PointerTo(v, p) + [SLASH] + TokenFor(place);
            DetachPath(InsertPath(v, path, value, caseSensitive).root, path, caseSensitive) == Detached(Some(value), v)
  {
    hide DetachPath, InsertPath, PatchableKeys, Tidy, TokenFor, Grown, Free;
    var last := [SLASH] + TokenFor(place);
    assert PointerTo(v, p) + [SLASH] + TokenFor(place) == PointerTo(v, p) + last;
    PutSame(v, p);
    TidyBelow(v, p, keys);
    InsertAtPointer(v, p, place, value, caseSensitive, keys);
    UndoHere(At(v, p), place, value, caseSensitive, keys);
    EditDown(v, p, Grown(At(v, p), place, value), last, Null, caseSensitive, keys);
  }
}
