/** JSON Patch on trees whose objects remember where the head of their member list points back to: what a `test` does
    to a document, and what later patches then find. */
module LoosePatch {
  import opened Bytes
  import opened KeySort
  import opened LooseList
  import opened JsonTree
  import opened JsonCompare
  import opened JsonPointer
  import opened JsonPatch
  import opened PatchRoundTrip

  type Simple = v: Json | !v.Array? && !v.Object? witness Null

  /** An item with its children; only lists of members are ever sorted, so only they can lose their tail. */
  datatype Item = Scalar(v: Simple) | Elements(items: seq<Item>) | Record(members: seq<Keyed<Item>>, back: Back)

  /** The tree that reading the item from the front gives. */
  function Plain(t: Item): Json
    decreases t, 1
  {
    match t
    case Scalar(v) => v
    case Elements(items) => Array(PlainItems(items))
    case Record(members, _) => Object(PlainMembers(members))
  }

  function PlainItems(items: seq<Item>): (r: seq<Json>)
    ensures |r| == |items|
    decreases items, 0
  {
    seq(|items|, i requires 0 <= i < |items| => Plain(items[i]))
  }

  function PlainMembers(members: seq<Keyed<Item>>): (r: seq<Member>)
    ensures |r| == |members|
    decreases members, 0
  {
    seq(|members|, i requires 0 <= i < |members| => Keyed(members[i].key, Plain(members[i].value)))
  }

  /** A tree as the parser and `cJSON_Duplicate` build it. */
  function Fresh(v: Json): Item
    decreases v, 1
  {
    match v
    case Array(items) => Elements(FreshItems(items))
    case Object(members) => Record(FreshMembers(members), Tail)
    case _ => Scalar(v)
  }

  function FreshItems(items: seq<Json>): (r: seq<Item>)
    ensures |r| == |items|
    decreases items, 0
  {
    seq(|items|, i requires 0 <= i < |items| => Fresh(items[i]))
  }

  function FreshMembers(members: seq<Member>): (r: seq<Keyed<Item>>)
    ensures |r| == |members|
    decreases members, 0
  {
    seq(|members|, i requires 0 <= i < |members| => Keyed(members[i].key, Fresh(members[i].value)))
  }

  /** Every list of members ends where its head says. */
  ghost predicate Intact(t: Item)
    decreases t
  {
    match t
    case Scalar(_) => true
    case Elements(items) => forall i :: 0 <= i < |items| ==> Intact(items[i])
    case Record(members, back) => back == Tail && forall i :: 0 <= i < |members| ==> Intact(members[i].value)
  }

  lemma {:induction false} FreshIsPlain(v: Json)
    ensures Plain(Fresh(v)) == v && Intact(Fresh(v))
    decreases v
  {
    match v {
      case Array(items) =>
        forall i | 0 <= i < |items| ensures Plain(Fresh(items[i])) == items[i] && Intact(Fresh(items[i])) {
          FreshIsPlain(items[i]);
        }
        assert PlainItems(FreshItems(items)) == items;
      case Object(members) =>
        forall i | 0 <= i < |members|
          ensures Plain(Fresh(members[i].value)) == members[i].value && Intact(Fresh(members[i].value))
        {
          FreshIsPlain(members[i].value);
        }
        assert PlainMembers(FreshMembers(members)) == members;
      case _ =>
    }
  }

  // ----- positions

  function Kids(t: Item): seq<Item> {
    match t
    case Scalar(_) => []
    case Elements(items) => items
    case Record(members, _) => seq(|members|, i requires 0 <= i < |members| => members[i].value)
  }

  function WithKid(t: Item, i: nat, x: Item): Item
    requires i < |Kids(t)|
  {
    match t
    case Elements(items) => Elements(items[i := x])
    case Record(members, back) => Record(members[i := Keyed(members[i].key, x)], back)
  }

  lemma PlainKids(t: Item)
    ensures |Kids(t)| == |Children(Plain(t))|
    ensures forall i :: 0 <= i < |Kids(t)| ==> Plain(Kids(t)[i]) == Children(Plain(t))[i]
    ensures Intact(t) ==> forall i :: 0 <= i < |Kids(t)| ==> Intact(Kids(t)[i])
  {
  }

  lemma PlainWithKid(t: Item, i: nat, x: Item)
    requires i < |Kids(t)| == |Children(Plain(t))|
    ensures Plain(WithKid(t, i, x)) == WithChild(Plain(t), i, Plain(x))
    ensures Intact(t) && Intact(x) ==> Intact(WithKid(t, i, x))
  {
    match t {
      case Elements(items) => assert PlainItems(items[i := x]) == PlainItems(items)[i := Plain(x)];
      case Record(members, _) =>
        assert PlainMembers(members[i := Keyed(members[i].key, x)])
               == PlainMembers(members)[i := Keyed(members[i].key, Plain(x))];
    }
  }

  function ItemAt(t: Item, p: Path): Item
    requires ValidPath(Plain(t), p)
    decreases |p|
  {
    PlainKids(t);
    if p == [] then t else ItemAt(Kids(t)[p[0]], p[1..])
  }

  function ItemPut(t: Item, p: Path, x: Item): Item
    requires ValidPath(Plain(t), p)
    decreases |p|
  {
    PlainKids(t);
    if p == [] then x else WithKid(t, p[0], ItemPut(Kids(t)[p[0]], p[1..], x))
  }

  lemma {:induction false} PlainPosition(t: Item, p: Path, x: Item)
    requires ValidPath(Plain(t), p)
    ensures Plain(ItemAt(t, p)) == At(Plain(t), p) && Plain(ItemPut(t, p, x)) == Put(Plain(t), p, Plain(x))
    ensures Intact(t) ==> Intact(ItemAt(t, p))
    ensures Intact(t) && Intact(x) ==> Intact(ItemPut(t, p, x))
    decreases |p|
  {
    hide Plain, Intact, WithKid, WithChild;
    PlainKids(t);
    if p != [] {
      PlainPosition(Kids(t)[p[0]], p[1..], x);
      PlainWithKid(t, p[0], ItemPut(Kids(t)[p[0]], p[1..], x));
    }
  }

  // ----- comparing, which sorts

  datatype Compared<T> = Compared(same: bool, left: T)

  ghost predicate Below(members: seq<Keyed<Item>>, bound: Item) {
    forall m :: m in members ==> m.value < bound
  }

  lemma SortBelow(t: Item, caseSensitive: bool)
    requires t.Record?
    ensures Below(SortSeq(t.members, caseSensitive), t)
  {
    var s := SortSeq(t.members, caseSensitive);
    SortPermutes(t.members, caseSensitive);
    forall m | m in s ensures m.value < t {
      SameMembers(s, t.members, m);
      var i :| 0 <= i < |t.members| && t.members[i] == m;
      assert t.members[i].value < t;
    }
  }

  /** `compare_json` on an item of the document: the answer, and the item as it is left behind. */
  function CompareItem(a: Item, b: Json, caseSensitive: bool): Compared<Item>
    decreases a, 1
  {
    match (a, b)
    case (Scalar(v), _) => Compared(CompareJson(v, b, caseSensitive), a)
    case (Elements(items), Array(ys)) =>
      var c := CompareElements(items, ys, caseSensitive, a);
      Compared(c.same, Elements(c.left))
    case (Record(members, back), Object(ys)) =>
      SortBelow(a, caseSensitive);
      var c := CompareRecord(SortSeq(members, caseSensitive), SortSeq(ys, caseSensitive), caseSensitive, a);
      Compared(c.same, Record(c.left, SortBack(Order(members, caseSensitive), back)))
    case (_, _) => Compared(false, a)
  }

  function CompareElements(xs: seq<Item>, ys: seq<Json>, caseSensitive: bool, ghost bound: Item): Compared<seq<Item>>
    requires forall i :: 0 <= i < |xs| ==> xs[i] < bound
    decreases bound, 0, |xs|
  {
    if xs == [] || ys == [] then Compared(xs == [] && ys == [], xs)
    else
      var c := CompareItem(xs[0], ys[0], caseSensitive);
      if !c.same then Compared(false, [c.left] + xs[1..])
      else
        var rest := CompareElements(xs[1..], ys[1..], caseSensitive, bound);
        Compared(rest.same, [c.left] + rest.left)
  }

  function CompareRecord(xs: seq<Keyed<Item>>, ys: seq<Member>, caseSensitive: bool, ghost bound: Item)
    : Compared<seq<Keyed<Item>>>
    requires Below(xs, bound)
    decreases bound, 0, |xs|
  {
    if xs == [] || ys == [] then Compared(xs == [] && ys == [], xs)
    else if CompareStrings(xs[0].key, ys[0].key, caseSensitive) != 0 then Compared(false, xs)
    else
      var c := CompareItem(xs[0].value, ys[0].value, caseSensitive);
      if !c.same then Compared(false, [Keyed(xs[0].key, c.left)] + xs[1..])
      else
        var rest := CompareRecord(xs[1..], ys[1..], caseSensitive, bound);
        Compared(rest.same, [Keyed(xs[0].key, c.left)] + rest.left)
  }

  lemma PlainSort(members: seq<Keyed<Item>>, caseSensitive: bool)
    ensures PlainMembers(SortSeq(members, caseSensitive)) == SortSeq(PlainMembers(members), caseSensitive)
  {
    hide SortSeq;
    var s := SortSeq(members, caseSensitive);
    assert PlainMembers(members) == Relabel(Plain, members);
    assert PlainMembers(s) == Relabel(Plain, s);
    SortRelabel(Plain, members, caseSensitive);
  }

  /** The answer is that of the comparison of the plain trees. */
  lemma {:induction false} CompareAnswers(a: Item, b: Json, caseSensitive: bool)
    ensures CompareItem(a, b, caseSensitive).same <==> CompareJson(Plain(a), b, caseSensitive)
    decreases a, 1
  {
    hide SortSeq, CompareStrings, SortBack, Order;
    match (a, b) {
      case (Elements(items), Array(ys)) =>
        ElementsAnswer(items, ys, caseSensitive, a);
      case (Record(members, back), Object(ys)) =>
        SortBelow(a, caseSensitive);
        SortWithin(PlainMembers(members), caseSensitive);
        PlainSort(members, caseSensitive);
        RecordAnswers(SortSeq(members, caseSensitive), SortSeq(ys, caseSensitive), caseSensitive, a, Plain(a));
      case (_, _) =>
    }
  }

  lemma {:induction false} ElementsAnswer(xs: seq<Item>, ys: seq<Json>, caseSensitive: bool, bound: Item)
    requires forall i :: 0 <= i < |xs| ==> xs[i] < bound
    ensures CompareElements(xs, ys, caseSensitive, bound).same <==>
            |xs| == |ys| && forall i :: 0 <= i < |xs| ==> CompareJson(Plain(xs[i]), ys[i], caseSensitive)
    decreases bound, 0, |xs|
  {
    hide CompareItem, CompareJson, Plain;
    if xs != [] && ys != [] {
      CompareAnswers(xs[0], ys[0], caseSensitive);
      ElementsAnswer(xs[1..], ys[1..], caseSensitive, bound);
      assert forall i :: 0 < i < |xs| ==> xs[1..][i - 1] == xs[i];
      assert |xs| == |ys| ==> forall i :: 0 < i < |ys| ==> ys[1..][i - 1] == ys[i];
    }
  }

  lemma BelowTail(xs: seq<Keyed<Item>>, bound: Item)
    requires xs != [] && Below(xs, bound)
    ensures Below(xs[1..], bound) && xs[0].value < bound
  {
    assert xs[0] in xs && forall x :: x in xs[1..] ==> x in xs;
  }

  lemma PlainTail(xs: seq<Keyed<Item>>, limit: Json)
    requires xs != [] && Within(PlainMembers(xs), limit)
    ensures PlainMembers(xs)[1..] == PlainMembers(xs[1..])
    ensures PlainMembers(xs)[0] == Keyed(xs[0].key, Plain(xs[0].value))
    ensures Within(PlainMembers(xs[1..]), limit)
  {
    var plain := PlainMembers(xs);
    assert plain[1..] == PlainMembers(xs[1..]);
    assert forall m :: m in plain[1..] ==> m in plain;
  }

  lemma {:induction false} RecordAnswers(xs: seq<Keyed<Item>>, ys: seq<Member>, caseSensitive: bool, bound: Item,
                                         limit: Json)
    requires Below(xs, bound) && Within(PlainMembers(xs), limit)
    ensures CompareRecord(xs, ys, caseSensitive, bound).same <==> CompareMembers(PlainMembers(xs), ys, caseSensitive, limit)
    decreases bound, 0, |xs|
  {
    hide CompareItem, CompareJson, CompareStrings, Plain, PlainMembers;
    if xs != [] && ys != [] {
      BelowTail(xs, bound);
      PlainTail(xs, limit);
      CompareAnswers(xs[0].value, ys[0].value, caseSensitive);
      RecordAnswers(xs[1..], ys[1..], caseSensitive, bound, limit);
    }
  }

  // ----- editing a container

  datatype Taken = Taken(item: Option<Item>, rest: Item)

  function TakeKid(parent: Item, name: bytes): Taken {
    match parent
    case Elements(items) =>
      (match DecodeArrayIndex(name)
       case Some(i) =>
         if i < |items| then Taken(Some(items[i]), Elements(Without(items, i))) else Taken(None, parent)
       case None => Taken(None, parent))
    case Record(members, back) =>
      var i := FindKey(PlainMembers(members), name, false);
      if i < |members| then Taken(Some(members[i].value), DropMember(members, back, i)) else Taken(None, parent)
    case Scalar(_) => Taken(None, parent)
  }

  function DropMember(members: seq<Keyed<Item>>, back: Back, i: nat): Item
    requires i < |members|
  {
    Record(Without(members, i), DetachBack(|members|, i, back))
  }

  /** What a patch does: a status and the document, or a write through a pointer to an item that has left the list, of
      which nothing can be said. */
  datatype Effect = Undefined | Done(status: int, root: Item)

  function AppendMember(members: seq<Keyed<Item>>, back: Back, x: Keyed<Item>): Effect {
    if members != [] && back.Gone? then Undefined
    else Done(0, Record(AppendTo(members, back, x), AppendBack(|members|, back)))
  }

  /** Put a value into a container; an append to a list that has lost its tail reports success all the same. */
  function PutKid(parent: Item, name: bytes, value: Item, caseSensitive: bool): Effect {
    match parent
    case Elements(items) =>
      if name == [MINUS] then Done(0, Elements(items + [value]))
      else
        (match DecodeArrayIndex(name)
         case None => Done(11, parent)
         case Some(i) =>
           if i <= |items| then Done(0, Elements(items[..i] + [value] + items[i..])) else Done(10, parent))
    case Record(members, back) =>
      var i := FindKey(PlainMembers(members), name, caseSensitive);
      if i < |members| then
        AppendMember(Without(members, i), DetachBack(|members|, i, back), Keyed(name, value))
      else AppendMember(members, back, Keyed(name, value))
    case Scalar(_) => Done(9, parent)
  }

  // ----- editing a document

  /** `detach_path` */
  function TakePath(root: Item, path: bytes, caseSensitive: bool): Taken {
    var i := LastSlash(path);
    if i < 0 then Taken(None, root)
    else
      match Resolve(Plain(root), path[..i], caseSensitive)
      case None => Taken(None, root)
      case Some(p) =>
        var d := TakeKid(ItemAt(root, p), DecodeInPlace(path[i + 1..]));
        Taken(d.item, ItemPut(root, p, d.rest))
  }

  /** The closing part of `apply_patch`: add a value at a path. */
  function PutPath(root: Item, path: bytes, value: Item, caseSensitive: bool): Effect {
    var i := LastSlash(path);
    if i < 0 then Done(9, root)
    else
      match Resolve(Plain(root), path[..i], caseSensitive)
      case None => Done(9, root)
      case Some(p) =>
        Upwards(root, p, PutKid(ItemAt(root, p), DecodeInPlace(path[i + 1..]), value, caseSensitive))
  }

  /** What was done to the node at `p`, seen from the root. */
  function Upwards(root: Item, p: Path, e: Effect): Effect
    requires ValidPath(Plain(root), p)
  {
    match e
    case Undefined => Undefined
    case Done(status, parent) => Done(status, ItemPut(root, p, parent))
  }

  /** "test": compare in place. */
  function TestPath(root: Item, path: bytes, value: Option<Json>, caseSensitive: bool): Effect {
    match (Resolve(Plain(root), path, caseSensitive), value)
    case (Some(p), Some(w)) =>
      var c := CompareItem(ItemAt(root, p), w, caseSensitive);
      Done(if c.same then 0 else 1, ItemPut(root, p, c.left))
    case (_, _) => Done(1, root)
  }

  function PutValue(root: Item, path: bytes, value: Option<Json>, caseSensitive: bool): Effect {
    match value
    case None => Done(7, root)
    case Some(v) => PutPath(root, path, Fresh(v), caseSensitive)
  }

  /** What "move" and "copy" take their value from; a copy is a new tree. */
  function TakeSource(root: Item, move: bool, from: Json, caseSensitive: bool): Taken {
    if !from.String? then Taken(None, root)
    else if move then TakePath(root, from.s, caseSensitive)
    else
      match GetPath(Plain(root), from.s, caseSensitive)
      case None => Taken(None, root)
      case Some(v) => Taken(Some(Fresh(v)), root)
  }

  function EditItem(root: Item, op: Operation, path: bytes, value: Option<Json>, from: Option<Json>,
                    caseSensitive: bool): Effect
  {
    if op == Test then TestPath(root, path, value, caseSensitive)
    else if path == [] && op == Remove then Done(0, Scalar(Invalid))
    else if path == [] && (op == Replace || op == Add) then
      match value
      case None => Done(7, root)
      case Some(v) => Done(0, Fresh(v))
    else if op == Remove || op == Replace then
      var d := TakePath(root, path, caseSensitive);
      if d.item.None? then Done(13, d.rest)
      else if op == Remove then Done(0, d.rest)
      else PutValue(d.rest, path, value, caseSensitive)
    else if op == Move || op == Copy then
      match from
      case None => Done(4, root)
      case Some(f) =>
        var d := TakeSource(root, op == Move, f, caseSensitive);
        if d.item.None? then Done(5, d.rest) else PutPath(d.rest, path, d.item.value, caseSensitive)
    else PutValue(root, path, value, caseSensitive)
  }

  /** `apply_patch` */
  function PatchItem(root: Item, patch: Json, caseSensitive: bool): Effect {
    match GetObjectItem(patch, PATH, caseSensitive)
    case Some(String(path)) =>
      var op := DecodeOperation(patch, caseSensitive);
      if op == BadOperation then Done(3, root)
      else EditItem(root, op, path, GetObjectItem(patch, VALUE, caseSensitive), GetObjectItem(patch, FROM, caseSensitive),
                    caseSensitive)
    case _ => Done(2, root)
  }

  /** `cJSONUtils_ApplyPatches` on the elements of a patch array. */
  function PatchItems(root: Item, patches: seq<Json>, caseSensitive: bool): Effect
    decreases |patches|
  {
    if patches == [] then Done(0, root)
    else
      var r := PatchItem(root, patches[0], caseSensitive);
      if r.Undefined? || r.status != 0 then r else PatchItems(r.root, patches[1..], caseSensitive)
  }

  // ----- without a test the back pointers never matter

  /** The effect is defined, all lists stay intact, and on plain trees it is the outcome. */
  ghost predicate Agrees(e: Effect, o: Outcome) {
    e.Done? && Intact(e.root) && Outcome(e.status, Plain(e.root)) == o
  }

  ghost predicate TakesAlike(d: Taken, e: Detached) {
    Intact(d.rest) && Plain(d.rest) == e.rest && (d.item.Some? <==> e.item.Some?) &&
    (d.item.Some? ==> Intact(d.item.value) && Plain(d.item.value) == e.item.value)
  }

  lemma TakeKidAgrees(parent: Item, name: bytes)
    requires Intact(parent)
    ensures TakesAlike(TakeKid(parent, name), DetachChild(Plain(parent), name))
  {
    match parent {
      case Elements(items) => TakeElementAgrees(items, name);
      case Record(members, back) => TakeMemberAgrees(members, name);
      case Scalar(_) =>
    }
  }

  lemma TakeElementAgrees(items: seq<Item>, name: bytes)
    requires Intact(Elements(items))
    ensures TakesAlike(TakeKid(Elements(items), name), DetachChild(Array(PlainItems(items)), name))
  {
    var at := DecodeArrayIndex(name);
    PlainKids(Elements(items));
    if at.Some? && at.value < |items| {
      RemovedItems(items, at.value);
    }
    hide DecodeArrayIndex, Intact, Plain, PlainItems;
  }

  lemma RemovedItems(items: seq<Item>, i: nat)
    requires i < |items|
    ensures Plain(Elements(Without(items, i))) == Array(Without(PlainItems(items), i))
    ensures Intact(Elements(items)) ==> Intact(Elements(Without(items, i)))
  {
    var r := Without(items, i);
    forall j | 0 <= j < |r| ensures r[j] == items[if j < i then j else j + 1] {
      WithoutAt(items, i, j);
    }
    forall j | 0 <= j < |r| ensures PlainItems(r)[j] == Without(PlainItems(items), i)[j] {
      WithoutAt(PlainItems(items), i, j);
    }
    hide Without;
    assert PlainItems(r) == Without(PlainItems(items), i);
  }

  lemma TakeMemberAgrees(members: seq<Keyed<Item>>, name: bytes)
    requires Intact(Record(members, Tail))
    ensures TakesAlike(TakeKid(Record(members, Tail), name), DetachChild(Object(PlainMembers(members)), name))
  {
    var i := FindKey(PlainMembers(members), name, false);
    if i < |members| {
      WithoutAgrees(members, i);
    }
    hide FindKey, Without;
  }

  lemma PutKidAgrees(parent: Item, name: bytes, value: Item, caseSensitive: bool)
    requires Intact(parent) && Intact(value)
    ensures Agrees(PutKid(parent, name, value, caseSensitive),
                   InsertChild(Plain(parent), name, Plain(value), caseSensitive))
  {
    match parent {
      case Elements(items) => PutElementAgrees(items, name, value, caseSensitive);
      case Record(members, back) => PutMemberAgrees(members, name, value, caseSensitive);
      case Scalar(_) =>
    }
  }

  lemma PutElementAgrees(items: seq<Item>, name: bytes, value: Item, caseSensitive: bool)
    requires Intact(Elements(items)) && Intact(value)
    ensures Agrees(PutKid(Elements(items), name, value, caseSensitive),
                   InsertChild(Array(PlainItems(items)), name, Plain(value), caseSensitive))
  {
    hide DecodeArrayIndex, Intact, Plain, PlainItems;
    InsertedItems(items, 0, value);
    InsertedItems(items, |items|, value);
    assert items[..|items|] + [value] + items[|items|..] == items + [value];
    var plain := PlainItems(items);
    assert plain[..|items|] + [Plain(value)] + plain[|items|..] == plain + [Plain(value)];
    var at := DecodeArrayIndex(name);
    if at.Some? && at.value <= |items| {
      InsertedItems(items, at.value, value);
    }
  }

  lemma InsertedItems(items: seq<Item>, i: nat, value: Item)
    requires i <= |items|
    ensures var grown := items[..i] + [value] + items[i..];
            Plain(Elements(grown)) == Array(PlainItems(items)[..i] + [Plain(value)] + PlainItems(items)[i..]) &&
            (Intact(Elements(items)) && Intact(value) ==> Intact(Elements(grown)))
    ensures Plain(Elements(items)) == Array(PlainItems(items))
  {
    var front, back := items[..i], items[i..];
    IntactInserted(items, i, value);
    PlainElements(items);
    PlainElements(front + [value] + back);
    hide Plain, Intact, PlainItems;
    PlainParts(items, i);
    PlainConcat(front + [value], back);
    PlainConcat(front, [value]);
    PlainOne(value);
  }

  lemma PlainElements(items: seq<Item>)
    ensures Plain(Elements(items)) == Array(PlainItems(items))
  {
    hide PlainItems;
  }

  lemma PlainConcat(a: seq<Item>, b: seq<Item>)
    ensures PlainItems(a + b) == PlainItems(a) + PlainItems(b)
  {
    hide Plain;
  }

  lemma PlainParts(items: seq<Item>, i: nat)
    requires i <= |items|
    ensures PlainItems(items[..i]) == PlainItems(items)[..i] && PlainItems(items[i..]) == PlainItems(items)[i..]
  {
    hide Plain;
  }

  lemma PlainOne(value: Item)
    ensures PlainItems([value]) == [Plain(value)]
  {
    hide Plain;
  }

  lemma IntactInserted(items: seq<Item>, i: nat, value: Item)
    requires i <= |items|
    ensures Intact(Elements(items)) && Intact(value) ==> Intact(Elements(items[..i] + [value] + items[i..]))
  {
    var grown := items[..i] + [value] + items[i..];
    forall j | 0 <= j < |grown| ensures grown[j] == if j < i then items[j] else if j == i then value else items[j - 1] {
    }
  }

  lemma PutMemberAgrees(members: seq<Keyed<Item>>, name: bytes, value: Item, caseSensitive: bool)
    requires Intact(Record(members, Tail)) && Intact(value)
    ensures Agrees(PutKid(Record(members, Tail), name, value, caseSensitive),
                   InsertChild(Object(PlainMembers(members)), name, Plain(value), caseSensitive))
  {
    hide Intact, AppendMember, Plain, FindKey, Without;
    var i := FindKey(PlainMembers(members), name, caseSensitive);
    var x := Keyed(name, value);
    if i < |members| {
      WithoutAgrees(members, i);
      AppendAgrees(Without(members, i), x);
    } else {
      AppendAgrees(members, x);
    }
  }

  lemma WithoutAgrees(members: seq<Keyed<Item>>, i: nat)
    requires i < |members|
    ensures PlainMembers(Without(members, i)) == Without(PlainMembers(members), i)
    ensures Intact(Record(members, Tail)) ==> Intact(Record(Without(members, i), Tail))
  {
    var r := Without(members, i);
    forall j | 0 <= j < |r| ensures r[j] == members[if j < i then j else j + 1] {
      WithoutAt(members, i, j);
    }
    forall j | 0 <= j < |r| ensures PlainMembers(r)[j] == Without(PlainMembers(members), i)[j] {
      WithoutAt(PlainMembers(members), i, j);
    }
    hide Without;
  }

  lemma AppendAgrees(members: seq<Keyed<Item>>, x: Keyed<Item>)
    requires Intact(Record(members, Tail)) && Intact(x.value)
    ensures Agrees(AppendMember(members, Tail, x),
                   Outcome(0, Object(PlainMembers(members) + [Keyed(x.key, Plain(x.value))])))
  {
    assert AppendTo(members, Tail, x) == members + [x];
    AppendedMembers(members, x);
    hide Intact;
  }

  lemma AppendedMembers(members: seq<Keyed<Item>>, x: Keyed<Item>)
    ensures PlainMembers(members + [x]) == PlainMembers(members) + [Keyed(x.key, Plain(x.value))]
    ensures Intact(Record(members, Tail)) && Intact(x.value) ==> Intact(Record(members + [x], Tail))
  {
  }

  lemma TakePathAgrees(root: Item, path: bytes, caseSensitive: bool)
    requires Intact(root)
    ensures TakesAlike(TakePath(root, path, caseSensitive), DetachPath(Plain(root), path, caseSensitive))
  {
    hide DecodeInPlace, Resolve, TakeKid, DetachChild, Intact, Plain, ItemAt, ItemPut, At, Put;
    var i := LastSlash(path);
    if i >= 0 {
      match Resolve(Plain(root), path[..i], caseSensitive) {
        case None =>
        case Some(p) =>
          var name := DecodeInPlace(path[i + 1..]);
          PlainPosition(root, p, root);
          TakeKidAgrees(ItemAt(root, p), name);
          PlainPosition(root, p, TakeKid(ItemAt(root, p), name).rest);
      }
    }
  }

  lemma PutPathAgrees(root: Item, path: bytes, value: Item, caseSensitive: bool)
    requires Intact(root) && Intact(value)
    ensures Agrees(PutPath(root, path, value, caseSensitive),
                   InsertPath(Plain(root), path, Plain(value), caseSensitive))
  {
    hide DecodeInPlace, Resolve, PutKid, InsertChild, Intact, Plain, ItemAt, ItemPut, At, Put;
    var i := LastSlash(path);
    if i >= 0 {
      match Resolve(Plain(root), path[..i], caseSensitive) {
        case None =>
        case Some(p) =>
          var name := DecodeInPlace(path[i + 1..]);
          PlainPosition(root, p, root);
          PutKidAgrees(ItemAt(root, p), name, value, caseSensitive);
          PlainPosition(root, p, PutKid(ItemAt(root, p), name, value, caseSensitive).root);
      }
    }
  }

  lemma EditAgrees(root: Item, op: Operation, path: bytes, value: Option<Json>, from: Option<Json>, caseSensitive: bool)
    requires Intact(root) && op != Test
    ensures Agrees(EditItem(root, op, path, value, from, caseSensitive),
                   ApplyEdit(Plain(root), op, path, value, from, caseSensitive))
  {
    hide TakePath, DetachPath, PutPath, InsertPath, Intact, Plain, Resolve, At, TestPath, GetPath, TakeSource,
         TakeFrom, Fresh;
    TakePathAgrees(root, path, caseSensitive);
    if value.Some? {
      FreshIsPlain(value.value);
      PutPathAgrees(root, path, Fresh(value.value), caseSensitive);
      PutPathAgrees(TakePath(root, path, caseSensitive).rest, path, Fresh(value.value), caseSensitive);
    }
    if from.Some? {
      SourceAgrees(root, op == Move, from.value, caseSensitive);
      var d := TakeSource(root, op == Move, from.value, caseSensitive);
      if d.item.Some? {
        PutPathAgrees(d.rest, path, d.item.value, caseSensitive);
      }
    }
    ScalarsArePlain();
  }

  lemma ScalarsArePlain()
    ensures Intact(Scalar(Invalid)) && Plain(Scalar(Invalid)) == Invalid
  {
  }

  lemma SourceAgrees(root: Item, move: bool, from: Json, caseSensitive: bool)
    requires Intact(root)
    ensures TakesAlike(TakeSource(root, move, from, caseSensitive), TakeFrom(Plain(root), move, from, caseSensitive))
  {
    hide TakePath, DetachPath, Intact, Plain, GetPath;
    if from.String? {
      TakePathAgrees(root, from.s, caseSensitive);
      var v := GetPath(Plain(root), from.s, caseSensitive);
      if v.Some? {
        FreshIsPlain(v.value);
      }
    }
  }

  lemma PatchAgrees(root: Item, patch: Json, caseSensitive: bool)
    requires Intact(root) && DecodeOperation(patch, caseSensitive) != Test
    ensures Agrees(PatchItem(root, patch, caseSensitive), ApplyPatch(Plain(root), patch, caseSensitive))
  {
    hide EditItem, ApplyEdit, GetObjectItem, DecodeOperation, Intact, Plain;
    match GetObjectItem(patch, PATH, caseSensitive) {
      case Some(String(path)) =>
        var op := DecodeOperation(patch, caseSensitive);
        EditAgrees(root, op, path, GetObjectItem(patch, VALUE, caseSensitive), GetObjectItem(patch, FROM, caseSensitive),
                   caseSensitive);
      case _ =>
    }
  }

  /** Patch lists without a `test` do to a document exactly what they do to the plain tree. */
  lemma {:induction false} PatchesAgree(root: Item, patches: seq<Json>, caseSensitive: bool)
    requires Intact(root) && forall i :: 0 <= i < |patches| ==> DecodeOperation(patches[i], caseSensitive) != Test
    ensures Agrees(PatchItems(root, patches, caseSensitive), ApplyPatches(Plain(root), patches, caseSensitive))
    decreases |patches|
  {
    hide PatchItem, ApplyPatch, DecodeOperation, Intact, Plain;
    if patches != [] {
      PatchAgrees(root, patches[0], caseSensitive);
      var r := PatchItem(root, patches[0], caseSensitive);
      PatchesAgree(r.root, patches[1..], caseSensitive);
    }
  }
}
