/** `create_patches` reports the differences of two documents and nothing else. */
module DiffExact {
  import opened Bytes
  import opened KeySort
  import opened JsonTree
  import opened JsonCompare
  import opened JsonPointer
  import opened JsonPatch
  import opened PatchRoundTrip

  // ----- the differences of two values

  datatype Step = Field(key: bytes) | Element(index: nat)

  /** The way down to a part of a value. */
  type Route = seq<Step>

  ghost function Down(v: Value, s: Step): Option<Value> {
    match (v, s)
    case (VObject(fields), Field(k)) => if k in fields then Some(fields[k]) else None
    case (VArray(items), Element(i)) => if i < |items| then Some(items[i]) else None
    case (_, _) => None
  }

  ghost function ValueAt(v: Value, r: Route): Option<Value>
    decreases |r|
  {
    if r == [] then Some(v)
    else
      match Down(v, r[0])
      case None => None
      case Some(x) => ValueAt(x, r[1..])
  }

  function Token(s: Step): bytes {
    match s
    case Field(k) => [SLASH] + Encode(k)
    case Element(i) => [SLASH] + Decimal(i)
  }

  function RoutePath(r: Route): bytes
    decreases |r|
  {
    if r == [] then [] else Token(r[0]) + RoutePath(r[1..])
  }

  /** A patch that is needed here: the two values differ and are not two objects or two arrays; or a field or an element
      is there on one side only. */
  ghost predicate NeededHere(a: Value, b: Value, op: Operation, path: bytes, value: Option<Value>) {
    || (op == Replace && path == [] && a != b && value == Some(b)
        && !(a.VObject? && b.VObject?) && !(a.VArray? && b.VArray?))
    || (a.VObject? && b.VObject? && exists k ::
          path == Token(Field(k)) &&
          ((op == Remove && k in a.fields && k !in b.fields && value == None) ||
           (op == Add && k !in a.fields && k in b.fields && value == Some(b.fields[k]))))
    || (a.VArray? && b.VArray? &&
        ((op == Remove && |b.items| < |a.items| && path == Token(Element(|b.items|)) && value == None) ||
         (op == Add && path == [SLASH, MINUS] && value.Some? && exists j :: |a.items| <= j < |b.items| && value.value == b.items[j])))
  }

  ghost function Meant(v: Option<Json>): Option<Value> {
    match v
    case None => None
    case Some(x) => Some(Denote(x))
  }

  /** An edit that is needed at the end of this route, on which both values lie. */
  ghost predicate NeededAt(base: bytes, a: Value, b: Value, e: Edit, r: Route, path: bytes) {
    var x, y := ValueAt(a, r), ValueAt(b, r);
    e.path == base + RoutePath(r) + path && x.Some? && y.Some? && NeededHere(x.value, y.value, e.op, path, Meant(e.value))
  }

  ghost predicate Needed(base: bytes, a: Value, b: Value, e: Edit) {
    exists r, path :: NeededAt(base, a, b, e, r, path)
  }

  ghost predicate AllNeeded(base: bytes, a: Value, b: Value, edits: seq<Edit>) {
    forall i :: 0 <= i < |edits| ==> Needed(base, a, b, edits[i])
  }

  lemma NeededOnTop(base: bytes, a: Value, b: Value, e: Edit, path: bytes)
    requires e.path == base + path && NeededHere(a, b, e.op, path, Meant(e.value))
    ensures Needed(base, a, b, e)
  {
    assert RoutePath([]) == [] && base + [] + path == base + path;
    assert NeededAt(base, a, b, e, [], path);
  }

  lemma NeededBelow(base: bytes, a: Value, b: Value, s: Step, x: Value, y: Value, edits: seq<Edit>)
    requires Down(a, s) == Some(x) && Down(b, s) == Some(y) && AllNeeded(base + Token(s), x, y, edits)
    ensures AllNeeded(base, a, b, edits)
  {
    hide Down, Token, NeededHere;
    forall i | 0 <= i < |edits| ensures Needed(base, a, b, edits[i]) {
      var r, path :| NeededAt(base + Token(s), x, y, edits[i], r, path);
      assert ([s] + r)[1..] == r;
      assert base + Token(s) + RoutePath(r) + path == base + RoutePath([s] + r) + path;
      assert NeededAt(base, a, b, edits[i], [s] + r, path);
    }
  }

  lemma NeededConcat(base: bytes, a: Value, b: Value, es: seq<Edit>, fs: seq<Edit>)
    requires AllNeeded(base, a, b, es) && AllNeeded(base, a, b, fs)
    ensures AllNeeded(base, a, b, es + fs)
  {
    hide Needed;
  }

  lemma NeededOne(base: bytes, a: Value, b: Value, e: Edit)
    requires Needed(base, a, b, e)
    ensures AllNeeded(base, a, b, [e])
  {
  }

  // ----- every generated edit is needed

  /** Every edit generated for two trees is a difference of what they mean, at the path where it lies. */
  lemma {:induction false} EditsAreNeeded(path: bytes, from: Json, to: Json, caseSensitive: bool, keys: iset<bytes>)
    requires Tidy(from, keys) && Tidy(to, keys) && FoldInjective(keys)
    ensures AllNeeded(path, Denote(from), Denote(to), Diff(path, from, to, caseSensitive))
    decreases from, 1
  {
    if SameType(from, to) && from.Array? {
      ItemsAreNeeded(path, from.items, to.items, from.items, to.items, 0, caseSensitive, keys);
    } else if SameType(from, to) && from.Object? {
      SortWithin(from.members, caseSensitive);
      ObjectsAreNeeded(path, from.members, to.members, caseSensitive, keys);
    } else {
      ScalarNeeded(path, from, to, caseSensitive, keys);
    }
  }

  lemma ScalarNeeded(path: bytes, from: Json, to: Json, caseSensitive: bool, keys: iset<bytes>)
    requires Tidy(from, keys) && Tidy(to, keys) && !(SameType(from, to) && (from.Array? || from.Object?))
    ensures AllNeeded(path, Denote(from), Denote(to), Diff(path, from, to, caseSensitive))
  {
    var es := Diff(path, from, to, caseSensitive);
    if from.Number? && to.Number? {
      SameNumberExact(from.d, to.d);
    }
    if es != [] {
      assert es == [Edit(Replace, path, Some(to))] && Denote(from) != Denote(to);
      assert path + [] == path;
      NeededOnTop(path, Denote(from), Denote(to), es[0], []);
      NeededOne(path, Denote(from), Denote(to), es[0]);
    }
  }

  /** The elements still to be compared of two whole arrays. */
  ghost predicate Rest(all: seq<Json>, goal: seq<Json>, from: seq<Json>, to: seq<Json>, index: nat) {
    && |from| <= |all| && from == all[|all| - |from|..]
    && |to| <= |goal| && to == goal[|goal| - |to|..] && index == |goal| - |to|
    && (from != [] && to != [] ==> |all| - |from| == index)
    && (from != [] && to == [] ==> |all| - |from| >= |goal|)
    && (from == [] && to != [] ==> |all| <= index)
  }

  lemma RestOn(all: seq<Json>, goal: seq<Json>, from: seq<Json>, to: seq<Json>, index: nat)
    requires Rest(all, goal, from, to, index)
    ensures from != [] && to != [] ==>
              index < |all| && index < |goal| && from[0] == all[index] && to[0] == goal[index] &&
              Rest(all, goal, from[1..], to[1..], index + 1)
    ensures from != [] && to == [] ==> |goal| == index < |all| && Rest(all, goal, from[1..], [], index)
    ensures from == [] && to != [] ==> |all| <= index < |goal| && to[0] == goal[index] && Rest(all, goal, [], to[1..], index + 1)
  {
  }

  lemma {:induction false} ItemsAreNeeded(path: bytes, all: seq<Json>, goal: seq<Json>, from: seq<Json>, to: seq<Json>,
                                          index: nat, caseSensitive: bool, keys: iset<bytes>)
    requires Rest(all, goal, from, to, index) && FoldInjective(keys)
    requires (forall x :: x in from ==> Tidy(x, keys)) && (forall x :: x in to ==> Tidy(x, keys))
    ensures AllNeeded(path, VArray(DenoteItems(all)), VArray(DenoteItems(goal)), DiffItems(path, from, to, index, caseSensitive))
    decreases from, 0, |to|
  {
    hide Diff, Denote, Decimal, Tidy, FoldInjective, AllNeeded, Needed;
    var a, b := VArray(DenoteItems(all)), VArray(DenoteItems(goal));
    RestOn(all, goal, from, to, index);
    hide Rest;
    if from != [] && to != [] {
      var s := Element(index);
      assert Down(a, s) == Some(Denote(from[0])) && Down(b, s) == Some(Denote(to[0]));
      assert path + [SLASH] + Decimal(index) == path + Token(s);
      EditsAreNeeded(path + Token(s), from[0], to[0], caseSensitive, keys);
      var es := Diff(path + Token(s), from[0], to[0], caseSensitive);
      NeededBelow(path, a, b, s, Denote(from[0]), Denote(to[0]), es);
      ItemsAreNeeded(path, all, goal, from[1..], to[1..], index + 1, caseSensitive, keys);
      NeededConcat(path, a, b, es, DiffItems(path, from[1..], to[1..], index + 1, caseSensitive));
    } else if from != [] {
      IndexToken(index);
      PlainToken(Decimal(index));
      var e := Edit(Remove, path + [SLASH] + Encode(Decimal(index)), None);
      assert e.path == path + Token(Element(index));
      NeededOnTop(path, a, b, e, Token(Element(index)));
      NeededOne(path, a, b, e);
      ItemsAreNeeded(path, all, goal, from[1..], [], index, caseSensitive, keys);
      NeededConcat(path, a, b, [e], DiffItems(path, from[1..], [], index, caseSensitive));
    } else if to != [] {
      PlainToken([MINUS]);
      var e := Edit(Add, path + [SLASH] + Encode([MINUS]), Some(to[0]));
      assert e.path == path + [SLASH, MINUS];
      assert b.items[index] == Denote(to[0]);
      NeededOnTop(path, a, b, e, [SLASH, MINUS]);
      NeededOne(path, a, b, e);
      ItemsAreNeeded(path, all, goal, [], to[1..], index + 1, caseSensitive, keys);
      NeededConcat(path, a, b, [e], DiffItems(path, [], to[1..], index + 1, caseSensitive));
    } else {
      NothingToDo(path, a, b, index, caseSensitive);
    }
  }

  lemma NothingToDo(path: bytes, a: Value, b: Value, index: nat, caseSensitive: bool)
    ensures AllNeeded(path, a, b, DiffItems(path, [], [], index, caseSensitive))
  {
  }

  /** The members still to be walked of two whole objects: no key that is done with on one side is left on the other. */
  ghost predicate Walking(a: map<bytes, Value>, b: map<bytes, Value>, from: seq<Member>, to: seq<Member>, caseSensitive: bool,
                          keys: iset<bytes>) {
    && TidyMembers(from, keys) && StrictlySorted(from, caseSensitive)
    && TidyMembers(to, keys) && StrictlySorted(to, caseSensitive)
    && (forall x :: x in from ==> x.key in a && a[x.key] == Denote(x.value))
    && (forall x :: x in to ==> x.key in b && b[x.key] == Denote(x.value))
    && (forall k :: k in b && k in KeysOf(from) ==> k in KeysOf(to))
    && (forall k :: k in a && k in KeysOf(to) ==> k in KeysOf(from))
  }

  /** The first member of a sorted list and the others. */
  lemma Ahead(fields: map<bytes, Value>, s: seq<Member>, caseSensitive: bool, keys: iset<bytes>)
    requires s != [] && TidyMembers(s, keys) && StrictlySorted(s, caseSensitive)
    requires forall x :: x in s ==> x.key in fields && fields[x.key] == Denote(x.value)
    ensures s[0].key in keys && Tidy(s[0].value, keys) && s[0] in s
    ensures s[0].key in fields && fields[s[0].key] == Denote(s[0].value)
    ensures TidyMembers(s[1..], keys) && StrictlySorted(s[1..], caseSensitive)
    ensures forall x :: x in s[1..] ==> x.key in fields && fields[x.key] == Denote(x.value)
    ensures KeysOf(s) == {s[0].key} + KeysOf(s[1..]) && s[0].key !in KeysOf(s[1..])
  {
    hide Denote, Tidy;
    Tail(s, caseSensitive, keys);
    hide TidyMembers, StrictlySorted, KeysOf, DenoteMembers;
    assert s[0] in s;
    forall x | x in s[1..] ensures x in s {
    }
  }

  lemma WalkBoth(a: map<bytes, Value>, b: map<bytes, Value>, from: seq<Member>, to: seq<Member>, caseSensitive: bool,
                 keys: iset<bytes>)
    requires Walking(a, b, from, to, caseSensitive, keys) && FoldInjective(keys)
    requires from != [] && to != [] && CompareStrings(from[0].key, to[0].key, caseSensitive) == 0
    ensures Walking(a, b, from[1..], to[1..], caseSensitive, keys)
    ensures var f, t := from[0], to[0];
            f.key == t.key && f in from && Tidy(f.value, keys) && Tidy(t.value, keys) &&
            f.key in a && f.key in b && a[f.key] == Denote(f.value) && b[f.key] == Denote(t.value)
  {
    hide CompareStrings, TidyMembers, StrictlySorted, KeysOf, Denote, Tidy, FoldInjective;
    Ahead(a, from, caseSensitive, keys);
    Ahead(b, to, caseSensitive, keys);
    SameKeys(from[0].key, to[0].key, caseSensitive, keys);
  }

  lemma WalkLeft(a: map<bytes, Value>, b: map<bytes, Value>, from: seq<Member>, to: seq<Member>, caseSensitive: bool,
                 keys: iset<bytes>)
    requires Walking(a, b, from, to, caseSensitive, keys)
    requires from != [] && (to != [] ==> CompareStrings(from[0].key, to[0].key, caseSensitive) < 0)
    ensures Walking(a, b, from[1..], to, caseSensitive, keys)
    ensures from[0].key in a && from[0].key !in b
  {
    hide CompareStrings, TidyMembers, StrictlySorted, KeysOf, Denote, Tidy;
    Ahead(a, from, caseSensitive, keys);
    NotLater(from[0].key, to, caseSensitive, keys);
  }

  lemma WalkRight(a: map<bytes, Value>, b: map<bytes, Value>, from: seq<Member>, to: seq<Member>, caseSensitive: bool,
                  keys: iset<bytes>)
    requires Walking(a, b, from, to, caseSensitive, keys)
    requires to != [] && (from != [] ==> CompareStrings(from[0].key, to[0].key, caseSensitive) > 0)
    ensures Walking(a, b, from, to[1..], caseSensitive, keys)
    ensures to[0].key !in a && to[0].key in b && b[to[0].key] == Denote(to[0].value)
  {
    if from != [] {
      StrCmpAntisymmetric(Key(to[0].key, caseSensitive), Key(from[0].key, caseSensitive));
      assert CompareStrings(to[0].key, from[0].key, caseSensitive) < 0;
    }
    hide CompareStrings, TidyMembers, StrictlySorted, KeysOf, Denote, Tidy;
    Ahead(b, to, caseSensitive, keys);
    NotLater(to[0].key, from, caseSensitive, keys);
  }

  lemma {:induction false} ObjectsAreNeeded(path: bytes, from: seq<Member>, to: seq<Member>, caseSensitive: bool, keys: iset<bytes>)
    requires TidyMembers(from, keys) && TidyMembers(to, keys) && FoldInjective(keys)
    ensures AllNeeded(path, Denote(Object(from)), Denote(Object(to)), Diff(path, Object(from), Object(to), caseSensitive))
    decreases Object(from), 0, |from| + |to| + 1
  {
    var fs, ts := SortSeq(from, caseSensitive), SortSeq(to, caseSensitive);
    SortWithin(from, caseSensitive);
    StartWalking(from, to, caseSensitive, keys);
    hide SortSeq, TidyMembers, Walking, DiffMembers, AllNeeded, FoldInjective;
    assert Diff(path, Object(from), Object(to), caseSensitive) == DiffMembers(path, fs, ts, caseSensitive, Object(from));
    MembersAreNeeded(path, DenoteMembers(from), DenoteMembers(to), fs, ts, caseSensitive, keys, Object(from));
  }

  lemma StartWalking(from: seq<Member>, to: seq<Member>, caseSensitive: bool, keys: iset<bytes>)
    requires TidyMembers(from, keys) && TidyMembers(to, keys) && FoldInjective(keys)
    ensures Walking(DenoteMembers(from), DenoteMembers(to), SortSeq(from, caseSensitive), SortSeq(to, caseSensitive),
                    caseSensitive, keys)
  {
    hide SortSeq, TidyMembers, StrictlySorted, FoldInjective, Denote, DenoteMembers, KeysOf;
    SortMembers(from, caseSensitive, keys);
    SortMembers(to, caseSensitive, keys);
    DenoteMembersDomain(from);
    DenoteMembersDomain(to);
    Meanings(from, keys);
    Meanings(to, keys);
  }

  lemma Meanings(members: seq<Member>, keys: iset<bytes>)
    requires TidyMembers(members, keys)
    ensures forall x :: x in members ==> x.key in DenoteMembers(members) && DenoteMembers(members)[x.key] == Denote(x.value)
  {
    hide Tidy, Denote;
    forall x | x in members
      ensures x.key in DenoteMembers(members) && DenoteMembers(members)[x.key] == Denote(x.value)
    {
      var i :| 0 <= i < |members| && members[i] == x;
      DenoteMembersAt(members, i);
    }
  }

  lemma {:induction false} MembersAreNeeded(path: bytes, a: map<bytes, Value>, b: map<bytes, Value>, from: seq<Member>,
                                            to: seq<Member>, caseSensitive: bool, keys: iset<bytes>, bound: Json)
    requires Within(from, bound) && Walking(a, b, from, to, caseSensitive, keys) && FoldInjective(keys)
    ensures AllNeeded(path, VObject(a), VObject(b), DiffMembers(path, from, to, caseSensitive, bound))
    decreases bound, 0, |from| + |to|
  {
    if from == [] && to == [] {
    } else {
      var diff := if from == [] then 1
                  else if to == [] then -1
                  else CompareStrings(from[0].key, to[0].key, caseSensitive);
      if diff == 0 {
        KeepNeeded(path, a, b, from, to, caseSensitive, keys, bound);
      } else if diff < 0 {
        RemoveNeeded(path, a, b, from, to, caseSensitive, keys, bound);
      } else {
        AddNeeded(path, a, b, from, to, caseSensitive, keys, bound);
      }
    }
  }

  lemma {:induction false} KeepNeeded(path: bytes, a: map<bytes, Value>, b: map<bytes, Value>, from: seq<Member>,
                                      to: seq<Member>, caseSensitive: bool, keys: iset<bytes>, bound: Json)
    requires Within(from, bound) && Walking(a, b, from, to, caseSensitive, keys) && FoldInjective(keys)
    requires from != [] && to != [] && CompareStrings(from[0].key, to[0].key, caseSensitive) == 0
    ensures AllNeeded(path, VObject(a), VObject(b), DiffMembers(path, from, to, caseSensitive, bound))
    decreases bound, 0, |from| + |to|, 0
  {
    hide Diff, Denote, Tidy, Encode, CompareStrings, FoldInjective, Walking, AllNeeded;
    WalkBoth(a, b, from, to, caseSensitive, keys);
    var f, t, s := from[0], to[0], Field(from[0].key);
    assert f.value < bound;
    EditsAreNeeded(path + Token(s), f.value, t.value, caseSensitive, keys);
    var es := Diff(path + Token(s), f.value, t.value, caseSensitive);
    assert path + [SLASH] + Encode(f.key) == path + Token(s);
    NeededBelow(path, VObject(a), VObject(b), s, Denote(f.value), Denote(t.value), es);
    MembersAreNeeded(path, a, b, from[1..], to[1..], caseSensitive, keys, bound);
    NeededConcat(path, VObject(a), VObject(b), es, DiffMembers(path, from[1..], to[1..], caseSensitive, bound));
  }

  lemma {:induction false} RemoveNeeded(path: bytes, a: map<bytes, Value>, b: map<bytes, Value>, from: seq<Member>,
                                        to: seq<Member>, caseSensitive: bool, keys: iset<bytes>, bound: Json)
    requires Within(from, bound) && Walking(a, b, from, to, caseSensitive, keys) && FoldInjective(keys)
    requires from != [] && (to != [] ==> CompareStrings(from[0].key, to[0].key, caseSensitive) < 0)
    ensures AllNeeded(path, VObject(a), VObject(b), DiffMembers(path, from, to, caseSensitive, bound))
    decreases bound, 0, |from| + |to|, 0
  {
    hide Diff, Denote, Tidy, Encode, CompareStrings, FoldInjective, Walking, AllNeeded, KeysOf;
    WalkLeft(a, b, from, to, caseSensitive, keys);
    var s := Field(from[0].key);
    var e := Edit(Remove, path + [SLASH] + Encode(from[0].key), None);
    assert e.path == path + Token(s);
    NeededOnTop(path, VObject(a), VObject(b), e, Token(s));
    NeededOne(path, VObject(a), VObject(b), e);
    MembersAreNeeded(path, a, b, from[1..], to, caseSensitive, keys, bound);
    NeededConcat(path, VObject(a), VObject(b), [e], DiffMembers(path, from[1..], to, caseSensitive, bound));
  }

  lemma {:induction false} AddNeeded(path: bytes, a: map<bytes, Value>, b: map<bytes, Value>, from: seq<Member>,
                                     to: seq<Member>, caseSensitive: bool, keys: iset<bytes>, bound: Json)
    requires Within(from, bound) && Walking(a, b, from, to, caseSensitive, keys) && FoldInjective(keys)
    requires to != [] && (from != [] ==> CompareStrings(from[0].key, to[0].key, caseSensitive) > 0)
    ensures AllNeeded(path, VObject(a), VObject(b), DiffMembers(path, from, to, caseSensitive, bound))
    decreases bound, 0, |from| + |to|, 0
  {
    hide Diff, Denote, Tidy, Encode, CompareStrings, FoldInjective, Walking, AllNeeded, KeysOf;
    WalkRight(a, b, from, to, caseSensitive, keys);
    var s := Field(to[0].key);
    var e := Edit(Add, path + [SLASH] + Encode(to[0].key), Some(to[0].value));
    assert e.path == path + Token(s);
    NeededOnTop(path, VObject(a), VObject(b), e, Token(s));
    NeededOne(path, VObject(a), VObject(b), e);
    MembersAreNeeded(path, a, b, from, to[1..], caseSensitive, keys, bound);
    NeededConcat(path, VObject(a), VObject(b), [e], DiffMembers(path, from, to[1..], caseSensitive, bound));
  }

  // ----- equal documents

  /** Nothing is needed between equal values. */
  lemma NothingNeeded(base: bytes, a: Value, e: Edit)
    ensures !Needed(base, a, a, e)
  {
    forall r, path ensures !NeededAt(base, a, a, e, r, path) {
      match ValueAt(a, r) {
        case None =>
        case Some(x) => assert !NeededHere(x, x, e.op, path, Meant(e.value));
      }
    }
  }

  /** No patch is generated exactly when the two trees are equal up to member order. */
  lemma NoPatchesExactly(from: Json, to: Json, caseSensitive: bool, keys: iset<bytes>)
    requires Tidy(from, keys) && Tidy(to, keys) && PatchableKeys(keys)
    ensures Diff([], from, to, caseSensitive) == [] <==> Denote(from) == Denote(to)
  {
    var es := Diff([], from, to, caseSensitive);
    EditsAreNeeded([], from, to, caseSensitive, keys);
    hide Diff, Denote, Tidy, Needed;
    if Denote(from) == Denote(to) && es != [] {
      NothingNeeded([], Denote(from), es[0]);
    }
    NodeRoundTrip(from, to, caseSensitive, keys);
  }

  // ----- every edit counts when its turn comes

  /** Each edit in turn succeeds and changes what the document means. */
  ghost predicate Alters(v: Json, edits: seq<Edit>, caseSensitive: bool)
    decreases |edits|
  {
    edits == [] ||
    (var r := ApplyEdit(v, edits[0].op, edits[0].path, edits[0].value, None, caseSensitive);
     r.status == 0 && Denote(r.root) != Denote(v) && Alters(r.root, edits[1..], caseSensitive))
  }

  lemma {:induction false} AltersConcat(v: Json, es: seq<Edit>, fs: seq<Edit>, caseSensitive: bool)
    requires Alters(v, es, caseSensitive) && Alters(ApplyEdits(v, es, caseSensitive).root, fs, caseSensitive)
    ensures Alters(v, es + fs, caseSensitive)
    decreases |es|
  {
    hide ApplyEdit, Denote;
    if es == [] {
      assert es + fs == fs;
    } else {
      var r := ApplyEdit(v, es[0].op, es[0].path, es[0].value, None, caseSensitive);
      AltersConcat(r.root, es[1..], fs, caseSensitive);
      assert (es + fs)[1..] == es[1..] + fs;
    }
  }

  lemma AltersOne(v: Json, e: Edit, caseSensitive: bool)
    requires var r := ApplyEdits(v, [e], caseSensitive); r.status == 0 && Denote(r.root) != Denote(v)
    ensures Alters(v, [e], caseSensitive)
  {
    hide ApplyEdit, Denote;
    ApplyOne(v, e, caseSensitive);
    assert [e][1..] == [];
  }

  ghost predicate Distinct(v: Json) {
    v.Object? ==> DistinctKeys(v.members)
  }

  /** A child that means something else makes its container mean something else. */
  lemma ChildCounts(v: Json, i: nat, x: Json, y: Json)
    requires Distinct(v) && i < |Children(v)| && Denote(x) != Denote(y)
    ensures Denote(WithChild(v, i, x)) != Denote(WithChild(v, i, y))
    ensures Distinct(WithChild(v, i, x))
  {
    match v {
      case Array(items) =>
        assert DenoteItems(items[i := x])[i] == Denote(x) && DenoteItems(items[i := y])[i] == Denote(y);
      case Object(members) =>
        hide Denote;
        DenoteMembersUpdate(members, i, x);
        DenoteMembersUpdate(members, i, y);
        hide DenoteMembers, DistinctKeys, KeysOf;
        var m, k := DenoteMembers(members), members[i].key;
        assert m[k := Denote(x)][k] != m[k := Denote(y)][k];
        ObjectMeans(members[i := Keyed(k, x)]);
        ObjectMeans(members[i := Keyed(k, y)]);
    }
  }

  lemma ObjectMeans(members: seq<Member>)
    ensures Denote(Object(members)) == VObject(DenoteMembers(members))
  {
  }

  lemma {:induction false} AltersBelow(v: Json, token: bytes, i: nat, edits: seq<Edit>, caseSensitive: bool)
    requires Names(v, token, i, caseSensitive) && Inside(edits) && Distinct(v) && Alters(Children(v)[i], edits, caseSensitive)
    ensures Alters(v, Prefix([SLASH] + token, edits), caseSensitive)
    decreases |edits|
  {
    var child := Children(v)[i];
    hide ApplyEdit, Denote, Names;
    if edits != [] {
      var s := ApplyEdit(child, edits[0].op, edits[0].path, edits[0].value, None, caseSensitive);
      var w := WithChild(v, i, s.root);
      EditBelow(v, token, i, edits[0], caseSensitive);
      WithChildFacts(v, i, child, child);
      WithChildFacts(v, i, s.root, s.root);
      ChildCounts(v, i, s.root, child);
      NamesAfterUpdate(v, token, i, s.root, caseSensitive);
      AltersBelow(w, token, i, edits[1..], caseSensitive);
      assert Prefix([SLASH] + token, edits)[1..] == Prefix([SLASH] + token, edits[1..]);
    }
  }

  /** The edits generated for a child change its container step by step. */
  lemma ChildAlters(v: Json, i: nat, token: bytes, to: Json, replaced: Json, caseSensitive: bool, keys: iset<bytes>)
    requires Names(v, token, i, caseSensitive) && Distinct(v) && Tidy(Children(v)[i], keys) && Tidy(to, keys) && PatchableKeys(keys)
    requires Alters(Children(v)[i], Diff([], Children(v)[i], to, caseSensitive), caseSensitive)
    requires ApplyEdit(v, Replace, [SLASH] + token, Some(to), None, caseSensitive) == Outcome(0, replaced)
    requires Denote(Children(v)[i]) != Denote(to) ==> Denote(replaced) != Denote(v)
    ensures Alters(v, Diff([] + [SLASH] + token, Children(v)[i], to, caseSensitive), caseSensitive)
  {
    var from := Children(v)[i];
    hide *;
    DiffShape(from, to, caseSensitive);
    TokenPath(token, from, to, caseSensitive);
    if Whole(Diff([], from, to, caseSensitive), to) {
      WholeBelow([SLASH] + token, Diff([], from, to, caseSensitive), to);
      NoPatchesExactly(from, to, caseSensitive, keys);
      ReplaceAlters(v, [SLASH] + token, to, replaced, caseSensitive);
    } else {
      AltersBelow(v, token, i, Diff([], from, to, caseSensitive), caseSensitive);
    }
  }

  lemma TokenPath(token: bytes, from: Json, to: Json, caseSensitive: bool)
    ensures Diff([] + [SLASH] + token, from, to, caseSensitive) == Prefix([SLASH] + token, Diff([], from, to, caseSensitive))
  {
    hide *;
    assert [] + [SLASH] + token == [SLASH] + token;
    DiffPrefix([SLASH] + token, from, to, caseSensitive);
  }

  lemma ReplaceAlters(v: Json, path: bytes, to: Json, replaced: Json, caseSensitive: bool)
    requires ApplyEdit(v, Replace, path, Some(to), None, caseSensitive) == Outcome(0, replaced) && Denote(replaced) != Denote(v)
    ensures Alters(v, [Edit(Replace, path, Some(to))], caseSensitive)
  {
    hide ApplyEdit, Denote, ApplyEdits;
    ApplyOne(v, Edit(Replace, path, Some(to)), caseSensitive);
    AltersOne(v, Edit(Replace, path, Some(to)), caseSensitive);
  }

  lemma {:induction false} ItemsAlter(done: seq<Json>, from: seq<Json>, to: seq<Json>, caseSensitive: bool, keys: iset<bytes>)
    requires from != [] ==> |done| + |from| <= WORD
    requires (forall i :: 0 <= i < |from| ==> Tidy(from[i], keys)) && (forall i :: 0 <= i < |to| ==> Tidy(to[i], keys))
    requires PatchableKeys(keys)
    ensures Alters(Array(done + from), DiffItems([], from, to, |done|, caseSensitive), caseSensitive)
    decreases from, 0, |to|
  {
    hide Diff, Denote, Decimal, Encode, Tidy, PatchableKeys, Reaches, ApplyEdit;
    var items, n := done + from, |done|;
    if from != [] && to != [] {
      assert items[n] == from[0];
      NodeRoundTrip(from[0], to[0], caseSensitive, keys);
      NodeAlters(from[0], to[0], caseSensitive, keys);
      ElementAlters(items, n, to[0], caseSensitive, keys);
      var c := ElementEdits(items, n, to[0], caseSensitive);
      ItemsAlter(done + [c], from[1..], to[1..], caseSensitive, keys);
      assert items[n := c] == (done + [c]) + from[1..];
      AltersConcat(Array(items), Diff([] + [SLASH] + Decimal(n), from[0], to[0], caseSensitive),
                   DiffItems([], from[1..], to[1..], n + 1, caseSensitive), caseSensitive);
    } else if from != [] {
      ItemsAlter(done, from[1..], [], caseSensitive, keys);
      RemovalAlters(done, from, caseSensitive);
    } else if to != [] {
      ItemsAlter(done + [to[0]], [], to[1..], caseSensitive, keys);
      AdditionAlters(done, to, caseSensitive);
    }
  }

  lemma RemovalAlters(done: seq<Json>, from: seq<Json>, caseSensitive: bool)
    requires from != [] && |done| < WORD
    requires Alters(Array(done + from[1..]), DiffItems([], from[1..], [], |done|, caseSensitive), caseSensitive)
    ensures Alters(Array(done + from), DiffItems([], from, [], |done|, caseSensitive), caseSensitive)
  {
    hide Diff, Denote, Decimal, Encode, ApplyEdit, Alters;
    var items, n := done + from, |done|;
    ArrayEdits(items, n, Null, caseSensitive);
    IndexToken(n);
    PlainToken(Decimal(n));
    var e := Edit(Remove, [] + [SLASH] + Encode(Decimal(n)), None);
    assert e.path == [SLASH] + Decimal(n) && Without(items, n) == done + from[1..];
    ApplyOne(Array(items), e, caseSensitive);
    LengthCounts(items, Without(items, n));
    AltersOne(Array(items), e, caseSensitive);
    AltersConcat(Array(items), [e], DiffItems([], from[1..], [], n, caseSensitive), caseSensitive);
  }

  lemma AdditionAlters(done: seq<Json>, to: seq<Json>, caseSensitive: bool)
    requires to != []
    requires Alters(Array(done + [to[0]] + []), DiffItems([], [], to[1..], |done| + 1, caseSensitive), caseSensitive)
    ensures Alters(Array(done + []), DiffItems([], [], to, |done|, caseSensitive), caseSensitive)
  {
    hide Diff, Denote, Decimal, Encode, ApplyEdit, Alters;
    var items, n := done + [], |done|;
    ArrayEdits(items, 0, to[0], caseSensitive);
    PlainToken([MINUS]);
    var e := Edit(Add, [] + [SLASH] + Encode([MINUS]), Some(to[0]));
    assert e.path == [SLASH, MINUS] && items + [to[0]] == done + [to[0]] + [];
    ApplyOne(Array(items), e, caseSensitive);
    LengthCounts(items, items + [to[0]]);
    AltersOne(Array(items), e, caseSensitive);
    AltersConcat(Array(items), [e], DiffItems([], [], to[1..], n + 1, caseSensitive), caseSensitive);
  }

  lemma ElementAlters(items: seq<Json>, i: nat, to: Json, caseSensitive: bool, keys: iset<bytes>)
    requires i < |items| <= WORD && Tidy(items[i], keys) && Tidy(to, keys) && PatchableKeys(keys)
    requires Alters(items[i], Diff([], items[i], to, caseSensitive), caseSensitive)
    ensures Alters(Array(items), Diff([] + [SLASH] + Decimal(i), items[i], to, caseSensitive), caseSensitive)
  {
    hide Diff, Denote, Decimal, Tidy, PatchableKeys, ApplyEdit, Names, Alters;
    NamesIndex(items, i, caseSensitive);
    ArrayEdits(items, i, to, caseSensitive);
    ElementCounts(items, i, to);
    ChildAlters(Array(items), i, Decimal(i), to, Array(items[i := to]), caseSensitive, keys);
  }

  lemma LengthCounts(a: seq<Json>, b: seq<Json>)
    requires |a| != |b|
    ensures Denote(Array(a)) != Denote(Array(b))
  {
    hide Denote;
    assert |DenoteItems(a)| != |DenoteItems(b)|;
    ArrayMeans(a);
    ArrayMeans(b);
  }

  lemma ArrayMeans(a: seq<Json>)
    ensures Denote(Array(a)) == VArray(DenoteItems(a))
  {
  }

  lemma ElementCounts(items: seq<Json>, i: nat, x: Json)
    requires i < |items|
    ensures Denote(items[i]) != Denote(x) ==> Denote(Array(items[i := x])) != Denote(Array(items))
    ensures Children(Array(items))[i] == items[i]
  {
    if Denote(items[i]) != Denote(x) {
      ChildCounts(Array(items), i, x, items[i]);
      assert items[i := items[i]] == items;
    }
  }

  lemma {:induction false} MembersAlter(members: seq<Member>, from: seq<Member>, to: seq<Member>, caseSensitive: bool,
                                        keys: iset<bytes>, bound: Json)
    requires Within(from, bound) && Pending(members, from, to, caseSensitive, keys) && PatchableKeys(keys)
    ensures Alters(Object(members), DiffMembers([], from, to, caseSensitive, bound), caseSensitive)
    decreases bound, 0, |from| + |to|
  {
    if from == [] && to == [] {
    } else {
      var diff := if from == [] then 1
                  else if to == [] then -1
                  else CompareStrings(from[0].key, to[0].key, caseSensitive);
      if diff == 0 {
        KeepAlters(members, from, to, caseSensitive, keys, bound);
      } else if diff < 0 {
        RemoveAlters(members, from, to, caseSensitive, keys, bound);
      } else {
        AddAlters(members, from, to, caseSensitive, keys, bound);
      }
    }
  }

  lemma FirstPending(members: seq<Member>, from: seq<Member>, to: seq<Member>, caseSensitive: bool, keys: iset<bytes>) returns (i: nat)
    requires Pending(members, from, to, caseSensitive, keys) && from != []
    ensures i < |members| && members[i] == from[0] && HasKeys(members, keys) && Tidy(from[0].value, keys) && from[0].key in keys
    ensures DistinctKeys(members) && from[0] in from && members[i] in members
    ensures to != [] ==> Tidy(to[0].value, keys) && to[0].key in keys
  {
    assert from[0] in members;
    i :| 0 <= i < |members| && members[i] == from[0];
  }

  lemma {:induction false} KeepAlters(members: seq<Member>, from: seq<Member>, to: seq<Member>, caseSensitive: bool,
                                      keys: iset<bytes>, bound: Json)
    requires Within(from, bound) && Pending(members, from, to, caseSensitive, keys) && PatchableKeys(keys)
    requires from != [] && to != [] && CompareStrings(from[0].key, to[0].key, caseSensitive) == 0
    ensures Alters(Object(members), DiffMembers([], from, to, caseSensitive, bound), caseSensitive)
    decreases bound, 0, |from| + |to|, 0
  {
    hide Diff, Denote, Tidy, Encode, CompareStrings, Goal, Pending, MemberSet, ApplyEdit, HasKeys, Names, FoldInjective;
    var i := FirstPending(members, from, to, caseSensitive, keys);
    var f, t := from[0], to[0];
    SameKeys(f.key, t.key, caseSensitive, keys);
    NamesKey(members, i, caseSensitive, keys);
    hide PatchableKeys;
    assert f.value < bound;
    NodeRoundTrip(f.value, t.value, caseSensitive, keys);
    NodeAlters(f.value, t.value, caseSensitive, keys);
    ReplaceMember(members, i, t.value, caseSensitive, keys);
    var replaced := Object(Without(members, i) + [Keyed(f.key, t.value)]);
    MemberCounts(members, i, t.value, keys);
    ChildAlters(Object(members), i, Encode(f.key), t.value, replaced, caseSensitive, keys);
    var after := MemberEdits(members, i, t.value, caseSensitive, keys);
    PendingSet(members, after, from, to, caseSensitive, keys);
    MembersAlter(after, from[1..], to[1..], caseSensitive, keys, bound);
    AltersConcat(Object(members), Diff([] + [SLASH] + Encode(f.key), f.value, t.value, caseSensitive),
                 DiffMembers([], from[1..], to[1..], caseSensitive, bound), caseSensitive);
  }

  lemma MemberCounts(members: seq<Member>, i: nat, x: Json, keys: iset<bytes>)
    requires HasKeys(members, keys) && i < |members|
    ensures Denote(members[i].value) != Denote(x) ==>
              Denote(Object(Without(members, i) + [Keyed(members[i].key, x)])) != Denote(Object(members))
    ensures Children(Object(members))[i] == members[i].value
  {
    hide Denote, Without, DenoteMembers;
    MemberReplaced(members, i, x, keys);
    DenoteMembersAt(members, i);
    var after := Without(members, i) + [Keyed(members[i].key, x)];
    ObjectMeans(after);
    ObjectMeans(members);
  }

  lemma {:induction false} RemoveAlters(members: seq<Member>, from: seq<Member>, to: seq<Member>, caseSensitive: bool,
                                        keys: iset<bytes>, bound: Json)
    requires Within(from, bound) && Pending(members, from, to, caseSensitive, keys) && PatchableKeys(keys)
    requires from != [] && (to != [] ==> CompareStrings(from[0].key, to[0].key, caseSensitive) < 0)
    ensures Alters(Object(members), DiffMembers([], from, to, caseSensitive, bound), caseSensitive)
    decreases bound, 0, |from| + |to|, 0
  {
    hide Diff, Denote, Tidy, Encode, CompareStrings, Goal, ApplyEdit, HasKeys, PatchableKeys, KeysOf, Without, TidyMembers;
    var i := FirstPending(members, from, to, caseSensitive, keys);
    NotLater(from[0].key, to, caseSensitive, keys);
    hide Pending;
    var e := Edit(Remove, [] + [SLASH] + Encode(from[0].key), None);
    PendingRemoved(members, i, from, to, caseSensitive, keys);
    RemoveEdit(members, i, caseSensitive, keys);
    KeyCounts(members, i);
    AltersOne(Object(members), e, caseSensitive);
    MembersAlter(Without(members, i), from[1..], to, caseSensitive, keys, bound);
    AltersConcat(Object(members), [e], DiffMembers([], from[1..], to, caseSensitive, bound), caseSensitive);
  }

  lemma KeyCounts(members: seq<Member>, i: nat)
    requires DistinctKeys(members) && i < |members|
    ensures Denote(Object(Without(members, i))) != Denote(Object(members))
  {
    hide Denote;
    DenoteMembersAt(members, i);
    DenoteMembersWithout(members, i);
    hide DenoteMembers, Without;
    ObjectMeans(members);
    ObjectMeans(Without(members, i));
    assert members[i].key !in DenoteMembers(Without(members, i));
  }

  lemma {:induction false} AddAlters(members: seq<Member>, from: seq<Member>, to: seq<Member>, caseSensitive: bool,
                                     keys: iset<bytes>, bound: Json)
    requires Within(from, bound) && Pending(members, from, to, caseSensitive, keys) && PatchableKeys(keys)
    requires to != [] && (from != [] ==> CompareStrings(from[0].key, to[0].key, caseSensitive) > 0)
    ensures Alters(Object(members), DiffMembers([], from, to, caseSensitive, bound), caseSensitive)
    decreases bound, 0, |from| + |to|, 0
  {
    var t := to[0];
    assert t.key in keys;
    if from != [] {
      StrCmpAntisymmetric(Key(t.key, caseSensitive), Key(from[0].key, caseSensitive));
    }
    NotLater(t.key, from, caseSensitive, keys);
    PendingHas(members, from, to, caseSensitive, keys);
    hide Diff, Denote, Tidy, Encode, PatchableKeys, CompareStrings, Goal, Pending, ApplyEdit, KeysOf;
    PendingAdded(members, from, to, caseSensitive, keys);
    AddEdit(members, t, caseSensitive, keys);
    NewKeyCounts(members, t);
    var e := Edit(Add, [] + [SLASH] + Encode(t.key), Some(t.value));
    AltersOne(Object(members), e, caseSensitive);
    MembersAlter(members + [t], from, to[1..], caseSensitive, keys, bound);
    AltersConcat(Object(members), [e], DiffMembers([], from, to[1..], caseSensitive, bound), caseSensitive);
  }

  lemma NewKeyCounts(members: seq<Member>, x: Member)
    requires DistinctKeys(members) && x.key !in KeysOf(members)
    ensures Denote(Object(members + [x])) != Denote(Object(members))
  {
    hide Denote;
    DenoteMembersAppend(members, x);
    DenoteMembersDomain(members);
    hide DenoteMembers, KeysOf;
    ObjectMeans(members);
    ObjectMeans(members + [x]);
    assert x.key in DenoteMembers(members + [x]) && x.key !in DenoteMembers(members);
  }

  /** Applied one after the other, every generated edit succeeds and changes what the document means. */
  lemma {:induction false} NodeAlters(from: Json, to: Json, caseSensitive: bool, keys: iset<bytes>)
    requires Tidy(from, keys) && Tidy(to, keys) && PatchableKeys(keys)
    ensures Alters(from, Diff([], from, to, caseSensitive), caseSensitive)
    decreases from, 1
  {
    var edits := Diff([], from, to, caseSensitive);
    if SameType(from, to) && from.Array? {
      assert [] + from.items == from.items;
      ItemsAlter([], from.items, to.items, caseSensitive, keys);
    } else if SameType(from, to) && from.Object? {
      ObjectAlters(from.members, to.members, caseSensitive, keys);
    } else if edits != [] {
      NoPatchesExactly(from, to, caseSensitive, keys);
      assert edits == [Edit(Replace, [], Some(to))];
      hide Denote;
      ApplyOne(from, edits[0], caseSensitive);
      AltersOne(from, edits[0], caseSensitive);
    }
  }

  lemma {:induction false} ObjectAlters(from: seq<Member>, to: seq<Member>, caseSensitive: bool, keys: iset<bytes>)
    requires TidyMembers(from, keys) && TidyMembers(to, keys) && PatchableKeys(keys)
    ensures Alters(Object(from), Diff([], Object(from), Object(to), caseSensitive), caseSensitive)
    decreases Object(from), 0, |from| + |to| + 1
  {
    var fs, ts := SortSeq(from, caseSensitive), SortSeq(to, caseSensitive);
    SortWithin(from, caseSensitive);
    StartWalk(from, to, caseSensitive, keys);
    hide SortSeq, TidyMembers, PatchableKeys, Pending, Goal, DiffMembers, Alters;
    MembersAlter(from, fs, ts, caseSensitive, keys, Object(from));
  }
}
