/** cJSON trees, their meaning up to member order, child lookup, and tree positions. */
module JsonTree {
  import opened Bytes
  import opened KeySort

  /** One cJSON item; the children of an array or object are its `child` list in order.
      `valuedouble` is taken as an exact real; `valueint` is a function of it. */
  datatype Json =
    | Invalid
    | Null
    | False
    | True
    | Number(d: real)
    | String(s: bytes)
    | Array(items: seq<Json>)
    | Object(members: seq<Member>)

  type Member = Keyed<Json>

  /** `size_t` and `unsigned long` are 32 bits wide on the target. */
  const WORD := 0x1_0000_0000
  const INT_MAX := 0x7FFF_FFFF
  const INT_MIN := -0x8000_0000

  /** What a tree means when the order of object members does not count. */
  datatype Value =
    | VInvalid
    | VNull
    | VBool(b: bool)
    | VNumber(d: real)
    | VString(s: bytes)
    | VArray(items: seq<Value>)
    | VObject(fields: map<bytes, Value>)

  function Denote(v: Json): Value
    decreases v, 1
  {
    match v
    case Invalid => VInvalid
    case Null => VNull
    case False => VBool(false)
    case True => VBool(true)
    case Number(d) => VNumber(d)
    case String(s) => VString(s)
    case Array(items) => VArray(DenoteItems(items))
    case Object(members) => VObject(DenoteMembers(members))
  }

  function DenoteItems(items: seq<Json>): (r: seq<Value>)
    ensures |r| == |items|
    decreases items, 0
  {
    seq(|items|, i requires 0 <= i < |items| => Denote(items[i]))
  }

  /** With repeated keys the first member counts, as it does for every lookup. */
  function DenoteMembers(members: seq<Member>): map<bytes, Value>
    decreases members, 0
  {
    if members == [] then map[]
    else DenoteMembers(members[1..])[members[0].key := Denote(members[0].value)]
  }

  // ----- keys

  ghost predicate DistinctKeys(members: seq<Member>) {
    forall i, j :: 0 <= i < j < |members| ==> members[i].key != members[j].key
  }

  ghost function KeysOf(members: seq<Member>): set<bytes> {
    set m | m in members :: m.key
  }

  /** Upper and lower case of one letter never distinguish two of these keys. */
  ghost predicate FoldInjective(keys: iset<bytes>) {
    forall a, b :: a in keys && b in keys && Fold(a) == Fold(b) ==> a == b
  }

  /** Ordering these keys with and without regard to case is the same. */
  ghost predicate CaseNeutral(keys: iset<bytes>) {
    forall a, b :: a in keys && b in keys ==>
      ((StrCmp(a, b) < 0 <==> StrCmp(Fold(a), Fold(b)) < 0) && (StrCmp(a, b) == 0 <==> StrCmp(Fold(a), Fold(b)) == 0))
  }

  predicate LowerCase(k: bytes) {
    forall i :: 0 <= i < |k| ==> !(65 <= k[i] <= 90)
  }

  lemma LowerCaseIsNeutral()
    ensures CaseNeutral(iset k: bytes | LowerCase(k))
  {
    forall k: bytes | LowerCase(k) ensures Fold(k) == k {
    }
  }

  lemma NeutralIsInjective(keys: iset<bytes>)
    requires CaseNeutral(keys)
    ensures FoldInjective(keys)
  {
    forall a, b | a in keys && b in keys && Fold(a) == Fold(b) ensures a == b {
      StrCmpEqual(Fold(a), Fold(b));
      StrCmpEqual(a, b);
    }
  }

  predicate IntRange(d: real) {
    d.Floor as real == d && INT_MIN <= d.Floor <= INT_MAX
  }

  /** Every object below has distinct keys, all from `keys`, every number is an int, and array indices fit a word. */
  ghost predicate Tidy(v: Json, keys: iset<bytes>)
    decreases v, 1
  {
    match v
    case Number(d) => IntRange(d)
    case Array(items) => |items| <= WORD && forall i :: 0 <= i < |items| ==> Tidy(items[i], keys)
    case Object(members) => TidyMembers(members, keys)
    case _ => true
  }

  ghost predicate TidyMembers(members: seq<Member>, keys: iset<bytes>)
    decreases members, 0
  {
    && DistinctKeys(members)
    && forall i :: 0 <= i < |members| ==> members[i].key in keys && Tidy(members[i].value, keys)
  }

  // ----- the meaning of a member list

  lemma {:induction false} DenoteMembersDomain(members: seq<Member>)
    ensures DenoteMembers(members).Keys == KeysOf(members)
    decreases |members|
  {
    if members != [] {
      DenoteMembersDomain(members[1..]);
      assert members == [members[0]] + members[1..];
    }
  }

  lemma {:induction false} DenoteMembersAt(members: seq<Member>, i: nat)
    requires DistinctKeys(members) && i < |members|
    ensures members[i].key in DenoteMembers(members)
    ensures DenoteMembers(members)[members[i].key] == Denote(members[i].value)
    decreases |members|
  {
    if i > 0 {
      DenoteMembersAt(members[1..], i - 1);
    }
  }

  /** A member list means a map exactly when it has those keys and, at each of its members, that value. */
  lemma DenoteMembersIs(members: seq<Member>, m: map<bytes, Value>)
    requires DistinctKeys(members)
    requires m.Keys == KeysOf(members)
    requires forall i :: 0 <= i < |members| ==> members[i].key in m && m[members[i].key] == Denote(members[i].value)
    ensures DenoteMembers(members) == m
  {
    DenoteMembersDomain(members);
    forall k | k in m ensures DenoteMembers(members)[k] == m[k] {
      var x :| x in members && x.key == k;
      var i :| 0 <= i < |members| && members[i] == x;
      DenoteMembersAt(members, i);
    }
  }

  lemma DenoteMembersAppend(members: seq<Member>, x: Member)
    requires DistinctKeys(members) && x.key !in KeysOf(members)
    ensures DistinctKeys(members + [x])
    ensures DenoteMembers(members + [x]) == DenoteMembers(members)[x.key := Denote(x.value)]
  {
    var r := members + [x];
    forall i, j | 0 <= i < j < |r| ensures r[i].key != r[j].key {
      assert r[i] in members;
    }
    DenoteMembersDomain(members);
    var m := DenoteMembers(members)[x.key := Denote(x.value)];
    forall i | 0 <= i < |r| ensures r[i].key in m && m[r[i].key] == Denote(r[i].value) {
      if i < |members| {
        assert members[i] in members;
        DenoteMembersAt(members, i);
      }
    }
    assert KeysOf(r) == KeysOf(members) + {x.key} by {
      assert x in r;
      forall k | k in KeysOf(members) ensures k in KeysOf(r) {
        var y :| y in members && y.key == k;
        assert y in r;
      }
    }
    DenoteMembersIs(r, m);
  }

  function Without<T>(s: seq<T>, i: nat): (r: seq<T>)
    requires i < |s|
    ensures |r| == |s| - 1
  {
    s[..i] + s[i + 1..]
  }

  /** Position `p` of a list without its element `i`. */
  lemma WithoutAt<T>(s: seq<T>, i: nat, p: nat)
    requires i < |s| && p < |s| - 1
    ensures Without(s, i)[p] == s[if p < i then p else p + 1]
  {
  }

  lemma WithoutKeeps(members: seq<Member>, i: nat)
    requires DistinctKeys(members) && i < |members|
    ensures DistinctKeys(Without(members, i))
    ensures forall x :: x in members && x.key != members[i].key ==> x in Without(members, i)
    ensures KeysOf(Without(members, i)) == KeysOf(members) - {members[i].key}
  {
    var r := Without(members, i);
    forall p | 0 <= p < |r| ensures r[p] == members[if p < i then p else p + 1] {
      WithoutAt(members, i, p);
    }
    forall j | 0 <= j < |members| && j != i ensures members[j] in r {
      assert r[if j < i then j else j - 1] == members[j];
    }
    hide Without;
    forall x | x in r ensures x in members && x.key != members[i].key {
      var p :| 0 <= p < |r| && r[p] == x;
      var j := if p < i then p else p + 1;
      assert j < i ==> members[j].key != members[i].key;
      assert i < j ==> members[i].key != members[j].key;
    }
  }

  lemma DenoteMembersWithout(members: seq<Member>, i: nat)
    requires DistinctKeys(members) && i < |members|
    ensures DistinctKeys(Without(members, i))
    ensures forall x :: x in members && x.key != members[i].key ==> x in Without(members, i)
    ensures KeysOf(Without(members, i)) == KeysOf(members) - {members[i].key}
    ensures DenoteMembers(Without(members, i)) == DenoteMembers(members) - {members[i].key}
  {
    hide Denote;
    WithoutKeeps(members, i);
    DenoteMembersDomain(members);
    var r, m := Without(members, i), DenoteMembers(members) - {members[i].key};
    forall p | 0 <= p < |r| ensures r[p].key in m && m[r[p].key] == Denote(r[p].value) {
      WithoutAt(members, i, p);
      assert r[p].key in KeysOf(r) by {
        assert r[p] in r;
      }
      DenoteMembersAt(members, if p < i then p else p + 1);
    }
    hide Without, KeysOf, DenoteMembers, DistinctKeys;
    DenoteMembersIs(r, m);
  }

  lemma DenoteMembersUpdate(members: seq<Member>, i: nat, v: Json)
    requires DistinctKeys(members) && i < |members|
    ensures var r := members[i := Keyed(members[i].key, v)];
            && DistinctKeys(r)
            && KeysOf(r) == KeysOf(members)
            && DenoteMembers(r) == DenoteMembers(members)[members[i].key := Denote(v)]
  {
    var r := members[i := Keyed(members[i].key, v)];
    DenoteMembersDomain(members);
    assert members[i] in members;
    var m := DenoteMembers(members)[members[i].key := Denote(v)];
    forall p | 0 <= p < |r| ensures r[p].key in m && m[r[p].key] == Denote(r[p].value) {
      DenoteMembersAt(members, p);
    }
    KeysUpdate(members, i, v);
    hide KeysOf, DenoteMembers;
    DenoteMembersIs(r, m);
  }

  lemma KeysUpdate(members: seq<Member>, i: nat, v: Json)
    requires i < |members|
    ensures KeysOf(members[i := Keyed(members[i].key, v)]) == KeysOf(members)
  {
    var r := members[i := Keyed(members[i].key, v)];
    forall k ensures k in KeysOf(r) <==> k in KeysOf(members) {
      if k in KeysOf(members) {
        var x :| x in members && x.key == k;
        var p :| 0 <= p < |members| && members[p] == x;
        assert r[p] in r && r[p].key == k;
      }
      if k in KeysOf(r) {
        var x :| x in r && x.key == k;
        var p :| 0 <= p < |r| && r[p] == x;
        assert members[p] in members && members[p].key == k;
      }
    }
  }

  /** Distinct keys, all from `keys`. */
  ghost predicate HasKeys(members: seq<Member>, keys: iset<bytes>) {
    DistinctKeys(members) && forall i :: 0 <= i < |members| ==> members[i].key in keys
  }

  lemma WithoutHasKeys(members: seq<Member>, i: nat, keys: iset<bytes>)
    requires HasKeys(members, keys) && i < |members|
    ensures HasKeys(Without(members, i), keys)
    ensures members[i].key !in KeysOf(Without(members, i))
  {
    DenoteMembersWithout(members, i);
  }

  lemma AppendHasKeys(members: seq<Member>, x: Member, keys: iset<bytes>)
    requires HasKeys(members, keys) && x.key in keys && x.key !in KeysOf(members)
    ensures HasKeys(members + [x], keys)
    ensures KeysOf(members + [x]) == KeysOf(members) + {x.key}
  {
    DenoteMembersAppend(members, x);
    DenoteMembersDomain(members);
    DenoteMembersDomain(members + [x]);
  }

  lemma TidyHasKeys(members: seq<Member>, keys: iset<bytes>)
    requires TidyMembers(members, keys)
    ensures HasKeys(members, keys)
  {
  }

  /** Distinct keys, spoken of members instead of positions. */
  lemma DistinctMembers(members: seq<Member>, x: Member, y: Member)
    requires DistinctKeys(members) && x in members && y in members && x.key == y.key
    ensures x == y
  {
    var i :| 0 <= i < |members| && members[i] == x;
    var j :| 0 <= j < |members| && members[j] == y;
  }

  // ----- sorting does not change the meaning

  /** Strictly increasing keys, in the order of a comparison mode. */
  ghost predicate StrictlySorted(members: seq<Member>, caseSensitive: bool) {
    forall i, j :: 0 <= i < j < |members| ==> CompareStrings(members[i].key, members[j].key, caseSensitive) < 0
  }

  /** Where case does not matter for the order, one order is the other. */
  lemma NeutralOrder(members: seq<Member>, caseSensitive: bool, keys: iset<bytes>)
    requires TidyMembers(members, keys) && CaseNeutral(keys) && StrictlySorted(members, caseSensitive)
    ensures StrictlySorted(members, true)
  {
    hide StrCmp, Tidy;
    forall i, j | 0 <= i < j < |members| ensures CompareStrings(members[i].key, members[j].key, true) < 0 {
      assert CompareStrings(members[i].key, members[j].key, caseSensitive) < 0;
      assert members[i].key in keys && members[j].key in keys;
    }
  }

  lemma PermutedKeys(a: seq<Member>, b: seq<Member>)
    requires multiset(a) == multiset(b)
    ensures KeysOf(a) == KeysOf(b)
  {
    forall x ensures x in a <==> x in b {
      SameMembers(a, b, x);
    }
  }

  lemma {:induction false} DistinctCount(s: seq<Member>, x: Member)
    requires DistinctKeys(s)
    ensures multiset(s)[x] <= 1
    decreases |s|
  {
    if s != [] {
      DistinctCount(s[1..], x);
      assert s == [s[0]] + s[1..];
      forall j | 0 <= j < |s[1..]| ensures s[1..][j] != s[0] {
        assert s[0].key != s[j + 1].key;
      }
    }
  }

  lemma PermutedDistinct(a: seq<Member>, b: seq<Member>)
    requires multiset(a) == multiset(b) && DistinctKeys(a)
    ensures DistinctKeys(b)
  {
    forall i, j | 0 <= i < j < |b| ensures b[i].key != b[j].key {
      if b[i].key == b[j].key {
        SameMembers(a, b, b[i]);
        SameMembers(a, b, b[j]);
        DistinctMembers(a, b[i], b[j]);
        MultiplicityTwo(b, i, j);
        DistinctCount(a, b[i]);
      }
    }
  }

  /** Sorting the members of a tidy object keeps its meaning and, in a mode that does not confuse its keys, puts them
      in strictly increasing order. */
  lemma SortMembers(members: seq<Member>, caseSensitive: bool, keys: iset<bytes>)
    requires TidyMembers(members, keys)
    requires caseSensitive || FoldInjective(keys)
    ensures var s := SortSeq(members, caseSensitive);
            && TidyMembers(s, keys)
            && StrictlySorted(s, caseSensitive)
            && KeysOf(s) == KeysOf(members)
            && (forall x :: x in s <==> x in members)
            && DenoteMembers(s) == DenoteMembers(members)
  {
    var s := SortSeq(members, caseSensitive);
    SortPermutes(members, caseSensitive);
    PermutedKeys(members, s);
    PermutedDistinct(members, s);
    forall x ensures x in s <==> x in members {
      SameMembers(members, s, x);
    }
    forall i | 0 <= i < |s| ensures s[i].key in keys && Tidy(s[i].value, keys) {
      assert s[i] in members;
    }
    SortSorts(members, caseSensitive);
    forall i, j | 0 <= i < j < |s| ensures CompareStrings(s[i].key, s[j].key, caseSensitive) < 0 {
      assert NotAfter(s[i].key, s[j].key, caseSensitive);
      StrCmpEqual(Key(s[i].key, caseSensitive), Key(s[j].key, caseSensitive));
    }
    DenoteMembersDomain(members);
    forall i | 0 <= i < |s|
      ensures s[i].key in DenoteMembers(members) && DenoteMembers(members)[s[i].key] == Denote(s[i].value)
    {
      assert s[i] in members;
      var j :| 0 <= j < |members| && members[j] == s[i];
      DenoteMembersAt(members, j);
    }
    DenoteMembersIs(s, DenoteMembers(members));
  }

  // ----- child lookup

  /** The position of the first member a lookup by name stops at, or the number of members. */
  function FindKey(members: seq<Member>, name: bytes, caseSensitive: bool): (i: nat)
    ensures i <= |members|
    ensures i < |members| ==> Key(members[i].key, caseSensitive) == Key(name, caseSensitive)
    ensures forall j :: 0 <= j < i ==> Key(members[j].key, caseSensitive) != Key(name, caseSensitive)
  {
    if members == [] then 0
    else if Key(members[0].key, caseSensitive) == Key(name, caseSensitive) then 0
    else 1 + FindKey(members[1..], name, caseSensitive)
  }

  /** `cJSON_GetObjectItem` and its case-sensitive twin: only the children of an object have names. */
  function GetObjectItem(v: Json, name: bytes, caseSensitive: bool): Option<Json> {
    if !v.Object? then None
    else
      var i := FindKey(v.members, name, caseSensitive);
      if i < |v.members| then Some(v.members[i].value) else None
  }

  /** Among keys that case does not confuse, either lookup finds the member with exactly that name. */
  lemma FindKeyExact(members: seq<Member>, name: bytes, caseSensitive: bool, keys: iset<bytes>)
    requires forall i :: 0 <= i < |members| ==> members[i].key in keys
    requires name in keys
    requires caseSensitive || FoldInjective(keys)
    ensures var i := FindKey(members, name, caseSensitive);
            if name in KeysOf(members) then i < |members| && members[i].key == name else i == |members|
  {
    forall i | 0 <= i < |members| ensures members[i].key in KeysOf(members) {
      assert members[i] in members;
    }
    if name in KeysOf(members) {
      var x :| x in members && x.key == name;
      var j :| 0 <= j < |members| && members[j] == x;
    }
  }

  // ----- positions in a tree

  /** A node is named by the child numbers on the way down to it. */
  type Path = seq<nat>

  function Children(v: Json): seq<Json> {
    match v
    case Array(items) => items
    case Object(members) => seq(|members|, i requires 0 <= i < |members| => members[i].value)
    case _ => []
  }

  function WithChild(v: Json, i: nat, c: Json): Json
    requires i < |Children(v)|
  {
    match v
    case Array(items) => Array(items[i := c])
    case Object(members) => Object(members[i := Keyed(members[i].key, c)])
  }

  predicate ValidPath(v: Json, p: Path)
    decreases |p|
  {
    p == [] || (p[0] < |Children(v)| && ValidPath(Children(v)[p[0]], p[1..]))
  }

  function At(v: Json, p: Path): Json
    requires ValidPath(v, p)
    decreases |p|
  {
    if p == [] then v else At(Children(v)[p[0]], p[1..])
  }

  /** The tree with the node at `p` replaced; every other node stays. */
  function Put(v: Json, p: Path, x: Json): Json
    requires ValidPath(v, p)
    decreases |p|
  {
    if p == [] then x else WithChild(v, p[0], Put(Children(v)[p[0]], p[1..], x))
  }
}
