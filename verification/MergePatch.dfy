/** JSON Merge Patch (section 2 of RFC 7396): `merge_patch` and `generate_merge_patch`. */
module MergePatch {
  import opened Bytes
  import opened KeySort
  import opened JsonTree
  import opened JsonCompare
  import opened JsonPatch

  // ----- the definition in section 2 of RFC 7396, on objects as maps

  function Lookup(fields: map<bytes, Value>, k: bytes): Option<Value> {
    if k in fields then Some(fields[k]) else None
  }

  function FieldsOf(v: Option<Value>): map<bytes, Value> {
    match v
    case Some(VObject(fields)) => fields
    case _ => map[]
  }

  function RfcMerge(target: Option<Value>, patch: Value): Value
    decreases patch, 1
  {
    match patch
    case VObject(fields) => VObject(RfcFields(FieldsOf(target), fields))
    case _ => patch
  }

  function RfcFields(base: map<bytes, Value>, patch: map<bytes, Value>): map<bytes, Value>
    decreases VObject(patch), 0
  {
    map k | k in base.Keys + patch.Keys && !(k in patch && patch[k] == VNull)
      :: if k in patch then RfcMerge(Lookup(base, k), patch[k]) else base[k]
  }

  /** Applying a merge patch a second time changes nothing. */
  lemma {:induction false} RfcIdempotent(target: Option<Value>, patch: Value)
    ensures RfcMerge(Some(RfcMerge(target, patch)), patch) == RfcMerge(target, patch)
    decreases patch
  {
    match patch {
      case VObject(fields) =>
        var base := FieldsOf(target);
        var once := RfcFields(base, fields);
        forall k | k in once && k in fields ensures RfcMerge(Some(once[k]), fields[k]) == once[k] {
          RfcIdempotent(Lookup(base, k), fields[k]);
        }
        hide RfcMerge;
        assert RfcFields(once, fields) == once;
      case _ =>
    }
  }

  // ----- merge_patch

  function Taken(members: seq<Member>, name: bytes, caseSensitive: bool): Option<Json> {
    var i := FindKey(members, name, caseSensitive);
    if i < |members| then Some(members[i].value) else None
  }

  /** `merge_patch`; the target is absent when the member it would replace is. */
  function Merge(target: Option<Json>, patch: Json, caseSensitive: bool): Json
    decreases patch, 1
  {
    match patch
    case Object(ps) => Object(MergeMembers(MembersOf(target), ps, caseSensitive))
    case _ => patch
  }

  function MembersOf(target: Option<Json>): seq<Member> {
    match target
    case Some(Object(members)) => members
    case _ => []
  }

  function MergeMembers(members: seq<Member>, patch: seq<Member>, caseSensitive: bool): seq<Member>
    decreases patch, 0
  {
    if patch == [] then members
    else
      var p := patch[0];
      var rest := DeleteMember(members, p.key, caseSensitive);
      if p.value == Null then MergeMembers(rest, patch[1..], caseSensitive)
      else MergeMembers(rest + [Keyed(p.key, Merge(Taken(members, p.key, caseSensitive), p.value, caseSensitive))],
                        patch[1..], caseSensitive)
  }

  /** Every object reached through object members has distinct keys, all from `keys`. */
  ghost predicate WellKeyed(v: Json, keys: iset<bytes>) {
    v.Object? ==> HasKeys(v.members, keys) && forall i :: 0 <= i < |v.members| ==> WellKeyed(v.members[i].value, keys)
  }

  ghost predicate WellKeyedMembers(members: seq<Member>, keys: iset<bytes>) {
    HasKeys(members, keys) && forall x :: x in members ==> WellKeyed(x.value, keys)
  }

  lemma WellKeyedObject(members: seq<Member>, keys: iset<bytes>)
    ensures WellKeyed(Object(members), keys) <==> WellKeyedMembers(members, keys)
  {
    if WellKeyedMembers(members, keys) {
      forall i | 0 <= i < |members| ensures WellKeyed(members[i].value, keys) {
        assert members[i] in members;
      }
    }
  }

  lemma {:induction false} TidyIsWellKeyed(v: Json, keys: iset<bytes>)
    requires Tidy(v, keys)
    ensures WellKeyed(v, keys)
  {
    if v.Object? {
      forall i | 0 <= i < |v.members| ensures WellKeyed(v.members[i].value, keys) {
        TidyIsWellKeyed(v.members[i].value, keys);
      }
    }
  }

  ghost function DenoteOption(v: Option<Json>): Option<Value> {
    match v
    case None => None
    case Some(x) => Some(Denote(x))
  }

  /** Taking a member out: what is found, and what is left. */
  lemma TakeMember(members: seq<Member>, name: bytes, caseSensitive: bool, keys: iset<bytes>)
    requires WellKeyedMembers(members, keys) && name in keys && (caseSensitive || FoldInjective(keys))
    ensures var rest := DeleteMember(members, name, caseSensitive);
            && WellKeyedMembers(rest, keys) && name !in KeysOf(rest)
            && DenoteMembers(rest) == DenoteMembers(members) - {name}
    ensures var v := Taken(members, name, caseSensitive);
            && DenoteOption(v) == Lookup(DenoteMembers(members), name)
            && (v.Some? ==> WellKeyed(v.value, keys))
  {
    hide WellKeyed, Denote, KeysOf;
    FindKeyExact(members, name, caseSensitive, keys);
    DenoteMembersDomain(members);
    var i := FindKey(members, name, caseSensitive);
    if i < |members| {
      assert members[i] in members;
      DenoteMembersAt(members, i);
      DenoteMembersWithout(members, i);
      WithoutHasKeys(members, i, keys);
      forall x | x in Without(members, i) ensures x in members {
      }
    } else {
      assert name !in KeysOf(members);
      assert DenoteMembers(members) - {name} == DenoteMembers(members);
    }
  }

  lemma RfcFieldsStep(base: map<bytes, Value>, patch: map<bytes, Value>, k: bytes, v: Value)
    requires k !in patch
    ensures v == VNull ==> RfcFields(base, patch[k := v]) == RfcFields(base - {k}, patch)
    ensures v != VNull ==> RfcFields(base, patch[k := v]) == RfcFields((base - {k})[k := RfcMerge(Lookup(base, k), v)], patch)
  {
    hide RfcMerge;
    var next := if v == VNull then base - {k} else (base - {k})[k := RfcMerge(Lookup(base, k), v)];
    forall j | j in patch ensures Lookup(base, j) == Lookup(next, j) {
    }
    assert RfcFields(base, patch[k := v]) == RfcFields(next, patch);
  }

  /** `merge_patch` is the merge of RFC 7396, in either comparison mode, and keeps keys distinct. */
  lemma {:induction false} MergeIsRfc(target: Option<Json>, patch: Json, caseSensitive: bool, keys: iset<bytes>)
    requires WellKeyed(patch, keys) && (target.Some? ==> WellKeyed(target.value, keys))
    requires caseSensitive || FoldInjective(keys)
    ensures Denote(Merge(target, patch, caseSensitive)) == RfcMerge(DenoteOption(target), Denote(patch))
    ensures WellKeyed(Merge(target, patch, caseSensitive), keys)
    decreases patch, 1
  {
    match patch {
      case Object(ps) =>
        var members := MembersOf(target);
        WellKeyedObject(members, keys);
        WellKeyedObject(ps, keys);
        assert WellKeyedMembers(members, keys);
        MergeMembersIsRfc(members, ps, caseSensitive, keys);
        assert DenoteMembers(members) == FieldsOf(DenoteOption(target));
        WellKeyedObject(MergeMembers(members, ps, caseSensitive), keys);
      case _ =>
    }
  }

  lemma {:induction false} MergeMembersIsRfc(members: seq<Member>, patch: seq<Member>, caseSensitive: bool, keys: iset<bytes>)
    requires WellKeyedMembers(members, keys) && WellKeyedMembers(patch, keys)
    requires caseSensitive || FoldInjective(keys)
    ensures DenoteMembers(MergeMembers(members, patch, caseSensitive))
            == RfcFields(DenoteMembers(members), DenoteMembers(patch))
    ensures WellKeyedMembers(MergeMembers(members, patch, caseSensitive), keys)
    decreases patch, 0
  {
    if patch == [] {
      assert RfcFields(DenoteMembers(members), map[]) == DenoteMembers(members);
    } else {
      var p, tail := patch[0], patch[1..];
      assert p in patch;
      MembersTail(patch, keys);
      hide WellKeyed, Denote, FoldInjective, RfcFields, WellKeyedMembers, DeleteMember, Taken, Merge, KeysOf;
      TakeMember(members, p.key, caseSensitive, keys);
      RfcFieldsStep(DenoteMembers(members), DenoteMembers(tail), p.key, Denote(p.value));
      var rest := DeleteMember(members, p.key, caseSensitive);
      NullDenotes(p.value);
      if p.value == Null {
        MergeMembersIsRfc(rest, tail, caseSensitive, keys);
      } else {
        var taken := Taken(members, p.key, caseSensitive);
        MergeIsRfc(taken, p.value, caseSensitive, keys);
        var x := Keyed(p.key, Merge(taken, p.value, caseSensitive));
        AppendMember(rest, x, keys);
        MergeMembersIsRfc(rest + [x], tail, caseSensitive, keys);
      }
    }
  }

  lemma NullDenotes(v: Json)
    ensures Denote(v) == VNull <==> v == Null
  {
  }

  lemma MembersTail(s: seq<Member>, keys: iset<bytes>)
    requires s != [] && WellKeyedMembers(s, keys)
    ensures WellKeyedMembers(s[1..], keys) && s[0].key in keys && WellKeyed(s[0].value, keys)
    ensures s[0].key !in DenoteMembers(s[1..])
    ensures DenoteMembers(s) == DenoteMembers(s[1..])[s[0].key := Denote(s[0].value)]
  {
    hide WellKeyed, Denote;
    assert s[0] in s;
    DenoteMembersDomain(s[1..]);
    forall x | x in s[1..] ensures x.key != s[0].key {
      var i :| 0 <= i < |s[1..]| && s[1..][i] == x;
      assert s[0].key != s[i + 1].key;
    }
  }

  lemma AppendMember(members: seq<Member>, x: Member, keys: iset<bytes>)
    requires WellKeyedMembers(members, keys) && x.key in keys && x.key !in KeysOf(members) && WellKeyed(x.value, keys)
    ensures WellKeyedMembers(members + [x], keys)
    ensures DenoteMembers(members + [x]) == DenoteMembers(members)[x.key := Denote(x.value)]
  {
    AppendHasKeys(members, x, keys);
    DenoteMembersAppend(members, x);
  }

  /** Merging the same patch twice means the same as merging it once. */
  lemma MergeIdempotent(target: Option<Json>, patch: Json, caseSensitive: bool, keys: iset<bytes>)
    requires WellKeyed(patch, keys) && (target.Some? ==> WellKeyed(target.value, keys))
    requires caseSensitive || FoldInjective(keys)
    ensures var once := Merge(target, patch, caseSensitive);
            Denote(Merge(Some(once), patch, caseSensitive)) == Denote(once)
  {
    hide Denote, RfcMerge, WellKeyed, Merge;
    var once := Merge(target, patch, caseSensitive);
    MergeIsRfc(target, patch, caseSensitive, keys);
    MergeIsRfc(Some(once), patch, caseSensitive, keys);
    RfcIdempotent(DenoteOption(target), Denote(patch));
  }

  // ----- generate_merge_patch

  /** `generate_merge_patch`. Below the top it always works without case, and it always orders keys with case. */
  function Generate(from: Json, to: Json, caseSensitive: bool): Option<Json>
    decreases from, 1
  {
    match (from, to)
    case (Object(fs), Object(ts)) =>
      SortWithin(fs, caseSensitive);
      var patch := GenerateMembers(SortSeq(fs, caseSensitive), SortSeq(ts, caseSensitive), caseSensitive, from);
      if patch == [] then None else Some(Object(patch))
    case (_, _) => Some(to)
  }

  function GenerateMembers(from: seq<Member>, to: seq<Member>, caseSensitive: bool, ghost bound: Json): seq<Member>
    requires Within(from, bound)
    decreases bound, 0, |from| + |to|
  {
    if from == [] && to == [] then []
    else
      var diff := if from == [] then 1 else if to == [] then -1 else StrCmp(from[0].key, to[0].key);
      if diff < 0 then
        [Keyed(from[0].key, Null)] + GenerateMembers(from[1..], to, caseSensitive, bound)
      else if diff > 0 then
        [Keyed(to[0].key, to[0].value)] + GenerateMembers(from, to[1..], caseSensitive, bound)
      else
        GenerateMember(from[0], to[0], caseSensitive, bound) + GenerateMembers(from[1..], to[1..], caseSensitive, bound)
  }

  function GenerateMember(from: Member, to: Member, caseSensitive: bool, ghost bound: Json): seq<Member>
    requires from.value < bound
    decreases bound, 0, 0
  {
    if CompareJson(from.value, to.value, caseSensitive) then []
    else
      match Generate(from.value, to.value, false)
      case None => []
      case Some(p) => [Keyed(to.key, p)]
  }

  // ----- what the generated patch means

  function ValuePatch(a: Value, b: Value): Value
    decreases a, 1
  {
    if a.VObject? && b.VObject? then VObject(PatchFields(a.fields, b.fields)) else b
  }

  /** Keys only in `a` are nulled, keys only in `b` are copied, keys with different values are patched. */
  function PatchFields(a: map<bytes, Value>, b: map<bytes, Value>): map<bytes, Value>
    decreases VObject(a), 0
  {
    map k | k in a.Keys + b.Keys && !(k in a && k in b && a[k] == b[k])
      :: if k !in b then VNull else if k !in a then b[k] else ValuePatch(a[k], b[k])
  }

  lemma PatchFieldsRemove(a: map<bytes, Value>, b: map<bytes, Value>, k: bytes, x: Value)
    requires k !in a && k !in b
    ensures PatchFields(a[k := x], b) == PatchFields(a, b)[k := VNull]
  {
    hide ValuePatch;
  }

  lemma PatchFieldsAdd(a: map<bytes, Value>, b: map<bytes, Value>, k: bytes, y: Value)
    requires k !in a && k !in b
    ensures PatchFields(a, b[k := y]) == PatchFields(a, b)[k := y]
  {
    hide ValuePatch;
  }

  lemma PatchFieldsBoth(a: map<bytes, Value>, b: map<bytes, Value>, k: bytes, x: Value, y: Value)
    requires k !in a && k !in b
    ensures PatchFields(a[k := x], b[k := y]) == if x == y then PatchFields(a, b) else PatchFields(a, b)[k := ValuePatch(x, y)]
  {
    hide ValuePatch;
  }

  /** The keys of the sorted lists still to be walked bound the keys of the patch. */
  ghost predicate Describes(patch: seq<Member>, from: seq<Member>, to: seq<Member>, keys: iset<bytes>) {
    && WellKeyedMembers(patch, keys)
    && DenoteMembers(patch) == PatchFields(DenoteMembers(from), DenoteMembers(to))
  }

  lemma PrependMember(x: Member, patch: seq<Member>, keys: iset<bytes>)
    requires WellKeyedMembers(patch, keys) && x.key in keys && x.key !in DenoteMembers(patch) && WellKeyed(x.value, keys)
    ensures WellKeyedMembers([x] + patch, keys)
    ensures DenoteMembers([x] + patch) == DenoteMembers(patch)[x.key := Denote(x.value)]
  {
    hide WellKeyed, Denote;
    DenoteMembersDomain(patch);
    var r := [x] + patch;
    assert r[1..] == patch;
    forall i | 0 <= i < |patch| ensures patch[i].key != x.key {
      assert patch[i] in patch;
    }
    assert DistinctKeys(r);
  }

  ghost predicate Walkable(s: seq<Member>, keys: iset<bytes>) {
    TidyMembers(s, keys) && StrictlySorted(s, true)
  }

  lemma WalkTail(s: seq<Member>, keys: iset<bytes>)
    requires s != [] && Walkable(s, keys)
    ensures Walkable(s[1..], keys) && s[0].key in keys && Tidy(s[0].value, keys) && WellKeyed(s[0].value, keys)
    ensures s[0].key !in DenoteMembers(s[1..])
    ensures DenoteMembers(s) == DenoteMembers(s[1..])[s[0].key := Denote(s[0].value)]
  {
    TidyIsWellKeyed(s[0].value, keys);
    DenoteMembersDomain(s[1..]);
    hide Tidy, WellKeyed, Denote, StrCmp;
    forall x | x in s[1..] ensures x.key != s[0].key {
      var i :| 0 <= i < |s[1..]| && s[1..][i] == x;
      assert s[0].key != s[i + 1].key;
    }
  }

  lemma WalkBelow(k: bytes, s: seq<Member>, keys: iset<bytes>)
    requires Walkable(s, keys) && (s != [] ==> StrCmp(k, s[0].key) < 0)
    ensures k !in DenoteMembers(s)
  {
    BelowAll(k, s, true);
    DenoteMembersDomain(s);
  }

  /** The generated patch, when there is one, means exactly the patch between the two values; for two objects there
      is none exactly when they are equal up to member order. */
  lemma {:induction false} GenerateMeans(from: Json, to: Json, caseSensitive: bool, keys: iset<bytes>)
    requires Tidy(from, keys) && Tidy(to, keys) && CaseNeutral(keys)
    ensures var r := Generate(from, to, caseSensitive);
            && (r.None? <==> from.Object? && to.Object? && Denote(from) == Denote(to))
            && (r.Some? ==> Denote(r.value) == ValuePatch(Denote(from), Denote(to)) && WellKeyed(r.value, keys))
    decreases from, 1
  {
    match (from, to) {
      case (Object(fs), Object(ts)) =>
        SortWithin(fs, caseSensitive);
        NeutralIsInjective(keys);
        SortMembers(fs, caseSensitive, keys);
        SortMembers(ts, caseSensitive, keys);
        var f, t := SortSeq(fs, caseSensitive), SortSeq(ts, caseSensitive);
        NeutralOrder(f, caseSensitive, keys);
        NeutralOrder(t, caseSensitive, keys);
        GenerateMembersMeans(f, t, caseSensitive, keys, from);
        var patch := GenerateMembers(f, t, caseSensitive, from);
        WellKeyedObject(patch, keys);
        hide SortSeq, GenerateMembers, Tidy, WellKeyed, CaseNeutral;
        NoFields(patch);
        NoDifference(DenoteMembers(fs), DenoteMembers(ts));
      case (_, _) =>
        TidyIsWellKeyed(to, keys);
    }
  }

  lemma NoFields(patch: seq<Member>)
    ensures DenoteMembers(patch) == map[] <==> patch == []
  {
    DenoteMembersDomain(patch);
    if patch != [] {
      assert patch[0] in patch;
      assert patch[0].key in DenoteMembers(patch);
    }
  }

  lemma NoDifference(a: map<bytes, Value>, b: map<bytes, Value>)
    ensures PatchFields(a, b) == map[] <==> a == b
  {
    hide ValuePatch;
    if a != b {
      if k :| k in a && (k !in b || a[k] != b[k]) {
        assert k in PatchFields(a, b);
      } else {
        var k :| k in b && k !in a;
        assert k in PatchFields(a, b);
      }
    }
  }

  lemma {:induction false} GenerateMembersMeans(from: seq<Member>, to: seq<Member>, caseSensitive: bool, keys: iset<bytes>,
                                                bound: Json)
    requires Within(from, bound) && Walkable(from, keys) && Walkable(to, keys) && CaseNeutral(keys)
    ensures Describes(GenerateMembers(from, to, caseSensitive, bound), from, to, keys)
    decreases bound, 0, |from| + |to|
  {
    if from == [] && to == [] {
      assert PatchFields(map[], map[]) == map[];
    } else {
      var diff := if from == [] then 1 else if to == [] then -1 else StrCmp(from[0].key, to[0].key);
      if diff < 0 {
        var rest := GenerateMembers(from[1..], to, caseSensitive, bound);
        WalkTail(from, keys);
        WalkBelow(from[0].key, to, keys);
        GenerateMembersMeans(from[1..], to, caseSensitive, keys, bound);
        hide Walkable, Describes, GenerateMembers, StrCmp, CaseNeutral, WellKeyed, Denote;
        StepRemove(from, to, rest, keys);
      } else if diff > 0 {
        var rest := GenerateMembers(from, to[1..], caseSensitive, bound);
        WalkTail(to, keys);
        if from != [] {
          StrCmpAntisymmetric(to[0].key, from[0].key);
        }
        WalkBelow(to[0].key, from, keys);
        GenerateMembersMeans(from, to[1..], caseSensitive, keys, bound);
        hide Walkable, Describes, GenerateMembers, StrCmp, CaseNeutral, WellKeyed, Denote;
        StepAdd(from, to, rest, keys);
      } else {
        var rest := GenerateMembers(from[1..], to[1..], caseSensitive, bound);
        WalkTail(from, keys);
        WalkTail(to, keys);
        StrCmpEqual(from[0].key, to[0].key);
        assert from[0] in from;
        GenerateMembersMeans(from[1..], to[1..], caseSensitive, keys, bound);
        GenerateMemberMeans(from[0], to[0], caseSensitive, keys, bound);
        hide Walkable, Describes, GenerateMembers, StrCmp, CaseNeutral, WellKeyed, Denote, GenerateMember;
        StepBoth(from, to, GenerateMember(from[0], to[0], caseSensitive, bound), rest, keys);
      }
    }
  }

  lemma StepRemove(from: seq<Member>, to: seq<Member>, rest: seq<Member>, keys: iset<bytes>)
    requires from != [] && Walkable(from, keys) && from[0].key !in DenoteMembers(to)
    requires Describes(rest, from[1..], to, keys)
    ensures Describes([Keyed(from[0].key, Null)] + rest, from, to, keys)
  {
    hide Walkable, PatchFields, StrCmp;
    WalkTail(from, keys);
    var k := from[0].key;
    KeysOfFields(DenoteMembers(from[1..]), DenoteMembers(to), k);
    PatchFieldsRemove(DenoteMembers(from[1..]), DenoteMembers(to), k, Denote(from[0].value));
    PrependMember(Keyed(k, Null), rest, keys);
  }

  lemma KeysOfFields(a: map<bytes, Value>, b: map<bytes, Value>, k: bytes)
    requires k !in a && k !in b
    ensures k !in PatchFields(a, b)
  {
  }

  lemma StepAdd(from: seq<Member>, to: seq<Member>, rest: seq<Member>, keys: iset<bytes>)
    requires to != [] && Walkable(to, keys) && to[0].key !in DenoteMembers(from)
    requires Describes(rest, from, to[1..], keys)
    ensures Describes([Keyed(to[0].key, to[0].value)] + rest, from, to, keys)
  {
    hide Walkable, PatchFields, StrCmp;
    WalkTail(to, keys);
    var k := to[0].key;
    KeysOfFields(DenoteMembers(from), DenoteMembers(to[1..]), k);
    PatchFieldsAdd(DenoteMembers(from), DenoteMembers(to[1..]), k, Denote(to[0].value));
    PrependMember(to[0], rest, keys);
  }

  lemma StepBoth(from: seq<Member>, to: seq<Member>, here: seq<Member>, rest: seq<Member>, keys: iset<bytes>)
    requires from != [] && to != [] && Walkable(from, keys) && Walkable(to, keys) && from[0].key == to[0].key
    requires Describes(rest, from[1..], to[1..], keys)
    requires MemberDescribed(here, from[0], to[0], keys)
    ensures Describes(here + rest, from, to, keys)
  {
    hide Walkable, PatchFields, StrCmp, WellKeyed, ValuePatch, Denote;
    WalkTail(from, keys);
    WalkTail(to, keys);
    var k := to[0].key;
    KeysOfFields(DenoteMembers(from[1..]), DenoteMembers(to[1..]), k);
    PatchFieldsBoth(DenoteMembers(from[1..]), DenoteMembers(to[1..]), k, Denote(from[0].value), Denote(to[0].value));
    if here == [] {
      assert here + rest == rest;
    } else {
      PrependMember(here[0], rest, keys);
      assert here == [here[0]];
    }
  }

  /** At most one patch member for a key in both objects, and none exactly when the values are equal. */
  ghost predicate MemberDescribed(here: seq<Member>, from: Member, to: Member, keys: iset<bytes>) {
    if Denote(from.value) == Denote(to.value) then here == []
    else
      && |here| == 1 && here[0].key == to.key && WellKeyed(here[0].value, keys)
      && Denote(here[0].value) == ValuePatch(Denote(from.value), Denote(to.value))
  }

  lemma {:induction false} GenerateMemberMeans(from: Member, to: Member, caseSensitive: bool, keys: iset<bytes>, bound: Json)
    requires from.value < bound && Tidy(from.value, keys) && Tidy(to.value, keys) && CaseNeutral(keys)
    ensures MemberDescribed(GenerateMember(from, to, caseSensitive, bound), from, to, keys)
    decreases bound, 0, 0
  {
    hide Tidy, CaseNeutral, CompareJson, Generate, WellKeyed, ValuePatch, Denote, FoldInjective;
    NeutralIsInjective(keys);
    CompareDecidesEquality(from.value, to.value, caseSensitive, keys);
    GenerateMeans(from.value, to.value, false, keys);
  }

  // ----- merging the generated patch back

  /** No null member in any object reached through object members. */
  ghost predicate NullFree(v: Value) {
    v.VObject? ==> forall k :: k in v.fields ==> v.fields[k] != VNull && NullFree(v.fields[k])
  }

  /** A null member of `b` is harmless only where `a` already agrees. */
  ghost predicate NullSafe(a: Value, b: Value)
    decreases b
  {
    b.VObject? ==>
      if a.VObject? then
        forall k :: k in b.fields ==>
          (k in a.fields && a.fields[k] == b.fields[k])
          || (b.fields[k] != VNull && if k in a.fields then NullSafe(a.fields[k], b.fields[k]) else NullFree(b.fields[k]))
      else NullFree(b)
  }

  /** Merging an object into nothing drops exactly its null members. */
  lemma {:induction false} MergeIntoNothing(target: Option<Value>, b: Value)
    requires FieldsOf(target) == map[]
    ensures RfcMerge(target, b) == b <==> NullFree(b)
    decreases b
  {
    match b {
      case VObject(fields) =>
        forall k | k in fields ensures RfcMerge(None, fields[k]) == fields[k] <==> NullFree(fields[k]) {
          MergeIntoNothing(None, fields[k]);
        }
        hide RfcMerge, NullFree;
        var r := RfcFields(map[], fields);
        assert forall k :: k in fields && fields[k] != VNull ==> k in r && r[k] == RfcMerge(None, fields[k]);
        assert forall k :: k in fields && fields[k] == VNull ==> k !in r;
        assert r == fields <==> forall k :: k in fields ==> k in r && r[k] == fields[k];
        assert r == fields <==> forall k :: k in fields ==> fields[k] != VNull && NullFree(fields[k]);
        ObjectUnfolds(b, fields);
      case _ =>
    }
  }

  lemma ObjectUnfolds(b: Value, fields: map<bytes, Value>)
    requires b == VObject(fields)
    ensures NullFree(b) <==> forall k :: k in fields ==> fields[k] != VNull && NullFree(fields[k])
    ensures RfcMerge(None, b) == VObject(RfcFields(map[], fields))
    ensures forall t :: FieldsOf(t) == map[] ==> RfcMerge(t, b) == VObject(RfcFields(map[], fields))
  {
  }

  /** What the merge of a generated patch holds at one key of the wanted object. */
  ghost predicate KeySafe(a: map<bytes, Value>, b: map<bytes, Value>, k: bytes)
    requires k in b
  {
    (k in a && a[k] == b[k]) || (b[k] != VNull && if k in a then NullSafe(a[k], b[k]) else NullFree(b[k]))
  }

  lemma PatchIsNull(a: Value, b: Value)
    ensures ValuePatch(a, b) == VNull <==> b == VNull
  {
  }

  lemma {:induction false} MergeBackAt(a: map<bytes, Value>, b: map<bytes, Value>, k: bytes)
    requires k in b
    ensures var r := RfcFields(a, PatchFields(a, b)); (k in r && r[k] == b[k]) <==> KeySafe(a, b, k)
    decreases VObject(b), 0
  {
    hide RfcMerge, ValuePatch, NullSafe, NullFree;
    if k in a {
      if a[k] != b[k] {
        PatchIsNull(a[k], b[k]);
        MergeBack(a[k], b[k]);
      }
    } else {
      MergeIntoNothing(None, b[k]);
    }
  }

  /** Merging the patch between two values into the first gives the second exactly when no null gets in the way. */
  lemma {:induction false} MergeBack(a: Value, b: Value)
    ensures RfcMerge(Some(a), ValuePatch(a, b)) == b <==> NullSafe(a, b)
    decreases b, 1
  {
    match (a, b) {
      case (VObject(af), VObject(bf)) =>
        var r := RfcFields(af, PatchFields(af, bf));
        forall k | k in bf ensures (k in r && r[k] == bf[k]) <==> KeySafe(af, bf, k) {
          MergeBackAt(af, bf, k);
        }
        hide RfcMerge, ValuePatch, NullSafe, NullFree;
        assert forall k :: k in r ==> k in bf;
        hide RfcFields, PatchFields;
        assert r == bf <==> forall k :: k in bf ==> KeySafe(af, bf, k);
        MergeBackUnfolds(a, b, af, bf);
      case (_, _) =>
        if b.VObject? {
          MergeIntoNothing(Some(a), b);
        }
    }
  }

  lemma MergeBackUnfolds(a: Value, b: Value, af: map<bytes, Value>, bf: map<bytes, Value>)
    requires a == VObject(af) && b == VObject(bf)
    ensures RfcMerge(Some(a), ValuePatch(a, b)) == VObject(RfcFields(af, PatchFields(af, bf)))
    ensures NullSafe(a, b) <==> forall k :: k in bf ==> KeySafe(af, bf, k)
  {
    hide PatchFields, RfcFields, NullFree;
  }

  /** Merging a generated patch into a copy of `from` made before the generation gives `to`, up to member order, exactly
      when no null gets in the way. */
  lemma MergePatchRoundTrip(from: Json, to: Json, caseSensitive: bool, keys: iset<bytes>)
    requires Tidy(from, keys) && Tidy(to, keys) && CaseNeutral(keys)
    requires Generate(from, to, caseSensitive).Some?
    ensures var patch := Generate(from, to, caseSensitive).value;
            Denote(Merge(Some(from), patch, caseSensitive)) == Denote(to) <==> NullSafe(Denote(from), Denote(to))
  {
    hide Tidy, Denote, Generate, Merge, RfcMerge, ValuePatch, NullSafe, WellKeyed, CaseNeutral;
    NeutralIsInjective(keys);
    TidyIsWellKeyed(from, keys);
    GenerateMeans(from, to, caseSensitive, keys);
    var patch := Generate(from, to, caseSensitive).value;
    MergeIsRfc(Some(from), patch, caseSensitive, keys);
    MergeBack(Denote(from), Denote(to));
  }

  /** In particular whenever `to` has no null object member. */
  lemma {:induction false} NullFreeIsSafe(a: Value, b: Value)
    requires NullFree(b)
    ensures NullSafe(a, b)
    decreases b
  {
    if a.VObject? && b.VObject? {
      forall k | k in b.fields && k in a.fields ensures NullSafe(a.fields[k], b.fields[k]) {
        NullFreeIsSafe(a.fields[k], b.fields[k]);
      }
    }
  }

  // ----- the loops

  /** `merge_patch`, member by member. */
  method ApplyMergePatch(target: Option<Json>, patch: Json, caseSensitive: bool) returns (r: Json)
    ensures r == Merge(target, patch, caseSensitive)
    decreases patch
  {
    if !patch.Object? {
      return patch;
    }
    var members := MembersOf(target);
    var i := 0;
    assert patch.members[0..] == patch.members;
    while i < |patch.members|
      invariant i <= |patch.members|
      invariant MergeMembers(MembersOf(target), patch.members, caseSensitive)
                == MergeMembers(members, patch.members[i..], caseSensitive)
    {
      var child := patch.members[i];
      assert patch.members[i..][0] == child && patch.members[i..][1..] == patch.members[i + 1..];
      var replaced := Taken(members, child.key, caseSensitive);
      members := DeleteMember(members, child.key, caseSensitive);
      if child.value != Null {
        var replacement := ApplyMergePatch(replaced, child.value, caseSensitive);
        members := members + [Keyed(child.key, replacement)];
      }
      i := i + 1;
    }
    return Object(members);
  }

  /** `generate_merge_patch`, walking both sorted member lists. */
  method BuildMergePatch(from: Json, to: Json, caseSensitive: bool) returns (r: Option<Json>)
    ensures r == Generate(from, to, caseSensitive)
    decreases from
  {
    if !to.Object? || !from.Object? {
      return Some(to);
    }
    SortWithin(from.members, caseSensitive);
    var patch := BuildMembers(SortSeq(from.members, caseSensitive), SortSeq(to.members, caseSensitive), caseSensitive, from);
    return if patch == [] then None else Some(Object(patch));
  }

  method BuildMembers(from: seq<Member>, to: seq<Member>, caseSensitive: bool, ghost bound: Json) returns (patch: seq<Member>)
    requires Within(from, bound)
    ensures patch == GenerateMembers(from, to, caseSensitive, bound)
    decreases bound, 0, 1
  {
    hide GenerateMember, GenerateMembers, StrCmp, Within;
    var f, t := from, to;
    patch := [];
    while f != [] || t != []
      invariant Within(f, bound)
      invariant patch + GenerateMembers(f, t, caseSensitive, bound) == GenerateMembers(from, to, caseSensitive, bound)
      decreases |f| + |t|
    {
      GenerateStep(f, t, caseSensitive, bound);
      var diff := if f == [] then 1 else if t == [] then -1 else StrCmp(f[0].key, t[0].key);
      if diff < 0 {
        Reassociate(patch, [Keyed(f[0].key, Null)], GenerateMembers(f[1..], t, caseSensitive, bound));
        patch := patch + [Keyed(f[0].key, Null)];
        f := f[1..];
      } else if diff > 0 {
        Reassociate(patch, [Keyed(t[0].key, t[0].value)], GenerateMembers(f, t[1..], caseSensitive, bound));
        patch := patch + [Keyed(t[0].key, t[0].value)];
        t := t[1..];
      } else {
        var here := BuildMember(f[0], t[0], caseSensitive, bound);
        Reassociate(patch, here, GenerateMembers(f[1..], t[1..], caseSensitive, bound));
        patch := patch + here;
        f, t := f[1..], t[1..];
      }
    }
    NothingGenerated(caseSensitive, bound);
  }

  lemma NothingGenerated(caseSensitive: bool, bound: Json)
    ensures Within([], bound) && GenerateMembers([], [], caseSensitive, bound) == []
  {
  }

  /** One turn of the walk over two sorted member lists. */
  lemma GenerateStep(f: seq<Member>, t: seq<Member>, caseSensitive: bool, bound: Json)
    requires Within(f, bound) && (f != [] || t != [])
    ensures f != [] ==> Within(f[1..], bound) && f[0].value < bound
    ensures var diff := if f == [] then 1 else if t == [] then -1 else StrCmp(f[0].key, t[0].key);
            GenerateMembers(f, t, caseSensitive, bound)
            == if diff < 0 then [Keyed(f[0].key, Null)] + GenerateMembers(f[1..], t, caseSensitive, bound)
               else if diff > 0 then [t[0]] + GenerateMembers(f, t[1..], caseSensitive, bound)
               else GenerateMember(f[0], t[0], caseSensitive, bound) + GenerateMembers(f[1..], t[1..], caseSensitive, bound)
  {
    hide GenerateMember, StrCmp;
  }

  lemma Reassociate<T>(a: seq<T>, b: seq<T>, c: seq<T>)
    ensures a + (b + c) == (a + b) + c
  {
  }

  method BuildMember(from: Member, to: Member, caseSensitive: bool, ghost bound: Json) returns (here: seq<Member>)
    requires from.value < bound
    ensures here == GenerateMember(from, to, caseSensitive, bound)
    decreases bound, 0, 0
  {
    here := [];
    if !CompareJson(from.value, to.value, caseSensitive) {
      var child := BuildMergePatch(from.value, to.value, false);
      if child.Some? {
        here := [Keyed(to.key, child.value)];
      }
    }
  }

  // ----- the condition on the keys is exact

  ghost predicate MergesBack(from: Json, to: Json, caseSensitive: bool) {
    var r := Generate(from, to, caseSensitive);
    r.Some? ==> Denote(Merge(Some(from), r.value, caseSensitive)) == Denote(to)
  }

  function Flag(k: bytes): Member {
    Keyed(k, True)
  }

  /** Two keys that case does not tell apart: the second added replaces the first. */
  lemma FoldedTogether(a: bytes, b: bytes)
    requires Fold(a) == Fold(b) && a != b
    ensures !MergesBack(Object([]), Object([Flag(a), Flag(b)]), false)
  {
    var to: seq<Member> := [Flag(a), Flag(b)];
    var patch: seq<Member> := [Flag(b), Flag(a)];
    GenerateFolded(a, b);
    hide Generate, StrCmp;
    assert MergeMembers([], patch, false) == [Flag(a)] by {
      assert patch[1..] == [Flag(a)] && [Flag(a)][1..] == [];
      assert FindKey([Flag(b)], a, false) == 0;
      assert Without([Flag(b)], 0) == [];
      assert MergeMembers([Flag(b)], [Flag(a)], false) == MergeMembers([Flag(a)], [], false);
      assert [] + [Flag(b)] == [Flag(b)];
      assert MergeMembers([], patch, false) == MergeMembers([Flag(b)], [Flag(a)], false);
    }
    DenoteMembersDomain([Flag(a)]);
    DenoteMembersDomain(to);
    assert Flag(b) in to && b in KeysOf(to) && b !in KeysOf([Flag(a)]);
  }

  lemma GenerateFolded(a: bytes, b: bytes)
    requires Fold(a) == Fold(b)
    ensures Generate(Object([]), Object([Flag(a), Flag(b)]), false) == Some(Object([Flag(b), Flag(a)]))
  {
    hide StrCmp;
    StrCmpEqual(Fold(a), Fold(b));
    var none := Object([]);
    SortWithin([], false);
    SortFolded(a, b);
    assert [Flag(b), Flag(a)][1..] == [Flag(a)] && [Flag(a)][1..] == [];
    assert GenerateMembers([], [Flag(a)], false, none) == [Flag(a)] + GenerateMembers([], [], false, none);
    assert GenerateMembers([], [Flag(b), Flag(a)], false, none) == [Flag(b)] + GenerateMembers([], [Flag(a)], false, none);
    assert GenerateMembers([], [Flag(b), Flag(a)], false, none) == [Flag(b), Flag(a)];
    assert SortSeq<Json>([], false) == [];
  }

  lemma SortFolded(a: bytes, b: bytes)
    requires StrCmp(Fold(a), Fold(b)) == 0
    ensures SortSeq([Flag(a), Flag(b)], false) == [Flag(b), Flag(a)]
  {
    hide StrCmp;
    var s := [Flag(a), Flag(b)];
    assert s[0].key == a && s[0 + 1].key == b;
    assert !StrictRun(s, false);
    assert s[..1] == [Flag(a)] && s[1..] == [Flag(b)];
    assert KeySort.Merge([Flag(a)], [Flag(b)], false) == [Flag(b)] + KeySort.Merge([Flag(a)], [], false) by {
      assert [Flag(b)][1..] == [];
    }
  }

  /** Two keys that sort one way with case and the other way without: the walk nulls a key it has just added. */
  lemma WalkedOutOfOrder(a: bytes, b: bytes)
    requires StrCmp(Fold(a), Fold(b)) < 0 && StrCmp(a, b) > 0
    ensures !MergesBack(Object([Flag(a), Flag(b)]), Object([Flag(b)]), false)
  {
    hide Generate, StrCmp, MergeMembers, Fold;
    StrCmpEqual(Fold(a), Fold(b));
    var from, to: seq<Member> := [Flag(a), Flag(b)], [Flag(b)];
    GenerateOutOfOrder(a, b);
    MergeThree(a, b, false);
    DenoteMembersDomain(to);
    assert Flag(b) in to && b in KeysOf(to);
  }

  lemma GenerateOutOfOrder(a: bytes, b: bytes)
    requires StrCmp(Fold(a), Fold(b)) < 0 && StrCmp(a, b) > 0
    ensures Generate(Object([Flag(a), Flag(b)]), Object([Flag(b)]), false) == Some(Object([Flag(b), Keyed(a, Null), Keyed(b, Null)]))
  {
    hide StrCmp;
    var from, to: seq<Member> := [Flag(a), Flag(b)], [Flag(b)];
    SortWithin(from, false);
    assert StrictRun(from, false);
    assert SortSeq(from, false) == from && SortSeq(to, false) == to;
    hide SortSeq;
    GenerateThree(a, b, Object(from));
  }

  lemma GenerateThree(a: bytes, b: bytes, bound: Json)
    requires Within([Flag(a), Flag(b)], bound) && StrCmp(a, b) > 0
    ensures GenerateMembers([Flag(a), Flag(b)], [Flag(b)], false, bound) == [Flag(b), Keyed(a, Null), Keyed(b, Null)]
  {
    hide StrCmp;
    var from: seq<Member> := [Flag(a), Flag(b)];
    assert from[1..] == [Flag(b)] && [Flag(b)][1..] == [];
    assert GenerateMembers([Flag(b)], [], false, bound) == [Keyed(b, Null)] + GenerateMembers([], [], false, bound);
    assert GenerateMembers(from, [], false, bound) == [Keyed(a, Null)] + GenerateMembers([Flag(b)], [], false, bound);
    assert GenerateMembers(from, [Flag(b)], false, bound) == [Flag(b)] + GenerateMembers(from, [], false, bound);
  }

  lemma MergeThree(a: bytes, b: bytes, caseSensitive: bool)
    requires Key(a, caseSensitive) != Key(b, caseSensitive)
    ensures MergeMembers([Flag(a), Flag(b)], [Flag(b), Keyed(a, Null), Keyed(b, Null)], caseSensitive) == []
  {
    var from: seq<Member> := [Flag(a), Flag(b)];
    var p1, p2, p3: Member := Flag(b), Keyed(a, Null), Keyed(b, Null);
    assert [p1, p2, p3][1..] == [p2, p3] && [p2, p3][1..] == [p3] && [p3][1..] == [];
    assert FindKey(from, b, caseSensitive) == 1 && Without(from, 1) == [Flag(a)];
    assert [Flag(a)] + [Flag(b)] == from;
    assert MergeMembers(from, [p1, p2, p3], caseSensitive) == MergeMembers(from, [p2, p3], caseSensitive);
    assert FindKey(from, a, caseSensitive) == 0 && Without(from, 0) == [Flag(b)];
    assert MergeMembers(from, [p2, p3], caseSensitive) == MergeMembers([Flag(b)], [p3], caseSensitive);
    assert FindKey([Flag(b)], b, caseSensitive) == 0 && Without([Flag(b)], 0) == [];
    assert MergeMembers([Flag(b)], [p3], caseSensitive) == MergeMembers([], [], caseSensitive);
  }

  lemma FlagsTidy(a: bytes, b: bytes, keys: iset<bytes>)
    requires a in keys && b in keys && a != b
    ensures Tidy(Object([]), keys) && Tidy(Object([Flag(b)]), keys) && Tidy(Object([Flag(a), Flag(b)]), keys)
    ensures NullFree(Denote(Object([Flag(b)]))) && NullFree(Denote(Object([Flag(a), Flag(b)])))
  {
    assert [Flag(b)][1..] == [] && [Flag(a), Flag(b)][1..] == [Flag(b)];
    assert DenoteMembers([Flag(b)]) == map[b := VBool(true)];
    assert DenoteMembers([Flag(a), Flag(b)]) == map[b := VBool(true), a := VBool(true)];
  }

  // below the first level, the generation ignores case in either mode

  /** Wrapping both trees into objects with one key moves the generation one level down, where it ignores case. */
  lemma GenerateBelow(k: bytes, x: Json, y: Json)
    ensures Generate(Object([Keyed(k, x)]), Object([Keyed(k, y)]), true)
            == if CompareJson(x, y, true) || Generate(x, y, false).None? then None
               else Some(Object([Keyed(k, Generate(x, y, false).value)]))
  {
    hide StrCmp, CompareJson;
    var from, to: seq<Member> := [Keyed(k, x)], [Keyed(k, y)];
    SortWithin(from, true);
    assert SortSeq(from, true) == from && SortSeq(to, true) == to;
    hide SortSeq;
    StrCmpEqual(k, k);
    assert from[1..] == [] && to[1..] == [];
    var here := GenerateMember(from[0], to[0], true, Object(from));
    assert GenerateMembers(from, to, true, Object(from)) == here + GenerateMembers([], [], true, Object(from));
    assert here + [] == here;
  }

  lemma MergeBelow(k: bytes, x: Json, p: Json)
    requires p != Null
    ensures Merge(Some(Object([Keyed(k, x)])), Object([Keyed(k, p)]), true) == Object([Keyed(k, Merge(Some(x), p, true))])
  {
    var target, patch: seq<Member> := [Keyed(k, x)], [Keyed(k, p)];
    assert FindKey(target, k, true) == 0 && Without(target, 0) == [] && patch[1..] == [];
    hide Merge;
    assert [] + [Keyed(k, Merge(Some(x), p, true))] == [Keyed(k, Merge(Some(x), p, true))];
    assert MergeMembers(target, patch, true) == MergeMembers([Keyed(k, Merge(Some(x), p, true))], [], true);
    assert Merge(Some(Object(target)), Object(patch), true) == Object(MergeMembers(target, patch, true)) by { MergeObject(target, patch); }
  }

  lemma MergeObject(target: seq<Member>, patch: seq<Member>)
    ensures Merge(Some(Object(target)), Object(patch), true) == Object(MergeMembers(target, patch, true))
  {
  }

  lemma OneMember(k: bytes, v: Json)
    ensures Denote(Object([Keyed(k, v)])) == VObject(map[k := Denote(v)])
  {
    hide Denote;
    assert [Keyed(k, v)][1..] == [];
    assert DenoteMembers([Keyed(k, v)]) == map[k := Denote(v)];
    ObjectDenotes([Keyed(k, v)]);
  }

  lemma ObjectDenotes(members: seq<Member>)
    ensures Denote(Object(members)) == VObject(DenoteMembers(members))
  {
  }

  /** The order confusion, one level down. */
  lemma OutOfOrderBelow(a: bytes, b: bytes, keys: iset<bytes>)
    requires a in keys && b in keys && StrCmp(Fold(a), Fold(b)) < 0 && StrCmp(a, b) > 0
    ensures !MergesBack(Object([Keyed(a, Object([Flag(a), Flag(b)]))]), Object([Keyed(a, Object([Flag(b)]))]), true)
  {
    hide StrCmp, Tidy, Generate, Merge, MergeMembers, Denote, CompareJson;
    StrCmpEqual(a, b);
    var x, y := Object([Flag(a), Flag(b)]), Object([Flag(b)]);
    var p := Object([Flag(b), Keyed(a, Null), Keyed(b, Null)]);
    GenerateOutOfOrder(a, b);
    FlagsTidy(a, b, keys);
    FlagsDiffer(a, b);
    CompareDecidesEquality(x, y, true, keys);
    GenerateBelow(a, x, y);
    MergeBelow(a, x, p);
    MergeObject(x.members, p.members);
    MergeThree(a, b, true);
    OneMember(a, Object([]));
    OneMember(a, y);
    assert map[a := Denote(Object([]))][a] != map[a := Denote(y)][a];
  }

  lemma FlagsDiffer(a: bytes, b: bytes)
    requires a != b
    ensures Denote(Object([Flag(b)])) == VObject(map[b := VBool(true)]) && Denote(Object([])) == VObject(map[])
    ensures Denote(Object([Flag(a), Flag(b)])) != Denote(Object([Flag(b)])) && Denote(Object([Flag(b)])) != Denote(Object([]))
  {
    OneMember(b, True);
    assert [Flag(a), Flag(b)][1..] == [Flag(b)];
    assert a in DenoteMembers([Flag(a), Flag(b)]);
    assert a !in map[b := VBool(true)];
    assert b in map[b := VBool(true)];
  }

  /** Two levels down the comparison ignores case, so a renamed key is missed while another change makes a patch. */
  lemma FoldedBelow(a: bytes, b: bytes)
    requires Fold(a) == Fold(b) && StrCmp(a, b) < 0
    ensures var x, y := Object([Keyed(a, Object([Flag(a)]))]), Object([Keyed(a, Object([Flag(b)]))]);
            !MergesBack(Object([Keyed(a, x), Keyed(b, True)]), Object([Keyed(a, y), Keyed(b, False)]), true)
  {
    hide StrCmp, Generate, Denote;
    var x, y := Object([Keyed(a, Object([Flag(a)]))]), Object([Keyed(a, Object([Flag(b)]))]);
    MissedBelow(a, b);
    PatchOfPair(a, b, x, y);
    hide Merge;
    StrCmpEqual(a, b);
    FlipMerged(a, b, x);
    PairDenotes(a, b, x, False);
    PairDenotes(a, b, y, False);
    RenamedDiffers(a, b);
    assert map[b := Denote(False), a := Denote(x)][a] != map[b := Denote(False), a := Denote(y)][a];
  }

  lemma RenamedDiffers(a: bytes, b: bytes)
    requires a != b
    ensures Denote(Object([Keyed(a, Object([Flag(a)]))])) != Denote(Object([Keyed(a, Object([Flag(b)]))]))
  {
    hide Denote;
    OneMember(a, Object([Flag(a)]));
    OneMember(a, Object([Flag(b)]));
    OneMember(a, True);
    OneMember(b, True);
    assert a in map[a := Denote(True)] && a !in map[b := Denote(True)];
    var u, v := Denote(Object([Flag(a)])), Denote(Object([Flag(b)]));
    assert map[a := u][a] != map[a := v][a];
  }

  /** The renamed key is missed one level below where the comparison ignores case. */
  lemma MissedBelow(a: bytes, b: bytes)
    requires Fold(a) == Fold(b)
    ensures Generate(Object([Keyed(a, Object([Flag(a)]))]), Object([Keyed(a, Object([Flag(b)]))]), false).None?
  {
    hide StrCmp;
    var from, to: seq<Member> := [Keyed(a, Object([Flag(a)]))], [Keyed(a, Object([Flag(b)]))];
    SortWithin(from, false);
    assert SortSeq(from, false) == from && SortSeq(to, false) == to;
    SameFlags(a, b);
    hide SortSeq, CompareJson;
    StrCmpEqual(a, a);
    assert from[1..] == [] && to[1..] == [];
    assert GenerateMember(from[0], to[0], false, Object(from)) == [];
    assert GenerateMembers(from, to, false, Object(from)) == [] + GenerateMembers([], [], false, Object(from));
  }

  lemma SameFlags(a: bytes, b: bytes)
    requires Fold(a) == Fold(b)
    ensures CompareJson(Object([Flag(a)]), Object([Flag(b)]), false)
  {
    hide StrCmp;
    var x, y: seq<Member> := [Flag(a)], [Flag(b)];
    SortWithin(x, false);
    assert SortSeq(x, false) == x && SortSeq(y, false) == y;
    hide SortSeq;
    StrCmpEqual(Fold(a), Fold(b));
    assert x[1..] == [] && y[1..] == [];
    assert CompareMembers(x, y, false, Object(x));
  }

  lemma PatchOfPair(a: bytes, b: bytes, x: Json, y: Json)
    requires StrCmp(a, b) < 0 && Generate(x, y, false).None?
    ensures Generate(Object([Keyed(a, x), Keyed(b, True)]), Object([Keyed(a, y), Keyed(b, False)]), true)
            == Some(Object([Keyed(b, False)]))
  {
    var from, to: seq<Member> := [Keyed(a, x), Keyed(b, True)], [Keyed(a, y), Keyed(b, False)];
    var bound := Object(from);
    SortWithin(from, true);
    PairSorted(a, b, x, True);
    PairSorted(a, b, y, False);
    hide SortSeq, StrCmp, CompareJson;
    StrCmpEqual(a, a);
    StrCmpEqual(b, b);
    assert from[1..] == [Keyed(b, True)] && to[1..] == [Keyed(b, False)];
    assert GenerateMember(from[0], to[0], true, bound) == [];
    FlagFlipped(b, bound);
    assert GenerateMembers(from, to, true, bound) == [] + GenerateMembers(from[1..], to[1..], true, bound);
    assert [] + [Keyed(b, False)] == [Keyed(b, False)];
    hide GenerateMembers;
    assert Generate(Object(from), Object(to), true) == Some(Object([Keyed(b, False)]));
  }

  lemma PairSorted(a: bytes, b: bytes, x: Json, y: Json)
    requires StrCmp(a, b) < 0
    ensures SortSeq([Keyed(a, x), Keyed(b, y)], true) == [Keyed(a, x), Keyed(b, y)]
  {
    hide StrCmp;
    assert StrictRun([Keyed(a, x), Keyed(b, y)], true);
  }

  lemma FlagFlipped(b: bytes, bound: Json)
    requires Within([Keyed(b, True)], bound)
    ensures GenerateMembers([Keyed(b, True)], [Keyed(b, False)], true, bound) == [Keyed(b, False)]
  {
    hide StrCmp;
    StrCmpEqual(b, b);
    var from, to: seq<Member> := [Keyed(b, True)], [Keyed(b, False)];
    assert from[1..] == [] && to[1..] == [];
    assert GenerateMember(from[0], to[0], true, bound) == [Keyed(b, False)];
    assert GenerateMembers([], [], true, bound) == [];
  }

  /** The trees that show it use only the two keys. */
  lemma BelowTidy(a: bytes, b: bytes, keys: iset<bytes>)
    requires a in keys && b in keys && a != b
    ensures Tidy(Object([Keyed(a, Object([Flag(a), Flag(b)]))]), keys) && Tidy(Object([Keyed(a, Object([Flag(b)]))]), keys)
    ensures NullFree(Denote(Object([Keyed(a, Object([Flag(b)]))])))
    ensures var x, y := Object([Keyed(a, Object([Flag(a)]))]), Object([Keyed(a, Object([Flag(b)]))]);
            var from, to := Object([Keyed(a, x), Keyed(b, True)]), Object([Keyed(a, y), Keyed(b, False)]);
            Tidy(from, keys) && Tidy(to, keys) && NullFree(Denote(to))
  {
    assert Tidy(True, keys) && Tidy(False, keys);
    hide Denote, Tidy, NullFree;
    FlagsTidy(a, b, keys);
    FlagsTidy(b, a, keys);
    var x, y := Object([Keyed(a, Object([Flag(a)]))]), Object([Keyed(a, Object([Flag(b)]))]);
    SingleTidy(a, Object([Flag(a), Flag(b)]), keys);
    SingleTidy(a, Object([Flag(a)]), keys);
    SingleTidy(a, Object([Flag(b)]), keys);
    PairTidy(a, b, x, True, keys);
    PairTidy(a, b, y, False, keys);
  }

  lemma SingleTidy(a: bytes, v: Json, keys: iset<bytes>)
    requires a in keys && Tidy(v, keys)
    ensures Tidy(Object([Keyed(a, v)]), keys)
    ensures v != Null && NullFree(Denote(v)) ==> NullFree(Denote(Object([Keyed(a, v)])))
  {
    OneMember(a, v);
    NullDenotes(v);
    hide Denote;
  }

  lemma PairTidy(a: bytes, b: bytes, u: Json, v: Json, keys: iset<bytes>)
    requires a in keys && b in keys && a != b && Tidy(u, keys) && Tidy(v, keys)
    ensures Tidy(Object([Keyed(a, u), Keyed(b, v)]), keys)
    ensures u.Object? && NullFree(Denote(u)) && (v == True || v == False) ==> NullFree(Denote(Object([Keyed(a, u), Keyed(b, v)])))
  {
    PairDenotes(a, b, u, v);
    NullDenotes(u);
    NullDenotes(v);
    assert v == True || v == False ==> Denote(v).VBool?;
    hide Denote;
  }

  lemma PairDenotes(a: bytes, b: bytes, x: Json, y: Json)
    requires a != b
    ensures Denote(Object([Keyed(a, x), Keyed(b, y)])) == VObject(map[b := Denote(y), a := Denote(x)])
  {
    hide Denote;
    var s: seq<Member> := [Keyed(a, x), Keyed(b, y)];
    assert s[1..] == [Keyed(b, y)] && [Keyed(b, y)][1..] == [];
    assert DenoteMembers([Keyed(b, y)]) == map[b := Denote(y)];
    ObjectDenotes(s);
  }

  lemma FlipMerged(a: bytes, b: bytes, x: Json)
    requires a != b
    ensures Merge(Some(Object([Keyed(a, x), Keyed(b, True)])), Object([Keyed(b, False)]), true)
            == Object([Keyed(a, x), Keyed(b, False)])
  {
    var target, patch: seq<Member> := [Keyed(a, x), Keyed(b, True)], [Keyed(b, False)];
    assert target[1..] == [Keyed(b, True)] && target[0].key == a && target[1].key == b && patch[1..] == [];
    assert FindKey(target[1..], b, true) == 0;
    assert FindKey(target, b, true) == 1;
    assert Without(target, 1) == [Keyed(a, x)];
    assert DeleteMember(target, b, true) == [Keyed(a, x)];
    assert [Keyed(a, x)] + [Keyed(b, False)] == [Keyed(a, x), Keyed(b, False)];
    assert MergeMembers(target, patch, true) == MergeMembers([Keyed(a, x), Keyed(b, False)], [], true);
  }

  /** In either mode, a set of keys is safe for every pair of trees whose second has no null member exactly when case
      never changes how two of its keys compare. */
  lemma CaseNeutralExact(keys: iset<bytes>, caseSensitive: bool)
    ensures CaseNeutral(keys) <==>
            forall from, to :: Tidy(from, keys) && Tidy(to, keys) && NullFree(Denote(to)) ==> MergesBack(from, to, caseSensitive)
  {
    if CaseNeutral(keys) {
      forall from, to | Tidy(from, keys) && Tidy(to, keys) && NullFree(Denote(to)) ensures MergesBack(from, to, caseSensitive) {
        hide Tidy, Denote, Generate, Merge, NullFree, NullSafe, CaseNeutral;
        if Generate(from, to, caseSensitive).Some? {
          MergePatchRoundTrip(from, to, caseSensitive, keys);
          NullFreeIsSafe(Denote(from), Denote(to));
        }
      }
    } else {
      var a, b :| a in keys && b in keys && !((StrCmp(a, b) < 0 <==> StrCmp(Fold(a), Fold(b)) < 0)
                                               && (StrCmp(a, b) == 0 <==> StrCmp(Fold(a), Fold(b)) == 0));
      hide StrCmp, Tidy, MergesBack, Denote, NullFree, CaseNeutral;
      var from, to := ConfusedPair(a, b, caseSensitive, keys);
    }
  }

  /** Two keys that folding orders or equates differently give a pair of trees that do not merge back. */
  lemma ConfusedPair(a: bytes, b: bytes, caseSensitive: bool, keys: iset<bytes>) returns (from: Json, to: Json)
    requires a in keys && b in keys
    requires !((StrCmp(a, b) < 0 <==> StrCmp(Fold(a), Fold(b)) < 0) && (StrCmp(a, b) == 0 <==> StrCmp(Fold(a), Fold(b)) == 0))
    ensures Tidy(from, keys) && Tidy(to, keys) && NullFree(Denote(to)) && !MergesBack(from, to, caseSensitive)
  {
    hide StrCmp, Tidy, MergesBack, Denote, NullFree;
    StrCmpEqual(a, b);
    StrCmpEqual(Fold(a), Fold(b));
    StrCmpAntisymmetric(a, b);
    StrCmpAntisymmetric(b, a);
    StrCmpAntisymmetric(Fold(a), Fold(b));
    StrCmpAntisymmetric(Fold(b), Fold(a));
    if Fold(a) == Fold(b) {
      if StrCmp(a, b) < 0 {
        from, to := FoldedPair(a, b, caseSensitive, keys);
      } else {
        from, to := FoldedPair(b, a, caseSensitive, keys);
      }
    } else if StrCmp(Fold(a), Fold(b)) < 0 {
      from, to := ReorderedPair(a, b, caseSensitive, keys);
    } else {
      from, to := ReorderedPair(b, a, caseSensitive, keys);
    }
  }

  lemma FoldedPair(a: bytes, b: bytes, caseSensitive: bool, keys: iset<bytes>) returns (from: Json, to: Json)
    requires a in keys && b in keys && Fold(a) == Fold(b) && StrCmp(a, b) < 0
    ensures Tidy(from, keys) && Tidy(to, keys) && NullFree(Denote(to)) && !MergesBack(from, to, caseSensitive)
  {
    hide StrCmp, Tidy, MergesBack, Denote, NullFree;
    StrCmpEqual(a, b);
    if caseSensitive {
      BelowTidy(a, b, keys);
      FoldedBelow(a, b);
      var x, y := Object([Keyed(a, Object([Flag(a)]))]), Object([Keyed(a, Object([Flag(b)]))]);
      from, to := Object([Keyed(a, x), Keyed(b, True)]), Object([Keyed(a, y), Keyed(b, False)]);
    } else {
      FlagsTidy(a, b, keys);
      FoldedTogether(a, b);
      from, to := Object([]), Object([Flag(a), Flag(b)]);
    }
  }

  lemma ReorderedPair(a: bytes, b: bytes, caseSensitive: bool, keys: iset<bytes>) returns (from: Json, to: Json)
    requires a in keys && b in keys && StrCmp(Fold(a), Fold(b)) < 0 && StrCmp(a, b) > 0
    ensures Tidy(from, keys) && Tidy(to, keys) && NullFree(Denote(to)) && !MergesBack(from, to, caseSensitive)
  {
    hide StrCmp, Tidy, MergesBack, Denote, NullFree;
    StrCmpEqual(a, b);
    if caseSensitive {
      BelowTidy(a, b, keys);
      OutOfOrderBelow(a, b, keys);
      from, to := Object([Keyed(a, Object([Flag(a), Flag(b)]))]), Object([Keyed(a, Object([Flag(b)]))]);
    } else {
      FlagsTidy(a, b, keys);
      WalkedOutOfOrder(a, b);
      from, to := Object([Flag(a), Flag(b)]), Object([Flag(b)]);
    }
  }
}
