/** JSON Pointers (sections 3 and 4 of RFC 6901) as `cJSON_Utils.c` writes, follows and unescapes them. */
module JsonPointer {
  import opened Bytes
  import opened JsonTree

  /** What may follow a reference token: nothing, or the next token. */
  predicate AtBoundary(rest: bytes) {
    rest == [] || rest[0] == SLASH
  }

  // ----- escaping

  function Escape(b: byte): bytes {
    if b == SLASH then [TILDE, ONE] else if b == TILDE then [TILDE, ZERO] else [b]
  }

  function Encode(name: bytes): (r: bytes)
    ensures |r| >= |name|
  {
    if name == [] then [] else Escape(name[0]) + Encode(name[1..])
  }

  function EncodedLength(name: bytes): nat {
    if name == [] then 0
    else (if name[0] == TILDE || name[0] == SLASH then 2 else 1) + EncodedLength(name[1..])
  }

  lemma {:induction false} EncodeShape(name: bytes)
    ensures |Encode(name)| == EncodedLength(name)
    ensures SLASH !in Encode(name)
  {
    if name != [] {
      EncodeShape(name[1..]);
    }
  }

  /** The escapes of section 3 of RFC 6901, byte by byte. */
  lemma EscapesOf(b: byte)
    ensures Encode(Ascii("~")) == Ascii("~0") && Encode(Ascii("/")) == Ascii("~1")
    ensures [b] != Ascii("~") && [b] != Ascii("/") ==> Encode([b]) == [b]
  {
    assert Ascii("~") == [TILDE] && Ascii("/") == [SLASH] && Ascii("~0") == [TILDE, ZERO] && Ascii("~1") == [TILDE, ONE];
    assert [b][1..] == [] && [TILDE][1..] == [] && [SLASH][1..] == [];
    assert Encode([]) == [];
  }

  lemma EncodeAppend(a: bytes, b: bytes)
    ensures Encode(a + b) == Encode(a) + Encode(b)
    ensures EncodedLength(a + b) == EncodedLength(a) + EncodedLength(b)
  {
    hide Encode, EncodedLength;
    EncodeConcat(a, b);
    EncodeShape(a);
    EncodeShape(b);
    EncodeShape(a + b);
  }

  lemma {:induction false} EncodeConcat(a: bytes, b: bytes)
    ensures Encode(a + b) == Encode(a) + Encode(b)
  {
    hide Escape;
    if a == [] {
      assert a + b == b;
    } else {
      EncodeConcat(a[1..], b);
      assert (a + b)[0] == a[0] && (a + b)[1..] == a[1..] + b;
      var e, f, g := Escape(a[0]), Encode(a[1..]), Encode(b);
      assert e + (f + g) == e + f + g;
    }
  }

  lemma EncodeNext(name: bytes, i: nat)
    requires i < |name|
    ensures Encode(name[..i + 1]) == Encode(name[..i]) + Escape(name[i])
    ensures EncodedLength(name[..i + 1]) == EncodedLength(name[..i]) + |Escape(name[i])|
    ensures EncodedLength(name) == EncodedLength(name[..i]) + |Escape(name[i])| + EncodedLength(name[i + 1..])
  {
    assert name[..i + 1] == name[..i] + [name[i]];
    EncodeAppend(name[..i], [name[i]]);
    assert Encode([name[i]]) == Escape(name[i]) + Encode([]);
    assert name == name[..i + 1] + name[i + 1..];
    EncodeAppend(name[..i + 1], name[i + 1..]);
  }

  /** `encode_string_as_pointer` into a buffer with just the room its callers allocate: escaped text and a NUL. */
  method EncodeStringAsPointer(destination: array<byte>, start: nat, source: bytes)
    requires start + EncodedLength(source) + 1 <= destination.Length
    modifies destination
    ensures destination[..start] == old(destination[..start])
    ensures destination[start..start + EncodedLength(source)] == Encode(source)
    ensures destination[start + EncodedLength(source)] == NUL
    ensures destination[start + EncodedLength(source) + 1..] == old(destination[start + EncodedLength(source) + 1..])
  {
    hide Encode, EncodedLength;
    var i, d := 0, start;
    assert source[..0] == [];
    EncodeShape([]);
    EmptyEncoding();
    ghost var end := start + EncodedLength(source);
    while i < |source|
      invariant i <= |source|
      invariant d == start + EncodedLength(source[..i]) <= end
      invariant destination[start..d] == Encode(source[..i])
      invariant destination[..start] == old(destination[..start])
      invariant destination[end..] == old(destination[end..])
    {
      EncodeNext(source, i);
      ghost var before := destination[start..d];
      if source[i] == SLASH {
        destination[d] := TILDE;
        destination[d + 1] := ONE;
        d := d + 1;
      } else if source[i] == TILDE {
        destination[d] := TILDE;
        destination[d + 1] := ZERO;
        d := d + 1;
      } else {
        destination[d] := source[i];
      }
      i, d := i + 1, d + 1;
      assert destination[start..d] == before + Escape(source[i - 1]);
    }
    assert source[..i] == source;
    destination[d] := NUL;
  }

  lemma EmptyEncoding()
    ensures Encode([]) == [] && EncodedLength([]) == 0
  {
  }

  // ----- following a pointer

  /** `compare_pointers`: does `name` match the first reference token of `pointer`? */
  predicate ComparePointers(name: bytes, pointer: bytes, caseSensitive: bool)
    decreases |name|
  {
    if name == [] || AtBoundary(pointer) then
      AtBoundary(pointer) == (name == [])
    else if pointer[0] == TILDE then
      && |pointer| > 1
      && ((pointer[1] == ZERO && name[0] == TILDE) || (pointer[1] == ONE && name[0] == SLASH))
      && ComparePointers(name[1..], pointer[2..], caseSensitive)
    else
      && (if caseSensitive then name[0] == pointer[0] else ToLower(name[0]) == ToLower(pointer[0]))
      && ComparePointers(name[1..], pointer[1..], caseSensitive)
  }

  /** A name matches an escaped name exactly when the two names are equal in that comparison mode. */
  lemma {:induction false} CompareEncoded(name: bytes, other: bytes, rest: bytes, caseSensitive: bool)
    requires AtBoundary(rest)
    ensures ComparePointers(name, Encode(other) + rest, caseSensitive) <==> Key(name, caseSensitive) == Key(other, caseSensitive)
    decreases |other|
  {
    var pointer := Encode(other) + rest;
    if other == [] {
      assert pointer == rest;
      assert |Key(name, caseSensitive)| == |name| && |Key(other, caseSensitive)| == 0;
    } else if name == [] {
      assert |Key(name, caseSensitive)| == 0 && |Key(other, caseSensitive)| == |other|;
      assert Encode(other) == Escape(other[0]) + Encode(other[1..]);
      assert pointer[0] == Escape(other[0])[0] != SLASH;
      assert !ComparePointers(name, pointer, caseSensitive);
    } else {
      CompareEncoded(name[1..], other[1..], rest, caseSensitive);
      var e := Escape(other[0]);
      assert pointer == e + (Encode(other[1..]) + rest);
      assert pointer[|e|..] == Encode(other[1..]) + rest;
      KeyCons(name, caseSensitive);
      KeyCons(other, caseSensitive);
      CompareHead(name, other[0], Encode(other[1..]) + rest, caseSensitive);
    }
  }

  /** One escaped byte is matched by the bytes that equal it in the comparison mode. */
  lemma CompareHead(name: bytes, b: byte, rest: bytes, caseSensitive: bool)
    requires name != []
    ensures ComparePointers(name, Escape(b) + rest, caseSensitive)
            <==> (if caseSensitive then name[0] == b else ToLower(name[0]) == ToLower(b)) &&
                 ComparePointers(name[1..], rest, caseSensitive)
  {
    var e := Escape(b);
    var pointer := e + rest;
    assert pointer[0] == e[0] && pointer[|e|..] == rest;
    if |e| == 2 {
      assert pointer[1] == e[1];
      assert ToLower(name[0]) == ToLower(b) <==> name[0] == b;
    }
  }

  lemma KeyCons(s: bytes, caseSensitive: bool)
    requires s != []
    ensures Key(s, caseSensitive) == [if caseSensitive then s[0] else ToLower(s[0])] + Key(s[1..], caseSensitive)
  {
  }

  /** The rest of a pointer after its first token. */
  function SkipToken(pointer: bytes): (r: bytes)
    ensures |r| <= |pointer|
    ensures AtBoundary(r)
  {
    if AtBoundary(pointer) then pointer else SkipToken(pointer[1..])
  }

  lemma {:induction false} SkipTokenOver(token: bytes, rest: bytes)
    requires SLASH !in token && AtBoundary(rest)
    ensures SkipToken(token + rest) == rest
  {
    if token == [] {
      assert token + rest == rest;
    } else {
      assert token[0] in token && forall b :: b in token[1..] ==> b in token;
      SkipTokenOver(token[1..], rest);
      assert (token + rest)[1..] == token[1..] + rest;
    }
  }

  /** The digit loop of `decode_array_index_from_pointer`; it tests the upper bound on the first byte only. */
  function ScanIndex(pointer: bytes, position: nat, parsed: nat): (nat, nat)
    requires position <= |pointer|
    decreases |pointer| - position
  {
    if position < |pointer| && pointer[position] >= ZERO && pointer[0] <= NINE then
      ScanIndex(pointer, position + 1, (10 * parsed + (pointer[position] - ZERO)) % WORD)
    else
      (position, parsed)
  }

  function DecodeArrayIndex(pointer: bytes): Option<nat> {
    if |pointer| > 1 && pointer[0] == ZERO && pointer[1] != SLASH then None
    else
      var (position, parsed) := ScanIndex(pointer, 0, 0);
      if position <= |pointer| && AtBoundary(pointer[position..]) then Some(parsed) else None
  }

  lemma NumeralNext(digits: bytes, k: nat)
    requires AllDigits(digits) && k < |digits|
    ensures Numeral(digits[..k + 1]) == 10 * Numeral(digits[..k]) + (digits[k] - ZERO)
  {
    assert digits[..k + 1][..k] == digits[..k];
  }

  lemma WrapNext(a: nat, d: nat)
    ensures (10 * (a % WORD) + d) % WORD == (10 * a + d) % WORD
  {
    var q, r := a / WORD, a % WORD;
    assert 10 * a + d == 10 * q * WORD + (10 * r + d);
    WrapTimes(10 * q, 10 * r + d);
  }

  lemma WrapTimes(k: nat, x: nat)
    ensures (k * WORD + x) % WORD == x % WORD
  {
  }

  lemma {:induction false} ScanDigits(digits: bytes, rest: bytes, k: nat)
    requires AllDigits(digits) && digits != [] && AtBoundary(rest) && k <= |digits|
    ensures ScanIndex(digits + rest, k, Numeral(digits[..k]) % WORD) == (|digits|, Numeral(digits) % WORD)
    decreases |digits| - k
  {
    hide Numeral;
    var all := digits + rest;
    if k == |digits| {
      assert digits[..k] == digits;
      assert rest != [] ==> all[k] == rest[0];
    } else {
      assert all[k] == digits[k] && all[0] == digits[0] && IsDigit(digits[k]) && IsDigit(digits[0]);
      ScanDigits(digits, rest, k + 1);
      NumeralNext(digits, k);
      WrapNext(Numeral(digits[..k]), all[k] - ZERO);
    }
  }

  /** A numeral without further leading zeros is read as its value in a 32-bit word. */
  lemma DecodeNumeral(digits: bytes, rest: bytes)
    requires AllDigits(digits) && digits != [] && AtBoundary(rest) && (digits[0] == ZERO ==> |digits| == 1)
    ensures DecodeArrayIndex(digits + rest) == Some(Numeral(digits) % WORD)
  {
    assert Numeral(digits[..0]) == 0;
    hide Numeral, ScanIndex;
    assert digits[..0] == [];
    ScanDigits(digits, rest, 0);
    assert (digits + rest)[|digits|..] == rest;
    assert (digits + rest)[0] == digits[0] && IsDigit(digits[0]);
    if |digits| == 1 && rest != [] {
      assert (digits + rest)[1] == rest[0] == SLASH;
    }
  }

  /** Reading back the index that `%lu` wrote. */
  lemma DecodeDecimal(n: nat, rest: bytes)
    requires n < WORD && AtBoundary(rest)
    ensures DecodeArrayIndex(Decimal(n) + rest) == Some(n)
    ensures SLASH !in Decimal(n)
    ensures Decimal(n) != [MINUS]
  {
    DecimalRoundTrip(n);
    DecodeNumeral(Decimal(n), rest);
  }

  lemma {:induction false} ScanStops(pointer: bytes, k: nat, parsed: nat)
    requires k <= |pointer|
    ensures var q := ScanIndex(pointer, k, parsed).0;
            k <= q <= |pointer| && (forall i :: k <= i < q ==> pointer[i] >= ZERO) && (q > k ==> pointer[0] <= NINE) &&
            (q < |pointer| ==> pointer[q] < ZERO || pointer[0] > NINE)
    decreases |pointer| - k
  {
    if k < |pointer| && pointer[k] >= ZERO && pointer[0] <= NINE {
      ScanStops(pointer, k + 1, (10 * parsed + (pointer[k] - ZERO)) % WORD);
    }
  }

  /** The array indices of section 4 of RFC 6901. */
  predicate StandardIndex(token: bytes) {
    token != [] && AllDigits(token) && (token[0] == ZERO ==> |token| == 1)
  }

  /** A token is taken for an index exactly when it is one in the standard, or is empty, or starts with a digit other than
      zero and holds no byte below the digits: any byte above the digits passes behind the first, against the standard. */
  lemma IndexAccepted(token: bytes, rest: bytes)
    requires SLASH !in token && AtBoundary(rest)
    ensures DecodeArrayIndex(token + rest).Some? <==>
            StandardIndex(token) || token == [] || (ZERO < token[0] <= NINE && forall b :: b in token ==> b >= ZERO)
  {
    var p := token + rest;
    ScanStops(p, 0, 0);
    var q := ScanIndex(p, 0, 0).0;
    assert forall i :: 0 <= i < |token| ==> p[i] == token[i] && token[i] in token;
    assert rest != [] ==> p[|token|] == SLASH;
    assert q < |p| ==> p[q..][0] == p[q];
    if token != [] && token[0] <= NINE && forall b :: b in token ==> b >= ZERO {
      assert q == |token|;
    }
  }

  /** One such token: `1a` is taken for index 59. */
  lemma LetterIndex()
    ensures DecodeArrayIndex(Ascii("1a")) == Some(59) && !StandardIndex(Ascii("1a"))
  {
    var p := Ascii("1a");
    assert p == [49, 97];
    assert ScanIndex(p, 2, 59) == (2, 59) && ScanIndex(p, 1, 1) == (2, 59);
    assert p[2..] == [];
    assert !IsDigit(p[1]);
  }

  /** The child a token selects. */
  function Select(v: Json, token: bytes, caseSensitive: bool): (r: Option<nat>)
    ensures r.Some? ==> r.value < |Children(v)|
  {
    match v
    case Array(items) =>
      (match DecodeArrayIndex(token)
       case None => None
       case Some(i) => if i < |items| then Some(i) else None)
    case Object(members) =>
      var i := FindMatch(members, token, caseSensitive);
      if i < |members| then Some(i) else None
    case _ => None
  }

  function FindMatch(members: seq<Member>, token: bytes, caseSensitive: bool): (i: nat)
    ensures i <= |members|
    ensures i < |members| ==> ComparePointers(members[i].key, token, caseSensitive)
    ensures forall j :: 0 <= j < i ==> !ComparePointers(members[j].key, token, caseSensitive)
  {
    if members == [] then 0
    else if ComparePointers(members[0].key, token, caseSensitive) then 0
    else 1 + FindMatch(members[1..], token, caseSensitive)
  }

  /** `get_item_from_pointer`: the node a pointer leads to. Text that does not start a token ends the walk. */
  function Resolve(v: Json, pointer: bytes, caseSensitive: bool): (r: Option<Path>)
    ensures r.Some? ==> ValidPath(v, r.value)
    decreases |pointer|
  {
    if pointer == [] || pointer[0] != SLASH then Some([])
    else
      match Select(v, pointer[1..], caseSensitive)
      case None => None
      case Some(i) =>
        match Resolve(Children(v)[i], SkipToken(pointer[1..]), caseSensitive)
        case None => None
        case Some(p) => Some([i] + p)
  }

  // ----- writing a pointer

  /** The token that names child `i`. */
  function TokenOf(v: Json, i: nat): bytes
    requires i < |Children(v)|
  {
    match v
    case Array(_) => Decimal(i)
    case Object(members) => Encode(members[i].key)
  }

  function PointerTo(v: Json, p: Path): bytes
    requires ValidPath(v, p)
    decreases |p|
  {
    if p == [] then [] else [SLASH] + TokenOf(v, p[0]) + PointerTo(Children(v)[p[0]], p[1..])
  }

  lemma PointerToAtBoundary(v: Json, p: Path)
    requires ValidPath(v, p)
    ensures AtBoundary(PointerTo(v, p))
  {
  }

  /** `cJSONUtils_FindPointerFromObjectTo`: depth-first search for one node, building its pointer on the way back. */
  method FindPointer(v: Json, here: Path, target: Path) returns (r: Option<bytes>)
    ensures r.Some? <==> here <= target && ValidPath(v, target[|here|..])
    ensures r.Some? ==> r.value == PointerTo(v, target[|here|..])
    decreases v
  {
    if here == target {
      return Some([]);
    }
    if !v.Array? && !v.Object? {
      return None;
    }
    var children := Children(v);
    for i := 0 to |children|
      invariant here <= target ==> |here| < |target|
      invariant here <= target ==> !(target[|here|] < i && ValidPath(children[target[|here|]], target[|here| + 1..]))
    {
      assert children[i] < v;
      var found := FindPointer(children[i], here + [i], target);
      assert here + [i] <= target <==> here <= target && |here| < |target| && target[|here|] == i;
      if found.Some? {
        assert target[|here|..][1..] == target[|here + [i]|..];
        return Some([SLASH] + TokenOf(v, i) + found.value);
      }
    }
    assert here <= target ==> target[|here|..][1..] == target[|here| + 1..];
    return None;
  }

  // ----- the round trip

  /** No object holds two keys that this comparison mode takes for equal, and indices fit a machine word. */
  ghost predicate Unambiguous(v: Json, caseSensitive: bool) {
    match v
    case Array(items) => |items| <= WORD && forall i :: 0 <= i < |items| ==> Unambiguous(items[i], caseSensitive)
    case Object(members) =>
      && (forall i, j :: 0 <= i < j < |members| ==> Key(members[i].key, caseSensitive) != Key(members[j].key, caseSensitive))
      && (forall i :: 0 <= i < |members| ==> Unambiguous(members[i].value, caseSensitive))
    case _ => true
  }

  /** A child is selected by its own token, whatever pointer follows. */
  lemma SelectOwnToken(v: Json, i: nat, rest: bytes, caseSensitive: bool)
    requires Unambiguous(v, caseSensitive) && i < |Children(v)| && AtBoundary(rest)
    ensures Select(v, TokenOf(v, i) + rest, caseSensitive) == Some(i)
    ensures SkipToken(TokenOf(v, i) + rest) == rest
  {
    match v {
      case Array(items) =>
        DecodeDecimal(i, rest);
        SkipTokenOver(Decimal(i), rest);
      case Object(members) =>
        EncodeShape(members[i].key);
        SkipTokenOver(Encode(members[i].key), rest);
        forall j | 0 <= j < |members|
          ensures ComparePointers(members[j].key, TokenOf(v, i) + rest, caseSensitive) <==> j == i
        {
          CompareEncoded(members[j].key, members[i].key, rest, caseSensitive);
          if j < i {
            assert Key(members[j].key, caseSensitive) != Key(members[i].key, caseSensitive);
          } else if i < j {
            assert Key(members[i].key, caseSensitive) != Key(members[j].key, caseSensitive);
          }
        }
        assert FindMatch(members, TokenOf(v, i) + rest, caseSensitive) == i;
    }
  }

  lemma ResolveHere(v: Json, caseSensitive: bool)
    ensures Resolve(v, [], caseSensitive) == Some([])
  {
  }

  lemma ResolveStep(v: Json, token: bytes, i: nat, rest: bytes, q: Path, caseSensitive: bool)
    requires Select(v, token + rest, caseSensitive) == Some(i) && SkipToken(token + rest) == rest
    requires Resolve(Children(v)[i], rest, caseSensitive) == Some(q)
    ensures Resolve(v, [SLASH] + token + rest, caseSensitive) == Some([i] + q)
  {
    hide Select, SkipToken;
    var pointer := [SLASH] + token + rest;
    assert pointer[1..] == token + rest;
  }

  /** Following the pointer built for a node leads back to that node. */
  lemma {:induction false} PointerRoundTrip(v: Json, p: Path, caseSensitive: bool)
    requires Unambiguous(v, caseSensitive) && ValidPath(v, p)
    ensures Resolve(v, PointerTo(v, p), caseSensitive) == Some(p)
    decreases |p|
  {
    hide TokenOf, Select, SkipToken, Resolve;
    if p == [] {
      ResolveHere(v, caseSensitive);
    } else {
      var child := Children(v)[p[0]];
      var rest := PointerTo(child, p[1..]);
      PointerToAtBoundary(child, p[1..]);
      SelectOwnToken(v, p[0], rest, caseSensitive);
      assert Unambiguous(child, caseSensitive);
      PointerRoundTrip(child, p[1..], caseSensitive);
      ResolveStep(v, TokenOf(v, p[0]), p[0], rest, p[1..], caseSensitive);
      assert p == [p[0]] + p[1..];
    }
  }

  // ----- unescaping in place

  /** `decode_pointer_inplace` from read position `s` and write position `d`: it rewrites escapes but never
      moves an ordinary byte down, and stops untruncated at a bad escape. */
  function DecodeFrom(buffer: bytes, d: nat, s: nat): bytes
    requires d <= s <= |buffer|
    decreases |buffer| - s
  {
    if s == |buffer| then buffer[..d]
    else if buffer[s] != TILDE then DecodeFrom(buffer, d + 1, s + 1)
    else if s + 1 < |buffer| && buffer[s + 1] == ZERO then DecodeFrom(buffer[d := TILDE], d + 1, s + 2)
    else if s + 1 < |buffer| && buffer[s + 1] == ONE then DecodeFrom(buffer[d + 1 := SLASH], d + 1, s + 2)
    else buffer
  }

  function DecodeInPlace(text: bytes): bytes {
    DecodeFrom(text, 0, 0)
  }

  /** The text a NUL-terminated buffer holds, given where its NUL was put. */
  method DecodePointerInPlace(a: array<byte>) returns (length: nat)
    requires a.Length > 0 && a[a.Length - 1] == NUL
    requires forall i :: 0 <= i < a.Length - 1 ==> a[i] != NUL
    modifies a
    ensures length < a.Length && a[length] == NUL
    ensures a[..length] == DecodeInPlace(old(a[..a.Length - 1]))
  {
    var n := a.Length - 1;
    var d, s := 0, 0;
    while s < n
      invariant d <= s <= n
      invariant a[n] == NUL
      invariant DecodeFrom(a[..n], d, s) == DecodeInPlace(old(a[..n]))
    {
      if a[s] == TILDE {
        if a[s + 1] == ZERO {
          ghost var before := a[..n];
          a[d] := TILDE;
          assert a[..n] == before[d := TILDE];
        } else if a[s + 1] == ONE {
          ghost var before := a[..n];
          a[d + 1] := SLASH;
          assert a[..n] == before[d + 1 := SLASH];
        } else {
          return n;
        }
        s := s + 1;
      }
      d, s := d + 1, s + 1;
    }
    assert DecodeFrom(a[..n], d, s) == a[..n][..d];
    assert a[..n][..d] == a[..d];
    a[d] := NUL;
    return d;
  }

  /** A key whose name in a patch path comes back intact when the patch is applied. */
  predicate Survives(name: bytes) {
    DecodeInPlace(Encode(name)) == name
  }

  /** The names the in-place decoder gets right, told from the name and its escape alone: no '/', and every byte other
      than '~' stands in the escape where it stands in the name. */
  predicate HoldsStill(name: bytes) {
    SLASH !in name && forall i :: 0 <= i < |name| && name[i] != TILDE ==> Encode(name)[i] == name[i]
  }

  predicate EscapeFree(name: bytes) {
    TILDE !in name && SLASH !in name
  }

  lemma {:induction false} EncodeEscapeFree(name: bytes)
    requires EscapeFree(name)
    ensures Encode(name) == name
  {
    if name != [] {
      assert name[0] in name && forall b :: b in name[1..] ==> b in name;
      EncodeEscapeFree(name[1..]);
    }
  }

  lemma {:induction false} DecodePlain(buffer: bytes, s: nat)
    requires s <= |buffer| && forall i :: s <= i < |buffer| ==> buffer[i] != TILDE
    ensures DecodeFrom(buffer, s, s) == buffer
    decreases |buffer| - s
  {
    if s < |buffer| {
      DecodePlain(buffer, s + 1);
    } else {
      assert buffer[..s] == buffer;
    }
  }

  lemma EscapeFreeSurvives(name: bytes)
    requires EscapeFree(name)
    ensures Survives(name)
  {
    EncodeEscapeFree(name);
    DecodePlain(name, 0);
  }

  /** Decoding never changes a byte below the write position. */
  lemma {:induction false} DecodeKeepsBelow(buffer: bytes, d: nat, s: nat, i: nat)
    requires i < d <= s <= |buffer|
    ensures i < |DecodeFrom(buffer, d, s)| && DecodeFrom(buffer, d, s)[i] == buffer[i]
    decreases |buffer| - s
  {
    if s == |buffer| {
    } else if buffer[s] != TILDE {
      DecodeKeepsBelow(buffer, d + 1, s + 1, i);
    } else if s + 1 < |buffer| && buffer[s + 1] == ZERO {
      DecodeKeepsBelow(buffer[d := TILDE], d + 1, s + 2, i);
    } else if s + 1 < |buffer| && buffer[s + 1] == ONE {
      DecodeKeepsBelow(buffer[d + 1 := SLASH], d + 1, s + 2, i);
    }
  }

  /** A name containing '/' is never read back from its own escape. */
  lemma SlashNeverSurvives(name: bytes)
    requires SLASH in name
    ensures !Survives(name)
  {
    EncodeShape(name);
    DecodeMissesSlash(Encode(name), 0, 0, name);
  }

  lemma {:induction false} DecodeMissesSlash(buffer: bytes, d: nat, s: nat, name: bytes)
    requires d <= s <= |buffer| && d <= |name|
    requires buffer[s..] == Encode(name[d..])
    requires SLASH !in buffer && SLASH in name[d..]
    ensures DecodeFrom(buffer, d, s) != name
    decreases |buffer| - s
  {
    hide Encode, Escape;
    NextEscape(buffer, d, s, name);
    assert name[d..] == [name[d]] + name[d + 1..];
    if name[d] == SLASH {
      DecodeKeepsBelow(buffer[d + 1 := SLASH], d + 1, s + 2, d);
      assert buffer[d] in buffer;
    } else if name[d] == TILDE {
      var next := buffer[d := TILDE];
      assert next[s + 2..] == buffer[s + 2..];
      DecodeMissesSlash(next, d + 1, s + 2, name);
    } else {
      DecodeMissesSlash(buffer, d + 1, s + 1, name);
    }
  }

  /** From matching read and write positions on, the decoder produces the rest of a slash-free name exactly when the
      ordinary bytes of that rest are already in place. */
  lemma {:induction false} DecodeInPlaceOnly(buffer: bytes, d: nat, s: nat, name: bytes)
    requires d <= s <= |buffer| && d <= |name| && SLASH !in name
    requires buffer[s..] == Encode(name[d..]) && buffer[..d] == name[..d]
    ensures |name| <= |buffer|
    ensures DecodeFrom(buffer, d, s) == name <==> forall i :: d <= i < |name| && name[i] != TILDE ==> buffer[i] == name[i]
    decreases |name| - d
  {
    hide Encode, Escape;
    if d == |name| {
      EncodeNothing(name);
      assert name[..d] == name && buffer[s..] == [];
    } else {
      NextEscape(buffer, d, s, name);
      assert name[d] in name;
      if name[d] == TILDE {
        var next := buffer[d := TILDE];
        assert next[s + 2..] == buffer[s + 2..] && next[..d + 1] == name[..d + 1];
        DecodeInPlaceOnly(next, d + 1, s + 2, name);
      } else if buffer[d] == name[d] {
        assert buffer[..d + 1] == name[..d + 1];
        DecodeInPlaceOnly(buffer, d + 1, s + 1, name);
      } else {
        DecodeKeepsBelow(buffer, d + 1, s + 1, d);
      }
    }
  }

  lemma EncodeNothing(name: bytes)
    ensures Encode(name[|name|..]) == []
  {
  }

  /** What stands at the read position while a name is decoded. */
  lemma NextEscape(buffer: bytes, d: nat, s: nat, name: bytes)
    requires d <= s <= |buffer| && d < |name| && buffer[s..] == Encode(name[d..])
    ensures |name| <= |buffer| && s < |buffer|
    ensures if name[d] == TILDE
            then s + 2 <= |buffer| && buffer[s] == TILDE && buffer[s + 1] == ZERO && buffer[s + 2..] == Encode(name[d + 1..])
            else if name[d] == SLASH
            then s + 2 <= |buffer| && buffer[s] == TILDE && buffer[s + 1] == ONE && buffer[s + 2..] == Encode(name[d + 1..])
            else buffer[s] == name[d] && buffer[s + 1..] == Encode(name[d + 1..])
  {
    var e, rest := Escape(name[d]), Encode(name[d + 1..]);
    assert name[d..][1..] == name[d + 1..];
    assert buffer[s..] == e + rest;
    assert buffer[s..][0] == e[0] && buffer[s..][|e|..] == rest;
    assert |e| == 2 ==> buffer[s..][1] == e[1];
  }

  /** A name comes back from its own escape exactly when it has no '/' and its ordinary bytes hold still. */
  lemma SurvivesExactly(name: bytes)
    ensures Survives(name) <==> HoldsStill(name)
  {
    if SLASH in name {
      SlashNeverSurvives(name);
    } else {
      assert name[0..] == name && Encode(name)[0..] == Encode(name);
      DecodeInPlaceOnly(Encode(name), 0, 0, name);
    }
  }

  /** Names with a '~' fall on both sides. */
  lemma TildeEitherWay()
    ensures HoldsStill([TILDE]) && HoldsStill([TILDE, ZERO]) && !HoldsStill([TILDE, 97])
  {
    assert [TILDE, ZERO][1..] == [ZERO] && [ZERO][1..] == [] && [TILDE][1..] == [];
    assert [TILDE, 97][1..] == [97] && [97][1..] == [];
    assert Encode([ZERO]) == [ZERO] && Encode([97]) == [97];
    assert Encode([TILDE, ZERO]) == [TILDE, ZERO, ZERO] && Encode([TILDE, 97]) == [TILDE, ZERO, 97];
    assert [TILDE, 97][1] != Encode([TILDE, 97])[1];
  }
}
