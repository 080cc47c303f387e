/** JSON text: what the printer writes and what the parser makes of it (RFC 8259; strings: section 7). */
module JsonText {
  import opened Bytes
  import opened KeySort
  import opened JsonTree

  const NESTING_LIMIT := 1000

  const NULL_TEXT: bytes := [110, 117, 108, 108]
  const FALSE_TEXT: bytes := [102, 97, 108, 115, 101]
  const TRUE_TEXT: bytes := [116, 114, 117, 101]

  // ----- writing

  /** One lower-case hexadecimal digit. */
  function HexDigit(n: nat): byte
    requires n < 16
  {
    if n < 10 then ZERO + n else 87 + n
  }

  /** How `print_string_ptr` writes one byte of a string. */
  function EscapeByte(b: byte): bytes {
    if b > 31 && b != QUOTE && b != BACKSLASH then [b]
    else if b == BACKSLASH then [BACKSLASH, BACKSLASH]
    else if b == QUOTE then [BACKSLASH, QUOTE]
    else if b == 8 then [BACKSLASH, 98]
    else if b == 12 then [BACKSLASH, 102]
    else if b == 10 then [BACKSLASH, 110]
    else if b == 13 then [BACKSLASH, 114]
    else if b == 9 then [BACKSLASH, 116]
    else [BACKSLASH, 117, ZERO, ZERO, HexDigit(b / 16), HexDigit(b % 16)]
  }

  function EscapeString(s: bytes): bytes {
    if s == [] then [] else EscapeByte(s[0]) + EscapeString(s[1..])
  }

  function Quoted(s: bytes): bytes {
    [QUOTE] + EscapeString(s) + [QUOTE]
  }

  /** `%d` */
  function IntText(n: int): bytes {
    if n < 0 then [MINUS] + Decimal(-n) else Decimal(n)
  }

  function Tabs(n: nat): bytes {
    seq(n, _ => TAB)
  }

  /** The trees whose text is modelled: no Invalid item, ints only, and strings without NUL. */
  predicate Printable(v: Json)
    decreases v, 1
  {
    match v
    case Invalid => false
    case Number(d) => IntRange(d)
    case String(s) => NUL !in s
    case Array(items) => forall i :: 0 <= i < |items| ==> Printable(items[i])
    case Object(members) => PrintableMembers(members)
    case _ => true
  }

  predicate PrintableMembers(members: seq<Member>)
    decreases members, 0
  {
    forall i :: 0 <= i < |members| ==> NUL !in members[i].key && Printable(members[i].value)
  }

  /** `print_value` at a nesting depth, formatted or not. */
  function Text(v: Json, format: bool, depth: nat): bytes
    decreases v, 1
  {
    match v
    case Invalid => []
    case Null => NULL_TEXT
    case False => FALSE_TEXT
    case True => TRUE_TEXT
    case Number(d) => IntText(d.Floor)
    case String(s) => Quoted(s)
    case Array(items) => [LBRACKET] + ItemsText(items, format, depth + 1) + [RBRACKET]
    case Object(members) =>
      (if format then [LBRACE, NEWLINE] else [LBRACE]) + MembersText(members, format, depth + 1)
      + (if format then Tabs(depth) + [RBRACE] else [RBRACE])
  }

  function ItemsText(items: seq<Json>, format: bool, depth: nat): bytes
    decreases items, 0
  {
    if items == [] then []
    else
      Text(items[0], format, depth)
      + (if |items| == 1 then [] else if format then [COMMA, 32] else [COMMA])
      + ItemsText(items[1..], format, depth)
  }

  function MembersText(members: seq<Member>, format: bool, depth: nat): bytes
    decreases members, 0
  {
    if members == [] then []
    else MemberText(members[0], |members| > 1, format, depth) + MembersText(members[1..], format, depth)
  }

  /** One line of an object: indentation, key, value, and the separator that follows. */
  function MemberText(m: Member, more: bool, format: bool, depth: nat): bytes
    decreases m, 2
  {
    (if format then Tabs(depth) else []) + Quoted(m.key) + (if format then [COLON, TAB] else [COLON])
    + Text(m.value, format, depth)
    + (if more then [COMMA] else []) + (if format then [NEWLINE] else [])
  }

  // ----- reading: white space and strings

  /** `buffer_skip_whitespace` on the rest of the input: NUL counts as white space, but the last byte is never passed. */
  function Skip(r: bytes): (rest: bytes)
    ensures |rest| <= |r| && (r != [] ==> rest != [])
  {
    if r != [] && r[0] <= 32 && |r| > 1 then Skip(r[1..]) else r
  }

  /** The pre-scan of `parse_string`: where the closing quote is and how many escapes come before it. */
  function Scan(body: bytes): (r: Option<(nat, nat)>)
    ensures r.Some? ==> r.value.0 < |body| && body[r.value.0] == QUOTE
  {
    if body == [] then None
    else if body[0] == QUOTE then Some((0, 0))
    else if body[0] == BACKSLASH then
      if |body| < 2 then None
      else
        match Scan(body[2..])
        case None => None
        case Some((end, escapes)) => Some((end + 2, escapes + 1))
    else
      match Scan(body[1..])
      case None => None
      case Some((end, escapes)) => Some((end + 1, escapes))
  }

  function HexValue(b: byte): (r: Option<nat>)
    ensures r.Some? ==> r.value < 16
  {
    if 48 <= b <= 57 then Some(b - 48)
    else if 65 <= b <= 70 then Some(b - 55)
    else if 97 <= b <= 102 then Some(b - 87)
    else None
  }

  /** `parse_hex4`: zero when one of the four bytes is not a digit. */
  function Hex4(a: byte, b: byte, c: byte, d: byte): (h: nat)
    ensures h < 0x10000
  {
    match (HexValue(a), HexValue(b), HexValue(c), HexValue(d))
    case (Some(w), Some(x), Some(y), Some(z)) => ((w * 16 + x) * 16 + y) * 16 + z
    case _ => 0
  }

  /** The UTF-8 encoding of a code point (section 3 of RFC 3629). */
  function Utf8(cp: nat): (r: bytes)
    requires cp < 0x110000
    ensures 1 <= |r| <= 4
    ensures cp < 0x10000 ==> |r| <= 3
  {
    if cp < 0x80 then [cp]
    else if cp < 0x800 then [0xC0 + cp / 64, 0x80 + cp % 64]
    else if cp < 0x10000 then [0xE0 + cp / 4096, 0x80 + cp / 64 % 64, 0x80 + cp % 64]
    else [0xF0 + cp / 262144, 0x80 + cp / 4096 % 64, 0x80 + cp / 64 % 64, 0x80 + cp % 64]
  }

  /** `utf16_literal_to_utf8` on the content from a backslash up to and including the closing quote:
      the bytes produced and the input bytes used. */
  function Utf16Literal(c: bytes): (r: Option<(bytes, nat)>)
    ensures r.Some? ==> (r.value.1 == 6 && |r.value.0| <= 3 && |c| > 6) || (r.value.1 == 12 && |r.value.0| <= 4 && |c| > 12)
    ensures r.Some? ==> |r.value.0| >= 1
  {
    if |c| - 1 < 6 then None
    else
      var first := Hex4(c[2], c[3], c[4], c[5]);
      if 0xDC00 <= first <= 0xDFFF then None
      else if 0xD800 <= first <= 0xDBFF then
        if |c| - 1 < 12 || c[6] != BACKSLASH || c[7] != 117 then None
        else
          var second := Hex4(c[8], c[9], c[10], c[11]);
          if second < 0xDC00 || second > 0xDFFF then None
          else Some((Utf8(0x10000 + first % 1024 * 1024 + second % 1024), 12))
      else Some((Utf8(first), 6))
  }

  /** The byte a one-letter escape stands for. */
  function Unescaped(c: byte): Option<byte> {
    if c == 98 then Some(8)
    else if c == 102 then Some(12)
    else if c == 110 then Some(10)
    else if c == 114 then Some(13)
    else if c == 116 then Some(9)
    else if c == QUOTE || c == BACKSLASH || c == SLASH then Some(c)
    else None
  }

  /** The second pass of `parse_string` over the content and its closing quote. */
  function Unescape(c: bytes): Option<bytes>
    decreases |c|
  {
    if |c| <= 1 then Some([])
    else if c[0] != BACKSLASH then Prepend([c[0]], Unescape(c[1..]))
    else if c[1] == 117 then
      match Utf16Literal(c)
      case None => None
      case Some((out, used)) => Prepend(out, Unescape(c[used..]))
    else
      match Unescaped(c[1])
      case None => None
      case Some(b) => Prepend([b], Unescape(c[2..]))
  }

  function Prepend(front: bytes, rest: Option<bytes>): Option<bytes> {
    match rest
    case None => None
    case Some(r) => Some(front + r)
  }

  /** What C code sees of a buffer: the bytes before the first NUL. */
  function CString(s: bytes): bytes {
    if s == [] || s[0] == NUL then [] else [s[0]] + CString(s[1..])
  }

  /** `parse_string`: the string and the rest of the input. */
  function ParseString(r: bytes): (p: Option<(bytes, bytes)>)
    ensures p.Some? ==> |p.value.1| < |r|
  {
    if r == [] || r[0] != QUOTE then None
    else
      match Scan(r[1..])
      case None => None
      case Some((end, _)) =>
        match Unescape(r[1..][..end + 1])
        case None => None
        case Some(s) => Some((CString(s), r[1..][end + 1..]))
  }

  // ----- reading: numbers

  predicate NumberByte(b: byte) {
    IsDigit(b) || b == PLUS || b == MINUS || b == 101 || b == 69 || b == DOT
  }

  /** The bytes copied to the 63-byte number buffer. */
  function NumberRun(r: bytes, room: nat): (n: nat)
    ensures n <= |r| && n <= room
  {
    if r == [] || room == 0 || !NumberByte(r[0]) then 0 else 1 + NumberRun(r[1..], room - 1)
  }

  function DigitRun(r: bytes): (n: nat)
    ensures n <= |r| && AllDigits(r[..n])
    ensures n < |r| ==> !IsDigit(r[n])
  {
    if r == [] || !IsDigit(r[0]) then 0 else 1 + DigitRun(r[1..])
  }

  function Pow10(e: int): real
    decreases if e < 0 then -e else e
  {
    if e == 0 then 1.0 else if e > 0 then 10.0 * Pow10(e - 1) else Pow10(e + 1) / 10.0
  }

  function Scaled(n: int, e: int): real {
    n as real * Pow10(e)
  }

  /** The exponent after a mantissa: its value and length, both zero when it is missing or incomplete. */
  function Exponent(t: bytes): (r: (int, nat))
    ensures r.1 <= |t|
  {
    if t == [] || !(t[0] == 101 || t[0] == 69) then (0, 0)
    else
      var sign := if |t| > 1 && (t[1] == PLUS || t[1] == MINUS) then 1 else 0;
      var n := DigitRun(t[1 + sign..]);
      if n == 0 then (0, 0)
      else
        var value := Numeral(t[1 + sign..][..n]);
        (if sign == 1 && t[1] == MINUS then -value else value, 1 + sign + n)
  }

  /** `strtod` on digits, signs, points and exponent letters, without rounding: value and bytes used. */
  function Strtod(t: bytes): (r: (real, nat))
    ensures r.1 <= |t|
  {
    var sign := if t != [] && (t[0] == PLUS || t[0] == MINUS) then 1 else 0;
    var whole := DigitRun(t[sign..]);
    var point := if sign + whole < |t| && t[sign + whole] == DOT then 1 else 0;
    var fraction := if point == 1 then DigitRun(t[sign + whole + 1..]) else 0;
    if whole + fraction == 0 then (0.0, 0)
    else
      var used := sign + whole + point + fraction;
      var digits := t[sign..][..whole] + (if point == 1 then t[sign + whole + 1..][..fraction] else []);
      var (e, n) := Exponent(t[used..]);
      var value := Scaled(Numeral(digits), e - fraction);
      (if sign == 1 && t[0] == MINUS then -value else value, used + n)
  }

  /** `parse_number` */
  function ParseNumber(r: bytes): (p: Option<(Json, bytes)>)
    ensures p.Some? ==> |p.value.1| < |r|
  {
    var (value, used) := Strtod(r[..NumberRun(r, 63)]);
    if used == 0 then None else Some((Number(value), r[used..]))
  }

  // ----- reading: values

  predicate StartsWith(r: bytes, text: bytes) {
    |text| <= |r| && r[..|text|] == text
  }

  /** `parse_value` inside `depth` arrays and objects: the value and the rest of the input. */
  function ParseValue(r: bytes, depth: nat): (p: Option<(Json, bytes)>)
    ensures p.Some? ==> |p.value.1| < |r|
    decreases |r|, 1
  {
    if StartsWith(r, NULL_TEXT) then Some((Null, r[4..]))
    else if StartsWith(r, FALSE_TEXT) then Some((False, r[5..]))
    else if StartsWith(r, TRUE_TEXT) then Some((True, r[4..]))
    else if r == [] then None
    else if r[0] == QUOTE then
      match ParseString(r)
      case None => None
      case Some((s, rest)) => Some((String(s), rest))
    else if r[0] == MINUS || IsDigit(r[0]) then ParseNumber(r)
    else if r[0] == LBRACKET then
      if depth >= NESTING_LIMIT then None
      else
        var inside := Skip(r[1..]);
        if inside != [] && inside[0] == RBRACKET then Some((Array([]), inside[1..]))
        else
          match ParseItems(inside, depth + 1)
          case None => None
          case Some((items, rest)) => Some((Array(items), rest))
    else if r[0] == LBRACE then
      if depth >= NESTING_LIMIT then None
      else
        var inside := Skip(r[1..]);
        if inside != [] && inside[0] == RBRACE then Some((Object([]), inside[1..]))
        else
          match ParseMembers(inside, depth + 1)
          case None => None
          case Some((members, rest)) => Some((Object(members), rest))
    else None
  }

  /** The element loop of `parse_array`, from the start of an element. */
  function ParseItems(r: bytes, depth: nat): (p: Option<(seq<Json>, bytes)>)
    ensures p.Some? ==> |p.value.1| < |r|
    decreases |r|, 2
  {
    match ParseValue(Skip(r), depth)
    case None => None
    case Some((v, after)) =>
      var rest := Skip(after);
      if rest != [] && rest[0] == COMMA then
        match ParseItems(rest[1..], depth)
        case None => None
        case Some((items, end)) => Some(([v] + items, end))
      else if rest != [] && rest[0] == RBRACKET then Some(([v], rest[1..]))
      else None
  }

  /** One `"name" : value` of `parse_object`. */
  function ParseMember(r: bytes, depth: nat): (p: Option<(Member, bytes)>)
    ensures p.Some? ==> |p.value.1| < |r|
    decreases |r|, 2
  {
    match ParseString(Skip(r))
    case None => None
    case Some((key, after)) =>
      var colon := Skip(after);
      if colon == [] || colon[0] != COLON then None
      else
        match ParseValue(Skip(colon[1..]), depth)
        case None => None
        case Some((v, rest)) => Some((Keyed(key, v), rest))
  }

  /** The member loop of `parse_object`. */
  function ParseMembers(r: bytes, depth: nat): (p: Option<(seq<Member>, bytes)>)
    ensures p.Some? ==> |p.value.1| < |r|
    decreases |r|, 3
  {
    match ParseMember(r, depth)
    case None => None
    case Some((m, after)) =>
      var rest := Skip(after);
      if rest != [] && rest[0] == COMMA then
        match ParseMembers(rest[1..], depth)
        case None => None
        case Some((members, end)) => Some(([m] + members, end))
      else if rest != [] && rest[0] == RBRACE then Some(([m], rest[1..]))
      else None
  }

  const BOM: bytes := [0xEF, 0xBB, 0xBF]

  /** `cJSON_ParseWithOpts` on a NUL-free text: a terminator is added, a byte order mark skipped. */
  function Parse(text: bytes, requireEnd: bool): Option<Json> {
    var buffer := text + [NUL];
    var start := if |buffer| > 4 && StartsWith(buffer, BOM) then buffer[3..] else buffer;
    match ParseValue(Skip(start), 0)
    case None => None
    case Some((v, rest)) =>
      if requireEnd && (Skip(rest) == [] || Skip(rest)[0] != NUL) then None else Some(v)
  }
}
