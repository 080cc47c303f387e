/** The tokens of JSON text as sections 2, 6 and 7 of RFC 8259 spell them, and what the parser makes of them. */
module JsonTokens {
  import opened Bytes
  import opened JsonTree
  import opened JsonText

  // ----- white space

  /** The parser takes every control byte for white space. */
  predicate Blank(s: bytes) {
    forall i :: 0 <= i < |s| ==> s[i] <= 32
  }

  lemma {:induction false} SkipBlank(s: bytes, r: bytes)
    requires Blank(s) && r != [] && r[0] > 32
    ensures Skip(s + r) == r
  {
    if s == [] {
      assert s + r == r;
    } else {
      SkipBlank(s[1..], r);
      assert (s + r)[1..] == s[1..] + r;
    }
  }

  /** What is skipped is blank. */
  lemma {:induction false} SkippedIsBlank(r: bytes)
    ensures Blank(r[..|r| - |Skip(r)|]) && r[|r| - |Skip(r)|..] == Skip(r)
    ensures |r| > 0 ==> Skip(r)[0] > 32 || |Skip(r)| == 1
  {
    if r != [] && r[0] <= 32 && |r| > 1 {
      SkippedIsBlank(r[1..]);
      var k := |r[1..]| - |Skip(r[1..])|;
      assert r[..k + 1] == [r[0]] + r[1..][..k];
    } else {
      assert r[..0] == [] && r[0..] == r;
    }
  }

  // ----- hexadecimal digits

  /** The digits in both cases, by value. */
  lemma HexDigits(b: byte, n: nat)
    ensures HexValue(b) == Some(n) <==> n < 16 && (b == Ascii("0123456789abcdef")[n] || b == Ascii("0123456789ABCDEF")[n])
  {
  }

  /** Four hexadecimal digits. */
  predicate FourDigits(ds: bytes) {
    |ds| == 4 && forall i :: 0 <= i < 4 ==> HexValue(ds[i]).Some?
  }

  /** The code unit four digits stand for. */
  function Unit(ds: bytes): (u: nat)
    requires FourDigits(ds)
    ensures u < 0x10000
  {
    4096 * HexValue(ds[0]).value + 256 * HexValue(ds[1]).value + 16 * HexValue(ds[2]).value + HexValue(ds[3]).value
  }

  lemma Hex4Unit(ds: bytes)
    requires FourDigits(ds)
    ensures Hex4(ds[0], ds[1], ds[2], ds[3]) == Unit(ds)
  {
    hide HexValue;
  }

  // ----- characters of a string

  /** How one character of a string is written: as itself, with one of the eight short escapes, as a UTF-16 code unit,
      or as a surrogate pair. */
  datatype Char = Plain(b: byte) | Short(letter: byte) | Unicode(digits: bytes) | Surrogates(high: bytes, low: bytes)

  /** The eight short escapes. */
  predicate ShortEscape(letter: byte, b: byte) {
    (letter as char, b) in {
      ('\"', 0x22), ('\\', 0x5C), ('/', 0x2F), ('b', 0x08), ('f', 0x0C), ('n', 0x0A), ('r', 0x0D), ('t', 0x09)
    }
  }

  lemma ShortEscapes(letter: byte, b: byte)
    ensures Unescaped(letter) == Some(b) <==> ShortEscape(letter, b)
  {
  }

  predicate Spellable(c: Char) {
    match c
    case Plain(b) => b != QUOTE && b != BACKSLASH
    case Short(letter) => Unescaped(letter).Some?
    case Unicode(ds) => FourDigits(ds) && !(0xD800 <= Unit(ds) < 0xE000)
    case Surrogates(h, l) => FourDigits(h) && FourDigits(l) && 0xD800 <= Unit(h) < 0xDC00 <= Unit(l) < 0xE000
  }

  function HexText(ds: bytes): bytes {
    [BACKSLASH, 117] + ds
  }

  function Spelled(c: Char): (r: bytes)
    ensures |r| > 0
  {
    match c
    case Plain(b) => [b]
    case Short(letter) => [BACKSLASH, letter]
    case Unicode(ds) => HexText(ds)
    case Surrogates(h, l) => HexText(h) + HexText(l)
  }

  /** The bytes a character stands for. */
  function Content(c: Char): bytes
    requires Spellable(c)
  {
    match c
    case Plain(b) => [b]
    case Short(letter) => [Unescaped(letter).value]
    case Unicode(ds) => Utf8(Unit(ds))
    case Surrogates(h, l) => Utf8(0x10000 + (Unit(h) - 0xD800) * 1024 + (Unit(l) - 0xDC00))
  }

  function SpelledAll(cs: seq<Char>): bytes {
    if cs == [] then [] else Spelled(cs[0]) + SpelledAll(cs[1..])
  }

  predicate AllSpellable(cs: seq<Char>) {
    forall i :: 0 <= i < |cs| ==> Spellable(cs[i])
  }

  function ContentAll(cs: seq<Char>): bytes
    requires AllSpellable(cs)
  {
    if cs == [] then [] else Content(cs[0]) + ContentAll(cs[1..])
  }

  lemma {:induction false} ScanPlain(p: bytes, rest: bytes)
    requires Scan(rest).Some? && forall i :: 0 <= i < |p| ==> p[i] != QUOTE && p[i] != BACKSLASH
    ensures Scan(p + rest).Some? && Scan(p + rest).value.0 == |p| + Scan(rest).value.0
  {
    if p == [] {
      assert p + rest == rest;
    } else {
      ScanPlain(p[1..], rest);
      assert (p + rest)[1..] == p[1..] + rest;
    }
  }

  lemma ScanHex(ds: bytes, rest: bytes)
    requires FourDigits(ds) && Scan(rest).Some?
    ensures Scan(HexText(ds) + rest).Some? && Scan(HexText(ds) + rest).value.0 == |HexText(ds)| + Scan(rest).value.0
  {
    ScanPlain(ds, rest);
    assert (HexText(ds) + rest)[2..] == ds + rest;
  }

  /** A written character does not end the string and does not disturb what follows. */
  lemma ScanChar(c: Char, rest: bytes)
    requires Spellable(c) && Scan(rest).Some?
    ensures Scan(Spelled(c) + rest).Some? && Scan(Spelled(c) + rest).value.0 == |Spelled(c)| + Scan(rest).value.0
  {
    match c {
      case Plain(b) => ScanPlain([b], rest);
      case Short(letter) => ScanShort(letter, rest);
      case Unicode(ds) => ScanHex(ds, rest);
      case Surrogates(h, l) =>
        hide Scan, FourDigits;
        ScanHex(l, rest);
        ScanHex(h, HexText(l) + rest);
        assert HexText(h) + (HexText(l) + rest) == HexText(h) + HexText(l) + rest;
    }
  }

  lemma ScanShort(letter: byte, rest: bytes)
    requires Scan(rest).Some?
    ensures Scan([BACKSLASH, letter] + rest).Some? && Scan([BACKSLASH, letter] + rest).value.0 == 2 + Scan(rest).value.0
  {
    assert ([BACKSLASH, letter] + rest)[2..] == rest;
  }

  lemma LiteralUnit(ds: bytes, rest: bytes)
    requires FourDigits(ds) && !(0xD800 <= Unit(ds) < 0xE000) && rest != []
    ensures Utf16Literal(HexText(ds) + rest) == Some((Utf8(Unit(ds)), 6))
  {
    var c := HexText(ds) + rest;
    assert c[2] == ds[0] && c[3] == ds[1] && c[4] == ds[2] && c[5] == ds[3];
    hide Utf8, Hex4, HexValue, Unit;
    Hex4Unit(ds);
  }

  lemma LiteralPair(h: bytes, l: bytes, rest: bytes)
    requires FourDigits(h) && FourDigits(l) && 0xD800 <= Unit(h) < 0xDC00 <= Unit(l) < 0xE000 && rest != []
    ensures Utf16Literal(HexText(h) + HexText(l) + rest)
            == Some((Utf8(0x10000 + (Unit(h) - 0xD800) * 1024 + (Unit(l) - 0xDC00)), 12))
  {
    PairBytes(h, l, rest);
    hide Utf8, Hex4, HexValue, Unit, FourDigits;
    var c := HexText(h) + HexText(l) + rest;
    Hex4Unit(h);
    Hex4Unit(l);
    SurrogateBits(Unit(h), Unit(l));
  }

  lemma PairBytes(h: bytes, l: bytes, rest: bytes)
    requires |h| == |l| == 4
    ensures var c := HexText(h) + HexText(l) + rest;
            |c| == 12 + |rest| && c[6] == BACKSLASH && c[7] == 117 &&
            c[2] == h[0] && c[3] == h[1] && c[4] == h[2] && c[5] == h[3] &&
            c[8] == l[0] && c[9] == l[1] && c[10] == l[2] && c[11] == l[3]
  {
  }

  lemma SurrogateBits(u: nat, v: nat)
    requires 0xD800 <= u < 0xDC00 <= v < 0xE000
    ensures u % 1024 * 1024 == (u - 0xD800) * 1024 && v % 1024 == v - 0xDC00
  {
  }

  /** A `\u` escape is refused exactly when it is half of a surrogate pair without the other half. Four bytes that are
      not all digits pass for U+0000. */
  lemma EscapeAccepted(ds: bytes, rest: bytes)
    requires |ds| == 4 && rest != []
    ensures !FourDigits(ds) ==> Utf16Literal(HexText(ds) + rest) == Some(([0], 6))
    ensures FourDigits(ds) && 0xDC00 <= Unit(ds) < 0xE000 ==> Utf16Literal(HexText(ds) + rest) == None
    ensures FourDigits(ds) && 0xD800 <= Unit(ds) < 0xDC00 ==>
              (Utf16Literal(HexText(ds) + rest).Some? <==> LowHalf(rest))
  {
    var c := HexText(ds) + rest;
    assert c[2] == ds[0] && c[3] == ds[1] && c[4] == ds[2] && c[5] == ds[3];
    assert forall i :: 0 <= i < |rest| ==> c[6 + i] == rest[i];
    HexOrZero(ds);
    if |rest| > 6 {
      HexOrZero(rest[2..6]);
    }
    hide Unit, HexValue, Hex4, FourDigits;
  }

  /** The rest starts with the escape of a low surrogate, and goes on. */
  predicate LowHalf(rest: bytes) {
    |rest| > 6 && rest[0] == BACKSLASH && rest[1] == 117 && FourDigits(rest[2..6]) && 0xDC00 <= Unit(rest[2..6]) < 0xE000
  }

  lemma HexOrZero(ds: bytes)
    requires |ds| == 4
    ensures Hex4(ds[0], ds[1], ds[2], ds[3]) == if FourDigits(ds) then Unit(ds) else 0
  {
    hide HexValue;
  }

  /** Reading one written character, whatever follows. */
  lemma UnescapeChar(c: Char, rest: bytes)
    requires Spellable(c) && rest != []
    ensures Unescape(Spelled(c) + rest) == Prepend(Content(c), Unescape(rest))
  {
    hide Unescape, Utf16Literal, Utf8, Unit, HexValue;
    match c {
      case Plain(b) => PlainRead(b, rest);
      case Short(letter) => ShortRead(letter, rest);
      case Unicode(ds) =>
        LiteralUnit(ds, rest);
        Beyond(HexText(ds) + rest, 0, HexText(ds), rest);
        UnescapeLiteral(HexText(ds) + rest, Utf8(Unit(ds)), 6, rest);
      case Surrogates(h, l) =>
        LiteralPair(h, l, rest);
        Beyond(HexText(h) + HexText(l) + rest, 0, HexText(h) + HexText(l), rest);
        UnescapeLiteral(HexText(h) + HexText(l) + rest, Content(c), 12, rest);
    }
  }

  lemma PlainRead(b: byte, rest: bytes)
    requires b != BACKSLASH && rest != []
    ensures Unescape([b] + rest) == Prepend([b], Unescape(rest))
  {
    assert ([b] + rest)[1..] == rest;
  }

  lemma ShortRead(letter: byte, rest: bytes)
    requires Unescaped(letter).Some? && rest != []
    ensures Unescape([BACKSLASH, letter] + rest) == Prepend([Unescaped(letter).value], Unescape(rest))
  {
    assert ([BACKSLASH, letter] + rest)[2..] == rest;
  }

  lemma UnescapeLiteral(t: bytes, out: bytes, used: nat, rest: bytes)
    requires |t| > used > 1 && t[0] == BACKSLASH && t[1] == 117 && t[used..] == rest && Utf16Literal(t) == Some((out, used))
    ensures Unescape(t) == Prepend(out, Unescape(rest))
  {
    hide Utf16Literal;
  }

  lemma {:induction false} CharsScanned(cs: seq<Char>, post: bytes)
    requires AllSpellable(cs)
    ensures var t := SpelledAll(cs) + ([QUOTE] + post); Scan(t).Some? && Scan(t).value.0 == |SpelledAll(cs)|
  {
    if cs == [] {
      assert SpelledAll(cs) + ([QUOTE] + post) == [QUOTE] + post;
    } else {
      hide Spelled, Spellable, Scan;
      CharsScanned(cs[1..], post);
      var rest := SpelledAll(cs[1..]) + ([QUOTE] + post);
      ScanChar(cs[0], rest);
      assert SpelledAll(cs) + ([QUOTE] + post) == Spelled(cs[0]) + rest;
    }
  }

  lemma {:induction false} CharsUnescaped(cs: seq<Char>)
    requires AllSpellable(cs)
    ensures Unescape(SpelledAll(cs) + [QUOTE]) == Some(ContentAll(cs))
  {
    if cs == [] {
      assert SpelledAll(cs) + [QUOTE] == [QUOTE];
    } else {
      hide Spelled, Content, Spellable, Unescape;
      CharsUnescaped(cs[1..]);
      var rest := SpelledAll(cs[1..]) + [QUOTE];
      UnescapeChar(cs[0], rest);
      assert SpelledAll(cs) + [QUOTE] == Spelled(cs[0]) + rest;
    }
  }

  /** A string in any spelling is read as its content up to the first NUL, and reading stops right behind it. */
  lemma StringToken(cs: seq<Char>, post: bytes)
    requires AllSpellable(cs)
    ensures ParseString([QUOTE] + SpelledAll(cs) + [QUOTE] + post) == Some((CString(ContentAll(cs)), post))
  {
    hide Scan, Unescape, SpelledAll, ContentAll;
    var e := SpelledAll(cs);
    var r := [QUOTE] + e + [QUOTE] + post;
    assert r[1..] == e + ([QUOTE] + post);
    CharsScanned(cs, post);
    CharsUnescaped(cs);
    assert r[1..][..|e| + 1] == e + [QUOTE];
    assert r[1..][|e| + 1..] == post;
  }

  /** C code sees the content up to its first NUL. */
  lemma {:induction false} StopsAtNul(s: bytes)
    ensures var n := |CString(s)|; n <= |s| && CString(s) == s[..n] && NUL !in s[..n] && (n < |s| ==> s[n] == 0)
  {
    if s != [] && s[0] != NUL {
      StopsAtNul(s[1..]);
      var n := |CString(s[1..])|;
      assert s[..n + 1] == [s[0]] + s[1..][..n];
    }
  }

  // ----- a string as the parser takes it

  /** The bytes from quote to quote that the parser takes for this content. */
  ghost predicate StringText(raw: bytes, content: bytes) {
    ParseString(raw) == Some((content, []))
  }

  lemma {:induction false} ScanLocal(body: bytes, post: bytes)
    requires Scan(body).Some?
    ensures Scan(body + post) == Scan(body) && Scan(body[..Scan(body).value.0 + 1]) == Scan(body)
    decreases |body|
  {
    if body[0] != QUOTE {
      var k := if body[0] == BACKSLASH then 2 else 1;
      var end := Scan(body[k..]).value.0;
      ScanLocal(body[k..], post);
      assert (body + post)[k..] == body[k..] + post;
      SliceTwice(body, k, end + 1);
    }
  }

  lemma SliceTwice(s: bytes, k: nat, n: nat)
    requires k + n <= |s|
    ensures s[..k + n][k..] == s[k..][..n] && |s[..k + n]| == k + n
  {
  }

  /** What follows a string makes no difference to it. */
  lemma StringLocal(r: bytes, post: bytes)
    requires ParseString(r).Some?
    ensures var (content, rest) := ParseString(r).value;
            ParseString(r + post) == Some((content, rest + post)) && |rest| < |r| &&
            StringText(r[..|r| - |rest|], content) && r == r[..|r| - |rest|] + rest &&
            |r| - |rest| >= 2 && r[0] == QUOTE && r[|r| - |rest| - 1] == QUOTE
  {
    hide Scan, Unescape;
    var body := r[1..];
    ScanLocal(body, post);
    var end := Scan(body).value.0;
    var rest := body[end + 1..];
    var raw := r[..|r| - |rest|];
    assert (r + post)[1..] == body + post;
    assert (body + post)[..end + 1] == body[..end + 1] && (body + post)[end + 1..] == rest + post;
    assert raw[1..] == body[..end + 1];
    assert raw[1..][..end + 1] == body[..end + 1] && raw[1..][end + 1..] == [];
  }

  // ----- numbers

  /** A number: a sign, digits, perhaps a fraction, perhaps an exponent. The standard forbids further leading zeros; the
      parser does not mind them. */
  datatype Figure = Figure(minus: bool, whole: bytes, fraction: bytes, power: Option<Power>)

  datatype Power = Power(mark: byte, sign: Option<byte>, digits: bytes)

  predicate PowerShape(p: Power) {
    (p.mark as char == 'e' || p.mark as char == 'E') && p.digits != [] && AllDigits(p.digits) &&
    (p.sign.Some? ==> p.sign.value as char == '+' || p.sign.value as char == '-')
  }

  predicate FigureShape(f: Figure) {
    f.whole != [] && AllDigits(f.whole) && AllDigits(f.fraction) && (f.power.Some? ==> PowerShape(f.power.value))
  }

  function PowerText(p: Option<Power>): bytes {
    match p
    case None => []
    case Some(q) => [q.mark] + (if q.sign.Some? then [q.sign.value] else []) + q.digits
  }

  function FractionText(f: Figure): bytes {
    if f.fraction == [] then [] else Ascii(".") + f.fraction
  }

  function FigureText(f: Figure): bytes {
    (if f.minus then Ascii("-") else []) + f.whole + FractionText(f) + PowerText(f.power)
  }

  function PowerValue(p: Option<Power>): int
    requires p.Some? ==> PowerShape(p.value)
  {
    match p
    case None => 0
    case Some(q) => if q.sign.Some? && q.sign.value as char == '-' then -Numeral(q.digits) else Numeral(q.digits)
  }

  /** The value of a number: its digits as one numeral, scaled by the exponent and the length of the fraction. */
  function FigureValue(f: Figure): real
    requires FigureShape(f)
  {
    var magnitude := Scaled(Numeral(f.whole + f.fraction), PowerValue(f.power) - |f.fraction|);
    if f.minus then -magnitude else magnitude
  }

  lemma PowersOfTen(e: int)
    ensures Pow10(0) == 1.0 && Pow10(e + 1) == 10.0 * Pow10(e)
  {
  }

  lemma {:induction false} RunOfDigits(d: bytes, rest: bytes)
    requires AllDigits(d) && (rest != [] ==> !IsDigit(rest[0]))
    ensures DigitRun(d + rest) == |d|
  {
    if d == [] {
      assert d + rest == rest;
    } else {
      RunOfDigits(d[1..], rest);
      assert (d + rest)[1..] == d[1..] + rest;
    }
  }

  lemma PowerRead(p: Option<Power>)
    requires p.Some? ==> PowerShape(p.value)
    ensures Exponent(PowerText(p)) == (PowerValue(p), |PowerText(p)|)
    ensures PowerText(p) != [] ==> !IsDigit(PowerText(p)[0]) && PowerText(p)[0] != DOT
  {
    hide Numeral, DigitRun;
    if p.Some? {
      var q, t := p.value, PowerText(p);
      RunOfDigits(q.digits, []);
      assert q.digits + [] == q.digits;
      var k := if q.sign.Some? then 1 else 0;
      assert t[1 + k..] == q.digits;
      assert q.digits[..|q.digits|] == q.digits;
      assert k == 1 ==> t[1] == q.sign.value;
      assert k == 0 ==> t[1] == q.digits[0] && IsDigit(q.digits[0]);
    }
  }

  function SignText(f: Figure): bytes {
    if f.minus then [MINUS] else []
  }

  lemma FourParts(a: bytes, b: bytes, c: bytes, d: bytes)
    ensures var t := a + b + c + d;
            |t| == |a| + |b| + |c| + |d| && t[|a|..] == b + (c + d) && t[|a|..][..|b|] == b &&
            t[|a| + |b|..] == c + d && t[|a| + |b| + |c|..] == d
  {
  }

  /** The digits in front of the point, and what follows them. */
  lemma WholeRead(f: Figure)
    requires FigureShape(f)
    ensures var t, s, w := FigureText(f), |SignText(f)|, |f.whole|;
            var rest := FractionText(f) + PowerText(f.power);
            && |t| == s + w + |rest| && t[s..] == f.whole + rest && t[s..][..w] == f.whole && t[s + w..] == rest
            && DigitRun(t[s..]) == w && (t[0] == MINUS <==> f.minus) && t[0] != PLUS && s == if f.minus then 1 else 0
  {
    hide PowerText, DigitRun, FractionText;
    PowerRead(f.power);
    FractionIs(f);
    var t, rest := FigureText(f), FractionText(f) + PowerText(f.power);
    assert t == SignText(f) + f.whole + FractionText(f) + PowerText(f.power);
    FourParts(SignText(f), f.whole, FractionText(f), PowerText(f.power));
    assert IsDigit(f.whole[0]) && t[|SignText(f)|] == t[|SignText(f)|..][0] == f.whole[0];
    assert rest != [] ==> !IsDigit(rest[0]);
    hide FigureText;
    RunOfDigits(f.whole, rest);
  }

  /** The digits behind the point. */
  lemma FractionRead(f: Figure, t: bytes, k: nat)
    requires FigureShape(f) && k <= |t| && t[k..] == FractionText(f) + PowerText(f.power)
    ensures var n, p := |f.fraction|, if f.fraction == [] then 0 else 1;
            && (k < |t| && t[k] == DOT <==> n > 0)
            && (n > 0 ==> DigitRun(t[k + 1..]) == n && t[k + 1..][..n] == f.fraction)
            && |t| == k + p + n + |PowerText(f.power)| && t[k + p + n..] == PowerText(f.power)
  {
    hide *;
    var power := PowerText(f.power);
    ShapeOfPower(f);
    PowerRead(f.power);
    FractionIs(f);
    if f.fraction == [] {
      NoDotRead(power, t, k);
    } else {
      Reassociated([DOT], f.fraction, power);
      DotRead(f.fraction, power, t, k);
    }
  }

  lemma NoDotRead(power: bytes, t: bytes, k: nat)
    requires k <= |t| && t[k..] == [] + power && (power != [] ==> power[0] != DOT)
    ensures |t| == k + |power| && t[k..] == power && (k < |t| ==> t[k] != DOT)
  {
    assert k < |t| ==> t[k] == t[k..][0];
  }

  lemma Reassociated(a: bytes, b: bytes, c: bytes)
    ensures a + b + c == a + (b + c)
  {
  }

  lemma DotRead(d: bytes, power: bytes, t: bytes, k: nat)
    requires d != [] && AllDigits(d) && (power != [] ==> !IsDigit(power[0])) && k <= |t| && t[k..] == [DOT] + (d + power)
    ensures k < |t| && t[k] == DOT && DigitRun(t[k + 1..]) == |d| && t[k + 1..][..|d|] == d
    ensures |t| == k + 1 + |d| + |power| && t[k + 1 + |d|..] == power
  {
    hide DigitRun, AllDigits;
    assert t[k] == t[k..][0];
    Beyond(t, k, [DOT], d + power);
    Beyond(t, k + 1, d, power);
    RunOfDigits(d, power);
  }

  lemma Beyond(t: bytes, k: nat, a: bytes, b: bytes)
    requires k <= |t| && t[k..] == a + b
    ensures |t| == k + |a| + |b| && t[k + |a|..] == b && t[k..][..|a|] == a
  {
    assert t[k + |a|..] == t[k..][|a|..];
  }

  lemma FractionIs(f: Figure)
    ensures FractionText(f) == if f.fraction == [] then [] else [DOT] + f.fraction
    ensures Ascii("-") == [MINUS]
  {
    assert Ascii(".") == [DOT];
  }

  /** A sign, digits, a point, more digits and an exponent, as `strtod` takes them from the front of a text. */
  ghost predicate Parts(t: bytes, s: nat, w: nat, p: nat, n: nat, m: nat, e: int) {
    && s == (if t != [] && (t[0] == PLUS || t[0] == MINUS) then 1 else 0)
    && DigitRun(t[s..]) == w && p == (if s + w < |t| && t[s + w] == DOT then 1 else 0)
    && n == (if p == 1 then DigitRun(t[s + w + 1..]) else 0) && w + n > 0
    && s + w + p + n <= |t| && Exponent(t[s + w + p + n..]) == (e, m)
  }

  /** The digits in front of the point and behind it. */
  function Digits(t: bytes, s: nat, w: nat, p: nat, n: nat): bytes
    requires s + w + p + n <= |t|
  {
    t[s..][..w] + t[s + w + p..][..n]
  }

  lemma StrtodParts(t: bytes, s: nat, w: nat, p: nat, n: nat, m: nat, e: int)
    requires Parts(t, s, w, p, n, m, e)
    ensures AllDigits(Digits(t, s, w, p, n))
    ensures var value := Scaled(Numeral(Digits(t, s, w, p, n)), e - n);
            Strtod(t).0 == (if t[0] == MINUS then -value else value) && Strtod(t).1 == s + w + p + n + m
  {
    hide DigitRun, Numeral, Scaled, Exponent;
    assert p == 0 ==> Digits(t, s, w, p, n) == t[s..][..w] + [];
    assert p == 1 ==> Digits(t, s, w, p, n) == t[s..][..w] + t[s + w + 1..][..n];
  }

  /** `strtod` uses nothing exactly when there are no digits where it looks for them. */
  lemma PartsOf(t: bytes) returns (s: nat, w: nat, p: nat, n: nat, m: nat, e: int)
    requires Strtod(t).1 > 0
    ensures Parts(t, s, w, p, n, m, e)
  {
    hide DigitRun, Numeral, Scaled, Exponent;
    s := if t != [] && (t[0] == PLUS || t[0] == MINUS) then 1 else 0;
    w := DigitRun(t[s..]);
    p := if s + w < |t| && t[s + w] == DOT then 1 else 0;
    n := if p == 1 then DigitRun(t[s + w + 1..]) else 0;
    e, m := Exponent(t[s + w + p + n..]).0, Exponent(t[s + w + p + n..]).1;
  }

  /** A number in its parts. */
  lemma FigureAsParts(f: Figure)
    requires FigureShape(f)
    ensures var t, s, w, n := FigureText(f), |SignText(f)|, |f.whole|, |f.fraction|;
            var p := if f.fraction == [] then 0 else 1;
            && Parts(t, s, w, p, n, |PowerText(f.power)|, PowerValue(f.power))
            && Digits(t, s, w, p, n) == f.whole + f.fraction
            && |t| == s + w + p + n + |PowerText(f.power)| && t != [] && (t[0] == MINUS <==> f.minus)
  {
    hide *;
    var t, s, w, n := FigureText(f), |SignText(f)|, |f.whole|, |f.fraction|;
    var p := if f.fraction == [] then 0 else 1;
    WholeRead(f);
    FractionRead(f, t, s + w);
    ShapeOfPower(f);
    PowerRead(f.power);
    FigureIsParts(f, t, s, w, p, n);
  }

  /** `strtod` is exact on a number and uses all of it. */
  lemma FigureRead(f: Figure)
    requires FigureShape(f)
    ensures Strtod(FigureText(f)) == (FigureValue(f), |FigureText(f)|)
  {
    hide *;
    var p := if f.fraction == [] then 0 else 1;
    FigureAsParts(f);
    ShapeOfPower(f);
    StrtodParts(FigureText(f), |SignText(f)|, |f.whole|, p, |f.fraction|, |PowerText(f.power)|, PowerValue(f.power));
    ValueIs(f);
  }

  lemma FigureIsParts(f: Figure, t: bytes, s: nat, w: nat, p: nat, n: nat)
    requires FigureShape(f) && (f.power.Some? ==> PowerShape(f.power.value)) && t != []
    requires w == |f.whole| && n == |f.fraction| && p == (if f.fraction == [] then 0 else 1)
    requires s == (if f.minus then 1 else 0) && (t[0] == MINUS <==> f.minus) && t[0] != PLUS
    requires s + w <= |t| && DigitRun(t[s..]) == w && t[s..][..w] == f.whole && (s + w < |t| && t[s + w] == DOT <==> n > 0)
    requires n > 0 ==> DigitRun(t[s + w + 1..]) == n && t[s + w + 1..][..n] == f.fraction
    requires |t| == s + w + p + n + |PowerText(f.power)| && t[s + w + p + n..] == PowerText(f.power)
    requires Exponent(PowerText(f.power)) == (PowerValue(f.power), |PowerText(f.power)|)
    ensures Parts(t, s, w, p, n, |PowerText(f.power)|, PowerValue(f.power))
    ensures Digits(t, s, w, p, n) == f.whole + f.fraction
  {
    hide DigitRun, Exponent, PowerText, PowerValue, PowerShape, AllDigits;
    assert n == 0 ==> t[s + w + p..][..n] == [];
  }

  lemma ShapeOfPower(f: Figure)
    requires FigureShape(f)
    ensures f.whole != [] && AllDigits(f.fraction) && (f.power.Some? ==> PowerShape(f.power.value))
  {
  }

  lemma ValueIs(f: Figure)
    requires FigureShape(f)
    ensures var value := Scaled(Numeral(f.whole + f.fraction), PowerValue(f.power) - |f.fraction|);
            FigureValue(f) == if f.minus then -value else value
  {
    hide Numeral, Scaled, PowerValue, PowerShape;
  }

  lemma {:induction false} RunOfNumber(t: bytes, post: bytes, room: nat)
    requires (forall i :: 0 <= i < |t| ==> NumberByte(t[i])) && |t| <= room && (post != [] ==> !NumberByte(post[0]))
    ensures NumberRun(t + post, room) == |t|
  {
    if t == [] {
      assert t + post == post;
    } else {
      RunOfNumber(t[1..], post, room - 1);
      assert (t + post)[1..] == t[1..] + post;
    }
  }

  lemma FigureBytes(f: Figure)
    requires FigureShape(f)
    ensures forall i :: 0 <= i < |FigureText(f)| ==> NumberByte(FigureText(f)[i])
    ensures FigureText(f)[0] == MINUS || IsDigit(FigureText(f)[0])
  {
    assert Ascii("-") == [MINUS] && Ascii(".") == [DOT];
    assert forall i :: 0 <= i < |f.whole| ==> NumberByte(f.whole[i]);
    assert forall i :: 0 <= i < |f.fraction| ==> NumberByte(f.fraction[i]);
    assert forall i :: 0 <= i < |FractionText(f)| ==> NumberByte(FractionText(f)[i]);
    assert forall i :: 0 <= i < |PowerText(f.power)| ==> NumberByte(PowerText(f.power)[i]);
  }

  /** A number of at most 63 bytes, followed by a byte that cannot belong to it, is read as its value. */
  lemma NumberToken(f: Figure, post: bytes)
    requires FigureShape(f) && |FigureText(f)| <= 63 && (post != [] ==> !NumberByte(post[0]))
    ensures NumberText(FigureText(f), FigureValue(f))
    ensures ParseNumber(FigureText(f) + post) == Some((Number(FigureValue(f)), post))
  {
    FigureBytes(f);
    FigureRead(f);
    hide FigureText, FigureValue, Strtod, NumberRun;
    NumberLocal(FigureText(f), FigureValue(f), post);
  }

  // ----- a number as the parser takes it

  /** The bytes that the parser takes for this number. */
  ghost predicate NumberText(raw: bytes, d: real) {
    && 0 < |raw| <= 63 && (raw[0] == MINUS || IsDigit(raw[0])) && (forall i :: 0 <= i < |raw| ==> NumberByte(raw[i]))
    && Strtod(raw) == (d, |raw|)
  }

  /** A number is a sign, digits, perhaps a point and digits, perhaps an exponent, with a digit somewhere; its value is that
      of its digits, scaled. */
  lemma NumberParts(raw: bytes, d: real) returns (s: nat, w: nat, p: nat, n: nat, m: nat, e: int)
    requires NumberText(raw, d)
    ensures Parts(raw, s, w, p, n, m, e) && s + w + p + n + m == |raw| && AllDigits(Digits(raw, s, w, p, n))
    ensures d == var value := Scaled(Numeral(Digits(raw, s, w, p, n)), e - n); if raw[0] == MINUS then -value else value
  {
    hide Parts, Digits, Numeral, Scaled, Strtod;
    s, w, p, n, m, e := PartsOf(raw);
    StrtodParts(raw, s, w, p, n, m, e);
  }

  lemma NumberLocal(raw: bytes, d: real, post: bytes)
    requires NumberText(raw, d) && (post != [] ==> !NumberByte(post[0]))
    ensures ParseNumber(raw + post) == Some((Number(d), post))
  {
    hide Strtod, NumberRun;
    RunOfNumber(raw, post, 63);
    assert (raw + post)[..|raw|] == raw && (raw + post)[|raw|..] == post;
  }

  lemma {:induction false} RunPrefix(t: bytes, k: nat)
    requires DigitRun(t) <= k <= |t|
    ensures DigitRun(t[..k]) == DigitRun(t)
  {
    if t != [] && IsDigit(t[0]) {
      RunPrefix(t[1..], k - 1);
      assert t[..k][1..] == t[1..][..k - 1];
    }
  }

  lemma RunStarts(t: bytes)
    ensures DigitRun(t) > 0 ==> t != [] && IsDigit(t[0])
  {
  }

  /** What stands behind an exponent makes no difference to it. */
  lemma PowerPrefix(t: bytes)
    ensures Exponent(t[..Exponent(t).1]) == Exponent(t)
  {
    hide Numeral, DigitRun;
    var u := Exponent(t).1;
    if u > 0 {
      var sign := if |t| > 1 && (t[1] == PLUS || t[1] == MINUS) then 1 else 0;
      var n := DigitRun(t[1 + sign..]);
      assert u == 1 + sign + n && n > 0;
      RunStarts(t[1 + sign..]);
      SliceTwice(t, 1 + sign, n);
      RunPrefix(t[1 + sign..], n);
      assert t[1 + sign..][..n][..n] == t[1 + sign..][..n];
    }
  }

  /** Nor does what stands behind a number. */
  lemma StrtodPrefix(t: bytes)
    requires Strtod(t).1 > 0
    ensures Strtod(t[..Strtod(t).1]) == Strtod(t)
  {
    hide Parts, Digits, Numeral, Scaled, Strtod;
    var s, w, p, n, m, e := PartsOf(t);
    StrtodParts(t, s, w, p, n, m, e);
    PartsPrefix(t, s, w, p, n, m, e);
    StrtodParts(t[..s + w + p + n + m], s, w, p, n, m, e);
  }

  lemma PartsPrefix(t: bytes, s: nat, w: nat, p: nat, n: nat, m: nat, e: int)
    requires Parts(t, s, w, p, n, m, e)
    ensures s + w + p + n + m <= |t|
    ensures var u := t[..s + w + p + n + m];
            Parts(u, s, w, p, n, m, e) && Digits(u, s, w, p, n) == Digits(t, s, w, p, n) && u != [] && u[0] == t[0]
  {
    hide DigitRun, Exponent;
    var u := t[..s + w + p + n + m];
    SliceTwice(t, s, w + p + n + m);
    RunPrefix(t[s..], w + p + n + m);
    if p == 1 {
      SliceTwice(t, s + w + 1, n + m);
      RunPrefix(t[s + w + 1..], n + m);
    }
    SliceTwice(t, s + w + p + n, m);
    PowerPrefix(t[s + w + p + n..]);
    assert u[s..][..w] == t[s..][..w] && u[s + w + p..][..n] == t[s + w + p..][..n];
  }

  lemma {:induction false} RunBytes(r: bytes, room: nat)
    ensures forall i :: 0 <= i < NumberRun(r, room) ==> NumberByte(r[i])
  {
    if r != [] && room > 0 && NumberByte(r[0]) {
      RunBytes(r[1..], room - 1);
      forall i | 0 <= i < NumberRun(r, room) ensures NumberByte(r[i]) {
        assert i > 0 ==> r[i] == r[1..][i - 1];
      }
    }
  }

  /** A number that is read is a number with the rest of the input behind it. */
  lemma NumberSplit(r: bytes)
    requires r != [] && (r[0] == MINUS || IsDigit(r[0])) && ParseNumber(r).Some?
    ensures var (v, rest) := ParseNumber(r).value;
            v.Number? && |rest| < |r| && NumberText(r[..|r| - |rest|], v.d) && r == r[..|r| - |rest|] + rest
  {
    hide Strtod, NumberRun;
    var t := r[..NumberRun(r, 63)];
    var u := Strtod(t).1;
    StrtodPrefix(t);
    RunBytes(r, 63);
    assert t[..u] == r[..u];
  }

  /** Of a longer run of digits only the first 63 are read, and the rest is left. */
  lemma LongNumber(d: bytes, post: bytes)
    requires AllDigits(d) && |d| >= 63
    ensures ParseNumber(d + post) == Some((Number(Numeral(d[..63]) as real), d[63..] + post))
  {
    hide Strtod, Numeral, NumberRun;
    var t := d + post;
    assert t[..63] == d[..63] && t[63..] == d[63..] + post;
    RunIsFull(t, 63);
    var f := Figure(false, d[..63], [], None);
    FigureRead(f);
    assert FigureText(f) == d[..63] && d[..63] + [] == d[..63];
    assert Pow10(0) == 1.0;
  }

  lemma {:induction false} RunIsFull(r: bytes, room: nat)
    requires room <= |r| && forall i :: 0 <= i < room ==> NumberByte(r[i])
    ensures NumberRun(r, room) == room
  {
    if room > 0 {
      assert forall i :: 0 <= i < room - 1 ==> r[1..][i] == r[i + 1];
      RunIsFull(r[1..], room - 1);
    }
  }
}
