/** What holds of every input to the parser: the nesting limit and the size of unescaped strings. */
module JsonBounds {
  import opened Bytes
  import opened KeySort
  import opened JsonTree
  import opened JsonText
  import opened JsonTokens
  import opened JsonGrammar

  // ----- nesting

  /** Whatever the text, a parsed value is nested no deeper than the limit allows where it stands. */
  lemma {:induction false} NestingRespected(r: bytes, depth: nat)
    requires depth <= NESTING_LIMIT
    ensures var p := ParseValue(r, depth); p.Some? ==> depth + Depth(p.value.0) <= NESTING_LIMIT
    decreases |r|, 1
  {
    hide ParseItems, ParseMembers, Skip, StartsWith, ParseString, ParseNumber;
    if r != [] && depth < NESTING_LIMIT {
      ItemsNesting(Skip(r[1..]), depth + 1);
      MembersNesting(Skip(r[1..]), depth + 1);
    }
    if r != [] && (r[0] == MINUS || IsDigit(r[0])) {
      NumbersAreFlat(r);
    }
  }

  lemma NumbersAreFlat(r: bytes)
    ensures ParseNumber(r).Some? ==> ParseNumber(r).value.0.Number?
  {
    hide Strtod, NumberRun;
  }

  lemma {:induction false} ItemsNesting(r: bytes, depth: nat)
    requires depth <= NESTING_LIMIT
    ensures var p := ParseItems(r, depth); p.Some? ==> depth + ItemsDepth(p.value.0) <= NESTING_LIMIT
    decreases |r|, 2
  {
    hide ParseValue, Skip, Depth;
    NestingRespected(Skip(r), depth);
    match ParseValue(Skip(r), depth) {
      case None =>
      case Some((v, after)) =>
        var rest := Skip(after);
        OneItem(v);
        if rest != [] && rest[0] == COMMA {
          ItemsNesting(rest[1..], depth);
          match ParseItems(rest[1..], depth) {
            case None =>
            case Some((items, end)) =>
              assert ([v] + items)[1..] == items;
          }
        }
    }
  }

  lemma OneItem(v: Json)
    ensures ItemsDepth([v]) == Depth(v)
    ensures forall key :: MembersDepth([Keyed(key, v)]) == Depth(v)
  {
    assert ItemsDepth([v][1..]) == 0;
  }

  lemma {:induction false} MembersNesting(r: bytes, depth: nat)
    requires depth <= NESTING_LIMIT
    ensures var p := ParseMembers(r, depth); p.Some? ==> depth + MembersDepth(p.value.0) <= NESTING_LIMIT
    decreases |r|, 3
  {
    hide ParseMember, Skip, Depth;
    MemberNesting(r, depth);
    match ParseMember(r, depth) {
      case None =>
      case Some((m, after)) =>
        var rest := Skip(after);
        OneItem(m.value);
        assert m == Keyed(m.key, m.value);
        if rest != [] && rest[0] == COMMA {
          MembersNesting(rest[1..], depth);
          match ParseMembers(rest[1..], depth) {
            case None =>
            case Some((members, end)) =>
              assert ([m] + members)[1..] == members;
          }
        }
    }
  }

  lemma {:induction false} MemberNesting(r: bytes, depth: nat)
    requires depth <= NESTING_LIMIT
    ensures var p := ParseMember(r, depth); p.Some? ==> depth + Depth(p.value.0.value) <= NESTING_LIMIT
    decreases |r|, 2
  {
    hide ParseString, ParseValue, Skip, Depth;
    match ParseString(Skip(r)) {
      case None =>
      case Some((key, after)) =>
        var colon := Skip(after);
        if colon != [] && colon[0] == COLON {
          NestingRespected(Skip(colon[1..]), depth);
        }
    }
  }

  // ----- the pre-scan of strings

  /** The escapes the pre-scan counts in `c`; `mid` says that its first byte was already paired with a backslash. */
  function Skips(c: bytes, mid: bool): (n: nat)
    ensures n <= |c|
  {
    if c == [] then 0
    else if !mid && c[0] == BACKSLASH then 1 + Skips(c[1..], true)
    else Skips(c[1..], false)
  }

  lemma {:induction false} ScanCounts(body: bytes)
    ensures match Scan(body) case None => true case Some((end, escapes)) => Skips(body[..end + 1], false) == escapes
  {
    if body != [] && body[0] != QUOTE {
      var step := if body[0] == BACKSLASH then 2 else 1;
      if |body| >= step && Scan(body[step..]).Some? {
        ScanCounts(body[step..]);
        var end := Scan(body[step..]).value.0;
        var c := body[..step + end + 1];
        assert c[1..][step - 1..] == c[step..] == body[step..][..end + 1];
        if step == 2 {
          assert c[1..][1..] == c[2..];
        }
      }
    } else if body != [] {
      assert body[..1][1..] == [];
    }
  }

  /** In any `k` bytes the pre-scan counts at most every second one, whichever way it is paired with the reader. */
  lemma {:induction false} SkipsAhead(c: bytes, mid: bool, k: nat) returns (after: bool)
    requires k <= |c|
    ensures Skips(c, mid) <= (k + 1) / 2 + Skips(c[k..], after)
  {
    if k == 0 {
      after := mid;
      assert c[0..] == c;
    } else if !mid && c[0] == BACKSLASH {
      if k == 1 {
        after := true;
      } else {
        after := SkipsAhead(c[2..], false, k - 2);
        assert c[1..][1..] == c[2..] && c[2..][k - 2..] == c[k..];
      }
    } else {
      after := SkipsAhead(c[1..], false, k - 1);
      assert c[1..][k - 1..] == c[k..];
    }
  }

  /** One step of the second pass never gains on the pre-scan. */
  lemma StepAhead(c: bytes, mid: bool, k: nat, written: nat) returns (after: bool)
    requires k <= |c| && c != [] && k > 0
    requires (k == 1 && written == 1 && c[0] != BACKSLASH) || (k == 2 && written == 1) || (k == 6 && written <= 3) || (k == 12 && written <= 4)
    ensures written + Skips(c, mid) <= k + Skips(c[k..], after)
  {
    if k == 1 {
      after := false;
    } else {
      after := SkipsAhead(c, mid, k);
    }
  }

  lemma {:induction false} UnescapeFits(c: bytes, mid: bool)
    ensures Unescape(c).Some? ==> |Unescape(c).value| + Skips(c, mid) <= |c|
    decreases |c|
  {
    if |c| > 1 && Unescape(c).Some? {
      if c[0] != BACKSLASH {
        var after := StepAhead(c, mid, 1, 1);
        UnescapeFits(c[1..], after);
      } else if c[1] == 117 {
        var (out, used) := Utf16Literal(c).value;
        var after := StepAhead(c, mid, used, |out|);
        UnescapeFits(c[used..], after);
      } else {
        var after := StepAhead(c, mid, 2, 1);
        UnescapeFits(c[2..], after);
      }
    }
  }

  /** The buffer `parse_string` allocates after its pre-scan. */
  function AllocationSize(end: nat, escapes: nat): int {
    end + 1 - escapes + 1
  }

  /** Every unescaped string and its terminator fit the allocation, even when a `\u` escape swallows bytes that
      the pre-scan paired differently. */
  lemma StringFits(body: bytes)
    ensures match Scan(body)
            case None => true
            case Some((end, escapes)) =>
              var out := Unescape(body[..end + 1]);
              escapes <= end && (out.Some? ==> |out.value| + 1 <= AllocationSize(end, escapes))
  {
    hide Unescape;
    match Scan(body) {
      case None =>
      case Some((end, escapes)) =>
        ScanCounts(body);
        UnescapeFits(body[..end + 1], false);
        SkipsBelow(body[..end + 1], false);
    }
  }

  lemma {:induction false} SkipsBelow(c: bytes, mid: bool)
    requires c != [] && c[|c| - 1] == QUOTE
    ensures Skips(c, mid) < |c|
  {
    if |c| > 1 {
      SkipsBelow(c[1..], !mid && c[0] == BACKSLASH);
    }
  }

  /** A text on which the two passes disagree about where escapes start: the reader takes the first of two
      backslashes for a digit and the second together with the closing quote. */
  lemma PassesDisagree()
    ensures var body := [BACKSLASH, 117, ZERO, ZERO, ZERO, BACKSLASH, BACKSLASH, QUOTE];
            Scan(body) == Some((7, 2)) && Unescape(body) == Some([NUL, QUOTE])
  {
    var body := [BACKSLASH, 117, ZERO, ZERO, ZERO, BACKSLASH, BACKSLASH, QUOTE];
    PairThenQuote();
    ScanPlain([ZERO, ZERO, ZERO], [BACKSLASH, BACKSLASH, QUOTE]);
    ScanCounts(body);
    assert body[2..] == [ZERO, ZERO, ZERO] + [BACKSLASH, BACKSLASH, QUOTE];
    assert Scan(body).value.0 == 7;
    assert body[..8] == body;
    assert body[1..][1..] == body[2..];
    SkipsPlain(body[2..]);
    assert Utf16Literal(body) == Some(([NUL], 6));
    assert body[6..] == [BACKSLASH, QUOTE];
    assert [NUL] + [QUOTE] == [NUL, QUOTE];
  }

  lemma SkipsPlain(c: bytes)
    requires c == [ZERO, ZERO, ZERO, BACKSLASH, BACKSLASH, QUOTE]
    ensures Skips(c, false) == 1
  {
    var c3 := c[1..][1..][1..];
    assert c3 == [BACKSLASH, BACKSLASH, QUOTE];
    assert c3[1..][1..] == [QUOTE];
    assert Skips(c3[1..][1..], false) == 0;
    assert Skips(c3, false) == 1;
    assert Skips(c[1..][1..], false) == 1;
  }

  lemma PairThenQuote()
    ensures Scan([BACKSLASH, BACKSLASH, QUOTE]) == Some((2, 1)) && Unescape([BACKSLASH, QUOTE]) == Some([QUOTE])
  {
    assert [BACKSLASH, BACKSLASH, QUOTE][2..] == [QUOTE];
    var c: bytes := [BACKSLASH, QUOTE];
    assert c[2..] == [] && [QUOTE] + [] == [QUOTE];
    assert Unescape(c[2..]) == Some([]);
  }

  // ----- UTF-16 escapes

  /** The code point a UTF-8 sequence stands for. */
  function Utf8Decode(s: bytes): int {
    if |s| == 1 then s[0]
    else if |s| == 2 then s[0] as int % 32 * 64 + s[1] as int % 64
    else if |s| == 3 then s[0] as int % 16 * 4096 + s[1] as int % 64 * 64 + s[2] as int % 64
    else if |s| == 4 then s[0] as int % 8 * 262144 + s[1] as int % 64 * 4096 + s[2] as int % 64 * 64 + s[3] as int % 64
    else -1
  }

  /** The encoding can be inverted, its lead byte announces its length and the others are continuation bytes. */
  lemma Utf8RoundTrip(cp: nat)
    requires cp < 0x110000
    ensures var s := Utf8(cp);
            Utf8Decode(s) == cp && (|s| == 1 <==> s[0] < 0x80) && (|s| == 2 <==> 0xC0 <= s[0] < 0xE0) &&
            (|s| == 3 <==> 0xE0 <= s[0] < 0xF0) && (|s| == 4 <==> 0xF0 <= s[0] < 0xF5) &&
            forall i :: 1 <= i < |s| ==> 0x80 <= s[i] < 0xC0
  {
    hide Utf8, Utf8Decode;
    Utf8Lead(cp);
    Utf8Value(cp);
  }

  lemma Utf8Lead(cp: nat)
    requires cp < 0x110000
    ensures var s := Utf8(cp);
            (|s| == 1 <==> s[0] < 0x80) && (|s| == 2 <==> 0xC0 <= s[0] < 0xE0) &&
            (|s| == 3 <==> 0xE0 <= s[0] < 0xF0) && (|s| == 4 <==> 0xF0 <= s[0] < 0xF5)
    ensures forall i :: 1 <= i < |Utf8(cp)| ==> 0x80 <= Utf8(cp)[i] < 0xC0
  {
  }

  lemma Utf8Value(cp: nat)
    requires cp < 0x110000
    ensures Utf8Decode(Utf8(cp)) == cp
  {
    Sixes(cp);
    hide Utf8Decode;
    if cp < 0x80 {
      DecodeOne(cp);
    } else if cp < 0x800 {
      DecodeTwo(cp / 64, cp % 64);
    } else if cp < 0x10000 {
      DecodeThree(cp / 4096, cp / 64 % 64, cp % 64);
    } else {
      DecodeFour(cp / 262144, cp / 4096 % 64, cp / 64 % 64, cp % 64);
    }
  }

  lemma DecodeOne(x: nat)
    requires x < 0x80
    ensures Utf8Decode([x]) == x
  {
  }

  lemma DecodeTwo(x: nat, y: nat)
    requires x < 32 && y < 64
    ensures Utf8Decode([0xC0 + x, 0x80 + y]) == x * 64 + y
  {
  }

  lemma DecodeThree(x: nat, y: nat, z: nat)
    requires x < 16 && y < 64 && z < 64
    ensures Utf8Decode([0xE0 + x, 0x80 + y, 0x80 + z]) == x * 4096 + y * 64 + z
  {
  }

  lemma DecodeFour(w: nat, x: nat, y: nat, z: nat)
    requires w < 8 && x < 64 && y < 64 && z < 64
    ensures Utf8Decode([0xF0 + w, 0x80 + x, 0x80 + y, 0x80 + z]) == w * 262144 + x * 4096 + y * 64 + z
  {
  }

  /** A number is recomposed from its six-bit groups. */
  lemma Sixes(cp: nat)
    ensures cp == cp / 64 * 64 + cp % 64
    ensures cp == cp / 4096 * 4096 + cp / 64 % 64 * 64 + cp % 64
    ensures cp == cp / 262144 * 262144 + cp / 4096 % 64 * 4096 + cp / 64 % 64 * 64 + cp % 64
  {
    assert cp / 64 / 64 == cp / 4096;
    assert cp / 4096 / 64 == cp / 262144;
  }

  /** The UTF-16 code units of a code point. */
  function Utf16(cp: nat): seq<nat>
    requires cp < 0x110000
  {
    if cp < 0x10000 then [cp] else [0xD800 + (cp - 0x10000) / 1024, 0xDC00 + (cp - 0x10000) % 1024]
  }

  /** Every code point that is not a surrogate, written as one `\u` escape or a pair of them with digits in either case,
      becomes its UTF-8 bytes. */
  lemma EscapesDecode(cp: nat, first: bytes, second: bytes, rest: bytes)
    requires cp < 0x110000 && !(0xD800 <= cp < 0xE000) && rest != []
    requires FourDigits(first) && Unit(first) == Utf16(cp)[0]
    requires |Utf16(cp)| == 2 ==> FourDigits(second) && Unit(second) == Utf16(cp)[1]
    ensures var text := if |Utf16(cp)| == 1 then HexText(first) else HexText(first) + HexText(second);
            Utf16Literal(text + rest) == Some((Utf8(cp), |text|))
  {
    hide Utf8, Utf16Literal, Unit, HexValue;
    if |Utf16(cp)| == 2 {
      PairValue(cp);
      LiteralPair(first, second, rest);
    } else {
      LiteralUnit(first, rest);
    }
  }

  lemma PairValue(cp: nat)
    requires 0x10000 <= cp < 0x110000
    ensures var u := Utf16(cp);
            |u| == 2 && 0xD800 <= u[0] < 0xDC00 <= u[1] < 0xE000 && 0x10000 + (u[0] - 0xD800) * 1024 + (u[1] - 0xDC00) == cp
  {
  }
}
