/** The parser as the library runs it: a cursor over a NUL-terminated buffer. Every read is inside the buffer,
    every write inside the string being built, and the result is the one `JsonText` describes. */
module Parser {
  import opened Bytes
  import opened KeySort
  import opened JsonTree
  import opened JsonText
  import opened JsonBounds

  // ----- how the pre-scan and the reader move

  function Shift(r: Option<(nat, nat)>, distance: nat, escapes: nat): Option<(nat, nat)> {
    match r
    case None => None
    case Some((end, n)) => Some((end + distance, n + escapes))
  }

  lemma ScanStep(content: bytes, end: nat)
    requires end < |content| && content[end] != QUOTE
    ensures Scan(content[end..])
            == if content[end] != BACKSLASH then Shift(Scan(content[end + 1..]), 1, 0)
               else if end + 1 < |content| then Shift(Scan(content[end + 2..]), 2, 1)
               else None
  {
    assert content[end..][1..] == content[end + 1..];
    if end + 1 < |content| {
      assert content[end..][2..] == content[end + 2..];
    }
  }

  lemma ScanStops(content: bytes, end: nat)
    requires end <= |content| && (end < |content| ==> content[end] == QUOTE)
    ensures Scan(content[end..]) == if end < |content| then Some((0, 0)) else None
  {
  }

  /** What the rest of a string can still need never exceeds the room left in front of the terminator. */
  ghost predicate Fits(c: bytes, mid: bool, room: int) {
    |c| - Skips(c, mid) <= room
  }

  lemma FitsStep(c: bytes, mid: bool, room: int, k: nat, written: nat) returns (after: bool)
    requires Fits(c, mid, room) && 0 < k <= |c|
    requires (k == 1 && written == 1 && c[0] != BACKSLASH) || (k == 2 && written == 1) || (k == 6 && written <= 3) || (k == 12 && written <= 4)
    ensures written <= room && Fits(c[k..], after, room - written)
  {
    after := StepAhead(c, mid, k, written);
  }

  lemma PrependTwice(a: bytes, b: bytes, rest: Option<bytes>)
    ensures Prepend(a, Prepend(b, rest)) == Prepend(a + b, rest)
  {
    if rest.Some? {
      assert a + (b + rest.value) == a + b + rest.value;
    }
  }

  /** A code point after `k` groups of six bits were shifted out. */
  function Shifted(cp: nat, k: nat): nat {
    if k == 0 then cp else Shifted(cp, k - 1) / 64
  }

  function Mark(length: nat): byte {
    if length == 1 then 0 else if length == 2 then 0xC0 else if length == 3 then 0xE0 else 0xF0
  }

  lemma Utf8Bytes(cp: nat)
    requires cp < 0x110000
    ensures |Utf8(cp)| == if cp < 0x80 then 1 else if cp < 0x800 then 2 else if cp < 0x10000 then 3 else 4
    ensures Shifted(cp, 0) == cp
    ensures var s := Utf8(cp);
            s[0] == Mark(|s|) + Shifted(cp, |s| - 1) && forall j :: 1 <= j < |s| ==> s[j] == 0x80 + Shifted(cp, |s| - 1 - j) % 64
  {
    assert Shifted(cp, 1) == cp / 64;
    assert Shifted(cp, 2) == cp / 4096;
    assert Shifted(cp, 3) == cp / 262144;
  }

  function Glue<T>(front: seq<T>, p: Option<(seq<T>, bytes)>): Option<(seq<T>, bytes)> {
    match p
    case None => None
    case Some((items, rest)) => Some((front + items, rest))
  }

  class ParseBuffer {
    const content: bytes
    var offset: nat
    var depth: nat

    ghost predicate Valid()
      reads this
    {
      offset < |content| && content[|content| - 1] == NUL && depth <= NESTING_LIMIT
    }

    ghost function Rest(): bytes
      reads this
      requires offset <= |content|
    {
      content[offset..]
    }

    /** A parsing step did what its description says: the same result, the cursor right behind it, and the same depth. */
    ghost predicate Did<T>(r: Option<T>, described: Option<(T, bytes)>, d: nat)
      reads this
    {
      offset <= |content| && match described
      case None => r.None?
      case Some((v, rest)) => r == Some(v) && Valid() && Rest() == rest && depth == d
    }

    constructor (text: bytes)
      ensures content == text + [NUL] && offset == 0 && depth == 0 && Valid()
    {
      content := text + [NUL];
      offset := 0;
      depth := 0;
    }

    method SkipWhitespace()
      requires Valid()
      modifies this`offset
      ensures Valid() && offset >= old(offset) && Rest() == Skip(old(Rest()))
    {
      ghost var start := Rest();
      while offset < |content| && content[offset] <= 32
        invariant old(offset) <= offset <= |content|
        invariant offset < |content| ==> Skip(content[offset..]) == Skip(start)
        invariant offset == |content| ==> Skip(start) == content[|content| - 1..]
      {
        assert content[offset..][1..] == content[offset + 1..];
        offset := offset + 1;
      }
      if offset == |content| {
        offset := offset - 1;
      }
    }

    /** The pre-scan: from behind the opening quote to the closing one. */
    method FindEnd() returns (found: bool, end: nat, escapes: nat)
      requires Valid()
      ensures found == Scan(content[offset + 1..]).Some?
      ensures found ==> offset < end < |content| && Scan(content[offset + 1..]) == Some((end - offset - 1, escapes))
    {
      hide Scan;
      ghost var body := content[offset + 1..];
      end := offset + 1;
      escapes := 0;
      while end < |content| && content[end] != QUOTE
        invariant offset < end <= |content|
        invariant Scan(body) == Shift(Scan(content[end..]), end - offset - 1, escapes)
      {
        ScanStep(content, end);
        if content[end] == BACKSLASH {
          if end + 1 >= |content| {
            found := false;
            return;
          }
          escapes := escapes + 1;
          end := end + 1;
        }
        end := end + 1;
      }
      ScanStops(content, end);
      found := end < |content|;
    }

    method ParseHex4(at: nat) returns (h: nat)
      requires at + 4 <= |content|
      ensures h == Hex4(content[at], content[at + 1], content[at + 2], content[at + 3])
    {
      h := 0;
      var i := 0;
      while i < 4
        invariant 0 <= i <= 4
        invariant forall j :: at <= j < at + i ==> HexValue(content[j]).Some?
        invariant i == 1 ==> h == HexValue(content[at]).value * 16
        invariant i == 2 ==> h == (HexValue(content[at]).value * 16 + HexValue(content[at + 1]).value) * 16
        invariant i == 3 ==> h == ((HexValue(content[at]).value * 16 + HexValue(content[at + 1]).value) * 16 + HexValue(content[at + 2]).value) * 16
        invariant i == 4 ==> h == Hex4(content[at], content[at + 1], content[at + 2], content[at + 3])
        invariant i == 0 ==> h == 0
      {
        match HexValue(content[at + i]) {
          case None => return 0;
          case Some(d) => h := h + d;
        }
        if i < 3 {
          h := h * 16;
        }
        i := i + 1;
      }
    }

    /** Writes a code point at `at`, the last byte first. */
    method WriteUtf8(cp: nat, output: array<byte>, at: nat) returns (length: nat)
      requires cp < 0x110000 && at + |Utf8(cp)| <= output.Length
      modifies output
      ensures length == |Utf8(cp)| && output[at..at + length] == Utf8(cp) && output[..at] == old(output[..at])
    {
      hide Utf8, Shifted;
      Utf8Bytes(cp);
      if cp < 0x80 {
        length := 1;
      } else if cp < 0x800 {
        length := 2;
      } else if cp < 0x10000 {
        length := 3;
      } else {
        length := 4;
      }
      var rest := cp;
      var position := length - 1;
      while position > 0
        invariant 0 <= position < length && rest == Shifted(cp, length - 1 - position)
        invariant forall j :: at + position < j < at + length ==> output[j] == Utf8(cp)[j - at]
        invariant output[..at] == old(output[..at])
      {
        output[at + position] := 0x80 + rest % 64;
        rest := rest / 64;
        position := position - 1;
        assert rest == Shifted(cp, length - 1 - position) by { ShiftedStep(cp, length - 2 - position); }
      }
      output[at] := Mark(length) + rest;
    }

    /** `utf16_literal_to_utf8` from the backslash at `ip`: the input bytes used, zero on failure, and the bytes written. */
    method ReadUtf16(ip: nat, end: nat, output: array<byte>, op: nat, ghost mid: bool) returns (used: nat, written: nat)
      requires ip < end < |content| && op < output.Length && Fits(content[ip..end + 1], mid, output.Length - 1 - op)
      modifies output
      ensures match Utf16Literal(content[ip..end + 1])
              case None => used == 0
              case Some((out, n)) =>
                used == n && written == |out| && op + written < output.Length && output[op..op + written] == out
      ensures output[..op] == old(output[..op])
    {
      hide Utf8, Hex4, Fits, Skips;
      ghost var c := content[ip..end + 1];
      written := 0;
      if end - ip < 6 {
        return 0, 0;
      }
      var first := ParseHex4(ip + 2);
      if 0xDC00 <= first <= 0xDFFF {
        return 0, 0;
      }
      var cp := first;
      if 0xD800 <= first <= 0xDBFF {
        used := 12;
        if end - (ip + 6) < 6 {
          return 0, 0;
        }
        if content[ip + 6] != BACKSLASH || content[ip + 7] != 117 {
          return 0, 0;
        }
        var second := ParseHex4(ip + 8);
        if second < 0xDC00 || second > 0xDFFF {
          return 0, 0;
        }
        cp := 0x10000 + first % 1024 * 1024 + second % 1024;
      } else {
        used := 6;
      }
      assert Utf16Literal(c) == Some((Utf8(cp), used));
      ghost var _ := FitsStep(c, mid, output.Length - 1 - op, used, |Utf8(cp)|);
      written := WriteUtf8(cp, output, op);
    }

    /** One escape sequence of the second pass. */
    method ReadEscape(ip: nat, end: nat, output: array<byte>, op: nat, ghost mid: bool) returns (used: nat, written: nat)
      requires ip < end < |content| && content[ip] == BACKSLASH
      requires op < output.Length && Fits(content[ip..end + 1], mid, output.Length - 1 - op)
      modifies output
      ensures used == 0 <==> EscapeStep(content[ip..end + 1]).None?
      ensures used != 0 ==> op + written < output.Length &&
                            EscapeStep(content[ip..end + 1]) == Some((output[op..op + written], used))
      ensures output[..op] == old(output[..op])
    {
      hide Fits;
      var letter := content[ip + 1];
      if letter == 117 {
        used, written := ReadUtf16(ip, end, output, op, mid);
      } else {
        match Unescaped(letter) {
          case None => used, written := 0, 0;
          case Some(b) =>
            ghost var _ := FitsStep(content[ip..end + 1], mid, output.Length - 1 - op, 2, 1);
            output[op] := b;
            used, written := 2, 1;
            assert output[op..op + 1] == [b];
        }
      }
    }

    /** One step of the second pass: a plain byte or an escape. */
    method ReadPiece(ip: nat, end: nat, output: array<byte>, op: nat, ghost mid: bool)
      returns (used: nat, written: nat, ghost after: bool)
      requires ip < end < |content|
      requires op < output.Length && Fits(content[ip..end + 1], mid, output.Length - 1 - op)
      modifies output
      ensures output[..op] == old(output[..op])
      ensures used == 0 ==> Unescape(content[ip..end + 1]).None?
      ensures used != 0 ==> ip + used <= end + 1 && op + written < output.Length &&
                            Fits(content[ip + used..end + 1], after, output.Length - 1 - op - written) &&
                            Unescape(content[ip..end + 1]) == Prepend(output[op..op + written], Unescape(content[ip + used..end + 1]))
    {
      hide Unescape, Fits, EscapeStep;
      ghost var c := content[ip..end + 1];
      after := mid;
      if content[ip] != BACKSLASH {
        UnescapePlain(c);
        used, written := 1, 1;
        output[op] := content[ip];
        assert output[op..op + 1] == [c[0]];
      } else {
        UnescapeStep(c);
        used, written := ReadEscape(ip, end, output, op, mid);
      }
      if used != 0 {
        after := FitsStep(c, mid, output.Length - 1 - op, used, written);
        assert c[used..] == content[ip + used..end + 1];
      }
    }

    /** The second pass: unescapes into the allocated buffer and terminates it. */
    method ReadString(end: nat, output: array<byte>) returns (ip: nat, length: nat, ok: bool)
      requires offset < end < |content| && output.Length > 0
      requires Fits(content[offset + 1..end + 1], false, output.Length - 1)
      modifies output
      ensures offset < ip <= end + 1
      ensures ok == Unescape(content[offset + 1..end + 1]).Some?
      ensures ok ==> length < output.Length && output[length] == NUL && Unescape(content[offset + 1..end + 1]) == Some(output[..length])
    {
      hide Unescape, Fits, Prepend;
      ghost var whole := Unescape(content[offset + 1..end + 1]);
      ghost var mid := false;
      ip, length := offset + 1, 0;
      assert Prepend([], whole) == whole by { PrependNothing(whole); }
      while ip < end
        invariant offset < ip <= end + 1 && length < output.Length
        invariant Fits(content[ip..end + 1], mid, output.Length - 1 - length)
        invariant whole == Prepend(output[..length], Unescape(content[ip..end + 1]))
      {
        ghost var before := output[..length];
        var used, written;
        used, written, mid := ReadPiece(ip, end, output, length, mid);
        if used == 0 {
          PrependFailure(before);
          ok := false;
          return;
        }
        PrependTwice(before, output[length..length + written], Unescape(content[ip + used..end + 1]));
        assert before + output[length..length + written] == output[..length + written];
        ip := ip + used;
        length := length + written;
      }
      UnescapeEnd(content[ip..end + 1]);
      ghost var done := output[..length];
      output[length] := NUL;
      assert output[..length] == done;
      ok := true;
    }

    method ParseString() returns (r: Option<bytes>)
      requires Valid()
      modifies this`offset
      ensures Did(r, JsonText.ParseString(old(Rest())), depth)
    {
      hide Scan, Unescape, CString, Fits, JsonText.ParseString;
      StringMeaning(content, offset);
      if content[offset] != QUOTE {
        offset := offset + 1;
        return None;
      }
      var found, end, escapes := FindEnd();
      if !found {
        offset := offset + 1;
        return None;
      }
      StringFits(content[offset + 1..]);
      ScanFits(content, offset, end, escapes);
      var output := new byte[AllocationSize(end - offset - 1, escapes)];
      var ip, length, ok := ReadString(end, output);
      if ok {
        r := Some(CString(output[..length]));
        offset := end + 1;
      } else {
        r := None;
        offset := ip;
      }
    }

    method ParseNumber() returns (r: Option<Json>)
      requires Valid()
      modifies this`offset
      ensures Did(r, JsonText.ParseNumber(old(Rest())), depth)
    {
      hide Strtod, NumberRun;
      var number := new byte[64];
      var i := 0;
      ghost var rest := content[offset..];
      while i < 63 && offset + i < |content| && NumberByte(content[offset + i])
        invariant offset == old(offset) && 0 <= i <= 63 && offset + i < |content|
        invariant number[..i] == rest[..i]
        invariant NumberRun(rest, 63) == i + NumberRun(content[offset + i..], 63 - i)
      {
        RunStep(content[offset + i..], 63 - i);
        assert content[offset + i..][1..] == content[offset + i + 1..];
        number[i] := content[offset + i];
        i := i + 1;
      }
      RunStep(content[offset + i..], 63 - i);
      number[i] := NUL;
      assert number[..i] == rest[..i];
      var (value, used) := Strtod(number[..i]);
      if used == 0 {
        return None;
      }
      r := Some(Number(value));
      offset := offset + used;
    }

    method ParseValue() returns (r: Option<Json>)
      requires Valid()
      modifies this`offset, this`depth
      ensures Did(r, JsonText.ParseValue(old(Rest()), old(depth)), old(depth))
      ensures r.Some? ==> offset > old(offset)
      decreases |content| - offset, 1
    {
      hide JsonText.ParseString, JsonText.ParseNumber, ParseItems, ParseMembers, Skip;
      ghost var rest := Rest();
      WordsEndEarly(rest);
      if StartsWith(content[offset..], NULL_TEXT) {
        offset := offset + 4;
        return Some(Null);
      }
      if StartsWith(content[offset..], FALSE_TEXT) {
        offset := offset + 5;
        return Some(False);
      }
      if StartsWith(content[offset..], TRUE_TEXT) {
        offset := offset + 4;
        return Some(True);
      }
      if content[offset] == QUOTE {
        var s := ParseString();
        return if s.Some? then Some(String(s.value)) else None;
      }
      if content[offset] == MINUS || IsDigit(content[offset]) {
        r := ParseNumber();
        return;
      }
      if content[offset] == LBRACKET {
        r := ParseArray();
        return;
      }
      if content[offset] == LBRACE {
        r := ParseObject();
        return;
      }
      return None;
    }

    /** The body of the element loop: from the byte in front of an element to the byte behind it and its white space. */
    method ParseElement() returns (r: Option<Json>)
      requires Valid() && offset + 1 < |content|
      modifies this`offset, this`depth
      ensures Did(r, Spaced(JsonText.ParseValue(Skip(old(content[offset + 1..])), old(depth))), old(depth))
      ensures r.Some? ==> offset > old(offset)
      decreases |content| - offset - 1, 2
    {
      hide JsonText.ParseValue, Skip;
      offset := offset + 1;
      SkipWhitespace();
      r := ParseValue();
      if r.Some? {
        SkipWhitespace();
      }
    }

    /** The element loop, from the byte in front of the first element to the closing bracket. */
    method ParseElements() returns (r: Option<seq<Json>>)
      requires Valid() && offset + 1 < |content|
      modifies this`offset, this`depth
      ensures offset <= |content|
      ensures match ParseItems(old(content[offset + 1..]), old(depth))
              case None => r.None?
              case Some((items, rest)) =>
                r == Some(items) && Valid() && depth == old(depth) && offset > old(offset) &&
                content[offset] == RBRACKET && content[offset + 1..] == rest
      decreases |content| - offset - 1, 3
    {
      hide ParseItems, JsonText.ParseValue, Skip, Glue, AfterItem;
      ghost var target := ParseItems(content[offset + 1..], depth);
      var items: seq<Json> := [];
      GlueNothing(target);
      var more := true;
      while more
        invariant Valid() && depth == old(depth) && offset >= old(offset) && (!more ==> offset > old(offset))
        invariant more ==> offset + 1 < |content| && target == Glue(items, ParseItems(content[offset + 1..], depth))
        invariant !more ==> target == Closed(items, content[offset..], RBRACKET)
        decreases more, |content| - offset
      {
        ghost var described := Spaced(JsonText.ParseValue(Skip(content[offset + 1..]), depth));
        ItemsUnfold(content[offset + 1..], depth);
        var v := ParseElement();
        if v.None? {
          assert described == None;
          AfterItemFails(items, old(depth));
          return None;
        }
        AfterItemContinues(items, v.value, content[offset..], depth);
        assert content[offset..][1..] == content[offset + 1..];
        items := items + [v.value];
        more := content[offset] == COMMA;
      }
      r := if content[offset] == RBRACKET then Some(items) else None;
    }

    method ParseArray() returns (r: Option<Json>)
      requires Valid() && content[offset] == LBRACKET
      modifies this`offset, this`depth
      ensures Did(r, ArrayAt(old(Rest()), old(depth)), old(depth))
      ensures r.Some? ==> offset > old(offset)
      decreases |content| - offset, 0
    {
      hide ParseItems, Skip;
      if depth >= NESTING_LIMIT {
        return None;
      }
      depth := depth + 1;
      assert content[offset..][1..] == content[offset + 1..];
      offset := offset + 1;
      SkipWhitespace();
      var items: seq<Json> := [];
      if content[offset] != RBRACKET {
        offset := offset - 1;
        var parsed := ParseElements();
        if parsed.None? {
          return None;
        }
        items := parsed.value;
      }
      depth := depth - 1;
      r := Some(Array(items));
      offset := offset + 1;
    }

    /** A key, a colon and a value, from the byte in front of the key to the byte behind the value and its white space. */
    method ParsePair() returns (r: Option<Member>)
      requires Valid() && offset + 1 < |content|
      modifies this`offset, this`depth
      ensures Did(r, Spaced(ParseMember(old(content[offset + 1..]), old(depth))), old(depth))
      ensures r.Some? ==> offset > old(offset)
      decreases |content| - offset - 1, 2
    {
      hide JsonText.ParseValue, JsonText.ParseString, Skip;
      offset := offset + 1;
      SkipWhitespace();
      var key := ParseString();
      if key.None? {
        return None;
      }
      SkipWhitespace();
      if content[offset] != COLON {
        return None;
      }
      assert content[offset..][1..] == content[offset + 1..];
      var v := ParseElement();
      r := if v.Some? then Some(Keyed(key.value, v.value)) else None;
    }

    /** The member loop, from the byte in front of the first member to the closing bracket. */
    method ParsePairs() returns (r: Option<seq<Member>>)
      requires Valid() && offset + 1 < |content|
      modifies this`offset, this`depth
      ensures offset <= |content|
      ensures match ParseMembers(old(content[offset + 1..]), old(depth))
              case None => r.None?
              case Some((members, rest)) =>
                r == Some(members) && Valid() && depth == old(depth) && offset > old(offset) &&
                content[offset] == RBRACE && content[offset + 1..] == rest
      decreases |content| - offset - 1, 3
    {
      hide ParseMembers, ParseMember, Skip, Glue, AfterPair;
      ghost var target := ParseMembers(content[offset + 1..], depth);
      var members: seq<Member> := [];
      GlueNothing(target);
      var more := true;
      while more
        invariant Valid() && depth == old(depth) && offset >= old(offset) && (!more ==> offset > old(offset))
        invariant more ==> offset + 1 < |content| && target == Glue(members, ParseMembers(content[offset + 1..], depth))
        invariant !more ==> target == Closed(members, content[offset..], RBRACE)
        decreases more, |content| - offset
      {
        ghost var described := Spaced(ParseMember(content[offset + 1..], depth));
        MembersUnfold(content[offset + 1..], depth);
        var m := ParsePair();
        if m.None? {
          assert described == None;
          AfterPairFails(members, old(depth));
          return None;
        }
        AfterPairContinues(members, m.value, content[offset..], depth);
        assert content[offset..][1..] == content[offset + 1..];
        members := members + [m.value];
        more := content[offset] == COMMA;
      }
      r := if content[offset] == RBRACE then Some(members) else None;
    }

    method ParseObject() returns (r: Option<Json>)
      requires Valid() && content[offset] == LBRACE
      modifies this`offset, this`depth
      ensures Did(r, ObjectAt(old(Rest()), old(depth)), old(depth))
      ensures r.Some? ==> offset > old(offset)
      decreases |content| - offset, 0
    {
      hide ParseMembers, Skip;
      if depth >= NESTING_LIMIT {
        return None;
      }
      depth := depth + 1;
      assert content[offset..][1..] == content[offset + 1..];
      offset := offset + 1;
      SkipWhitespace();
      var members: seq<Member> := [];
      if content[offset] != RBRACE {
        offset := offset - 1;
        var parsed := ParsePairs();
        if parsed.None? {
          return None;
        }
        members := parsed.value;
      }
      depth := depth - 1;
      r := Some(Object(members));
      offset := offset + 1;
    }
  }

  /** `cJSON_ParseWithOpts`: the tree, and the offset of the byte behind it. */
  method ParseText(text: bytes, requireEnd: bool) returns (item: Option<Json>, end: nat)
    ensures item == Parse(text, requireEnd)
    ensures item.Some? ==> end <= |text|
  {
    hide JsonText.ParseValue, Skip;
    var buffer := new ParseBuffer(text);
    ghost var content := buffer.content;
    assert content[0..] == content;
    if 4 < |buffer.content| && StartsWith(buffer.content, BOM) {
      buffer.offset := 3;
    }
    buffer.SkipWhitespace();
    item := buffer.ParseValue();
    if item.Some? && requireEnd {
      buffer.SkipWhitespace();
      if buffer.content[buffer.offset] != NUL {
        item := None;
      }
    }
    end := buffer.offset;
  }

  /** A parsed item with the white space after it skipped. */
  function Spaced<T>(p: Option<(T, bytes)>): Option<(T, bytes)> {
    match p
    case None => None
    case Some((v, rest)) => Some((v, Skip(rest)))
  }

  /** How the element loop continues behind an element. */
  function AfterItem(p: Option<(Json, bytes)>, depth: nat): Option<(seq<Json>, bytes)> {
    match p
    case None => None
    case Some((v, rest)) =>
      if rest != [] && rest[0] == COMMA then Glue([v], ParseItems(rest[1..], depth))
      else if rest != [] && rest[0] == RBRACKET then Some(([v], rest[1..]))
      else None
  }

  lemma ItemsUnfold(r: bytes, depth: nat)
    ensures ParseItems(r, depth) == AfterItem(Spaced(ParseValue(Skip(r), depth)), depth)
  {
    hide ParseValue, Skip;
  }

  /** How the member loop continues behind a member. */
  function AfterPair(p: Option<(Member, bytes)>, depth: nat): Option<(seq<Member>, bytes)> {
    match p
    case None => None
    case Some((m, rest)) =>
      if rest != [] && rest[0] == COMMA then Glue([m], ParseMembers(rest[1..], depth))
      else if rest != [] && rest[0] == RBRACE then Some(([m], rest[1..]))
      else None
  }

  lemma MembersUnfold(r: bytes, depth: nat)
    ensures ParseMembers(r, depth) == AfterPair(Spaced(ParseMember(r, depth)), depth)
  {
    hide ParseMember, Skip;
  }

  /** What a loop has when it stops at `rest`: everything collected, if the closing bracket is there. */
  function Closed<T>(all: seq<T>, rest: bytes, bracket: byte): Option<(seq<T>, bytes)>
    requires rest != []
  {
    if rest[0] == bracket then Some((all, rest[1..])) else None
  }

  lemma AfterItemFails(front: seq<Json>, depth: nat)
    ensures Glue(front, AfterItem(None, depth)).None?
  {
  }

  lemma AfterItemContinues(front: seq<Json>, v: Json, rest: bytes, depth: nat)
    requires rest != []
    ensures Glue(front, AfterItem(Some((v, rest)), depth))
            == if rest[0] == COMMA then Glue(front + [v], ParseItems(rest[1..], depth)) else Closed(front + [v], rest, RBRACKET)
  {
    hide ParseItems;
    if rest[0] == COMMA {
      GlueStep(front, v, ParseItems(rest[1..], depth));
    }
  }

  lemma AfterPairFails(front: seq<Member>, depth: nat)
    ensures Glue(front, AfterPair(None, depth)).None?
  {
  }

  lemma AfterPairContinues(front: seq<Member>, v: Member, rest: bytes, depth: nat)
    requires rest != []
    ensures Glue(front, AfterPair(Some((v, rest)), depth))
            == if rest[0] == COMMA then Glue(front + [v], ParseMembers(rest[1..], depth)) else Closed(front + [v], rest, RBRACE)
  {
    hide ParseMembers;
    if rest[0] == COMMA {
      GlueStep(front, v, ParseMembers(rest[1..], depth));
    }
  }

  lemma GlueNothing<T>(p: Option<(seq<T>, bytes)>)
    ensures Glue([], p) == p
  {
    if p.Some? {
      assert [] + p.value.0 == p.value.0;
    }
  }

  lemma GlueStep<T>(front: seq<T>, v: T, p: Option<(seq<T>, bytes)>)
    ensures Glue(front, Glue([v], p)) == Glue(front + [v], p)
  {
    if p.Some? {
      assert front + ([v] + p.value.0) == front + [v] + p.value.0;
    }
  }

  lemma WordsEndEarly(r: bytes)
    requires r != [] && r[|r| - 1] == NUL
    ensures StartsWith(r, NULL_TEXT) || StartsWith(r, TRUE_TEXT) ==> |r| > 4
    ensures StartsWith(r, FALSE_TEXT) ==> |r| > 5
  {
    if |r| == 4 || |r| == 5 {
      assert r[..|r|] == r;
    }
    if |r| == 5 {
      assert r[..4] == r[..4];
    }
  }

  /** The array branch of `ParseValue`. */
  function ArrayAt(r: bytes, depth: nat): Option<(Json, bytes)>
    requires r != []
  {
    if depth >= NESTING_LIMIT then None
    else
      var inside := Skip(r[1..]);
      if inside != [] && inside[0] == RBRACKET then Some((Array([]), inside[1..]))
      else
        match ParseItems(inside, depth + 1)
        case None => None
        case Some((items, rest)) => Some((Array(items), rest))
  }

  /** The object branch of `ParseValue`. */
  function ObjectAt(r: bytes, depth: nat): Option<(Json, bytes)>
    requires r != []
  {
    if depth >= NESTING_LIMIT then None
    else
      var inside := Skip(r[1..]);
      if inside != [] && inside[0] == RBRACE then Some((Object([]), inside[1..]))
      else
        match ParseMembers(inside, depth + 1)
        case None => None
        case Some((members, rest)) => Some((Object(members), rest))
  }

  lemma ShiftedStep(cp: nat, k: nat)
    ensures Shifted(cp, k + 1) == Shifted(cp, k) / 64
  {
  }

  /** What one escape produces and uses. */
  function EscapeStep(c: bytes): (r: Option<(bytes, nat)>)
    requires |c| > 1
    ensures r.Some? ==> 0 < r.value.1 <= |c|
    ensures r.Some? ==> var w := |r.value.0|; (r.value.1 == 2 && w == 1) || (r.value.1 == 6 && w <= 3) || (r.value.1 == 12 && w <= 4)
  {
    if c[1] == 117 then Utf16Literal(c)
    else
      match Unescaped(c[1])
      case None => None
      case Some(b) => Some(([b], 2))
  }

  lemma {:induction false} UnescapeStep(c: bytes)
    requires |c| > 1 && c[0] == BACKSLASH
    ensures EscapeStep(c).None? ==> Unescape(c).None?
    ensures EscapeStep(c).Some? ==>
              var step := EscapeStep(c).value; Unescape(c) == Prepend(step.0, Unescape(c[step.1..]))
  {
  }

  lemma UnescapePlain(c: bytes)
    requires |c| > 1 && c[0] != BACKSLASH
    ensures Unescape(c) == Prepend([c[0]], Unescape(c[1..]))
  {
  }

  lemma UnescapeEnd(c: bytes)
    requires |c| <= 1
    ensures forall front: bytes :: Prepend(front, Unescape(c)) == Some(front)
  {
    assert forall front: bytes :: front + [] == front;
  }

  lemma PrependFailure(front: bytes)
    ensures Prepend(front, None).None?
  {
  }

  lemma PrependNothing(rest: Option<bytes>)
    ensures Prepend([], rest) == rest
  {
    if rest.Some? {
      assert [] + rest.value == rest.value;
    }
  }

  lemma ScanFits(content: bytes, start: nat, end: nat, escapes: nat)
    requires start < end < |content| && Scan(content[start + 1..]) == Some((end - start - 1, escapes))
    ensures Fits(content[start + 1..end + 1], false, AllocationSize(end - start - 1, escapes) - 1)
  {
    hide Scan, Skips;
    ScanCounts(content[start + 1..]);
    assert content[start + 1..][..end - start] == content[start + 1..end + 1];
  }

  lemma RunStep(r: bytes, room: nat)
    ensures NumberRun(r, room) == if r == [] || room == 0 || !NumberByte(r[0]) then 0 else 1 + NumberRun(r[1..], room - 1)
  {
  }

  /** `ParseString` in terms of positions in the buffer. */
  function StringAt(content: bytes, start: nat): Option<(bytes, bytes)>
    requires start < |content|
  {
    if content[start] != QUOTE then None
    else
      match Scan(content[start + 1..])
      case None => None
      case Some((length, _)) =>
        var end := start + 1 + length;
        match Unescape(content[start + 1..end + 1])
        case None => None
        case Some(s) => Some((CString(s), content[end + 1..]))
  }

  lemma StringMeaning(content: bytes, start: nat)
    requires start < |content|
    ensures ParseString(content[start..]) == StringAt(content, start)
  {
    hide Scan, Unescape, CString;
    var body := content[start + 1..];
    assert content[start..][1..] == body;
    if Scan(body).Some? {
      var length := Scan(body).value.0;
      assert body[..length + 1] == content[start + 1..start + 1 + length + 1];
      assert body[length + 1..] == content[start + 1 + length + 1..];
    }
  }
}
