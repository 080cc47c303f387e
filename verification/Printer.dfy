/** The printer as the library runs it: an output buffer that grows, or must not. Printing succeeds exactly when
    the text and two more bytes fit, and then leaves exactly the text. */
module Printer {
  import opened Bytes
  import opened JsonTree
  import opened JsonText

  // ----- printed text never holds a NUL

  lemma {:induction false} EscapedIsClean(s: bytes)
    requires NUL !in s
    ensures NUL !in EscapeString(s)
  {
    if s != [] {
      assert s[0] in s && forall b :: b in s[1..] ==> b in s;
      EscapedIsClean(s[1..]);
    }
  }

  lemma IntIsClean(n: int)
    ensures NUL !in IntText(n)
  {
    DecimalRoundTrip(if n < 0 then -n else n);
  }

  lemma {:induction false} TextIsClean(v: Json, format: bool, depth: nat)
    requires Printable(v)
    ensures NUL !in Text(v, format, depth)
    decreases v, 1
  {
    match v {
      case Number(d) => IntIsClean(d.Floor);
      case String(s) => EscapedIsClean(s);
      case Array(items) => ItemsAreClean(items, format, depth + 1);
      case Object(members) => MembersAreClean(members, format, depth + 1);
      case _ =>
    }
  }

  lemma {:induction false} ItemsAreClean(items: seq<Json>, format: bool, depth: nat)
    requires forall i :: 0 <= i < |items| ==> Printable(items[i])
    ensures NUL !in ItemsText(items, format, depth)
    decreases items, 0
  {
    if items != [] {
      TextIsClean(items[0], format, depth);
      ItemsAreClean(items[1..], format, depth);
    }
  }

  lemma {:induction false} MembersAreClean(members: seq<Member>, format: bool, depth: nat)
    requires PrintableMembers(members)
    ensures NUL !in MembersText(members, format, depth)
    decreases members, 0
  {
    if members != [] {
      EscapedIsClean(members[0].key);
      TextIsClean(members[0].value, format, depth);
      MembersAreClean(members[1..], format, depth);
    }
  }

  // ----- what may be handed to the printer

  /** Like `Printable`, but with Invalid items anywhere: the printer refuses a tree that has one. */
  predicate Writable(v: Json)
    decreases v, 1
  {
    match v
    case Number(d) => IntRange(d)
    case String(s) => NUL !in s
    case Array(items) => forall i :: 0 <= i < |items| ==> Writable(items[i])
    case Object(members) => WritableMembers(members)
    case _ => true
  }

  predicate WritableMembers(members: seq<Member>)
    decreases members, 0
  {
    forall i :: 0 <= i < |members| ==> NUL !in members[i].key && Writable(members[i].value)
  }

  // ----- the size of an escaped string

  /** The extra bytes `print_string_ptr` counts for one byte. */
  function Extra(b: byte): nat {
    if b == QUOTE || b == BACKSLASH || b == 8 || b == 12 || b == 10 || b == 13 || b == 9 then 1
    else if b < 32 then 5
    else 0
  }

  function Extras(s: bytes): nat {
    if s == [] then 0 else Extra(s[0]) + Extras(s[1..])
  }

  lemma {:induction false} EscapedLength(s: bytes)
    ensures |EscapeString(s)| == |s| + Extras(s)
    ensures Extras(s) == 0 ==> EscapeString(s) == s
  {
    if s != [] {
      EscapedLength(s[1..]);
      assert |EscapeByte(s[0])| == 1 + Extra(s[0]);
    }
  }

  class PrintBuffer {
    var buffer: array<byte>
    var offset: nat
    var depth: nat
    const noalloc: bool
    const format: bool

    ghost predicate Valid()
      reads this
    {
      (offset < buffer.Length || (offset == 0 && buffer.Length == 0)) && buffer.Length <= INT_MAX
    }

    /** Whether the buffer has, or can be given, `needed` bytes in all. */
    predicate Room(needed: nat)
      reads this
    {
      needed <= if noalloc then buffer.Length else INT_MAX
    }

    ghost function Written(): bytes
      reads this, buffer
      requires Valid()
    {
      buffer[..offset]
    }

    /** The buffer holds the C string `s`, and the cursor is somewhere in it. */
    ghost predicate Holds(s: bytes)
      reads this, buffer
    {
      offset <= |s| < buffer.Length && buffer[..|s|] == s && buffer[|s|] == NUL
    }

    constructor (storage: array<byte>, noalloc: bool, format: bool)
      requires storage.Length <= INT_MAX
      ensures buffer == storage && offset == 0 && depth == 0 && this.noalloc == noalloc && this.format == format && Valid()
    {
      buffer := storage;
      offset := 0;
      depth := 0;
      this.noalloc := noalloc;
      this.format := format;
    }

    /** `ensure`: room for `needed` bytes and one more behind the cursor. */
    method Ensure(needed: nat) returns (ok: bool)
      requires Valid()
      modifies this`buffer
      ensures Valid() && (buffer == old(buffer) || fresh(buffer)) && (noalloc ==> buffer == old(buffer))
      ensures ok == Room(offset + needed + 1)
      ensures ok ==> offset + needed + 1 <= buffer.Length
      ensures Written() == old(Written())
    {
      if buffer.Length > 0 && offset >= buffer.Length {
        return false;
      }
      if needed > INT_MAX {
        return false;
      }
      var total := needed + offset + 1;
      if total <= buffer.Length {
        return true;
      }
      if noalloc {
        return false;
      }
      var size := total * 2;
      if total > INT_MAX / 2 {
        if total > INT_MAX {
          return false;
        }
        size := INT_MAX;
      }
      var grown := new byte[size];
      forall i | 0 <= i < buffer.Length {
        grown[i] := buffer[i];
      }
      buffer := grown;
      return true;
    }

    /** `update_offset`: to the terminator. */
    method UpdateOffset(ghost s: bytes)
      requires Valid() && Holds(s) && NUL !in s[offset..]
      modifies this`offset
      ensures Valid() && offset == |s| && Written() == s && Holds(s)
    {
      forall k | offset <= k < |s| ensures s[k] != NUL {
        assert s[offset..][k - offset] == s[k];
      }
      while buffer[offset] != NUL
        invariant old(offset) <= offset <= |s|
        decreases |s| - offset
      {
        offset := offset + 1;
      }
    }

    /** Stores bytes at a position; what stands before it stays. */
    method Store(at: nat, piece: bytes)
      requires at + |piece| <= buffer.Length
      modifies buffer
      ensures buffer[..at + |piece|] == old(buffer[..at]) + piece
    {
      forall i | 0 <= i < |piece| {
        buffer[at + i] := piece[i];
      }
    }

    /** Fixed text and its terminator, reserved with `ensure` and left behind the cursor. */
    method PrintWord(word: bytes) returns (ok: bool)
      requires Valid()
      modifies this`buffer, buffer
      ensures Valid() && (buffer == old(buffer) || fresh(buffer)) && (noalloc ==> buffer == old(buffer))
      ensures ok == Room(offset + |word| + 2)
      ensures ok ==> Holds(old(Written()) + word)
    {
      ok := Ensure(|word| + 1);
      if ok {
        Store(offset, word + [NUL]);
        LastOf(buffer[..offset + |word| + 1], old(Written()), word);
      }
    }

    /** `print_number` on an int: the text is copied and the cursor moved behind it. */
    method PrintNumber(n: int) returns (ok: bool)
      requires Valid()
      modifies this`buffer, this`offset, buffer
      ensures Valid() && (buffer == old(buffer) || fresh(buffer)) && (noalloc ==> buffer == old(buffer))
      ensures ok == Room(old(offset) + |IntText(n)| + 2)
      ensures ok ==> Holds(old(Written()) + IntText(n)) && offset == old(offset) + |IntText(n)|
    {
      hide IntText;
      var text := IntText(n);
      ok := PrintWord(text);
      if ok {
        offset := offset + |text|;
      }
    }

    /** `print_string_ptr`: counts what escaping adds, reserves, then copies or escapes byte by byte. */
    method PrintString(s: bytes) returns (ok: bool)
      requires Valid()
      modifies this`buffer, buffer
      ensures Valid() && (buffer == old(buffer) || fresh(buffer)) && (noalloc ==> buffer == old(buffer))
      ensures ok == Room(offset + |Quoted(s)| + 2)
      ensures ok ==> Holds(old(Written()) + Quoted(s))
    {
      hide EscapeString;
      EscapedLength(s);
      var extra := CountExtras(s);
      ok := Ensure(|s| + extra + 3);
      if ok {
        StoreQuoted(s, extra);
      }
    }

    method StoreQuoted(s: bytes, extra: nat)
      requires Valid() && extra == Extras(s) && offset + |s| + extra + 3 < buffer.Length
      modifies buffer
      ensures Holds(old(Written()) + Quoted(s))
    {
      hide EscapeString, Extras;
      EscapedLength(s);
      ghost var before := Written();
      ghost var e := EscapeString(s);
      var close := offset + 1 + |s| + extra;
      Store(offset, [QUOTE]);
      if extra == 0 {
        Store(offset + 1, s);
      } else {
        EscapeInto(s);
      }
      assert buffer[..close] == before + [QUOTE] + e;
      Store(close, [QUOTE, NUL]);
      QuotedParts(buffer[..close + 2], before, e);
    }

    method CountExtras(s: bytes) returns (extra: nat)
      ensures extra == Extras(s)
    {
      extra := 0;
      var i := 0;
      assert s[0..] == s;
      while i < |s|
        invariant 0 <= i <= |s| && extra + Extras(s[i..]) == Extras(s)
      {
        assert s[i..][1..] == s[i + 1..];
        extra := extra + Extra(s[i]);
        i := i + 1;
      }
    }

    /** The escaping loop, behind the opening quote. */
    method EscapeInto(s: bytes)
      requires Valid() && offset + 1 + |EscapeString(s)| + 2 <= buffer.Length
      modifies buffer
      ensures buffer[..offset + 1 + |EscapeString(s)|] == old(buffer[..offset + 1]) + EscapeString(s)
    {
      hide EscapeByte;
      ghost var before := buffer[..offset + 1];
      var op := offset + 1;
      var i := 0;
      assert s[0..] == s;
      while i < |s|
        invariant 0 <= i <= |s| && offset + 1 <= op && op + |EscapeString(s[i..])| == offset + 1 + |EscapeString(s)|
        invariant buffer[..op] + EscapeString(s[i..]) == before + EscapeString(s)
      {
        EscapeNext(s[i..]);
        assert s[i..][1..] == s[i + 1..];
        var piece := EscapeByte(s[i]);
        Store(op, piece);
        op := op + |piece|;
        i := i + 1;
      }
      EscapeEnd(s[i..]);
      assert buffer[..op] == before + EscapeString(s);
    }

    /** Reserves `spare` bytes more than the piece, writes it, and moves the cursor behind it. */
    method Emit(piece: bytes, spare: nat) returns (ok: bool)
      requires Valid() && spare <= 1
      modifies this`buffer, this`offset, buffer
      ensures Valid() && (buffer == old(buffer) || fresh(buffer)) && (noalloc ==> buffer == old(buffer))
      ensures ok == Room(old(offset) + |piece| + spare + 1)
      ensures ok ==> Written() == old(Written()) + piece
    {
      ok := Ensure(|piece| + spare);
      if ok {
        Store(offset, piece);
        offset := offset + |piece|;
        if spare == 1 {
          buffer[offset] := NUL;
        }
      }
    }

    method PrintValue(v: Json) returns (ok: bool)
      requires Valid() && Writable(v)
      modifies this`buffer, this`offset, this`depth, buffer
      ensures Valid() && (buffer == old(buffer) || fresh(buffer)) && (noalloc ==> buffer == old(buffer))
      ensures ok == (Printable(v) && Room(old(offset) + |Text(v, format, old(depth))| + 2))
      ensures ok ==> Holds(old(Written()) + Text(v, format, old(depth))) && offset >= old(offset) && depth == old(depth)
      decreases v, 2
    {
      hide Room, Holds, Quoted, IntText;
      match v {
        case Invalid => ok := false;
        case Null => ok := PrintWord(NULL_TEXT);
        case False => ok := PrintWord(FALSE_TEXT);
        case True => ok := PrintWord(TRUE_TEXT);
        case Number(d) => ok := PrintNumber(d.Floor);
        case String(s) => ok := PrintString(s);
        case Array(items) => ok := PrintArray(items);
        case Object(members) => ok := PrintObject(members);
      }
    }

    /** A value and the move to its end, as the loops use it. */
    method PrintElement(v: Json) returns (ok: bool)
      requires Valid() && Writable(v)
      modifies this`buffer, this`offset, this`depth, buffer
      ensures Valid() && (buffer == old(buffer) || fresh(buffer)) && (noalloc ==> buffer == old(buffer))
      ensures ok == (Printable(v) && Room(old(offset) + |Text(v, format, old(depth))| + 2))
      ensures ok ==> Written() == old(Written()) + Text(v, format, old(depth)) && depth == old(depth)
      decreases v, 3
    {
      hide Text, Printable, Writable;
      ghost var before := Written();
      ghost var t := Text(v, format, depth);
      ok := PrintValue(v);
      if ok {
        TextIsClean(v, format, old(depth));
        CleanTail(before, t, offset);
        UpdateOffset(before + t);
      }
    }

    method PrintArray(items: seq<Json>) returns (ok: bool)
      requires Valid() && forall i :: 0 <= i < |items| ==> Writable(items[i])
      modifies this`buffer, this`offset, this`depth, buffer
      ensures Valid() && (buffer == old(buffer) || fresh(buffer)) && (noalloc ==> buffer == old(buffer))
      ensures ok == (Printable(Array(items)) && Room(old(offset) + |Text(Array(items), format, old(depth))| + 2))
      ensures ok ==> Holds(old(Written()) + Text(Array(items), format, old(depth))) && offset >= old(offset) && depth == old(depth)
      decreases items, 1
    {
      hide ItemsText, Text, Printable, Writable;
      ghost var before := Written();
      ghost var whole := Text(Array(items), format, depth);
      ArrayParts(items, format, depth);
      ok := Emit([LBRACKET], 0);
      if !ok {
        return;
      }
      depth := depth + 1;
      ok := PrintItems(items);
      if !ok {
        return;
      }
      ghost var inner := Written();
      ok := PrintWord([RBRACKET]);
      depth := depth - 1;
      assert inner + [RBRACKET] == before + whole;
    }

    /** An element and the separator behind it. */
    method PrintItem(v: Json, more: bool) returns (ok: bool)
      requires Valid() && Writable(v)
      modifies this`buffer, this`offset, this`depth, buffer
      ensures Valid() && (buffer == old(buffer) || fresh(buffer)) && (noalloc ==> buffer == old(buffer))
      ensures !ok ==> !Printable(v) || !Room(old(offset) + |Text(v, format, old(depth))| + |Separator(more, format)| + 2)
      ensures ok ==> Printable(v)
      ensures ok ==> Written() == old(Written()) + Text(v, format, old(depth)) + Separator(more, format) && depth == old(depth)
      decreases v, 4
    {
      hide Text, Printable, Writable;
      ok := PrintElement(v);
      if ok && more {
        ok := Emit(Separator(more, format), 1);
      }
    }

    /** The element loop of `print_array`. */
    method PrintItems(items: seq<Json>) returns (ok: bool)
      requires Valid() && forall i :: 0 <= i < |items| ==> Writable(items[i])
      modifies this`buffer, this`offset, this`depth, buffer
      ensures Valid() && (buffer == old(buffer) || fresh(buffer)) && (noalloc ==> buffer == old(buffer))
      ensures !ok ==> !Printable(Array(items)) || !Room(old(offset) + |ItemsText(items, format, old(depth))| + 2)
      ensures ok ==> Printable(Array(items))
      ensures ok ==> Written() == old(Written()) + ItemsText(items, format, old(depth)) && depth == old(depth)
      decreases items, 0
    {
      hide ItemsText, Text, Printable, Writable, Separator;
      ghost var all := Written() + ItemsText(items, format, depth);
      var i := 0;
      assert items[0..] == items;
      while i < |items|
        invariant 0 <= i <= |items| && Valid() && depth == old(depth)
        invariant (buffer == old(buffer) || fresh(buffer)) && (noalloc ==> buffer == old(buffer))
        invariant Written() + ItemsText(items[i..], format, depth) == all
        invariant forall j :: 0 <= j < i ==> Printable(items[j])
      {
        ItemsParts(items, i, format, depth);
        ghost var t, sep := Text(items[i], format, depth), Separator(i + 1 < |items|, format);
        assert offset + |t| + |sep| <= |all|;
        ok := PrintItem(items[i], i + 1 < |items|);
        if !ok {
          ArrayPrintable(items, i);
          return;
        }
        i := i + 1;
        assert Written() + ItemsText(items[i..], format, depth) == all;
      }
      ItemsParts(items, i, format, depth);
      AllPrintable(items, []);
      ok := true;
    }

    method PrintKey(key: bytes) returns (ok: bool)
      requires Valid() && NUL !in key
      modifies this`buffer, this`offset, buffer
      ensures Valid() && (buffer == old(buffer) || fresh(buffer)) && (noalloc ==> buffer == old(buffer))
      ensures ok == Room(old(offset) + |Quoted(key)| + 2)
      ensures ok ==> Written() == old(Written()) + Quoted(key)
    {
      ghost var before := Written();
      ok := PrintString(key);
      if ok {
        EscapedIsClean(key);
        CleanTail(before, Quoted(key), offset);
        UpdateOffset(before + Quoted(key));
      }
    }

    /** The line of a member up to its value. */
    method PrintName(key: bytes) returns (ok: bool)
      requires Valid() && NUL !in key
      modifies this`buffer, this`offset, buffer
      ensures Valid() && (buffer == old(buffer) || fresh(buffer)) && (noalloc ==> buffer == old(buffer))
      ensures !ok ==> !Room(old(offset) + |Name(key, format, depth)| + 2)
      ensures ok ==> Written() == old(Written()) + Name(key, format, depth)
    {
      hide Quoted, Tabs;
      ghost var before := Written();
      ghost var margin: bytes := if format then Tabs(depth) else [];
      if format {
        ok := Emit(Tabs(depth), 0);
        if !ok {
          return;
        }
      }
      assert Written() == before + margin;
      ok := PrintKey(key);
      if !ok {
        return;
      }
      ok := Emit(if format then [COLON, TAB] else [COLON], 0);
    }

    /** One line of an object. */
    method PrintMember(m: Member, more: bool) returns (ok: bool)
      requires Valid() && NUL !in m.key && Writable(m.value)
      modifies this`buffer, this`offset, this`depth, buffer
      ensures Valid() && (buffer == old(buffer) || fresh(buffer)) && (noalloc ==> buffer == old(buffer))
      ensures !ok ==> !Printable(m.value) || !Room(old(offset) + |MemberText(m, more, format, old(depth))| + 2)
      ensures ok ==> Printable(m.value)
      ensures ok ==> Written() == old(Written()) + MemberText(m, more, format, old(depth)) && depth == old(depth)
      decreases m, 4
    {
      hide Text, Printable, Writable, Name, MemberText;
      MemberParts(m, more, format, depth);
      ok := PrintName(m.key);
      if !ok {
        return;
      }
      ok := PrintElement(m.value);
      if !ok {
        return;
      }
      ok := Emit(LineEnd(more, format), 1);
    }

    /** The member loop of `print_object`. */
    method PrintMembers(members: seq<Member>) returns (ok: bool)
      requires Valid() && WritableMembers(members)
      modifies this`buffer, this`offset, this`depth, buffer
      ensures Valid() && (buffer == old(buffer) || fresh(buffer)) && (noalloc ==> buffer == old(buffer))
      ensures !ok ==> !Printable(Object(members)) || !Room(old(offset) + |MembersText(members, format, old(depth))| + 2)
      ensures ok ==> Printable(Object(members))
      ensures ok ==> Written() == old(Written()) + MembersText(members, format, old(depth)) && depth == old(depth)
      decreases members, 0
    {
      hide MembersText, MemberText, Printable, Writable;
      ghost var all := Written() + MembersText(members, format, depth);
      var i := 0;
      assert members[0..] == members;
      while i < |members|
        invariant 0 <= i <= |members| && Valid() && depth == old(depth)
        invariant (buffer == old(buffer) || fresh(buffer)) && (noalloc ==> buffer == old(buffer))
        invariant Written() + MembersText(members[i..], format, depth) == all
        invariant forall j :: 0 <= j < i ==> Printable(members[j].value)
      {
        MembersParts(members, i, format, depth);
        ghost var before := Written();
        ok := PrintMember(members[i], i + 1 < |members|);
        if !ok {
          ObjectPrintable(members, i);
          return;
        }
        i := i + 1;
        assert Written() + MembersText(members[i..], format, depth) == all;
      }
      MembersParts(members, i, format, depth);
      AllPrintable([], members);
      ok := true;
    }

    method PrintObject(members: seq<Member>) returns (ok: bool)
      requires Valid() && WritableMembers(members)
      modifies this`buffer, this`offset, this`depth, buffer
      ensures Valid() && (buffer == old(buffer) || fresh(buffer)) && (noalloc ==> buffer == old(buffer))
      ensures ok == (Printable(Object(members)) && Room(old(offset) + |Text(Object(members), format, old(depth))| + 2))
      ensures ok ==> Holds(old(Written()) + Text(Object(members), format, old(depth))) && offset >= old(offset) && depth == old(depth)
      decreases members, 1
    {
      hide MembersText, Text, Tabs, Printable, Writable;
      ghost var before := Written();
      ghost var whole := Text(Object(members), format, depth);
      ObjectParts(members, format, depth);
      ok := Emit(if format then [LBRACE, NEWLINE] else [LBRACE], 1);
      if !ok {
        return;
      }
      depth := depth + 1;
      ok := PrintMembers(members);
      if !ok {
        return;
      }
      ghost var inner := Written();
      var foot := if format then Tabs(depth - 1) + [RBRACE] else [RBRACE];
      ok := PrintWord(foot);
      depth := depth - 1;
      assert inner + foot == before + whole;
    }
  }

  function Name(key: bytes, format: bool, depth: nat): bytes {
    (if format then Tabs(depth) else []) + Quoted(key) + (if format then [COLON, TAB] else [COLON])
  }

  function LineEnd(more: bool, format: bool): bytes {
    (if more then [COMMA] else []) + (if format then [NEWLINE] else [])
  }

  lemma MemberParts(m: Member, more: bool, format: bool, depth: nat)
    ensures MemberText(m, more, format, depth) == Name(m.key, format, depth) + Text(m.value, format, depth) + LineEnd(more, format)
  {
    hide Text, Quoted, Tabs;
  }

  lemma ObjectParts(members: seq<Member>, format: bool, depth: nat)
    ensures Text(Object(members), format, depth)
            == (if format then [LBRACE, NEWLINE] else [LBRACE]) + MembersText(members, format, depth + 1)
               + (if format then Tabs(depth) + [RBRACE] else [RBRACE])
  {
  }

  /** The text of the members from `i` on. */
  lemma MembersParts(members: seq<Member>, i: nat, format: bool, depth: nat)
    requires i <= |members|
    ensures MembersText(members[i..], format, depth)
            == if i == |members| then []
               else MemberText(members[i], i + 1 < |members|, format, depth) + MembersText(members[i + 1..], format, depth)
  {
    if i < |members| {
      assert members[i..][1..] == members[i + 1..];
    }
  }

  const DEFAULT_BUFFER_SIZE := 256

  /** `cJSON_Print` and `cJSON_PrintUnformatted`: the text, unless an item is Invalid or the text and two more bytes
      exceed the int range. */
  method Print(v: Json, format: bool) returns (r: Option<bytes>)
    requires Writable(v)
    ensures r == if Printable(v) && |Text(v, format, 0)| + 2 <= INT_MAX then Some(Text(v, format, 0)) else None
  {
    hide Text, Printable, Writable;
    var storage := new byte[DEFAULT_BUFFER_SIZE];
    var p := new PrintBuffer(storage, false, format);
    var ok := p.PrintElement(v);
    assert [] + Text(v, format, 0) == Text(v, format, 0);
    if ok {
      r := Some(p.buffer[..p.offset]);
    } else {
      r := None;
    }
  }

  /** `cJSON_PrintPreallocated`: succeeds exactly when no item is Invalid and the caller's buffer has two bytes more
      than the text. */
  method PrintPreallocated(v: Json, storage: array<byte>, format: bool) returns (ok: bool)
    requires Writable(v) && storage.Length <= INT_MAX
    modifies storage
    ensures ok == (Printable(v) && |Text(v, format, 0)| + 2 <= storage.Length)
    ensures ok ==> storage[..|Text(v, format, 0)| + 1] == Text(v, format, 0) + [NUL]
  {
    hide Text, Printable, Writable;
    var p := new PrintBuffer(storage, true, format);
    ok := p.PrintValue(v);
    if ok {
      ghost var t := Text(v, format, 0);
      assert p.buffer == storage && [] + t == t;
      assert storage[..|t| + 1] == storage[..|t|] + [storage[|t|]];
    }
  }

  lemma ArrayPrintable(items: seq<Json>, i: nat)
    requires i < |items|
    ensures Printable(Array(items)) ==> Printable(items[i])
  {
  }

  lemma ObjectPrintable(members: seq<Member>, i: nat)
    requires i < |members|
    ensures Printable(Object(members)) ==> Printable(members[i].value)
  {
    assert Printable(Object(members)) ==> PrintableMembers(members);
  }

  lemma AllPrintable(items: seq<Json>, members: seq<Member>)
    ensures (forall i :: 0 <= i < |items| ==> Printable(items[i])) ==> Printable(Array(items))
    ensures (forall i :: 0 <= i < |members| ==> NUL !in members[i].key && Printable(members[i].value)) ==> Printable(Object(members))
  {
  }

  function Separator(more: bool, format: bool): bytes {
    if !more then [] else if format then [COMMA, 32] else [COMMA]
  }

  lemma ArrayParts(items: seq<Json>, format: bool, depth: nat)
    ensures Text(Array(items), format, depth) == [LBRACKET] + ItemsText(items, format, depth + 1) + [RBRACKET]
  {
  }

  /** The text of the elements from `i` on. */
  lemma ItemsParts(items: seq<Json>, i: nat, format: bool, depth: nat)
    requires i <= |items|
    ensures ItemsText(items[i..], format, depth)
            == if i == |items| then []
               else Text(items[i], format, depth)
                    + Separator(i + 1 < |items|, format)
                    + ItemsText(items[i + 1..], format, depth)
  {
    if i < |items| {
      assert items[i..][1..] == items[i + 1..];
    }
  }

  lemma CleanTail(front: bytes, t: bytes, offset: nat)
    requires NUL !in t && |front| <= offset <= |front + t|
    ensures NUL !in (front + t)[offset..]
  {
  }

  lemma EscapeNext(s: bytes)
    requires s != []
    ensures EscapeString(s) == EscapeByte(s[0]) + EscapeString(s[1..])
  {
  }

  lemma EscapeEnd(s: bytes)
    ensures s == [] ==> EscapeString(s) == []
  {
  }

  lemma QuotedParts(all: bytes, front: bytes, e: bytes)
    requires all == front + [QUOTE] + e + [QUOTE, NUL]
    ensures var s := front + ([QUOTE] + e + [QUOTE]); |all| == |s| + 1 && all[..|s|] == s && all[|s|] == NUL
  {
  }

  lemma LastOf(all: bytes, front: bytes, piece: bytes)
    requires all == front + (piece + [NUL]) || all == front + piece + [NUL]
    ensures |all| == |front + piece| + 1 && all[..|front + piece|] == front + piece && all[|front + piece|] == NUL
  {
  }
}
