/** Parsing printed text gives back the tree, formatted or not, exactly up to the nesting limit. */
module JsonRoundTrip {
  import opened Bytes
  import opened KeySort
  import opened JsonTree
  import opened JsonText
  import opened JsonTokens
  import opened JsonGrammar

  // ----- strings

  /** The spelling the printer chooses for a byte: itself, a short escape, or a code unit in lower-case digits. */
  function CharOf(b: byte): Char {
    if b >= 32 && b != QUOTE && b != BACKSLASH then Plain(b)
    else if b == QUOTE || b == BACKSLASH then Short(b)
    else if b == 8 then Short('b' as int)
    else if b == 12 then Short('f' as int)
    else if b == 10 then Short('n' as int)
    else if b == 13 then Short('r' as int)
    else if b == 9 then Short('t' as int)
    else Unicode(Ascii("00") + [HexDigit(b / 16), HexDigit(b % 16)])
  }

  function CharsOf(s: bytes): (r: seq<Char>)
    ensures |r| == |s| && forall i :: 0 <= i < |s| ==> r[i] == CharOf(s[i])
  {
    seq(|s|, i requires 0 <= i < |s| => CharOf(s[i]))
  }

  lemma HexDigitValue(n: nat)
    requires n < 16
    ensures HexValue(HexDigit(n)) == Some(n)
  {
  }

  /** A byte is written in a spelling of the grammar that stands for that byte. */
  lemma CharIsByte(b: byte)
    ensures Spellable(CharOf(b)) && Content(CharOf(b)) == [b] && EscapeByte(b) == Spelled(CharOf(b))
  {
    if CharOf(b).Unicode? {
      HexDigitValue(b / 16);
      HexDigitValue(b % 16);
      var ds := CharOf(b).digits;
      assert Ascii("00") == [ZERO, ZERO] && ds == [ZERO, ZERO, HexDigit(b / 16), HexDigit(b % 16)];
      hide HexDigit;
      assert HexValue(ZERO) == Some(0);
      assert Unit(ds) == 16 * (b / 16) + b % 16;
    }
  }

  lemma {:induction false} CharsAreString(s: bytes)
    ensures AllSpellable(CharsOf(s)) && ContentAll(CharsOf(s)) == s && EscapeString(s) == SpelledAll(CharsOf(s))
  {
    hide Spellable, Content, Spelled, EscapeByte, CharOf;
    forall i | 0 <= i < |s| ensures Spellable(CharsOf(s)[i]) {
      CharIsByte(s[i]);
    }
    if s != [] {
      CharIsByte(s[0]);
      CharsAreString(s[1..]);
      assert CharsOf(s)[1..] == CharsOf(s[1..]);
    }
  }

  lemma {:induction false} CStringWhole(s: bytes)
    requires NUL !in s
    ensures CString(s) == s
  {
    if s != [] {
      assert s[0] in s && forall b :: b in s[1..] ==> b in s;
      CStringWhole(s[1..]);
    }
  }

  /** A printed string is read back, and reading stops right after it. */
  lemma StringRoundTrip(s: bytes, post: bytes)
    requires NUL !in s
    ensures ParseString(Quoted(s) + post) == Some((s, post))
  {
    hide ParseString, SpelledAll, ContentAll, EscapeString;
    CharsAreString(s);
    StringToken(CharsOf(s), post);
    CStringWhole(s);
  }

  // ----- numbers

  /** A printed int as a number of the grammar. */
  function FigureOf(n: int): Figure {
    Figure(n < 0, Decimal(if n < 0 then -n else n), [], None)
  }

  lemma FigureIsInt(n: int)
    ensures FigureShape(FigureOf(n)) && FigureText(FigureOf(n)) == IntText(n) && FigureValue(FigureOf(n)) == n as real
  {
    var m := if n < 0 then -n else n;
    DecimalRoundTrip(m);
    hide Decimal, Numeral;
    assert Ascii("-") == [MINUS];
    assert Decimal(m) + [] == Decimal(m);
    assert Pow10(0) == 1.0;
  }

  lemma {:induction false} DecimalLength(n: nat, k: nat)
    requires n < Power10(k) && k >= 1
    ensures |Decimal(n)| <= k
  {
    assert Power10(1) == 10 * Power10(0);
    if n >= 10 {
      DecimalLength(n / 10, k - 1);
    }
  }

  function Power10(k: nat): nat {
    if k == 0 then 1 else 10 * Power10(k - 1)
  }

  lemma TenDigits(m: nat)
    requires m <= -INT_MIN
    ensures |Decimal(m)| <= 10
  {
    assert m < Power10(10) by {
      assert Power10(5) == 100000;
      assert Power10(10) == 100000 * Power10(5);
    }
    DecimalLength(m, 10);
  }

  /** A printed int, followed by a byte that cannot belong to it, is read back. */
  lemma NumberRoundTrip(n: int, post: bytes)
    requires INT_MIN <= n <= INT_MAX && (post != [] ==> !NumberByte(post[0]))
    ensures NumberText(IntText(n), n as real)
    ensures ParseNumber(IntText(n) + post) == Some((Number(n as real), post))
  {
    hide FigureValue, FigureText, ParseNumber, NumberText, FigureShape;
    TenDigits(if n < 0 then -n else n);
    FigureIsInt(n);
    NumberToken(FigureOf(n), post);
  }

  // ----- layout

  /** Where the printer puts white space: none without formatting. With it, a blank behind each comma of an array, and
      each member of an object on its own line, indented by its depth, with a tab behind the colon. */
  function Layout(v: Json, format: bool, depth: nat): Syntax
    decreases v, 1
  {
    match v
    case Number(d) => Figures(IntText(d.Floor), d)
    case String(s) => Quote(Quoted(s), s)
    case Array(items) => if items == [] then Hollow(LBRACKET, []) else List(LayoutItems(items, format, depth + 1, true))
    case Object(members) =>
      if members == [] then Hollow(LBRACE, Line(format, depth)) else Dict(LayoutMembers(members, format, depth + 1))
    case _ => Word(v)
  }

  /** A new line with its indentation. */
  function Line(format: bool, depth: nat): bytes {
    if format then Ascii("\n") + Tabs(depth) else []
  }

  function LayoutItems(items: seq<Json>, format: bool, depth: nat, first: bool): (r: seq<Entry>)
    ensures |r| == |items|
    decreases items, 0
  {
    if items == [] then []
    else
      [Entry(if format && !first then Ascii(" ") else [], Layout(items[0], format, depth), [])]
      + LayoutItems(items[1..], format, depth, false)
  }

  function LayoutMembers(members: seq<Member>, format: bool, depth: nat): (r: seq<Pair>)
    requires depth > 0
    ensures |r| == |members|
    decreases members, 0
  {
    if members == [] then []
    else
      var m := members[0];
      [Pair(Line(format, depth), Quoted(m.key), m.key, [], if format then Ascii("\t") else [],
            Layout(m.value, format, depth), if |members| == 1 then Line(format, depth - 1) else [])]
      + LayoutMembers(members[1..], format, depth)
  }

  lemma Spaces()
    ensures Ascii("\n") == [NEWLINE] && Ascii("\t") == [TAB] && Ascii(" ") == [32]
  {
  }

  /** A new line is indented by one tab for each level. */
  lemma Indentation(depth: nat)
    ensures Line(false, depth) == [] && |Line(true, depth)| == 1 + depth && Line(true, depth)[0] == '\n' as int
    ensures forall i :: 1 <= i <= depth ==> Line(true, depth)[i] == '\t' as int
  {
    Spaces();
  }

  /** The layout is a text of the grammar that means the tree. */
  lemma {:induction false} LayoutIsProper(v: Json, format: bool, depth: nat)
    requires Printable(v)
    ensures Proper(Layout(v, format, depth)) && Means(Layout(v, format, depth)) == v
    decreases v, 1
  {
    hide NumberText, StringText, Quoted, IntText, LayoutItems, LayoutMembers, ProperEntries, ProperPairs,
      MeansEntries, MeansPairs, Blank;
    match v {
      case Number(d) => NumberRoundTrip(d.Floor, []);
      case String(s) => QuotedIsString(s);
      case Array(items) =>
        NoBlank(format, depth);
        ItemsAreLaid(items, format, depth + 1, true);
      case Object(members) =>
        NoBlank(format, depth);
        MembersAreLaid(members, format, depth + 1);
      case _ =>
    }
  }

  lemma NoBlank(format: bool, depth: nat)
    ensures Blank([]) && Blank(Line(format, depth)) && MeansEntries([]) == [] && MeansPairs([]) == []
  {
    Spaces();
  }

  lemma {:induction false} ItemsAreLaid(items: seq<Json>, format: bool, depth: nat, first: bool)
    requires forall i :: 0 <= i < |items| ==> Printable(items[i])
    ensures var es := LayoutItems(items, format, depth, first); ProperEntries(es) && MeansEntries(es) == items
    decreases items, 0
  {
    hide Proper, Printable, Layout, Means;
    Spaces();
    if items != [] {
      LayoutIsProper(items[0], format, depth);
      ItemsAreLaid(items[1..], format, depth, false);
      assert LayoutItems(items, format, depth, first)[1..] == LayoutItems(items[1..], format, depth, false);
      assert items == [items[0]] + items[1..];
    }
  }

  lemma {:induction false} MembersAreLaid(members: seq<Member>, format: bool, depth: nat)
    requires PrintableMembers(members) && depth > 0
    ensures ProperPairs(LayoutMembers(members, format, depth)) && MeansPairs(LayoutMembers(members, format, depth)) == members
    decreases members, 0
  {
    hide Proper, Printable, Layout, Means, StringText, Quoted;
    Spaces();
    if members != [] {
      var m := members[0];
      QuotedIsString(m.key);
      LayoutIsProper(m.value, format, depth);
      assert PrintableMembers(members[1..]);
      MembersAreLaid(members[1..], format, depth);
      assert LayoutMembers(members, format, depth)[1..] == LayoutMembers(members[1..], format, depth);
      assert members == [m] + members[1..];
    }
  }

  lemma QuotedIsString(s: bytes)
    requires NUL !in s
    ensures StringText(Quoted(s), s)
  {
    StringRoundTrip(s, []);
    assert Quoted(s) + [] == Quoted(s);
  }

  /** Printed text is laid out so. */
  lemma {:induction false} TextIsLayout(v: Json, format: bool, depth: nat, post: bytes)
    requires Printable(v)
    ensures Write(Layout(v, format, depth), post) == Text(v, format, depth) + post
    decreases v, 1
  {
    Marks();
    Spaces();
    match v {
      case Array(items) => ArrayIsLayout(items, format, depth, post);
      case Object(members) => ObjectIsLayout(members, format, depth, post);
      case _ =>
    }
  }

  lemma {:induction false} ArrayIsLayout(items: seq<Json>, format: bool, depth: nat, post: bytes)
    requires forall i :: 0 <= i < |items| ==> Printable(items[i])
    ensures Write(Layout(Array(items), format, depth), post) == Text(Array(items), format, depth) + post
    decreases items, 1
  {
    hide Printable, Layout, LayoutItems, ItemsText, WriteEntries;
    Marks();
    var t := ItemsText(items, format, depth + 1);
    assert [LBRACKET] + t + [RBRACKET] + post == [LBRACKET] + (t + ([RBRACKET] + post));
    LayoutOfArray(items, format, depth, post);
    if items != [] {
      ItemsAreLayout(items, format, depth + 1, true, [RBRACKET] + post);
      assert [] + (t + ([RBRACKET] + post)) == t + ([RBRACKET] + post);
    } else {
      NoText(format, depth + 1);
      assert [] + ([RBRACKET] + post) == [RBRACKET] + post;
    }
  }

  lemma LayoutOfArray(items: seq<Json>, format: bool, depth: nat, post: bytes)
    ensures Write(Layout(Array(items), format, depth), post)
            == if items == [] then [LBRACKET] + ([] + ([RBRACKET] + post))
               else [LBRACKET] + WriteEntries(LayoutItems(items, format, depth + 1, true), [RBRACKET] + post)
  {
    Marks();
  }

  lemma NoText(format: bool, depth: nat)
    ensures ItemsText([], format, depth) == [] && MembersText([], format, depth) == []
  {
  }

  lemma {:induction false} ItemsAreLayout(items: seq<Json>, format: bool, depth: nat, first: bool, post: bytes)
    requires items != [] && forall i :: 0 <= i < |items| ==> Printable(items[i])
    ensures WriteEntries(LayoutItems(items, format, depth, first), post)
            == (if format && !first then [32] else []) + (ItemsText(items, format, depth) + post)
    decreases items, 0
  {
    hide Printable, Layout, Text, Write;
    Marks();
    Spaces();
    var t, rest := Text(items[0], format, depth), ItemsText(items[1..], format, depth);
    var es := LayoutItems(items, format, depth, first);
    assert es[1..] == LayoutItems(items[1..], format, depth, false);
    if |items| == 1 {
      NoText(format, depth);
      assert items[1..] == [] && t + [] + [] == t && [] + post == post;
      TextIsLayout(items[0], format, depth, post);
    } else {
      var gap: bytes := if format then [32] else [];
      var follow := [COMMA] + (gap + (rest + post));
      ItemsAreLayout(items[1..], format, depth, false, post);
      assert [] + follow == follow;
      TextIsLayout(items[0], format, depth, follow);
      assert (if format then [COMMA, 32] else [COMMA]) == [COMMA] + gap;
      Separated(t, gap, rest, post);
    }
  }

  lemma Separated(t: bytes, gap: bytes, rest: bytes, close: bytes)
    ensures t + ([COMMA] + gap) + rest + close == t + ([COMMA] + (gap + (rest + close)))
  {
    assert t + ([COMMA] + gap) + rest + close == t + ([COMMA] + gap) + (rest + close);
    assert [COMMA] + gap + (rest + close) == [COMMA] + (gap + (rest + close));
  }

  /** The end of a line. */
  function LineEnd(format: bool): bytes {
    if format then [NEWLINE] else []
  }

  function Indent(format: bool, depth: nat): bytes {
    if format then Tabs(depth) else []
  }

  lemma LineIs(format: bool, depth: nat)
    ensures Line(format, depth) == LineEnd(format) + Indent(format, depth)
  {
    Spaces();
  }

  lemma {:induction false} ObjectIsLayout(members: seq<Member>, format: bool, depth: nat, post: bytes)
    requires PrintableMembers(members)
    ensures Write(Layout(Object(members), format, depth), post) == Text(Object(members), format, depth) + post
    decreases members, 1
  {
    hide Printable, Layout, LayoutMembers, MembersText, WritePairs, Tabs, Text, Write, Line, LineEnd, Indent;
    LayoutOfObject(members, format, depth, post);
    ObjectText(members, format, depth, post);
    LineIs(format, depth);
    var end := [RBRACE] + post;
    if members == [] {
      NoText(format, depth + 1);
      NothingBetween(LineEnd(format), Indent(format, depth), end);
    } else {
      MembersAreLayout(members, format, depth + 1, end);
    }
  }

  lemma NothingBetween(a: bytes, b: bytes, c: bytes)
    ensures a + ([] + (b + c)) == a + b + c
  {
    assert [] + (b + c) == b + c;
  }

  lemma LayoutOfObject(members: seq<Member>, format: bool, depth: nat, post: bytes)
    ensures Write(Layout(Object(members), format, depth), post)
            == if members == [] then [LBRACE] + (Line(format, depth) + ([RBRACE] + post))
               else [LBRACE] + WritePairs(LayoutMembers(members, format, depth + 1), [RBRACE] + post)
  {
    hide LayoutMembers, WritePairs, Line, Ascii;
    Marks();
  }

  lemma ObjectText(members: seq<Member>, format: bool, depth: nat, post: bytes)
    ensures Text(Object(members), format, depth) + post
            == [LBRACE] + (LineEnd(format) + (MembersText(members, format, depth + 1) + (Indent(format, depth) + ([RBRACE] + post))))
  {
    hide MembersText, Tabs;
  }

  /** The members regrouped: what stands behind a line break in the text stands in front of the next name in the layout. */
  lemma {:induction false} MembersAreLayout(members: seq<Member>, format: bool, depth: nat, end: bytes)
    requires members != [] && PrintableMembers(members) && depth > 0
    ensures WritePairs(LayoutMembers(members, format, depth), end)
            == LineEnd(format) + (MembersText(members, format, depth) + (Indent(format, depth - 1) + end))
    decreases members, 0
  {
    hide Printable, Layout, Text, Write, Quoted, Line, LineEnd, Indent, MemberText, MembersText, LayoutMembers,
      WritePairs, WritePair;
    var m, more := members[0], |members| > 1;
    var tail := Indent(format, depth - 1) + end;
    var rest := if more then MembersText(members[1..], format, depth) + tail else tail;
    var follow := (if more then [COMMA] else []) + (LineEnd(format) + rest);
    if more {
      assert PrintableMembers(members[1..]);
      MembersAreLayout(members[1..], format, depth, end);
      assert [] + ([COMMA] + WritePairs(LayoutMembers(members[1..], format, depth), end)) == follow;
    } else {
      LineIs(format, depth - 1);
      assert Line(format, depth - 1) + end == follow;
    }
    FirstPairIs(members, format, depth, end);
    FirstLineIs(members, format, depth, tail);
    TextIsLayout(m.value, format, depth, follow);
    LineIs(format, depth);
    var line := Quoted(m.key) + ([] + ([COLON] + (ColonGap(format) + (Text(m.value, format, depth) + follow))));
    assert LineEnd(format) + (Indent(format, depth) + line) == Line(format, depth) + line;
    assert [] + ([COLON] + (ColonGap(format) + (Text(m.value, format, depth) + follow)))
           == [COLON] + (ColonGap(format) + (Text(m.value, format, depth) + follow));
  }

  function ColonGap(format: bool): bytes {
    if format then [TAB] else []
  }

  lemma FirstPairIs(members: seq<Member>, format: bool, depth: nat, end: bytes)
    requires members != [] && depth > 0
    ensures var m := members[0];
            var follow := if |members| == 1 then Line(format, depth - 1) + end
                          else [] + ([COMMA] + WritePairs(LayoutMembers(members[1..], format, depth), end));
            WritePairs(LayoutMembers(members, format, depth), end)
            == Line(format, depth)
               + (Quoted(m.key) + ([] + ([COLON] + (ColonGap(format) + Write(Layout(m.value, format, depth), follow)))))
  {
    hide Layout, Write, Quoted, Line;
    Marks();
    Spaces();
    assert LayoutMembers(members, format, depth)[1..] == LayoutMembers(members[1..], format, depth);
  }

  lemma FirstLineIs(members: seq<Member>, format: bool, depth: nat, tail: bytes)
    requires members != []
    ensures var m, more := members[0], |members| > 1;
            var rest := if more then MembersText(members[1..], format, depth) + tail else tail;
            var follow := (if more then [COMMA] else []) + (LineEnd(format) + rest);
            MembersText(members, format, depth) + tail
            == Indent(format, depth) + (Quoted(m.key) + ([COLON] + (ColonGap(format) + (Text(m.value, format, depth) + follow))))
  {
    hide Text, Quoted, MembersText, MemberText, LineEnd, Indent, ColonGap;
    var m, more := members[0], |members| > 1;
    var comma: bytes := if more then [COMMA] else [];
    var others := MembersText(members[1..], format, depth);
    if !more {
      assert members[1..] == [];
      NoText(format, depth);
      assert [] + tail == tail;
    }
    MembersFirst(members, format, depth);
    MemberIs(m, more, format, depth);
    Regroup(Indent(format, depth), Quoted(m.key), ColonGap(format), Text(m.value, format, depth), comma, LineEnd(format),
            others, tail);
  }

  lemma MembersFirst(members: seq<Member>, format: bool, depth: nat)
    requires members != []
    ensures MembersText(members, format, depth)
            == MemberText(members[0], |members| > 1, format, depth) + MembersText(members[1..], format, depth)
  {
    hide MemberText;
  }

  lemma MemberIs(m: Member, more: bool, format: bool, depth: nat)
    ensures MemberText(m, more, format, depth)
            == Indent(format, depth) + Quoted(m.key) + ([COLON] + ColonGap(format)) + Text(m.value, format, depth)
               + (if more then [COMMA] else []) + LineEnd(format)
  {
    hide Text, Quoted, Tabs;
    assert [COLON] + [TAB] == [COLON, TAB] && [COLON] + [] == [COLON];
  }

  lemma Regroup(a: bytes, b: bytes, c: bytes, d: bytes, e: bytes, f: bytes, others: bytes, tail: bytes)
    ensures a + b + ([COLON] + c) + d + e + f + others + tail == a + (b + ([COLON] + (c + (d + (e + (f + (others + tail)))))))
  {
    var u := others + tail;
    assert a + b + ([COLON] + c) + d + e + f + others + tail == a + b + ([COLON] + c) + d + e + f + u;
    var v := e + (f + u);
    assert a + b + ([COLON] + c) + d + e + f + u == a + b + ([COLON] + c) + d + v;
    var w := [COLON] + c + (d + v);
    assert w == [COLON] + (c + (d + v));
    assert a + b + ([COLON] + c) + d + v == a + (b + w);
  }

  // ----- round trips

  /** What the parser makes of a printed value: the value itself, unless it is nested too deeply. */
  lemma ValueReadBack(v: Json, format: bool, indent: nat, depth: nat, post: bytes)
    requires Printable(v) && Delimits(post) && depth <= NESTING_LIMIT
    ensures ParseValue(Text(v, format, indent) + post, depth)
            == if depth + Depth(v) <= NESTING_LIMIT then Some((v, post)) else None
  {
    hide ParseValue, Text, Layout, Write, Proper, Means, Printable, Depth;
    LayoutIsProper(v, format, indent);
    TextIsLayout(v, format, indent, post);
    ValueRead(Layout(v, format, indent), depth, post);
  }

  /** Printing then parsing gives the tree back, for both layouts and with or without the check for trailing bytes,
      exactly when it is nested no deeper than the limit. */
  lemma PrintThenParse(v: Json, format: bool, requireEnd: bool)
    requires Printable(v)
    ensures Parse(Text(v, format, 0), requireEnd) == if Depth(v) <= NESTING_LIMIT then Some(v) else None
  {
    hide Parse, Text, Layout, Write, Proper, Means, Printable, Depth;
    var t := Text(v, format, 0);
    LayoutIsProper(v, format, 0);
    TextIsLayout(v, format, 0, []);
    assert t + [] == t && [] + ([] + t) == t;
    assert SpelledSo(t, v, [], [], Layout(v, format, 0), []);
    SpelledIsParsed(t, v, requireEnd);
  }
}
