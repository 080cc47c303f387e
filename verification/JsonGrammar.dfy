/** The grammar of JSON text (section 2 of RFC 8259): the parser takes exactly these texts, up to its nesting limit. */
module JsonGrammar {
  import opened Bytes
  import opened KeySort
  import opened JsonTree
  import opened JsonText
  import opened JsonTokens

  // ----- how deep a tree is

  /** How deeply arrays and objects are nested in a tree. */
  function Depth(v: Json): nat
    decreases v, 1
  {
    match v
    case Array(items) => 1 + ItemsDepth(items)
    case Object(members) => 1 + MembersDepth(members)
    case _ => 0
  }

  function ItemsDepth(items: seq<Json>): nat
    decreases items, 0
  {
    if items == [] then 0 else Larger(Depth(items[0]), ItemsDepth(items[1..]))
  }

  function MembersDepth(members: seq<Member>): nat
    decreases members, 0
  {
    if members == [] then 0 else Larger(Depth(members[0].value), MembersDepth(members[1..]))
  }

  function Larger(a: nat, b: nat): nat {
    if a < b then b else a
  }

  // ----- the grammar

  /** A value as it is written, with all its white space. */
  datatype Syntax =
    | Word(value: Json)
    | Figures(raw: bytes, d: real)
    | Quote(raw: bytes, content: bytes)
    | Hollow(open: byte, blank: bytes)
    | List(entries: seq<Entry>)
    | Dict(pairs: seq<Pair>)

  datatype Entry = Entry(before: bytes, value: Syntax, after: bytes)

  /** `key` is the name as it is written, `name` what it means; `colon` and `gap` stand around the colon. */
  datatype Pair = Pair(before: bytes, key: bytes, name: bytes, colon: bytes, gap: bytes, value: Syntax, after: bytes)

  /** The tokens are what they claim to be and blanks are blank. */
  ghost predicate Proper(s: Syntax)
    decreases s, 1
  {
    match s
    case Word(v) => v == Null || v == False || v == True
    case Figures(raw, d) => NumberText(raw, d)
    case Quote(raw, content) => StringText(raw, content)
    case Hollow(open, blank) => (open == LBRACKET || open == LBRACE) && Blank(blank)
    case List(entries) => entries != [] && ProperEntries(entries)
    case Dict(pairs) => pairs != [] && ProperPairs(pairs)
  }

  ghost predicate ProperEntries(entries: seq<Entry>)
    decreases entries, 0
  {
    forall i :: 0 <= i < |entries| ==> Blank(entries[i].before) && Proper(entries[i].value) && Blank(entries[i].after)
  }

  ghost predicate ProperPairs(pairs: seq<Pair>)
    decreases pairs, 0
  {
    forall i :: 0 <= i < |pairs| ==>
      Blank(pairs[i].before) && StringText(pairs[i].key, pairs[i].name) && Blank(pairs[i].colon) && Blank(pairs[i].gap) &&
      Proper(pairs[i].value) && Blank(pairs[i].after)
  }

  /** The text of a value, with another text behind it. */
  function Write(s: Syntax, post: bytes): bytes
    decreases s, 1
  {
    match s
    case Word(v) => (if v == Null then Ascii("null") else if v == False then Ascii("false") else Ascii("true")) + post
    case Figures(raw, _) => raw + post
    case Quote(raw, _) => raw + post
    case Hollow(open, blank) => if open == LBRACKET then Ascii("[") + (blank + (Ascii("]") + post))
                                else Ascii("{") + (blank + (Ascii("}") + post))
    case List(entries) => Ascii("[") + WriteEntries(entries, Ascii("]") + post)
    case Dict(pairs) => Ascii("{") + WritePairs(pairs, Ascii("}") + post)
  }

  function WriteEntries(entries: seq<Entry>, post: bytes): bytes
    decreases entries, 0
  {
    if entries == [] then post
    else
      var e := entries[0];
      e.before + Write(e.value, e.after + if |entries| == 1 then post else Ascii(",") + WriteEntries(entries[1..], post))
  }

  function WritePairs(pairs: seq<Pair>, post: bytes): bytes
    decreases pairs, 0
  {
    if pairs == [] then post
    else
      var p := pairs[0];
      var rest := p.after + if |pairs| == 1 then post else Ascii(",") + WritePairs(pairs[1..], post);
      p.before + (p.key + (p.colon + (Ascii(":") + (p.gap + Write(p.value, rest)))))
  }

  function Means(s: Syntax): Json
    decreases s, 1
  {
    match s
    case Word(v) => v
    case Figures(_, d) => Number(d)
    case Quote(_, content) => String(content)
    case Hollow(open, _) => if open == LBRACKET then Array([]) else Object([])
    case List(entries) => Array(MeansEntries(entries))
    case Dict(pairs) => Object(MeansPairs(pairs))
  }

  function MeansEntries(entries: seq<Entry>): (r: seq<Json>)
    ensures |r| == |entries|
    decreases entries, 0
  {
    if entries == [] then [] else [Means(entries[0].value)] + MeansEntries(entries[1..])
  }

  function MeansPairs(pairs: seq<Pair>): (r: seq<Member>)
    ensures |r| == |pairs|
    decreases pairs, 0
  {
    if pairs == [] then [] else [Keyed(pairs[0].name, Means(pairs[0].value))] + MeansPairs(pairs[1..])
  }

  // ----- every text of the grammar is read

  /** The first byte of a value. */
  predicate StartByte(b: byte) {
    b == 110 || b == 102 || b == 116 || b == QUOTE || b == MINUS || IsDigit(b) || b == LBRACKET || b == LBRACE
  }

  lemma Marks()
    ensures Ascii("[") == [LBRACKET] && Ascii("]") == [RBRACKET] && Ascii("{") == [LBRACE] && Ascii("}") == [RBRACE]
    ensures Ascii(",") == [COMMA] && Ascii(":") == [COLON]
    ensures Ascii("null") == NULL_TEXT && Ascii("false") == FALSE_TEXT && Ascii("true") == TRUE_TEXT
  {
  }

  lemma WriteStarts(s: Syntax, post: bytes)
    requires Proper(s)
    ensures Write(s, post) != [] && StartByte(Write(s, post)[0])
  {
    Marks();
    if s.Quote? {
      StringLocal(s.raw, []);
    }
  }

  /** What follows a value cannot be taken for part of a number. */
  predicate Delimits(post: bytes) {
    post != [] && !NumberByte(post[0])
  }

  /** The parser reads the value and leaves what follows, unless the value is nested too deeply. */
  ghost predicate ReadsBack(s: Syntax, depth: nat, post: bytes) {
    ParseValue(Write(s, post), depth) == if depth + Depth(Means(s)) <= NESTING_LIMIT then Some((Means(s), post)) else None
  }

  lemma NotWord(r: bytes)
    requires r != [] && r[0] != 110 && r[0] != 102 && r[0] != 116
    ensures !StartsWith(r, NULL_TEXT) && !StartsWith(r, FALSE_TEXT) && !StartsWith(r, TRUE_TEXT)
  {
    assert |r| >= 4 ==> r[..4][0] == r[0];
    assert |r| >= 5 ==> r[..5][0] == r[0];
  }

  /** The branches of the parser for an array and for an object. */
  lemma AtBracket(r: bytes, depth: nat)
    requires r != [] && r[0] == LBRACKET
    ensures var inside := Skip(r[1..]);
            ParseValue(r, depth)
            == if depth >= NESTING_LIMIT then None
               else if inside != [] && inside[0] == RBRACKET then Some((Array([]), inside[1..]))
               else if ParseItems(inside, depth + 1).None? then None
               else Some((Array(ParseItems(inside, depth + 1).value.0), ParseItems(inside, depth + 1).value.1))
  {
    hide Skip, ParseItems, StartsWith;
    NotWord(r);
  }

  lemma AtBrace(r: bytes, depth: nat)
    requires r != [] && r[0] == LBRACE
    ensures var inside := Skip(r[1..]);
            ParseValue(r, depth)
            == if depth >= NESTING_LIMIT then None
               else if inside != [] && inside[0] == RBRACE then Some((Object([]), inside[1..]))
               else if ParseMembers(inside, depth + 1).None? then None
               else Some((Object(ParseMembers(inside, depth + 1).value.0), ParseMembers(inside, depth + 1).value.1))
  {
    hide Skip, ParseMembers, StartsWith;
    NotWord(r);
  }

  lemma WordRead(text: bytes, post: bytes)
    requires text == NULL_TEXT || text == FALSE_TEXT || text == TRUE_TEXT
    ensures StartsWith(text + post, text) && (text + post)[|text|..] == post
    ensures text != NULL_TEXT ==> !StartsWith(text + post, NULL_TEXT)
    ensures text == TRUE_TEXT ==> !StartsWith(text + post, FALSE_TEXT)
  {
    var r := text + post;
    assert r[..|text|] == text;
    assert |r| >= 4 ==> r[..4][0] == text[0];
    assert |r| >= 5 ==> r[..5][0] == text[0];
  }

  lemma TokenReadsBack(s: Syntax, depth: nat, post: bytes)
    requires Proper(s) && Delimits(post) && depth <= NESTING_LIMIT && (s.Word? || s.Figures? || s.Quote?)
    ensures ReadsBack(s, depth, post)
  {
    Marks();
    match s {
      case Word(v) =>
        WordRead(NULL_TEXT, post);
        WordRead(FALSE_TEXT, post);
        WordRead(TRUE_TEXT, post);
      case Figures(raw, d) =>
        hide ParseNumber, StartsWith;
        NotWord(raw + post);
        NumberLocal(raw, d, post);
      case Quote(raw, content) =>
        hide ParseString, StartsWith;
        StringLocal(raw, post);
        assert [] + post == post;
        NotWord(raw + post);
    }
  }

  /** Every text of the grammar is read as what it means exactly up to the nesting limit. */
  lemma {:induction false} ValueRead(s: Syntax, depth: nat, post: bytes)
    requires Proper(s) && Delimits(post) && depth <= NESTING_LIMIT
    ensures ReadsBack(s, depth, post)
    decreases s, 1
  {
    match s {
      case Hollow(open, blank) => HollowReadsBack(open, blank, depth, post);
      case List(entries) => ListReadsBack(entries, depth, post);
      case Dict(pairs) => DictReadsBack(pairs, depth, post);
      case _ => TokenReadsBack(s, depth, post);
    }
  }

  lemma HollowReadsBack(open: byte, blank: bytes, depth: nat, post: bytes)
    requires (open == LBRACKET || open == LBRACE) && Blank(blank) && depth <= NESTING_LIMIT
    ensures ReadsBack(Hollow(open, blank), depth, post)
  {
    hide Skip, ParseItems, ParseMembers, ParseValue;
    Marks();
    var end: byte := if open == LBRACKET then RBRACKET else RBRACE;
    var r := [open] + (blank + ([end] + post));
    assert Write(Hollow(open, blank), post) == r;
    if open == LBRACKET {
      AtBracket(r, depth);
    } else {
      AtBrace(r, depth);
    }
    assert r[1..] == blank + ([end] + post);
    SkipBlank(blank, [end] + post);
    assert ([end] + post)[1..] == post;
  }

  lemma {:induction false} ListReadsBack(entries: seq<Entry>, depth: nat, post: bytes)
    requires entries != [] && ProperEntries(entries) && depth <= NESTING_LIMIT
    ensures ReadsBack(List(entries), depth, post)
    decreases entries, 1
  {
    hide Skip, ParseItems, ParseValue, WriteEntries, Proper;
    Marks();
    var inside := WriteEntries(entries, [RBRACKET] + post);
    var r := [LBRACKET] + inside;
    assert Write(List(entries), post) == r;
    AtBracket(r, depth);
    assert r[1..] == inside;
    if depth < NESTING_LIMIT {
      EntriesRead(entries, depth + 1, post);
      FirstEntry(entries, [RBRACKET] + post);
      SkipTwice(inside);
      ItemsSkip(inside, depth + 1);
    }
  }

  lemma FirstEntry(entries: seq<Entry>, post: bytes)
    requires entries != [] && ProperEntries(entries)
    ensures var r := Skip(WriteEntries(entries, post)); r != [] && StartByte(r[0])
  {
    hide Skip, Write;
    var e := entries[0];
    var t := Write(e.value, e.after + if |entries| == 1 then post else Ascii(",") + WriteEntries(entries[1..], post));
    WriteStarts(e.value, e.after + if |entries| == 1 then post else Ascii(",") + WriteEntries(entries[1..], post));
    SkipBlank(e.before, t);
  }

  lemma {:induction false} SkipTwice(r: bytes)
    ensures Skip(Skip(r)) == Skip(r)
  {
    if r != [] && r[0] <= 32 && |r| > 1 {
      SkipTwice(r[1..]);
    }
  }

  lemma ItemsSkip(r: bytes, depth: nat)
    ensures ParseItems(Skip(r), depth) == ParseItems(r, depth)
  {
    hide ParseValue, Skip;
    SkipTwice(r);
  }

  /** What follows a value inside an array or object delimits it. */
  lemma Followed(after: bytes, mark: byte, rest: bytes)
    requires Blank(after) && (mark == COMMA || mark == RBRACKET || mark == RBRACE)
    ensures Delimits(after + ([mark] + rest)) && Skip(after + ([mark] + rest)) == [mark] + rest && ([mark] + rest)[1..] == rest
  {
    SkipBlank(after, [mark] + rest);
  }

  lemma {:induction false} EntriesRead(entries: seq<Entry>, depth: nat, post: bytes)
    requires entries != [] && ProperEntries(entries) && depth <= NESTING_LIMIT
    ensures ParseItems(WriteEntries(entries, [RBRACKET] + post), depth)
            == if depth + ItemsDepth(MeansEntries(entries)) <= NESTING_LIMIT then Some((MeansEntries(entries), post)) else None
    decreases entries, 0
  {
    hide ParseValue, Skip, Write, Proper, Depth, Means, Delimits;
    Marks();
    var e := entries[0];
    var last := |entries| == 1;
    var rest := if last then post else WriteEntries(entries[1..], [RBRACKET] + post);
    var follow := e.after + ([if last then RBRACKET else COMMA] + rest);
    var t := Write(e.value, follow);
    assert WriteEntries(entries, [RBRACKET] + post) == e.before + t;
    Followed(e.after, if last then RBRACKET else COMMA, rest);
    WriteStarts(e.value, follow);
    SkipBlank(e.before, t);
    ValueRead(e.value, depth, follow);
    DepthOfItems(MeansEntries(entries));
    if last {
      assert MeansEntries(entries) == [Means(e.value)];
    } else {
      assert ProperEntries(entries[1..]);
      EntriesRead(entries[1..], depth, post);
    }
  }

  lemma DepthOfItems(items: seq<Json>)
    requires items != []
    ensures ItemsDepth(items) == if |items| == 1 then Depth(items[0]) else Larger(Depth(items[0]), ItemsDepth(items[1..]))
  {
    hide Depth;
    if |items| == 1 {
      assert items[1..] == [] && ItemsDepth([]) == 0;
    }
  }

  lemma DepthOfMembers(members: seq<Member>)
    requires members != []
    ensures MembersDepth(members)
            == if |members| == 1 then Depth(members[0].value) else Larger(Depth(members[0].value), MembersDepth(members[1..]))
  {
    hide Depth;
    if |members| == 1 {
      assert members[1..] == [] && MembersDepth([]) == 0;
    }
  }

  lemma {:induction false} DictReadsBack(pairs: seq<Pair>, depth: nat, post: bytes)
    requires pairs != [] && ProperPairs(pairs) && depth <= NESTING_LIMIT
    ensures ReadsBack(Dict(pairs), depth, post)
    decreases pairs, 1
  {
    hide Skip, ParseMembers, ParseValue, WritePairs, Proper, StringText;
    Marks();
    var inside := WritePairs(pairs, [RBRACE] + post);
    var r := [LBRACE] + inside;
    assert Write(Dict(pairs), post) == r;
    AtBrace(r, depth);
    assert r[1..] == inside;
    if depth < NESTING_LIMIT {
      PairsRead(pairs, depth + 1, post);
      FirstPair(pairs, [RBRACE] + post);
      MembersSkip(inside, depth + 1);
    }
  }

  lemma MembersSkip(r: bytes, depth: nat)
    ensures ParseMembers(Skip(r), depth) == ParseMembers(r, depth)
  {
    hide ParseString, ParseValue, Skip;
    SkipTwice(r);
    assert ParseMember(Skip(r), depth) == ParseMember(r, depth);
    hide ParseMember;
  }

  /** A name as it is written starts with a quote. */
  lemma KeyStarts(key: bytes, name: bytes, rest: bytes)
    requires StringText(key, name)
    ensures key + rest != [] && (key + rest)[0] == QUOTE && ParseString(key + rest) == Some((name, rest))
  {
    hide ParseString;
    StringLocal(key, rest);
    assert [] + rest == rest;
  }

  lemma FirstPair(pairs: seq<Pair>, post: bytes)
    requires pairs != [] && ProperPairs(pairs)
    ensures var r := Skip(WritePairs(pairs, post)); r != [] && r[0] == QUOTE
  {
    hide Skip, Write, StringText, Proper;
    var p := pairs[0];
    var rest := p.after + if |pairs| == 1 then post else Ascii(",") + WritePairs(pairs[1..], post);
    var line := p.colon + (Ascii(":") + (p.gap + Write(p.value, rest)));
    KeyStarts(p.key, p.name, line);
    SkipBlank(p.before, p.key + line);
  }

  /** One member, wherever white space is put, is read up to what follows its value. */
  lemma {:induction false} PairRead(p: Pair, depth: nat, follow: bytes)
    requires Blank(p.before) && StringText(p.key, p.name) && Blank(p.colon) && Blank(p.gap) && Proper(p.value)
    requires Delimits(follow) && depth <= NESTING_LIMIT
    ensures ParseMember(p.before + (p.key + (p.colon + ([COLON] + (p.gap + Write(p.value, follow))))), depth)
            == if depth + Depth(Means(p.value)) <= NESTING_LIMIT then Some((Keyed(p.name, Means(p.value)), follow)) else None
    decreases p, 0
  {
    hide ParseValue, ParseString, Skip, Write, Proper, Depth, Means, StringText;
    var value := p.gap + Write(p.value, follow);
    var line := p.colon + ([COLON] + value);
    KeyStarts(p.key, p.name, line);
    SkipBlank(p.before, p.key + line);
    SkipBlank(p.colon, [COLON] + value);
    assert ([COLON] + value)[1..] == value;
    WriteStarts(p.value, follow);
    SkipBlank(p.gap, Write(p.value, follow));
    ValueRead(p.value, depth, follow);
  }

  lemma {:induction false} PairsRead(pairs: seq<Pair>, depth: nat, post: bytes)
    requires pairs != [] && ProperPairs(pairs) && depth <= NESTING_LIMIT
    ensures ParseMembers(WritePairs(pairs, [RBRACE] + post), depth)
            == if depth + MembersDepth(MeansPairs(pairs)) <= NESTING_LIMIT then Some((MeansPairs(pairs), post)) else None
    decreases pairs, 0
  {
    hide ParseMember, Skip, Write, Proper, Depth, Means, Delimits, StringText;
    Marks();
    var p := pairs[0];
    var last := |pairs| == 1;
    var rest := if last then post else WritePairs(pairs[1..], [RBRACE] + post);
    var follow := p.after + ([if last then RBRACE else COMMA] + rest);
    assert WritePairs(pairs, [RBRACE] + post) == p.before + (p.key + (p.colon + ([COLON] + (p.gap + Write(p.value, follow)))));
    Followed(p.after, if last then RBRACE else COMMA, rest);
    PairRead(p, depth, follow);
    DepthOfMembers(MeansPairs(pairs));
    if last {
      assert MeansPairs(pairs) == [Keyed(p.name, Means(p.value))];
    } else {
      assert ProperPairs(pairs[1..]);
      PairsRead(pairs[1..], depth, post);
    }
  }

  // ----- nothing else is read

  /** Whatever is read is a text of the grammar that means the value, with the rest of the input behind it. */
  lemma {:induction false} ValueIsProper(r: bytes, depth: nat) returns (s: Syntax)
    requires ParseValue(r, depth).Some?
    ensures var (v, rest) := ParseValue(r, depth).value; Proper(s) && Means(s) == v && r == Write(s, rest)
    decreases |r|, 1
  {
    hide Proper, Means, Write, ParseItems, ParseMembers, Skip, ParseString, ParseNumber;
    if StartsWith(r, NULL_TEXT) || StartsWith(r, FALSE_TEXT) || StartsWith(r, TRUE_TEXT) {
      s := WordIsProper(r, depth);
    } else if r[0] == QUOTE {
      s := StringIsProper(r, depth);
    } else if r[0] == MINUS || IsDigit(r[0]) {
      s := NumberIsProper(r, depth);
    } else if r[0] == LBRACKET {
      s := ArrayIsProper(r, depth);
    } else {
      s := ObjectIsProper(r, depth);
    }
  }

  lemma WordIsProper(r: bytes, depth: nat) returns (s: Syntax)
    requires StartsWith(r, NULL_TEXT) || StartsWith(r, FALSE_TEXT) || StartsWith(r, TRUE_TEXT)
    ensures ParseValue(r, depth).Some?
    ensures var (v, rest) := ParseValue(r, depth).value; Proper(s) && Means(s) == v && r == Write(s, rest)
  {
    Marks();
    var (v, rest) := ParseValue(r, depth).value;
    s := Word(v);
    assert r == r[..|r| - |rest|] + rest;
  }

  lemma {:induction false} ArrayIsProper(r: bytes, depth: nat) returns (s: Syntax)
    requires r != [] && r[0] == LBRACKET && ParseValue(r, depth).Some?
    ensures var (v, rest) := ParseValue(r, depth).value; Proper(s) && Means(s) == v && r == Write(s, rest)
    decreases |r|, 0
  {
    hide Skip, ParseItems, ParseValue, Write, Proper, Means;
    AtBracket(r, depth);
    var inside := Skip(r[1..]);
    var blank := Skipped(r[1..]);
    assert r == [LBRACKET] + (blank + inside);
    if inside != [] && inside[0] == RBRACKET {
      s := Hollow(LBRACKET, blank);
      HollowIsProper(LBRACKET, blank, RBRACKET, inside[1..]);
      assert inside == [RBRACKET] + inside[1..];
    } else {
      var es := ItemsAreProper(inside, depth + 1);
      s := ListIsProper(blank, es, ParseItems(inside, depth + 1).value.1);
    }
  }

  lemma {:induction false} ObjectIsProper(r: bytes, depth: nat) returns (s: Syntax)
    requires r != [] && r[0] == LBRACE && ParseValue(r, depth).Some?
    ensures var (v, rest) := ParseValue(r, depth).value; Proper(s) && Means(s) == v && r == Write(s, rest)
    decreases |r|, 0
  {
    hide Skip, ParseMembers, ParseValue, Write, Proper, Means;
    AtBrace(r, depth);
    var inside := Skip(r[1..]);
    var blank := Skipped(r[1..]);
    assert r == [LBRACE] + (blank + inside);
    if inside != [] && inside[0] == RBRACE {
      s := Hollow(LBRACE, blank);
      HollowIsProper(LBRACE, blank, RBRACE, inside[1..]);
      assert inside == [RBRACE] + inside[1..];
    } else {
      var ps := MembersAreProper(inside, depth + 1);
      s := DictIsProper(blank, ps, ParseMembers(inside, depth + 1).value.1);
    }
  }

  lemma StringIsProper(r: bytes, depth: nat) returns (s: Syntax)
    requires r != [] && r[0] == QUOTE && ParseValue(r, depth).Some?
    ensures var (v, rest) := ParseValue(r, depth).value; Proper(s) && Means(s) == v && r == Write(s, rest)
  {
    hide ParseString, StartsWith;
    NotWord(r);
    var (content, rest) := ParseString(r).value;
    StringLocal(r, []);
    s := Quote(r[..|r| - |rest|], content);
  }

  lemma NumberIsProper(r: bytes, depth: nat) returns (s: Syntax)
    requires r != [] && (r[0] == MINUS || IsDigit(r[0])) && ParseValue(r, depth).Some?
    ensures var (v, rest) := ParseValue(r, depth).value; Proper(s) && Means(s) == v && r == Write(s, rest)
  {
    hide ParseNumber, StartsWith;
    NotWord(r);
    NumberSplit(r);
    var (v, rest) := ParseNumber(r).value;
    s := Figures(r[..|r| - |rest|], v.d);
  }

  lemma HollowIsProper(open: byte, blank: bytes, close: byte, rest: bytes)
    requires Blank(blank) && ((open == LBRACKET && close == RBRACKET) || (open == LBRACE && close == RBRACE))
    ensures var s := Hollow(open, blank);
            Proper(s) && Means(s) == (if open == LBRACKET then Array([]) else Object([])) &&
            Write(s, rest) == [open] + (blank + ([close] + rest))
  {
    Marks();
  }

  /** White space in front of the first element belongs to it. */
  lemma ListIsProper(blank: bytes, entries: seq<Entry>, rest: bytes) returns (s: Syntax)
    requires Blank(blank) && entries != [] && ProperEntries(entries)
    ensures Proper(s) && Means(s) == Array(MeansEntries(entries))
    ensures Write(s, rest) == [LBRACKET] + (blank + WriteEntries(entries, [RBRACKET] + rest))
  {
    hide Proper, Write, Means;
    Marks();
    var e := entries[0];
    var es := [e.(before := blank + e.before)] + entries[1..];
    s := List(es);
    assert es[1..] == entries[1..];
    var follow := e.after + if |entries| == 1 then [RBRACKET] + rest else [COMMA] + WriteEntries(entries[1..], [RBRACKET] + rest);
    var t := Write(e.value, follow);
    assert blank + e.before + t == blank + (e.before + t);
    WriteList(es, rest);
  }

  lemma WriteList(entries: seq<Entry>, rest: bytes)
    requires entries != []
    ensures Write(List(entries), rest) == [LBRACKET] + WriteEntries(entries, [RBRACKET] + rest)
    ensures Means(List(entries)) == Array(MeansEntries(entries)) && (Proper(List(entries)) <==> ProperEntries(entries))
  {
    Marks();
  }

  lemma WriteDict(pairs: seq<Pair>, rest: bytes)
    requires pairs != []
    ensures Write(Dict(pairs), rest) == [LBRACE] + WritePairs(pairs, [RBRACE] + rest)
    ensures Means(Dict(pairs)) == Object(MeansPairs(pairs)) && (Proper(Dict(pairs)) <==> ProperPairs(pairs))
  {
    Marks();
  }

  lemma DictIsProper(blank: bytes, pairs: seq<Pair>, rest: bytes) returns (s: Syntax)
    requires Blank(blank) && pairs != [] && ProperPairs(pairs)
    ensures Proper(s) && Means(s) == Object(MeansPairs(pairs))
    ensures Write(s, rest) == [LBRACE] + (blank + WritePairs(pairs, [RBRACE] + rest))
  {
    hide Proper, Write, Means, StringText;
    var p := pairs[0];
    var q := p.(before := blank + p.before);
    var ps := [q] + pairs[1..];
    s := Dict(ps);
    assert ps[1..] == pairs[1..];
    WriteDict(ps, rest);
    BlankFirst(p, blank, p.after + if |pairs| == 1 then [RBRACE] + rest else Ascii(",") + WritePairs(pairs[1..], [RBRACE] + rest));
    Marks();
  }

  lemma BlankFirst(p: Pair, blank: bytes, follow: bytes)
    ensures WritePair(p.(before := blank + p.before), follow) == blank + WritePair(p, follow)
  {
    hide Write;
  }

  /** What is skipped, and what follows it. */
  lemma Skipped(r: bytes) returns (blank: bytes)
    ensures Blank(blank) && r == blank + Skip(r)
  {
    SkippedIsBlank(r);
    blank := r[..|r| - |Skip(r)|];
  }

  lemma {:induction false} ItemsAreProper(r: bytes, depth: nat) returns (entries: seq<Entry>)
    requires ParseItems(r, depth).Some?
    ensures var (items, rest) := ParseItems(r, depth).value;
            entries != [] && ProperEntries(entries) && MeansEntries(entries) == items &&
            r == WriteEntries(entries, [RBRACKET] + rest)
    decreases |r|, 2
  {
    hide ParseValue, Skip, Write, Proper, Means;
    var (v, after) := ParseValue(Skip(r), depth).value;
    var rest := Skip(after);
    var before := Skipped(r);
    var s := ValueIsProper(Skip(r), depth);
    var behind := Skipped(after);
    assert rest == [rest[0]] + rest[1..];
    if rest[0] == COMMA {
      var es := ItemsAreProper(rest[1..], depth);
      entries := [Entry(before, s, behind)] + es;
      EntriesCons(Entry(before, s, behind), es, [RBRACKET] + ParseItems(rest[1..], depth).value.1);
    } else {
      entries := [Entry(before, s, behind)];
      EntriesOne(Entry(before, s, behind), rest);
    }
  }

  lemma EntriesOne(e: Entry, post: bytes)
    requires Blank(e.before) && Proper(e.value) && Blank(e.after)
    ensures ProperEntries([e]) && MeansEntries([e]) == [Means(e.value)]
    ensures WriteEntries([e], post) == e.before + Write(e.value, e.after + post)
  {
    assert [e][1..] == [];
  }

  lemma EntriesCons(e: Entry, es: seq<Entry>, post: bytes)
    requires Blank(e.before) && Proper(e.value) && Blank(e.after) && es != [] && ProperEntries(es)
    ensures ProperEntries([e] + es) && MeansEntries([e] + es) == [Means(e.value)] + MeansEntries(es)
    ensures WriteEntries([e] + es, post) == e.before + Write(e.value, e.after + ([COMMA] + WriteEntries(es, post)))
  {
    hide Proper, Write, Means;
    Marks();
    assert ([e] + es)[1..] == es;
  }

  lemma {:induction false} MembersAreProper(r: bytes, depth: nat) returns (pairs: seq<Pair>)
    requires ParseMembers(r, depth).Some?
    ensures var (members, rest) := ParseMembers(r, depth).value;
            pairs != [] && ProperPairs(pairs) && MeansPairs(pairs) == members && r == WritePairs(pairs, [RBRACE] + rest)
    decreases |r|, 3
  {
    hide ParseMember, Skip, Write, Proper, Means, StringText;
    var (m, after) := ParseMember(r, depth).value;
    var rest := Skip(after);
    var behind := Skipped(after);
    var p := MemberIsProper(r, depth);
    p := p.(after := behind);
    assert rest == [rest[0]] + rest[1..];
    if rest[0] == COMMA {
      var ps := MembersAreProper(rest[1..], depth);
      pairs := [p] + ps;
      PairsCons(p, ps, [RBRACE] + ParseMembers(rest[1..], depth).value.1);
    } else {
      pairs := [p];
      PairsOne(p, rest);
    }
  }

  /** A pair is well written, whatever follows it. */
  ghost predicate ProperPair(p: Pair) {
    Blank(p.before) && StringText(p.key, p.name) && Blank(p.colon) && Blank(p.gap) && Proper(p.value)
  }

  function WritePair(p: Pair, follow: bytes): bytes {
    p.before + (p.key + (p.colon + ([COLON] + (p.gap + Write(p.value, follow)))))
  }

  lemma PairsOne(p: Pair, post: bytes)
    requires ProperPair(p) && Blank(p.after)
    ensures ProperPairs([p]) && MeansPairs([p]) == [Keyed(p.name, Means(p.value))]
    ensures WritePairs([p], post) == WritePair(p, p.after + post)
  {
    hide Write, Means, StringText;
    Marks();
    assert [p][1..] == [];
  }

  lemma PairsCons(p: Pair, ps: seq<Pair>, post: bytes)
    requires ProperPair(p) && Blank(p.after) && ps != [] && ProperPairs(ps)
    ensures ProperPairs([p] + ps) && MeansPairs([p] + ps) == [Keyed(p.name, Means(p.value))] + MeansPairs(ps)
    ensures WritePairs([p] + ps, post) == WritePair(p, p.after + ([COMMA] + WritePairs(ps, post)))
  {
    hide Proper, Write, Means, StringText;
    Marks();
    assert ([p] + ps)[1..] == ps;
  }

  lemma {:induction false} MemberIsProper(r: bytes, depth: nat) returns (p: Pair)
    requires ParseMember(r, depth).Some?
    ensures var (m, after) := ParseMember(r, depth).value;
            ProperPair(p) && m == Keyed(p.name, Means(p.value)) && r == WritePair(p, after)
    decreases |r|, 2
  {
    hide ParseString, ParseValue, Skip, Write, Proper, Means, StringText;
    var before := Skipped(r);
    var start := Skip(r);
    var (name, after) := ParseString(start).value;
    StringLocal(start, []);
    var colon := Skipped(after);
    var rest := Skip(after);
    var gap := Skipped(rest[1..]);
    var s := ValueIsProper(Skip(rest[1..]), depth);
    assert rest == [COLON] + rest[1..];
    p := Pair(before, start[..|start| - |after|], name, colon, gap, s, []);
  }

  // ----- whole texts

  lemma {:induction false} WriteAppend(s: Syntax, a: bytes, b: bytes)
    ensures Write(s, a + b) == Write(s, a) + b
    decreases s, 1
  {
    Marks();
    match s {
      case List(entries) =>
        EntriesAppend(entries, Ascii("]") + a, b);
        assert Ascii("]") + a + b == Ascii("]") + (a + b);
      case Dict(pairs) =>
        PairsAppend(pairs, Ascii("}") + a, b);
        assert Ascii("}") + a + b == Ascii("}") + (a + b);
      case Hollow(_, blank) =>
        assert blank + (Ascii("]") + (a + b)) == blank + (Ascii("]") + a) + b;
        assert blank + (Ascii("}") + (a + b)) == blank + (Ascii("}") + a) + b;
      case _ =>
    }
  }

  lemma {:induction false} EntriesAppend(entries: seq<Entry>, a: bytes, b: bytes)
    ensures WriteEntries(entries, a + b) == WriteEntries(entries, a) + b
    decreases entries, 0
  {
    hide Write, Ascii;
    if entries != [] {
      var e := entries[0];
      var more := |entries| > 1;
      var rest := if more then Ascii(",") + WriteEntries(entries[1..], a) else a;
      EntriesAppend(entries[1..], a, b);
      assert e.after + (rest + b) == e.after + rest + b;
      assert more ==> Ascii(",") + (WriteEntries(entries[1..], a) + b) == rest + b;
      WriteAppend(e.value, e.after + rest, b);
    }
  }

  lemma {:induction false} PairsAppend(pairs: seq<Pair>, a: bytes, b: bytes)
    ensures WritePairs(pairs, a + b) == WritePairs(pairs, a) + b
    decreases pairs, 0
  {
    hide Write, Ascii;
    if pairs != [] {
      var p := pairs[0];
      var more := |pairs| > 1;
      var rest := if more then Ascii(",") + WritePairs(pairs[1..], a) else a;
      PairsAppend(pairs[1..], a, b);
      assert p.after + (rest + b) == p.after + rest + b;
      assert more ==> Ascii(",") + (WritePairs(pairs[1..], a) + b) == rest + b;
      WriteAppend(p.value, p.after + rest, b);
      LineAppend(p, Write(p.value, p.after + rest), b);
    }
  }

  lemma LineAppend(p: Pair, t: bytes, b: bytes)
    ensures p.before + (p.key + (p.colon + (Ascii(":") + (p.gap + (t + b)))))
            == p.before + (p.key + (p.colon + (Ascii(":") + (p.gap + t)))) + b
  {
    hide Ascii;
    var u := p.gap + t;
    assert p.gap + (t + b) == u + b;
    var v := Ascii(":") + u;
    assert Ascii(":") + (u + b) == v + b;
    var w := p.colon + v;
    assert p.colon + (v + b) == w + b;
    assert p.key + (w + b) == p.key + w + b;
  }

  /** A text of the grammar that means this value: perhaps a byte order mark, and white space around the value. */
  ghost predicate Spells(text: bytes, v: Json) {
    exists bom, before, s, end :: SpelledSo(text, v, bom, before, s, end)
  }

  ghost predicate SpelledSo(text: bytes, v: Json, bom: bytes, before: bytes, s: Syntax, end: bytes) {
    && (bom == [] || bom == [0xEF, 0xBB, 0xBF]) && Blank(before) && Blank(end) && Proper(s) && Means(s) == v
    && text == bom + (before + Write(s, end))
  }

  lemma {:induction false} SkipEnd(end: bytes)
    requires Blank(end)
    ensures Skip(end + [NUL]) == [NUL]
  {
    if end == [] {
      assert end + [NUL] == [NUL];
    } else {
      SkipEnd(end[1..]);
      assert (end + [NUL])[1..] == end[1..] + [NUL];
    }
  }

  /** What the parser starts with once it has passed a byte order mark and white space. */
  function Started(text: bytes): bytes {
    var buffer := text + [NUL];
    Skip(if |buffer| > 4 && StartsWith(buffer, BOM) then buffer[3..] else buffer)
  }

  lemma StartOf(text: bytes, v: Json, bom: bytes, before: bytes, s: Syntax, end: bytes)
    requires SpelledSo(text, v, bom, before, s, end)
    ensures Started(text) == Write(s, end + [NUL])
  {
    hide Proper, Write, Means, Skip;
    var t := Write(s, end + [NUL]);
    WriteAppend(s, end, [NUL]);
    WriteStarts(s, end + [NUL]);
    var buffer := text + [NUL];
    assert buffer == bom + (before + t);
    SkipBlank(before, t);
    if bom == [] {
      assert buffer == before + t;
      assert buffer[0] != 0xEF;
      assert |buffer| >= 3 ==> buffer[..3][0] == buffer[0];
    } else {
      assert buffer[..3] == BOM && buffer[3..] == before + t;
      assert Write(s, end) != [] by { WriteStarts(s, end); }
    }
  }

  lemma Parsed(text: bytes, requireEnd: bool)
    ensures Parse(text, requireEnd)
            == if ParseValue(Started(text), 0).None? then None
               else
                 var (v, rest) := ParseValue(Started(text), 0).value;
                 if requireEnd && (Skip(rest) == [] || Skip(rest)[0] != NUL) then None else Some(v)
  {
    hide ParseValue, Skip, StartsWith;
  }

  /** Any text that spells a value is parsed as that value, whether or not trailing bytes are checked for. */
  lemma SpelledIsParsed(text: bytes, v: Json, requireEnd: bool)
    requires Spells(text, v)
    ensures Parse(text, requireEnd) == if Depth(v) <= NESTING_LIMIT then Some(v) else None
  {
    hide ParseValue, Skip, Started, Write, Proper, Means, Depth, Parse;
    var bom, before, s, end :| SpelledSo(text, v, bom, before, s, end);
    StartOf(text, v, bom, before, s, end);
    assert Delimits(end + [NUL]);
    ValueRead(s, 0, end + [NUL]);
    SkipEnd(end);
    Parsed(text, requireEnd);
  }

  /** Whatever is parsed starts with a text of the grammar that means it; with the check for trailing bytes nothing but
      white space follows. */
  lemma ParsedIsSpelled(text: bytes, requireEnd: bool) returns (bom: bytes, before: bytes, s: Syntax, rest: bytes)
    requires Parse(text, requireEnd).Some?
    ensures (bom == [] || bom == [0xEF, 0xBB, 0xBF]) && Blank(before) && Proper(s) && Means(s) == Parse(text, requireEnd).value
    ensures text + [NUL] == bom + (before + Write(s, rest))
    ensures requireEnd ==> Spells(text, Parse(text, requireEnd).value)
  {
    hide ParseValue, Skip, Write, Proper, Means, Parse;
    var buffer := text + [NUL];
    bom := if |buffer| > 4 && StartsWith(buffer, BOM) then BOM else [];
    var start := buffer[|bom|..];
    assert buffer == bom + start;
    Parsed(text, requireEnd);
    before := Skipped(start);
    s := ValueIsProper(Started(text), 0);
    rest := ParseValue(Started(text), 0).value.1;
    if requireEnd {
      SkippedIsBlank(rest);
      var end := Skipped(rest);
      assert rest == end + [NUL];
      WriteAppend(s, end, [NUL]);
      var t := bom + (before + Write(s, end));
      assert t + [NUL] == text + [NUL];
      assert text == (text + [NUL])[..|text|] == t;
      assert SpelledSo(text, Parse(text, requireEnd).value, bom, before, s, end);
    }
  }

  /** With the check for trailing bytes the parser accepts exactly the texts of the grammar nested at most a thousand
      deep, and gives each its value. */
  lemma AcceptedExactly(text: bytes, v: Json)
    ensures Parse(text, true) == Some(v) <==> Spells(text, v) && Depth(v) <= 1000
  {
    hide Parse, Spells, Depth;
    if Parse(text, true) == Some(v) {
      var bom, before, s, rest := ParsedIsSpelled(text, true);
      SpelledIsParsed(text, v, true);
    } else if Spells(text, v) {
      SpelledIsParsed(text, v, true);
    }
  }
}
