/** The camera's frames on the serial line and the sliding-window receiver that picks them out. */
module Frames {
  import opened Bytes

  const IMAGE_SIZE := 1024
  const HEAD: byte := 0xA6
  const TAIL_1: byte := 0x5D
  const TAIL_2: byte := 0x5B
  const VAL_MAX: byte := 127

  /** The receiver between two bytes: in a frame or not, the bytes collected, the image buffer, and its flag. */
  datatype State = State(started: bool, window: bytes, image: bytes, ready: bool)

  function Clamp(d: byte): byte {
    if d > VAL_MAX then VAL_MAX else d
  }

  function ClampAll(s: bytes): (r: bytes)
    ensures |r| == |s| && forall i :: 0 <= i < |s| ==> r[i] == Clamp(s[i])
  {
    seq(|s|, i requires 0 <= i < |s| => Clamp(s[i]))
  }

  /** The window ends in the two tail bytes. */
  predicate Closed(w: bytes) {
    |w| >= 2 && w[|w| - 2] == TAIL_1 && w[|w| - 1] == TAIL_2
  }

  /** What one received byte does. */
  function StepByte(s: State, d: byte): State {
    if !s.started then
      if d == HEAD then s.(started := true, window := []) else s
    else
      var w := s.window + [d];
      if |w| < IMAGE_SIZE + 2 then s.(window := w)
      else if Closed(w) then State(false, [], ClampAll(w[..IMAGE_SIZE]), true)
      else s.(window := w[1..])
  }

  function Feed(s: State, input: bytes): State
    decreases |input|
  {
    if input == [] then s else Feed(StepByte(s, input[0]), input[1..])
  }

  /** The receiver never holds a whole frame between two bytes, and nothing outside a frame. */
  predicate Bounded(s: State) {
    |s.window| <= IMAGE_SIZE + 1 && (!s.started ==> s.window == []) && |s.image| == IMAGE_SIZE
  }

  lemma StepBounded(s: State, d: byte)
    requires Bounded(s)
    ensures Bounded(StepByte(s, d))
  {
  }

  lemma {:induction false} FeedBounded(s: State, input: bytes)
    requires Bounded(s)
    ensures Bounded(Feed(s, input))
    decreases |input|
  {
    if input != [] {
      StepBounded(s, input[0]);
      FeedBounded(StepByte(s, input[0]), input[1..]);
    }
  }

  /** How the stream is cut into callbacks makes no difference. */
  lemma {:induction false} FeedSplit(s: State, a: bytes, b: bytes)
    ensures Feed(s, a + b) == Feed(Feed(s, a), b)
    decreases |a|
  {
    hide StepByte;
    if a == [] {
      assert a + b == b;
    } else {
      FeedSplit(StepByte(s, a[0]), a[1..], b);
      assert (a + b)[1..] == a[1..] + b;
    }
  }

  // ----- frames

  /** What `send_frame` writes for an image. */
  function Frame(payload: bytes): bytes {
    [HEAD] + payload + [TAIL_1, TAIL_2]
  }

  /** No tail inside the bytes. */
  ghost predicate TailFree(s: bytes) {
    forall i, j :: 0 <= i && j == i + 1 && j < |s| ==> !(s[i] == TAIL_1 && s[j] == TAIL_2)
  }

  /** The last byte, if there is one. */
  function LastByte(w: bytes): bytes {
    if w == [] then [] else [w[|w| - 1]]
  }

  /** The bytes that fit between two checks of the tail. */
  function Newest(w: bytes): (r: bytes)
    ensures |r| <= IMAGE_SIZE + 1
  {
    if |w| > IMAGE_SIZE + 1 then w[|w| - (IMAGE_SIZE + 1)..] else w
  }

  /** One byte that does not complete a tail moves the window by one. */
  lemma StepSlides(s: State, d: byte)
    requires Bounded(s) && s.started && TailFree(LastByte(s.window) + [d])
    ensures StepByte(s, d) == s.(window := Newest(s.window + [d])) && Images(s, [d]) == []
  {
    var w := s.window + [d];
    if |w| == IMAGE_SIZE + 2 {
      var pair := LastByte(s.window) + [d];
      assert !(pair[0] == TAIL_1 && pair[1] == TAIL_2);
      assert w[|w| - 2] == pair[0] && w[|w| - 1] == pair[1];
    }
    ImagesOne(s, d);
  }

  /** While no new tail shows up, a started receiver keeps the newest bytes and completes nothing. */
  lemma {:induction false} FeedSlides(s: State, input: bytes)
    requires Bounded(s) && s.started && TailFree(LastByte(s.window) + input)
    ensures Feed(s, input) == s.(window := Newest(s.window + input)) && Images(s, input) == []
    decreases |input|
  {
    hide StepByte, TailFree, Newest, Images, LastByte;
    if input == [] {
      assert s.window + [] == s.window;
      NewestShort(s.window);
      assert Images(s, []) == [] by { NoImages(s); }
    } else {
      var d := input[0];
      var w := s.window + [d];
      TailFreeStep(LastByte(s.window), input);
      StepSlides(s, d);
      StepBounded(s, d);
      NewestLast(s.window, d);
      assert [d] + input[1..] == input;
      FeedSlides(StepByte(s, d), input[1..]);
      NewestTwice(w, input[1..]);
      assert w + input[1..] == s.window + input;
      ImagesCons(s, input);
    }
  }

  lemma NoImages(s: State)
    ensures Images(s, []) == []
  {
  }

  lemma NewestShort(w: bytes)
    requires |w| <= IMAGE_SIZE + 1
    ensures Newest(w) == w
  {
  }

  lemma NewestLast(w: bytes, d: byte)
    ensures LastByte(Newest(w + [d])) == [d]
  {
  }

  lemma TailFreeStep(last: bytes, input: bytes)
    requires TailFree(last + input) && input != []
    ensures TailFree(last + [input[0]]) && TailFree(input)
  {
    var all := last + input;
    assert forall i :: 0 <= i < |input| ==> input[i] == all[|last| + i];
    assert forall i :: 0 <= i <= |last| ==> (last + [input[0]])[i] == all[i];
  }

  lemma NewestTwice(a: bytes, b: bytes)
    ensures Newest(Newest(a) + b) == Newest(a + b)
  {
  }

  /** Before the window can be full the tail is not looked for, so any bytes are kept. */
  lemma {:induction false} FeedFills(s: State, input: bytes)
    requires s.started && |s.window| + |input| <= IMAGE_SIZE + 1
    ensures Feed(s, input) == s.(window := s.window + input) && Images(s, input) == []
    decreases |input|
  {
    if input == [] {
      assert s.window + [] == s.window;
    } else {
      FeedFills(StepByte(s, input[0]), input[1..]);
      assert s.window + [input[0]] + input[1..] == s.window + input;
    }
  }

  // ----- completed images

  /** The images a receiver completes while it is fed. */
  function Images(s: State, input: bytes): seq<bytes>
    decreases |input|
  {
    if input == [] then []
    else (if Completes(s, input[0]) then [StepByte(s, input[0]).image] else []) + Images(StepByte(s, input[0]), input[1..])
  }

  predicate Completes(s: State, d: byte) {
    s.started && !StepByte(s, d).started
  }

  lemma ImagesOne(s: State, d: byte)
    ensures Images(s, [d]) == if Completes(s, d) then [StepByte(s, d).image] else []
  {
    assert [d][1..] == [];
  }

  lemma ImagesCons(s: State, input: bytes)
    requires input != []
    ensures Images(s, input) == Images(s, [input[0]]) + Images(StepByte(s, input[0]), input[1..])
  {
    ImagesOne(s, input[0]);
  }

  lemma {:induction false} ImagesSplit(s: State, a: bytes, b: bytes)
    ensures Images(s, a + b) == Images(s, a) + Images(Feed(s, a), b)
    decreases |a|
  {
    hide StepByte, Completes;
    if a == [] {
      assert a + b == b;
    } else {
      ImagesSplit(StepByte(s, a[0]), a[1..], b);
      assert (a + b)[1..] == a[1..] + b;
    }
  }

  // ----- what an open frame waits for

  /** Some prefix that is long enough for a frame ends in the tail. */
  ghost predicate Ends(input: bytes) {
    exists m :: IMAGE_SIZE + 2 <= m <= |input| && Closed(input[..m])
  }

  /** Until the first tail with 1024 bytes in front of it, an open frame keeps the newest bytes and completes nothing. */
  lemma {:induction false} FeedOpen(s: State, input: bytes)
    requires s.started && s.window == [] && !Ends(input)
    ensures Feed(s, input) == s.(window := Newest(input)) && Images(s, input) == []
    decreases |input|
  {
    if input == [] {
      NoImages(s);
    } else {
      var n := |input| - 1;
      var front, d := input[..n], input[n];
      assert input == front + [d];
      forall m | IMAGE_SIZE + 2 <= m <= n ensures !Closed(front[..m]) {
        assert front[..m] == input[..m];
      }
      FeedOpen(s, front);
      FeedSplit(s, front, [d]);
      ImagesSplit(s, front, [d]);
      FeedOne(Feed(s, front), d);
      OpenStep(s, front, d);
    }
  }

  lemma OpenStep(s: State, front: bytes, d: byte)
    requires s.started && !Ends(front + [d])
    ensures var t := s.(window := Newest(front));
            StepByte(t, d) == t.(window := Newest(front + [d])) && Images(t, [d]) == []
  {
    var t, input := s.(window := Newest(front)), front + [d];
    ImagesOne(t, d);
    if |input| >= IMAGE_SIZE + 2 {
      assert input[..|input|] == input && !Closed(input);
    }
  }

  /** From idle: the head opens a frame, the first tail with 1024 bytes in front of it closes it, and those bytes are the
      image, each at most 127. */
  lemma FirstTailCompletes(s: State, body: bytes)
    requires !s.started && |body| >= 1026 && body[|body| - 2] == 0x5D && body[|body| - 1] == 0x5B && !Ends(body[..|body| - 1])
    ensures var image := Images(s, [0xA6] + body);
            |image| == 1 && |image[0]| == 1024 && Feed(s, [0xA6] + body) == State(false, [], image[0], true) &&
            forall i :: 0 <= i < 1024 ==>
              var d := body[|body| - 1026 + i]; image[0][i] == if d <= 127 then d else 127
  {
    hide StepByte, Images, Newest, Feed, Ends, ClampAll;
    var open := s.(started := true, window := []);
    var n := |body| - 1;
    var front := body[..n];
    var head: bytes := [0xA6];
    assert StepByte(s, HEAD) == open && Images(s, [HEAD]) == [] by { HeadOpens(s); }
    FeedOne(s, HEAD);
    FeedOpen(open, front);
    var last := open.(window := Newest(front));
    var payload := body[n - 1025..n - 1];
    assert Newest(front) == payload + [TAIL_1] by { NewestIs(front); assert front[|front| - 1025..] == payload + [body[n - 1]]; }
    CloseFrame(last, payload);
    FeedOne(last, TAIL_2);
    assert head + body == head + front + [TAIL_2];
    FeedSplit(s, head, front);
    ImagesSplit(s, head, front);
    FeedSplit(s, head + front, [TAIL_2]);
    ImagesSplit(s, head + front, [TAIL_2]);
  }

  lemma HeadOpens(s: State)
    requires !s.started
    ensures StepByte(s, HEAD) == s.(started := true, window := []) && Images(s, [HEAD]) == []
  {
    ImagesOne(s, HEAD);
  }

  lemma NewestIs(w: bytes)
    requires |w| >= IMAGE_SIZE + 1
    ensures Newest(w) == w[|w| - (IMAGE_SIZE + 1)..]
  {
  }

  // ----- self-stabilisation

  /** The receiver just after a complete frame. */
  function Received(payload: bytes): State {
    State(false, [], ClampAll(payload), true)
  }

  /** A frame as it goes over the line. */
  lemma WireFormat(payload: bytes)
    requires |payload| == 1024
    ensures var f := Frame(payload);
            |f| == 1027 && f[0] == 0xA6 && f[1025] == 0x5D && f[1026] == 0x5B && f[1..1025] == payload
  {
  }

  lemma CloseFrame(s: State, payload: bytes)
    requires s.started && |payload| == IMAGE_SIZE && s.window == payload + [TAIL_1]
    ensures StepByte(s, TAIL_2) == Received(payload) && Images(s, [TAIL_2]) == [ClampAll(payload)]
  {
    var w := s.window + [TAIL_2];
    assert w[..IMAGE_SIZE] == payload;
    ImagesOne(s, TAIL_2);
  }

  /** From idle, a frame with any payload is received. */
  lemma FrameFromIdle(s: State, payload: bytes)
    requires !s.started && |payload| == IMAGE_SIZE
    ensures Feed(s, Frame(payload)) == Received(payload) && Images(s, Frame(payload)) == [ClampAll(payload)]
  {
    var body := payload + [TAIL_1];
    var t := s.(started := true, window := []);
    assert StepByte(s, HEAD) == t;
    FeedFills(t, body);
    assert [] + body == body;
    FinishFrame(s, [HEAD], body, payload);
  }

  /** From any state within the window bound, a frame whose payload holds no tail is received. */
  lemma FrameFromAnywhere(s: State, payload: bytes)
    requires Bounded(s) && |payload| == IMAGE_SIZE && TailFree(payload)
    ensures Feed(s, Frame(payload)) == Received(payload) && Images(s, Frame(payload)) == [ClampAll(payload)]
  {
    if !s.started {
      FrameFromIdle(s, payload);
    } else {
      var body := [HEAD] + payload + [TAIL_1];
      FeedSlides(s, body);
      var w := s.window + body;
      assert Newest(w) == payload + [TAIL_1];
      assert [] + body == body;
      FinishFrame(s, [], body, payload);
    }
  }

  /** The receiver as it starts. */
  function Start(): State {
    State(false, [], seq(IMAGE_SIZE, _ => 0), false)
  }

  /** Tail-free payloads are exactly those received after every history of the line: with a tail inside, a receiver
      caught in an open frame completes a wrong image in the middle. */
  lemma FrameFromAnywhereExactly(payload: bytes)
    requires |payload| == IMAGE_SIZE
    ensures TailFree(payload) <==>
            forall history :: Images(Feed(Start(), history), Frame(payload)) == [ClampAll(payload)]
  {
    hide Images, Feed, TailFree, Frame;
    if TailFree(payload) {
      forall history ensures Images(Feed(Start(), history), Frame(payload)) == [ClampAll(payload)] {
        FeedBounded(Start(), history);
        FrameFromAnywhere(Feed(Start(), history), payload);
      }
    } else {
      var history := Misled(payload);
    }
  }

  /** The first tail of a payload that has one. */
  lemma FirstTail(p: bytes) returns (i: nat)
    requires !TailFree(p)
    ensures i + 1 < |p| && p[i] == TAIL_1 && p[i + 1] == TAIL_2 && TailFree(p[..i + 1])
  {
    i := 0;
    assert exists j :: 0 <= j < |p| - 1 && p[j] == TAIL_1 && p[j + 1] == TAIL_2;
    while !(p[i] == TAIL_1 && p[i + 1] == TAIL_2)
      invariant i + 1 < |p| && forall j :: 0 <= j < i ==> !(p[j] == TAIL_1 && p[j + 1] == TAIL_2)
      invariant exists j :: i <= j < |p| - 1 && p[j] == TAIL_1 && p[j + 1] == TAIL_2
      decreases |p| - i
    {
      i := i + 1;
    }
  }

  /** A full window of one byte, in an open frame. */
  function Flooded(c: byte): State {
    Start().(started := true, window := seq(IMAGE_SIZE + 1, _ => c))
  }

  /** A head byte and then one byte over and over: a frame that was cut off. */
  function Flood(c: byte): bytes {
    [HEAD] + seq(IMAGE_SIZE + 1, _ => c)
  }

  lemma FloodArrives(c: byte)
    ensures Feed(Start(), Flood(c)) == Flooded(c)
  {
    var run: bytes := seq(IMAGE_SIZE + 1, _ => c);
    var open := Start().(started := true);
    FeedSplit(Start(), [HEAD], run);
    FeedOne(Start(), HEAD);
    FeedFills(open, run);
    assert [] + run == run;
  }

  /** A history of the line after which the frame is not received as it should be. */
  lemma Misled(p: bytes) returns (history: bytes)
    requires |p| == IMAGE_SIZE && !TailFree(p)
    ensures Images(Feed(Start(), history), Frame(p)) != [ClampAll(p)]
  {
    hide Images, Feed, Frame, Newest, ClampAll, TailFree, StepByte;
    var c: byte := if p[0] == 0 then 1 else 0;
    history := Flood(c);
    FloodArrives(c);
    var s := Flooded(c);
    var i := FirstTail(p);
    var before := [HEAD] + p[..i + 1];
    var rest := p[i + 2..] + [TAIL_1, TAIL_2];
    FrameAtTail(p, i, before, rest);
    HeadThenTailFree(c, p[..i + 1]);
    assert LastByte(s.window) == [c];
    FeedSlides(s, before);
    var t := Feed(s, before);
    ImagesSplit(s, before, [TAIL_2] + rest);
    ImagesCons(t, [TAIL_2] + rest);
    WrongImage(c, p, i);
    var done := Images(t, [TAIL_2]);
    assert t == s.(window := Newest(s.window + before));
    assert Images(s, Frame(p))[0] == done[0] != [ClampAll(p)][0];
  }

  lemma FrameAtTail(p: bytes, i: nat, before: bytes, rest: bytes)
    requires i + 1 < |p| && p[i + 1] == TAIL_2
    requires before == [HEAD] + p[..i + 1] && rest == p[i + 2..] + [TAIL_1, TAIL_2]
    ensures Frame(p) == before + ([TAIL_2] + rest)
  {
    assert p == p[..i + 1] + [TAIL_2] + p[i + 2..];
  }

  lemma HeadThenTailFree(c: byte, q: bytes)
    requires TailFree(q)
    ensures TailFree([c] + ([HEAD] + q))
  {
    var s := [c] + ([HEAD] + q);
    assert forall i :: 0 <= i < |q| ==> s[i + 2] == q[i];
    assert s[0] == c && s[1] == HEAD;
  }

  /** What is completed at the tail inside the payload starts with a byte of the old window. */
  lemma WrongImage(c: byte, p: bytes, i: nat)
    requires |p| == IMAGE_SIZE && i + 1 < |p| && p[i] == TAIL_1 && p[i + 1] == TAIL_2
    requires c == if p[0] == 0 then 1 else 0
    ensures var w := Newest(Flooded(c).window + ([HEAD] + p[..i + 1]));
            var done := Images(Flooded(c).(window := w), [TAIL_2]);
            |done| == 1 && done[0] != ClampAll(p)
  {
  }

  lemma FinishFrame(s: State, first: bytes, body: bytes, payload: bytes)
    requires |payload| == IMAGE_SIZE && first + body == [HEAD] + payload + [TAIL_1]
    requires Images(s, first) == [] && Images(Feed(s, first), body) == []
    requires var t := Feed(Feed(s, first), body); t.started && t.window == payload + [TAIL_1]
    ensures Feed(s, Frame(payload)) == Received(payload) && Images(s, Frame(payload)) == [ClampAll(payload)]
  {
    hide StepByte, Images, ClampAll;
    var start := first + body;
    assert Frame(payload) == start + [TAIL_2];
    FeedSplit(s, first, body);
    ImagesSplit(s, first, body);
    FeedSplit(s, start, [TAIL_2]);
    ImagesSplit(s, start, [TAIL_2]);
    CloseFrame(Feed(s, start), payload);
    assert Feed(Feed(s, start), [TAIL_2]) == StepByte(Feed(s, start), TAIL_2) by { FeedOne(Feed(s, start), TAIL_2); }
  }

  lemma FeedOne(s: State, d: byte)
    ensures Feed(s, [d]) == StepByte(s, d)
  {
    assert [d][1..] == [];
  }

  // ----- whole streams

  /** Frames on the line, each behind some bytes of noise. */
  function Line(gaps: seq<bytes>, payloads: seq<bytes>): bytes
    requires |gaps| == |payloads|
  {
    if gaps == [] then [] else gaps[0] + Frame(payloads[0]) + Line(gaps[1..], payloads[1..])
  }

  function ClampEach(payloads: seq<bytes>): seq<bytes> {
    if payloads == [] then [] else [ClampAll(payloads[0])] + ClampEach(payloads[1..])
  }

  lemma {:induction false} NoiseIgnored(s: State, gap: bytes)
    requires !s.started && HEAD !in gap
    ensures Feed(s, gap) == s && Images(s, gap) == []
    decreases |gap|
  {
    if gap != [] {
      assert gap[0] in gap && forall d :: d in gap[1..] ==> d in gap;
      NoiseIgnored(s, gap[1..]);
    }
  }

  /** From idle, a line of frames with any payloads and noise without a head byte yields exactly the images sent. */
  lemma {:induction false} LineReceived(s: State, gaps: seq<bytes>, payloads: seq<bytes>)
    requires !s.started && |gaps| == |payloads|
    requires forall i :: 0 <= i < |gaps| ==> HEAD !in gaps[i] && |payloads[i]| == IMAGE_SIZE
    ensures Images(s, Line(gaps, payloads)) == ClampEach(payloads)
    ensures !Feed(s, Line(gaps, payloads)).started
    decreases |gaps|
  {
    hide Frame, ClampAll;
    if gaps != [] {
      var gap, frame, rest := gaps[0], Frame(payloads[0]), Line(gaps[1..], payloads[1..]);
      NoiseIgnored(s, gap);
      FrameFromIdle(s, payloads[0]);
      LineReceived(Received(payloads[0]), gaps[1..], payloads[1..]);
      FeedSplit(s, gap, frame);
      ImagesSplit(s, gap, frame);
      FeedSplit(s, gap + frame, rest);
      ImagesSplit(s, gap + frame, rest);
    }
  }

  /** From any state within the window bound the same holds without noise, once the first payload holds no tail. */
  lemma FramesFromAnywhere(s: State, first: bytes, payloads: seq<bytes>)
    requires Bounded(s) && |first| == IMAGE_SIZE && TailFree(first)
    requires forall i :: 0 <= i < |payloads| ==> |payloads[i]| == IMAGE_SIZE
    ensures var gaps := seq(|payloads|, _ => []);
            Images(s, Frame(first) + Line(gaps, payloads)) == [ClampAll(first)] + ClampEach(payloads)
  {
    hide Frame, ClampAll;
    var gaps: seq<bytes> := seq(|payloads|, _ => []);
    FrameFromAnywhere(s, first);
    LineReceived(Received(first), gaps, payloads);
    ImagesSplit(s, Frame(first), Line(gaps, payloads));
  }

  /** While a frame is open, the window is the newest part of the input and a head byte stands before it. */
  lemma {:induction false} WindowIsSuffix(s: State, a: bytes)
    requires Bounded(s) && !s.started && Feed(s, a).started
    ensures var w := Feed(s, a).window;
            |w| < |a| && a[|a| - |w|..] == w && HEAD in a[..|a| - |w|]
    decreases |a|
  {
    if a != [] {
      var n := |a| - 1;
      var front, d := a[..n], a[n];
      assert a == front + [d];
      FeedSplit(s, front, [d]);
      FeedBounded(s, front);
      FeedOne(Feed(s, front), d);
      var t := Feed(s, front);
      if t.started {
        WindowIsSuffix(s, front);
        Suffixes(front, d, t.window, Feed(s, a).window);
      } else {
        assert a[..|a|] == a && a[n] == HEAD;
      }
    }
  }

  lemma Suffixes(front: bytes, d: byte, w: bytes, next: bytes)
    requires |w| < |front| && front[|front| - |w|..] == w && HEAD in front[..|front| - |w|]
    requires next == w + [d] || next == (w + [d])[1..]
    ensures var a := front + [d]; a[|a| - |next|..] == next && HEAD in a[..|a| - |next|]
  {
    var a := front + [d];
    var head := front[..|front| - |w|];
    var k :| 0 <= k < |head| && head[k] == HEAD;
    assert a[..|a| - |next|][k] == HEAD;
  }

  /** No image is invented: whatever the stream, a completed image is the clamped 1024 bytes in front of a tail, and
      a head byte came before them. */
  lemma NothingInvented(s: State, a: bytes, d: byte)
    requires Bounded(s) && !s.started && Completes(Feed(s, a), d)
    ensures var t := a + [d];
            var start := |t| - (IMAGE_SIZE + 2);
            start > 0 && HEAD in t[..start] && Closed(t) && Images(Feed(s, a), [d]) == [ClampAll(t[start..start + IMAGE_SIZE])]
  {
    hide Feed;
    WindowIsSuffix(s, a);
    FeedBounded(s, a);
    ImagesOne(Feed(s, a), d);
    var t := a + [d];
    var w := Feed(s, a).window;
    var start := |t| - (IMAGE_SIZE + 2);
    assert |w| == IMAGE_SIZE + 1;
    assert t[..start] == a[..start] && t[start..] == w + [d];
    assert t[start..][..IMAGE_SIZE] == t[start..start + IMAGE_SIZE];
  }
}

/** The receiver as it runs in the serial callback: two fixed buffers, a counter and two flags. */
module Receiver {
  import opened Bytes
  import opened Frames

  const BUFFER_SIZE := 1032
  const CALLBACK_SIZE := 64

  class FrameReceiver {
    const recvBuf: array<byte>
    const imageBuffer: array<byte>
    var recvCnt: nat
    var frameStart: bool
    var frameReady: bool

    ghost predicate Valid()
      reads this, recvBuf, imageBuffer
    {
      recvBuf != imageBuffer && recvBuf.Length == BUFFER_SIZE && imageBuffer.Length == IMAGE_SIZE &&
      recvCnt <= IMAGE_SIZE + 1 && (!frameStart ==> recvCnt == 0)
    }

    ghost function Abs(): State
      reads this, recvBuf, imageBuffer
      requires Valid()
    {
      State(frameStart, recvBuf[..recvCnt], imageBuffer[..], frameReady)
    }

    constructor ()
      ensures Valid() && !frameStart && !frameReady && Bounded(Abs())
    {
      recvBuf := new byte[BUFFER_SIZE](_ => 0);
      imageBuffer := new byte[IMAGE_SIZE](_ => 0);
      recvCnt := 0;
      frameStart := false;
      frameReady := false;
    }

    method TailMatches() returns (matches: bool)
      requires recvBuf.Length == BUFFER_SIZE && 2 <= recvCnt <= BUFFER_SIZE
      ensures matches == Closed(recvBuf[..recvCnt])
    {
      var tail := [TAIL_1, TAIL_2];
      var pos := recvCnt - 2;
      matches := true;
      var j := 0;
      while j < 2 && matches
        invariant 0 <= j <= 2
        invariant matches ==> (j > 0 ==> recvBuf[pos] == TAIL_1) && (j > 1 ==> recvBuf[pos + 1] == TAIL_2)
        invariant !matches ==> !Closed(recvBuf[..recvCnt])
      {
        if recvBuf[pos + j] != tail[j] {
          matches := false;
        }
        j := j + 1;
      }
    }

    method OnByte(d: byte)
      requires Valid()
      modifies this, recvBuf, imageBuffer
      ensures Valid() && Abs() == StepByte(old(Abs()), d)
    {
      if !frameStart {
        if d == HEAD {
          frameStart := true;
          recvCnt := 0;
          forall i | 0 <= i < BUFFER_SIZE {
            recvBuf[i] := 0;
          }
        }
        return;
      }
      Collect(d);
    }

    /** One byte inside a frame. */
    method Collect(d: byte)
      requires Valid() && frameStart
      modifies this, recvBuf, imageBuffer
      ensures Valid() && Abs() == StepByte(old(Abs()), d)
    {
      hide Closed;
      ghost var w := recvBuf[..recvCnt] + [d];
      recvBuf[recvCnt] := d;
      recvCnt := recvCnt + 1;
      assert recvBuf[..recvCnt] == w;
      if recvCnt >= IMAGE_SIZE + 2 {
        var closed := TailMatches();
        if closed {
          forall i | 0 <= i < IMAGE_SIZE {
            imageBuffer[i] := Clamp(recvBuf[i]);
          }
          assert imageBuffer[..] == ClampAll(w[..IMAGE_SIZE]) by {
            assert forall i :: 0 <= i < IMAGE_SIZE ==> w[..IMAGE_SIZE][i] == recvBuf[i];
          }
          frameReady := true;
          frameStart := false;
          recvCnt := 0;
        } else {
          forall i | 0 <= i < BUFFER_SIZE - 1 {
            recvBuf[i] := recvBuf[i + 1];
          }
          recvCnt := recvCnt - 1;
          assert recvBuf[..recvCnt] == w[1..];
        }
      }
    }

    /** `uart_rx_callback` with the bytes one read of the device returned. */
    method Callback(input: bytes)
      requires Valid() && |input| <= CALLBACK_SIZE
      modifies this, recvBuf, imageBuffer
      ensures Valid() && Abs() == Feed(old(Abs()), input)
    {
      var i := 0;
      assert input[0..] == input;
      while i < |input|
        invariant 0 <= i <= |input| && Valid()
        invariant Feed(Abs(), input[i..]) == Feed(old(Abs()), input)
      {
        assert input[i..][1..] == input[i + 1..];
        OnByte(input[i]);
        i := i + 1;
      }
    }

    /** The receive loop takes the image that waits, if any. */
    method Take() returns (image: Option<bytes>)
      requires Valid()
      modifies this`frameReady
      ensures Valid() && Abs() == old(Abs()).(ready := false)
      ensures image == if old(frameReady) then Some(old(Abs()).image) else None
    {
      if frameReady {
        frameReady := false;
        image := Some(imageBuffer[..]);
      } else {
        image := None;
      }
    }

    /** The bytes of a stream arriving in any number of callbacks of any sizes. */
    method Callbacks(pieces: seq<bytes>)
      requires Valid() && forall i :: 0 <= i < |pieces| ==> |pieces[i]| <= CALLBACK_SIZE
      modifies this, recvBuf, imageBuffer
      ensures Valid() && Abs() == Feed(old(Abs()), Concat(pieces))
    {
      hide Feed;
      var i := 0;
      assert pieces[0..] == pieces;
      while i < |pieces|
        invariant 0 <= i <= |pieces| && Valid()
        invariant Feed(Abs(), Concat(pieces[i..])) == Feed(old(Abs()), Concat(pieces))
      {
        assert pieces[i..][1..] == pieces[i + 1..];
        FeedSplit(Abs(), pieces[i], Concat(pieces[i + 1..]));
        Callback(pieces[i]);
        i := i + 1;
      }
      FeedNothing(Abs());
    }
  }

  function Concat(pieces: seq<bytes>): bytes {
    if pieces == [] then [] else pieces[0] + Concat(pieces[1..])
  }

  lemma FeedNothing(s: State)
    ensures Feed(s, []) == s
  {
  }

  // ----- the camera's side

  /** `int(round(p * 127 / 255))`: there are no ties, so the nearest integer. */
  function Mapped(p: byte): byte {
    (p * 254 + 255) / 510
  }

  /** The map from pixels keeps the order, spans the range 0 to 127, and never makes a head byte. */
  lemma MappedPixel(p: byte, q: byte)
    ensures Mapped(p) <= VAL_MAX && Mapped(p) != HEAD && Clamp(Mapped(p)) == Mapped(p)
    ensures p <= q ==> Mapped(p) <= Mapped(q)
    ensures Mapped(0) == 0 && Mapped(255) == VAL_MAX
    ensures -255 < 2 * (255 * Mapped(p) - 127 * p) < 255
  {
  }

  /** `send_frame`: the pixel loop and the framing. */
  method SendFrame(pixels: bytes) returns (sent: bytes)
    requires |pixels| == IMAGE_SIZE
    ensures sent == Frame(MappedAll(pixels))
  {
    var data: bytes := [];
    var i := 0;
    while i < IMAGE_SIZE
      invariant 0 <= i <= IMAGE_SIZE && data == MappedAll(pixels[..i])
    {
      data := data + [Mapped(pixels[i])];
      i := i + 1;
    }
    assert pixels[..IMAGE_SIZE] == pixels;
    sent := [HEAD] + data + [TAIL_1, TAIL_2];
  }

  function MappedAll(pixels: bytes): (r: bytes)
    ensures |r| == |pixels| && forall i :: 0 <= i < |r| ==> r[i] == Mapped(pixels[i])
  {
    seq(|pixels|, i requires 0 <= i < |pixels| => Mapped(pixels[i]))
  }

  /** What the camera sends reaches an idle receiver unchanged by the clamp. */
  lemma SentIsReceived(s: State, pixels: bytes)
    requires !s.started && |pixels| == IMAGE_SIZE
    ensures Feed(s, Frame(MappedAll(pixels))) == State(false, [], MappedAll(pixels), true)
  {
    var data := MappedAll(pixels);
    FrameFromIdle(s, data);
    forall i | 0 <= i < |data| ensures Clamp(data[i]) == data[i] {
      MappedPixel(pixels[i], pixels[i]);
    }
    assert ClampAll(data) == data;
  }
}
