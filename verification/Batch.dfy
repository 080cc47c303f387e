/** Batches of images: the camera announces how many come, each received image is classified, and the last one of a
    batch triggers the report. */
module Batch {
  import opened Bytes
  import opened Frames
  import opened Receiver

  const CLASSES := 7
  const MAX_IMAGES := 10

  type Class = c: nat | c < CLASSES

  // ----- classification

  /** The first largest of the network's outputs. */
  ghost predicate FirstLargest(output: seq<int>, k: nat) {
    k < |output| && (forall j :: 0 <= j < |output| ==> output[j] <= output[k]) && (forall j :: 0 <= j < k ==> output[j] < output[k])
  }

  predicate Int8(x: int) {
    -128 <= x < 128
  }

  type Output = s: seq<int> | |s| == CLASSES && forall i :: 0 <= i < |s| ==> Int8(s[i]) witness seq(CLASSES, i => 0)

  function BestUpTo(output: Output, n: nat): (k: Class)
    requires n <= CLASSES
    ensures n > 0 ==> k < n
    ensures forall j :: 0 <= j < n ==> output[j] <= output[k]
    ensures forall j :: 0 <= j < k ==> output[j] < output[k]
  {
    if n == 0 then 0
    else
      var k := BestUpTo(output, n - 1);
      if n > 1 && output[n - 1] > output[k] then n - 1 else k
  }

  function Best(output: Output): (k: Class)
    ensures FirstLargest(output, k)
  {
    BestUpTo(output, CLASSES)
  }

  lemma OnlyOneFirst(output: seq<int>, k: nat, l: nat)
    requires FirstLargest(output, k) && FirstLargest(output, l)
    ensures k == l
  {
    if k < l {
      FirstBeats(output, k, l);
    } else if l < k {
      FirstBeats(output, l, k);
    }
  }

  lemma FirstBeats(output: seq<int>, j: nat, k: nat)
    requires FirstLargest(output, k) && j < k
    ensures output[j] < output[k]
  {
  }

  /** The loop of `parse_output_result`. */
  method ArgMax(output: Output) returns (best: Class)
    ensures best == Best(output)
  {
    var largest := -128;
    best := 0;
    var i := 0;
    while i < CLASSES
      invariant 0 <= i <= CLASSES
      invariant forall j :: 0 <= j < i ==> output[j] <= largest
      invariant (best == 0 && largest == -128) || (best < i && largest == output[best])
      invariant forall j :: 0 <= j < best ==> output[j] < largest
    {
      if output[i] > largest {
        largest := output[i];
        best := i;
      }
      i := i + 1;
    }
    assert FirstLargest(output, best);
    OnlyOneFirst(output, best, Best(output));
  }

  // ----- what the controller keeps

  datatype Report = Report(results: seq<nat>, counts: seq<nat>)

  /** Images announced so far, images in the batch, images classified, their classes, the count of each class, and
      everything reported. */
  datatype Tally = Tally(announced: byte, total: byte, done: byte, last: seq<nat>, counts: seq<nat>, reports: seq<Report>)

  predicate Sized(s: Tally) {
    |s.last| == MAX_IMAGES && |s.counts| == CLASSES
  }

  /** The announced batch fits the list of results. */
  predicate Small(s: Tally) {
    Sized(s) && s.total <= MAX_IMAGES
  }

  /** The next image is stored, and a report reads, inside the list of results. */
  predicate InRange(s: Tally, opens: bool) {
    (s.done < s.total ==> s.done < MAX_IMAGES) && (opens && (s.done + 1) % 256 >= s.total ==> s.total <= MAX_IMAGES)
  }

  function Zeros(n: nat): seq<nat> {
    seq(n, _ => 0)
  }

  /** `(` */
  function Announce(s: Tally): Tally {
    s.(announced := (s.announced + 1) % 256)
  }

  /** `)` */
  function Publish(s: Tally): Tally {
    s.(total := s.announced, announced := 0)
  }

  /** One classified image; `opens` says whether the results file can be opened. */
  function Classified(s: Tally, k: Class, opens: bool): (t: Tally)
    requires Sized(s) && InRange(s, opens)
    ensures Sized(t) && t.total == s.total && t.announced == s.announced
  {
    var last := if s.done < s.total then s.last[s.done := k] else s.last;
    var counts := s.counts[k := (s.counts[k] + 1) % 0x10000];
    var done := (s.done + 1) % 256;
    if done < s.total || !opens then s.(last := last, counts := counts, done := done)
    else
      s.(last := Zeros(MAX_IMAGES), counts := Zeros(CLASSES), done := 0,
         reports := s.reports + [Report(last[..s.total], counts)])
  }

  class Inspector {
    var imageCount: byte
    var roundCnt: byte
    var detectRound: byte
    const lastDetect: array<nat>
    const defectCounter: array<nat>
    ghost var reports: seq<Report>

    ghost predicate Valid()
      reads this
    {
      lastDetect.Length == MAX_IMAGES && defectCounter.Length == CLASSES && lastDetect != defectCounter
    }

    ghost function Abs(): Tally
      reads this, lastDetect, defectCounter
    {
      Tally(imageCount, roundCnt, detectRound, lastDetect[..], defectCounter[..], reports)
    }

    constructor ()
      ensures Valid() && Abs() == Tally(0, MAX_IMAGES, 0, Zeros(MAX_IMAGES), Zeros(CLASSES), [])
    {
      imageCount := 0;
      roundCnt := MAX_IMAGES;
      detectRound := 0;
      lastDetect := new nat[MAX_IMAGES](_ => 0);
      defectCounter := new nat[CLASSES](_ => 0);
      reports := [];
      new;
      assert lastDetect[..] == Zeros(MAX_IMAGES) && defectCounter[..] == Zeros(CLASSES);
    }

    method OnCount(ch: char)
      requires Valid()
      modifies this
      ensures Valid()
      ensures Abs() == if ch == '(' then Announce(old(Abs())) else if ch == ')' then Publish(old(Abs())) else old(Abs())
    {
      match ch {
        case '(' => imageCount := (imageCount + 1) % 256;
        case ')' =>
          roundCnt := imageCount;
          imageCount := 0;
        case _ =>
      }
    }

    /** The body of the receive loop for one image: classify, count, and report after the last one. */
    method Inspect(output: Output, opens: bool)
      requires Valid() && InRange(Abs(), opens)
      modifies this, lastDetect, defectCounter
      ensures Valid() && Abs() == Classified(old(Abs()), Best(output), opens)
    {
      var k := ArgMax(output);
      if detectRound < roundCnt {
        lastDetect[detectRound] := k;
      }
      defectCounter[k] := (defectCounter[k] + 1) % 0x10000;
      detectRound := (detectRound + 1) % 256;
      if detectRound >= roundCnt {
        GenerateReport(opens);
      }
    }

    /** `generate_defect_stat_csv`: nothing at all when the file does not open. */
    method GenerateReport(opens: bool)
      requires Valid() && (opens ==> roundCnt <= MAX_IMAGES)
      modifies this, lastDetect, defectCounter
      ensures Valid()
      ensures var s := old(Abs());
              Abs() == if !opens then s
                       else s.(last := Zeros(MAX_IMAGES), counts := Zeros(CLASSES), done := 0,
                               reports := s.reports + [Report(s.last[..s.total], s.counts)])
    {
      if !opens {
        return;
      }
      reports := reports + [Report(lastDetect[..roundCnt], defectCounter[..])];
      forall i | 0 <= i < CLASSES {
        defectCounter[i] := 0;
      }
      forall i | 0 <= i < MAX_IMAGES {
        lastDetect[i] := 0;
      }
      detectRound := 0;
      assert lastDetect[..] == Zeros(MAX_IMAGES) && defectCounter[..] == Zeros(CLASSES);
    }
  }

  // ----- one batch

  /** Between two batches. */
  predicate Clean(s: Tally) {
    Sized(s) && s.announced == 0 && s.done == 0 && s.last == Zeros(MAX_IMAGES) && s.counts == Zeros(CLASSES)
  }

  function AnnounceAll(s: Tally, n: nat): Tally
    decreases n
  {
    if n == 0 then s else AnnounceAll(Announce(s), n - 1)
  }

  lemma {:induction false} AnnouncedAll(s: Tally, n: nat)
    ensures AnnounceAll(s, n) == s.(announced := InByte(s.announced + n))
    decreases n
  {
    if n > 0 {
      AnnouncedAll(Announce(s), n - 1);
      Wraps(s.announced + 1, n - 1);
    }
  }

  /** A count as a byte and as a 16-bit counter keeps it. */
  function InByte(n: nat): nat {
    n % 256
  }

  function InWord16(n: nat): nat {
    n % 0x10000
  }

  lemma Wraps(a: nat, b: nat)
    ensures InByte(InByte(a) + b) == InByte(a + b) && InByte(a) < 256 && (a < 256 ==> InByte(a) == a)
  {
    WrapsShifted(a / 256, a % 256 + b);
  }

  lemma WrapsShifted(q: nat, x: nat)
    ensures InByte(q * 256 + x) == InByte(x)
  {
  }

  lemma Wraps16(a: nat, b: nat)
    ensures InWord16(InWord16(a) + b) == InWord16(a + b) && InWord16(a) < 0x10000 && (a < 0x10000 ==> InWord16(a) == a)
  {
    Wraps16Shifted(a / 0x10000, a % 0x10000 + b);
  }

  lemma Wraps16Shifted(q: nat, x: nat)
    ensures InWord16(q * 0x10000 + x) == InWord16(x)
  {
  }

  function ClassifyAll(s: Tally, ks: seq<Class>, opens: seq<bool>): (t: Tally)
    requires Small(s) && |opens| == |ks|
    ensures Small(t)
    decreases |ks|
  {
    if ks == [] then s else ClassifyAll(Classified(s, ks[0], opens[0]), ks[1..], opens[1..])
  }

  /** How often each class occurs. */
  function Histogram(ks: seq<Class>): (h: seq<nat>)
    ensures |h| == CLASSES
  {
    seq(CLASSES, c requires 0 <= c < CLASSES => multiset(ks)[c])
  }

  /** In the middle of a batch: the classes so far are listed and counted. */
  ghost predicate Midway(s: Tally, total: nat, seen: seq<Class>) {
    Small(s) && s.total == total && s.announced == 0 && |seen| == s.done < total &&
    s.last == seen + Zeros(MAX_IMAGES - |seen|) && s.counts == Histogram(seen)
  }

  lemma HistogramStep(seen: seq<Class>, k: Class)
    ensures Histogram(seen + [k]) == Histogram(seen)[k := Histogram(seen)[k] + 1]
  {
  }

  lemma {:induction false} CountBound(seen: seq<Class>, k: Class)
    ensures Histogram(seen)[k] <= |seen|
  {
    if seen != [] {
      var n := |seen| - 1;
      assert seen == seen[..n] + [seen[n]];
      HistogramStep(seen[..n], seen[n]);
      CountBound(seen[..n], k);
    }
  }

  /** Classifying one more image of a batch; only at the last one it matters whether the file opens. */
  lemma MidwayStep(s: Tally, total: nat, seen: seq<Class>, k: Class, opens: bool)
    requires Midway(s, total, seen)
    ensures var t := Classified(s, k, opens);
            if |seen| + 1 < total then Midway(t, total, seen + [k]) && t.reports == s.reports
            else if opens then Clean(t) && t.total == total && t.reports == s.reports + [Report(seen + [k], Histogram(seen + [k]))]
            else Unclosed(t, total, seen + [k]) && t.reports == s.reports
  {
    hide Histogram;
    HistogramStep(seen, k);
    CountBound(seen, k);
    var left := MAX_IMAGES - |seen|;
    assert s.last[|seen| := k] == seen + [k] + Zeros(left - 1);
    assert (seen + [k] + Zeros(left - 1))[..|seen| + 1] == seen + [k];
  }

  /** A batch whose last image was classified but not reported. */
  ghost predicate Unclosed(s: Tally, total: nat, seen: seq<Class>) {
    Small(s) && s.total == total == s.done == |seen| && s.last[..total] == seen && s.counts == Histogram(seen)
  }

  lemma {:induction false} RestOfBatch(s: Tally, total: nat, seen: seq<Class>, ks: seq<Class>, opens: seq<bool>)
    requires Midway(s, total, seen) && ks != [] && |seen| + |ks| == total && |opens| == |ks|
    ensures var t := ClassifyAll(s, ks, opens);
            if opens[|opens| - 1]
            then Clean(t) && t.total == total && t.reports == s.reports + [Report(seen + ks, Histogram(seen + ks))]
            else Unclosed(t, total, seen + ks) && t.reports == s.reports
    decreases |ks|
  {
    assert Small(s);
    hide Histogram, Classified, ClassifyAll, Clean, Midway, Small, Unclosed, InRange, Zeros, Sized;
    ClassifyStep(s, ks, opens);
    MidwayStep(s, total, seen, ks[0], opens[0]);
    assert seen + ks == seen + [ks[0]] + ks[1..];
    var t := Classified(s, ks[0], opens[0]);
    if |ks| == 1 {
      assert ks[1..] == [] && opens[1..] == [] && seen + ks == seen + [ks[0]];
      NoMore(t);
    } else {
      RestOfBatch(t, total, seen + [ks[0]], ks[1..], opens[1..]);
    }
  }

  lemma StaysSmall(s: Tally, k: Class, opens: bool)
    requires Small(s)
    ensures InRange(s, opens) && Small(Classified(s, k, opens))
  {
  }

  lemma ClassifyStep(s: Tally, ks: seq<Class>, opens: seq<bool>)
    requires Small(s) && |opens| == |ks| > 0
    ensures InRange(s, opens[0]) && Small(Classified(s, ks[0], opens[0]))
    ensures ClassifyAll(s, ks, opens) == ClassifyAll(Classified(s, ks[0], opens[0]), ks[1..], opens[1..])
  {
  }

  lemma ClassifyFirst(s: Tally, k: Class, ks: seq<Class>, o: bool, opens: seq<bool>)
    requires Small(s) && |opens| == |ks|
    ensures InRange(s, o) && Small(Classified(s, k, o))
    ensures ClassifyAll(s, [k] + ks, [o] + opens) == ClassifyAll(Classified(s, k, o), ks, opens)
  {
    assert ([k] + ks)[1..] == ks && ([o] + opens)[1..] == opens;
  }

  lemma NoMore(s: Tally)
    requires Small(s)
    ensures ClassifyAll(s, [], []) == s
  {
  }

  /** Announcing `n` images and classifying them yields exactly one report, listing the classes in order with their
      histogram, and leaves nothing behind, if and only if the file opens at the last image. */
  lemma OneBatch(s: Tally, ks: seq<Class>, opens: seq<bool>)
    requires Clean(s) && 1 <= |ks| <= MAX_IMAGES && |opens| == |ks|
    ensures var u := Publish(AnnounceAll(s, |ks|));
            Small(u) && var t := ClassifyAll(u, ks, opens);
            (Clean(t) && t.reports == s.reports + [Report(ks, Histogram(ks))] <==> opens[|ks| - 1]) &&
            (!Clean(t) && t.reports == s.reports <==> !opens[|ks| - 1])
  {
    StartOfBatch(s, |ks|);
    var u := Publish(AnnounceAll(s, |ks|));
    assert [] + ks == ks;
    assert Small(u);
    hide Histogram, ClassifyAll, Midway, AnnounceAll, Publish, Small, Zeros;
    RestOfBatch(u, |ks|, [], ks, opens);
    var r := Report(ks, Histogram(ks));
    assert |s.reports + [r]| == |s.reports| + 1;
    assert Unclosed(ClassifyAll(u, ks, opens), |ks|, ks) ==> ClassifyAll(u, ks, opens).done != 0;
    hide Unclosed;
  }

  lemma StartOfBatch(s: Tally, n: nat)
    requires Clean(s) && 1 <= n <= MAX_IMAGES
    ensures var u := Publish(AnnounceAll(s, n)); Midway(u, n, []) && u.reports == s.reports
  {
    AnnouncedAll(s, n);
    Wraps(n, 0);
    hide InByte;
    assert [] + Zeros(MAX_IMAGES) == Zeros(MAX_IMAGES);
    assert Histogram([]) == Zeros(CLASSES);
  }

  /** When the file does not open, the next image triggers a report that lists the old classes, omits the new one, and
      counts all of them. */
  lemma UnopenedFileLeaks(t: Tally, total: nat, seen: seq<Class>, next: Class)
    requires Unclosed(t, total, seen)
    ensures Classified(t, next, true).reports == t.reports + [Report(seen, Histogram(seen + [next]))]
  {
    hide Histogram;
    HistogramStep(seen, next);
    CountBound(seen, next);
  }

  /** While the file never opens, images are counted modulo 2^16 in each class and modulo 2^8 in all, and nothing is
      reported. */
  lemma NeverOpened(s: Tally, ks: seq<Class>, opens: seq<bool>, c: Class)
    requires Small(s) && |opens| == |ks| && forall i :: 0 <= i < |opens| ==> !opens[i]
    requires s.done < 256 && s.counts[c] < 0x10000
    ensures var t := ClassifyAll(s, ks, opens);
            t.reports == s.reports && t.done == InByte(s.done + |ks|) && t.counts[c] == InWord16(s.counts[c] + Histogram(ks)[c])
  {
    hide *;
    CountUnopened(s, ks, opens, c);
    TimesIsCount(ks, c);
  }

  function Times(ks: seq<Class>, c: Class): nat {
    if ks == [] then 0 else (if ks[0] == c then 1 else 0) + Times(ks[1..], c)
  }

  lemma {:induction false} TimesIsCount(ks: seq<Class>, c: Class)
    ensures Times(ks, c) == Histogram(ks)[c]
  {
    if ks != [] {
      TimesIsCount(ks[1..], c);
      assert ks == [ks[0]] + ks[1..];
    }
  }

  lemma {:induction false} CountUnopened(s: Tally, ks: seq<Class>, opens: seq<bool>, c: Class)
    requires Small(s) && |opens| == |ks| && forall i :: 0 <= i < |opens| ==> !opens[i]
    requires s.done < 256 && s.counts[c] < 0x10000
    ensures var t := ClassifyAll(s, ks, opens);
            t.reports == s.reports && t.done == InByte(s.done + |ks|) && t.counts[c] == InWord16(s.counts[c] + Times(ks, c))
    decreases |ks|
  {
    var count := s.counts[c];
    hide Classified, ClassifyAll, Small, InByte, InWord16, InRange, Sized;
    if ks == [] {
      NoMore(s);
      assert opens == [];
      Wraps(s.done, 0);
      Wraps16(count, 0);
    } else {
      CountedUnopened(s, ks[0], c);
      ClassifyStep(s, ks, opens);
      assert !opens[0];
      CountUnopened(Classified(s, ks[0], false), ks[1..], opens[1..], c);
      Wraps(s.done + 1, |ks| - 1);
      Wraps16(count + (if ks[0] == c then 1 else 0), Times(ks[1..], c));
    }
  }

  lemma CountedUnopened(s: Tally, k: Class, c: Class)
    requires Small(s)
    ensures Sized(s) && InRange(s, false) && var u := Classified(s, k, false);
            Small(u) && u.reports == s.reports && u.done == InByte(s.done + 1) && u.done < 256 &&
            (s.counts[c] < 0x10000 ==> u.counts[c] < 0x10000 && u.counts[c] == InWord16(s.counts[c] + if k == c then 1 else 0))
  {
  }

  /** Ten is the exact limit: with `n` images announced, every one of them is stored and reported inside the list of
      results if and only if `n` is at most ten. */
  lemma TenIsTheLimit(s: Tally, n: nat)
    requires Clean(s) && 1 <= n < 256
    ensures (forall done: nat, opens :: done < n ==> InRange(Publish(AnnounceAll(s, n)).(done := done), opens)) <==> n <= MAX_IMAGES
  {
    AnnouncedAll(s, n);
    var u := Publish(AnnounceAll(s, n));
    if n > MAX_IMAGES {
      assert !InRange(u.(done := MAX_IMAGES), true);
    }
  }

  // ----- the whole line, from pixels to reports

  /** What reaches the controller: a command character, bytes on the image line, or a turn of the receive loop, with
      whether the results file could be opened then. */
  datatype Event = Command(ch: char) | Line(data: bytes) | Poll(opens: bool)

  datatype System = System(receiver: Frames.State, tally: Tally)

  predicate Proper(s: System) {
    Sized(s.tally) && Bounded(s.receiver)
  }

  /** A turn of the loop with an image stays inside the list of results. */
  predicate Accepts(s: System, e: Event) {
    e.Poll? && s.receiver.ready ==> InRange(s.tally, e.opens)
  }

  /** One event; the network is any function of the image. */
  function React(s: System, e: Event, model: bytes -> Output): (t: System)
    requires Proper(s) && Accepts(s, e)
    ensures Proper(t)
  {
    match e
    case Command(ch) =>
      if ch == '(' then s.(tally := Announce(s.tally))
      else if ch == ')' then s.(tally := Publish(s.tally))
      else s
    case Line(data) =>
      FeedBounded(s.receiver, data);
      s.(receiver := Feed(s.receiver, data))
    case Poll(opens) =>
      if s.receiver.ready then
        System(s.receiver.(ready := false), Classified(s.tally, Best(model(s.receiver.image)), opens))
      else s
  }

  predicate AcceptsAll(s: System, events: seq<Event>, model: bytes -> Output)
    requires Proper(s)
    decreases |events|
  {
    events == [] || (Accepts(s, events[0]) && AcceptsAll(React(s, events[0], model), events[1..], model))
  }

  function Run(s: System, events: seq<Event>, model: bytes -> Output): (t: System)
    requires Proper(s) && AcceptsAll(s, events, model)
    ensures Proper(t)
    decreases |events|
  {
    if events == [] then s else Run(React(s, events[0], model), events[1..], model)
  }

  lemma {:induction false} RunSplit(s: System, a: seq<Event>, b: seq<Event>, model: bytes -> Output)
    requires Proper(s) && AcceptsAll(s, a, model) && AcceptsAll(Run(s, a, model), b, model)
    ensures AcceptsAll(s, a + b, model) && Run(s, a + b, model) == Run(Run(s, a, model), b, model)
    decreases |a|
  {
    hide React, Accepts;
    if a == [] {
      assert a + b == b;
    } else {
      RunSplit(React(s, a[0], model), a[1..], b, model);
      assert (a + b)[0] == a[0] && (a + b)[1..] == a[1..] + b;
    }
  }

  /** The controller at work: commands, callbacks of at most 64 bytes and turns of the loop, in any order. */
  method Serve(receiver: FrameReceiver, inspector: Inspector, events: seq<Event>, model: bytes -> Output)
    requires receiver.Valid() && inspector.Valid() && {receiver, receiver.recvBuf, receiver.imageBuffer} !!
             {inspector, inspector.lastDetect, inspector.defectCounter}
    requires Proper(System(receiver.Abs(), inspector.Abs()))
    requires AcceptsAll(System(receiver.Abs(), inspector.Abs()), events, model)
    requires forall i :: 0 <= i < |events| && events[i].Line? ==> |events[i].data| <= CALLBACK_SIZE
    modifies receiver, receiver.recvBuf, receiver.imageBuffer, inspector, inspector.lastDetect, inspector.defectCounter
    ensures receiver.Valid() && inspector.Valid()
    ensures System(receiver.Abs(), inspector.Abs()) == Run(old(System(receiver.Abs(), inspector.Abs())), events, model)
  {
    hide StepByte, Feed, Classified, Best, InRange;
    ghost var start := System(receiver.Abs(), inspector.Abs());
    var i := 0;
    assert events[0..] == events;
    while i < |events|
      invariant 0 <= i <= |events| && receiver.Valid() && inspector.Valid()
      invariant var s := System(receiver.Abs(), inspector.Abs());
                Proper(s) && AcceptsAll(s, events[i..], model) && Run(s, events[i..], model) == Run(start, events, model)
    {
      ghost var s := System(receiver.Abs(), inspector.Abs());
      assert events[i..][1..] == events[i + 1..] && events[i..][0] == events[i];
      assert Accepts(s, events[i]);
      match events[i] {
        case Command(ch) => inspector.OnCount(ch);
        case Line(data) => receiver.Callback(data);
        case Poll(opens) =>
          var image := receiver.Take();
          if image.Some? {
            inspector.Inspect(model(image.value), opens);
          }
      }
      assert System(receiver.Abs(), inspector.Abs()) == React(s, events[i], model);
      i := i + 1;
    }
  }

  // ----- the schedules of a round

  const FRAME_SIZE := IMAGE_SIZE + 3

  /** What the camera writes for an image. */
  function FrameOf(image: bytes): bytes {
    Frame(MappedAll(image))
  }

  predicate Counting(ch: char) {
    ch == '(' || ch == ')'
  }

  /** A point in a round: the counting characters still to come, the images still on their way, how many bytes of the
      first of them have been sent, and the image that was received and not yet consumed. */
  datatype Point = Point(signs: seq<char>, images: seq<bytes>, at: nat, waiting: Option<bytes>)

  /** Whether a byte may come next: noise between two frames, or the next byte of a frame. A frame is completed only
      after the count, and only when the image before it was consumed. */
  predicate Allows(p: Point, d: byte) {
    (p.at == 0 && d != HEAD) ||
    (&& p.images != [] && p.at < |FrameOf(p.images[0])| && d == FrameOf(p.images[0])[p.at]
     && (p.at + 1 == |FrameOf(p.images[0])| ==> p.signs == [] && p.waiting.None?))
  }

  function Sent(p: Point, d: byte): Point
    requires Allows(p, d)
  {
    if p.at == 0 && d != HEAD then p
    else if p.at + 1 < |FrameOf(p.images[0])| then p.(at := p.at + 1)
    else Point(p.signs, p.images[1..], 0, Some(p.images[0]))
  }

  /** The bytes of one callback, wherever they cut the frames. */
  predicate AllowsAll(p: Point, data: bytes)
    decreases |data|
  {
    data == [] || (Allows(p, data[0]) && AllowsAll(Sent(p, data[0]), data[1..]))
  }

  function SentAll(p: Point, data: bytes): Point
    requires AllowsAll(p, data)
    decreases |data|
  {
    if data == [] then p else SentAll(Sent(p, data[0]), data[1..])
  }

  /** Counting characters come in their order; other commands and turns of the loop come anywhere. */
  predicate Admits(p: Point, e: Event) {
    match e
    case Command(ch) => Counting(ch) ==> p.signs != [] && p.signs[0] == ch
    case Line(data) => AllowsAll(p, data)
    case Poll(_) => true
  }

  function After(p: Point, e: Event): Point
    requires Admits(p, e)
  {
    match e
    case Command(ch) => if Counting(ch) then p.(signs := p.signs[1..]) else p
    case Line(data) => SentAll(p, data)
    case Poll(_) => p.(waiting := None)
  }

  /** The events carry a round from here to its end. */
  predicate Plays(events: seq<Event>, p: Point)
    decreases |events|
  {
    if events == [] then p == Point([], [], 0, None)
    else Admits(p, events[0]) && Plays(events[1..], After(p, events[0]))
  }

  /** Whether the file opened at each turn that consumed an image. */
  function Opened(events: seq<Event>, p: Point): seq<bool>
    requires Plays(events, p)
    decreases |events|
  {
    if events == [] then []
    else
      (if events[0].Poll? && p.waiting.Some? then [events[0].opens] else []) + Opened(events[1..], After(p, events[0]))
  }

  // ----- the receiver during a round

  /** The receiver has seen `at` bytes of the frame of the first image, and holds the image that waits. */
  ghost predicate Caught(r: Frames.State, p: Point) {
    Bounded(r) && p.at < FRAME_SIZE && (p.images == [] ==> p.at == 0) &&
    (forall i :: 0 <= i < |p.images| ==> |p.images[i]| == IMAGE_SIZE) &&
    (if p.at == 0 then !r.started else r.started && r.window == FrameOf(p.images[0])[1..p.at]) &&
    match p.waiting
    case None => !r.ready
    case Some(image) => r.ready && r.image == MappedAll(image)
  }

  lemma FrameSize(image: bytes)
    requires |image| == IMAGE_SIZE
    ensures |FrameOf(image)| == FRAME_SIZE && FrameOf(image)[0] == HEAD && FrameOf(image)[FRAME_SIZE - 1] == TAIL_2
    ensures FrameOf(image)[1..FRAME_SIZE - 1] == MappedAll(image) + [TAIL_1]
  {
  }

  /** One byte of the line takes the receiver along. */
  lemma CaughtByte(r: Frames.State, p: Point, d: byte)
    requires Caught(r, p) && Allows(p, d)
    ensures Caught(StepByte(r, d), Sent(p, d))
  {
    hide FrameOf, Closed;
    if p.at > 0 || d == HEAD {
      FrameSize(p.images[0]);
      var frame := FrameOf(p.images[0]);
      if p.at + 1 == FRAME_SIZE {
        CloseFrame(r, MappedAll(p.images[0]));
        MappedIsClamped(p.images[0]);
      } else if p.at > 0 {
        assert frame[1..p.at] + [d] == frame[1..p.at + 1];
      } else {
        assert frame[1..1] == [];
      }
    }
  }

  lemma {:induction false} CaughtLine(r: Frames.State, p: Point, data: bytes)
    requires Caught(r, p) && AllowsAll(p, data)
    ensures Caught(Feed(r, data), SentAll(p, data)) && SentAll(p, data).signs == p.signs
    ensures p.signs != [] ==> SentAll(p, data).waiting == p.waiting
    ensures Left(SentAll(p, data)) == Left(p)
    decreases |data|
  {
    hide Caught, FrameOf, StepByte;
    if data != [] {
      CaughtByte(r, p, data[0]);
      CaughtLine(StepByte(r, data[0]), Sent(p, data[0]), data[1..]);
      if p.images != [] {
        assert [p.images[0]] + p.images[1..] == p.images;
      }
    }
  }

  lemma MappedIsClamped(image: bytes)
    ensures ClampAll(MappedAll(image)) == MappedAll(image)
  {
    forall i | 0 <= i < |image| ensures Clamp(MappedAll(image)[i]) == MappedAll(image)[i] {
      MappedPixel(image[i], image[i]);
    }
  }

  // ----- every schedule of a round

  /** The tally once the rest of the counting commands has arrived. */
  function Signed(s: Tally, signs: seq<char>): Tally
    decreases |signs|
  {
    if signs == [] then s else Signed(if signs[0] == '(' then Announce(s) else Publish(s), signs[1..])
  }

  /** The classes the network gives the images as the camera maps them. */
  function Classes(images: seq<bytes>, model: bytes -> Output): (ks: seq<Class>)
    ensures |ks| == |images|
  {
    if images == [] then [] else [Best(model(MappedAll(images[0])))] + Classes(images[1..], model)
  }

  /** The images not yet consumed: the one that waits, if any, and those still to come. */
  function Left(p: Point): seq<bytes> {
    match p.waiting
    case None => p.images
    case Some(image) => [image] + p.images
  }

  /** Between two events of a round. */
  ghost predicate OnTrack(s: System, p: Point) {
    Proper(s) && Caught(s.receiver, p) && Small(Signed(s.tally, p.signs)) && (p.waiting.Some? ==> p.signs == [])
  }

  /** The line between two rounds: the receiver is idle and nothing waits to be consumed. */
  predicate Quiet(r: Frames.State) {
    Bounded(r) && !r.started && !r.ready
  }

  /** A command or bytes on the line classify nothing. */
  lemma QuietStep(s: System, p: Point, e: Event, model: bytes -> Output)
    requires OnTrack(s, p) && Admits(p, e) && !e.Poll?
    ensures Accepts(s, e)
    ensures var t, q := React(s, e, model), After(p, e);
            OnTrack(t, q) && Signed(t.tally, q.signs) == Signed(s.tally, p.signs) && Left(q) == Left(p)
  {
    match e {
      case Command(ch) => hide Caught, Bounded;
      case Line(data) =>
        CaughtLine(s.receiver, p, data);
        FeedBounded(s.receiver, data);
        hide Caught, Bounded, AllowsAll, SentAll, Signed, Small;
    }
  }

  /** A turn of the loop classifies the image that waits, if any. */
  lemma PollStep(s: System, p: Point, opens: bool, model: bytes -> Output)
    requires OnTrack(s, p)
    ensures Accepts(s, Poll(opens))
    ensures var t, q := React(s, Poll(opens), model), After(p, Poll(opens));
            OnTrack(t, q) &&
            if p.waiting.None? then t == s
            else Small(s.tally) && t.tally == Classified(s.tally, Best(model(MappedAll(p.waiting.value))), opens)
  {
    hide Classified, Best;
    match p.waiting {
      case None =>
      case Some(image) =>
        StaysSmall(s.tally, Best(model(MappedAll(image))), opens);
    }
  }

  /** Every way a round may go on classifies exactly the images that are left, in order. */
  lemma {:induction false} PlayRuns(s: System, events: seq<Event>, p: Point, model: bytes -> Output)
    requires OnTrack(s, p) && Plays(events, p)
    ensures AcceptsAll(s, events, model)
    ensures var t := Run(s, events, model);
            var opens := Opened(events, p);
            |opens| == |Left(p)| && Quiet(t.receiver) && Small(Signed(s.tally, p.signs)) &&
            t.tally == ClassifyAll(Signed(s.tally, p.signs), Classes(Left(p), model), opens)
    decreases |events|
  {
    hide React, Accepts, Admits, Small, Classified, Best, Caught;
    if events == [] {
      EndOfPlay(s);
    } else {
      var e := events[0];
      if e.Poll? {
        PollStep(s, p, e.opens, model);
        var q := After(p, e);
        PlayRuns(React(s, e, model), events[1..], q, model);
        if p.waiting.Some? {
          var k := Best(model(MappedAll(p.waiting.value)));
          ClassesFirst(p.waiting.value, p.images, model);
          ClassifyFirst(s.tally, k, Classes(p.images, model), e.opens, Opened(events[1..], q));
          assert p.signs == [] && Left(p) == [p.waiting.value] + p.images && Left(q) == p.images;
        } else {
          assert Opened(events, p) == Opened(events[1..], q);
        }
      } else {
        QuietStep(s, p, e, model);
        PlayRuns(React(s, e, model), events[1..], After(p, e), model);
        assert Opened(events, p) == Opened(events[1..], After(p, e));
      }
    }
  }

  lemma ClassesFirst(image: bytes, images: seq<bytes>, model: bytes -> Output)
    ensures Classes([image] + images, model) == [Best(model(MappedAll(image)))] + Classes(images, model)
  {
    assert ([image] + images)[1..] == images;
  }

  lemma EndOfPlay(s: System)
    requires OnTrack(s, Point([], [], 0, None))
    ensures Quiet(s.receiver) && Small(s.tally) && ClassifyAll(s.tally, [], []) == s.tally
  {
    NoMore(s.tally);
  }

  // ----- rounds

  /** One `(` an image, then `)`. */
  function RoundSigns(n: nat): seq<char>
    decreases n
  {
    if n == 0 then [')'] else ['('] + RoundSigns(n - 1)
  }

  /** The events are one round with these images, in any of its schedules. */
  predicate Played(events: seq<Event>, images: seq<bytes>) {
    Plays(events, Point(RoundSigns(|images|), images, 0, None))
  }

  /** Whether the results file opened when the last image was consumed. */
  predicate Closed(events: seq<Event>, images: seq<bytes>)
    requires Played(events, images)
  {
    var opens := Opened(events, Point(RoundSigns(|images|), images, 0, None));
    opens != [] && opens[|opens| - 1]
  }

  lemma {:induction false} SignedRound(s: Tally, n: nat)
    ensures Signed(s, RoundSigns(n)) == Publish(AnnounceAll(s, n))
    decreases n
  {
    var signs := RoundSigns(n);
    if n == 0 {
      assert signs[1..] == [];
    } else {
      assert signs[1..] == RoundSigns(n - 1) && signs[0] == '(';
      SignedRound(Announce(s), n - 1);
    }
  }

  /** One round, in any schedule: exactly one report and a clean controller if and only if the file opens at the last
      image, and no report otherwise. */
  lemma RoundRuns(s: System, events: seq<Event>, images: seq<bytes>, model: bytes -> Output)
    requires Proper(s) && Clean(s.tally) && Quiet(s.receiver) && Played(events, images)
    requires 1 <= |images| <= MAX_IMAGES && forall i :: 0 <= i < |images| ==> |images[i]| == IMAGE_SIZE
    ensures AcceptsAll(s, events, model)
    ensures var t := Run(s, events, model);
            var ks := Classes(images, model);
            Quiet(t.receiver) &&
            (Clean(t.tally) && t.tally.reports == s.tally.reports + [Report(ks, Histogram(ks))] <==> Closed(events, images)) &&
            (!Clean(t.tally) && t.tally.reports == s.tally.reports <==> !Closed(events, images))
  {
    var signs := RoundSigns(|images|);
    var ks := Classes(images, model);
    var p := Point(signs, images, 0, None);
    var opens := Opened(events, p);
    SignedRound(s.tally, |images|);
    AnnouncedAll(s.tally, |images|);
    assert OnTrack(s, p);
    PlayRuns(s, events, p, model);
    hide Histogram, Clean, Quiet, Classes, Opened, ClassifyAll, OnTrack, AcceptsAll, Run;
    OneBatch(s.tally, ks, opens);
  }

  function Flat(plays: seq<seq<Event>>): seq<Event> {
    if plays == [] then [] else plays[0] + Flat(plays[1..])
  }

  function Expected(rounds: seq<seq<bytes>>, model: bytes -> Output): seq<Report> {
    if rounds == [] then []
    else
      var ks := Classes(rounds[0], model);
      [Report(ks, Histogram(ks))] + Expected(rounds[1..], model)
  }

  /** Over any number of rounds, each in any schedule with the file open at its end: one report each, listing its
      classes in order with their histogram. */
  lemma {:induction false} EveryRoundIsReported(s: System, plays: seq<seq<Event>>, rounds: seq<seq<bytes>>,
                                                model: bytes -> Output)
    requires Proper(s) && Clean(s.tally) && Quiet(s.receiver) && |plays| == |rounds|
    requires forall i :: 0 <= i < |rounds| ==> 1 <= |rounds[i]| <= MAX_IMAGES
    requires forall i, j :: 0 <= i < |rounds| && 0 <= j < |rounds[i]| ==> |rounds[i][j]| == IMAGE_SIZE
    requires forall i :: 0 <= i < |rounds| ==> Played(plays[i], rounds[i]) && Closed(plays[i], rounds[i])
    ensures AcceptsAll(s, Flat(plays), model)
    ensures var t := Run(s, Flat(plays), model);
            Clean(t.tally) && t.tally.reports == s.tally.reports + Expected(rounds, model)
    decreases |rounds|
  {
    hide Clean, Quiet, Histogram, React, Accepts, Played, Closed, Proper;
    if rounds == [] {
      assert s.tally.reports + [] == s.tally.reports;
    } else {
      RoundRuns(s, plays[0], rounds[0], model);
      var t := Run(s, plays[0], model);
      assert forall i :: 0 <= i < |rounds| - 1 ==> rounds[1..][i] == rounds[i + 1] && plays[1..][i] == plays[i + 1];
      EveryRoundIsReported(t, plays[1..], rounds[1..], model);
      RunSplit(s, plays[0], Flat(plays[1..]), model);
    }
  }

  // ----- the camera's own schedule

  function Commands(signs: seq<char>): seq<Event> {
    if signs == [] then [] else [Command(signs[0])] + Commands(signs[1..])
  }

  function Lines(pieces: seq<bytes>): seq<Event> {
    if pieces == [] then [] else [Line(pieces[0])] + Lines(pieces[1..])
  }

  /** The frames of the images, each cut into the callbacks that deliver it. */
  predicate Cut(images: seq<bytes>, cuts: seq<seq<bytes>>) {
    |cuts| == |images| && forall i :: 0 <= i < |images| ==> |images[i]| == IMAGE_SIZE && Concat(cuts[i]) == FrameOf(images[i])
  }

  /** The transmission loop: a stop command, the count before the first image, the frame, and the long pause in which
      the controller consumes it. */
  function Shots(cuts: seq<seq<bytes>>, signs: seq<char>): seq<Event>
    decreases |cuts|
  {
    if cuts == [] then [] else Shot(cuts[0], signs) + Shots(cuts[1..], [])
  }

  function Shot(pieces: seq<bytes>, signs: seq<char>): seq<Event> {
    [Command('s')] + Commands(signs) + Lines(pieces) + [Poll(true)]
  }

  /** What the camera sends in a round is one of its schedules, however the frames arrive. */
  lemma CameraPlays(images: seq<bytes>, cuts: seq<seq<bytes>>)
    requires images != [] && Cut(images, cuts)
    ensures var events := Shots(cuts, RoundSigns(|images|)); Played(events, images) && Closed(events, images)
  {
    SignsCount(|images|);
    ShotsPlay(images, cuts, RoundSigns(|images|));
  }

  lemma {:induction false} SignsCount(n: nat)
    ensures forall i :: 0 <= i < |RoundSigns(n)| ==> Counting(RoundSigns(n)[i])
    decreases n
  {
    if n > 0 {
      SignsCount(n - 1);
    }
  }

  lemma {:induction false} ShotsPlay(images: seq<bytes>, cuts: seq<seq<bytes>>, signs: seq<char>)
    requires Cut(images, cuts) && (images == [] ==> signs == [])
    requires forall i :: 0 <= i < |signs| ==> Counting(signs[i])
    ensures var p := Point(signs, images, 0, None);
            Plays(Shots(cuts, signs), p) &&
            var opens := Opened(Shots(cuts, signs), p); |opens| == |images| && (opens != [] ==> opens[|opens| - 1])
    decreases |images|
  {
    if images != [] {
      hide FrameOf, Allows, AllowsAll, SentAll, Shots, Commands, Lines, Plays, Opened, Concat;
      ShotsPlay(images[1..], cuts[1..], []);
      ShotPlays(images, cuts, signs, Shots(cuts[1..], []));
      ShotsStep(cuts, signs);
    }
  }

  lemma ShotsStep(cuts: seq<seq<bytes>>, signs: seq<char>)
    requires cuts != []
    ensures Shots(cuts, signs) == Shot(cuts[0], signs) + Shots(cuts[1..], [])
  {
  }

  /** One image followed by the rest of the round. */
  lemma ShotPlays(images: seq<bytes>, cuts: seq<seq<bytes>>, signs: seq<char>, rest: seq<Event>)
    requires images != [] && Cut(images, cuts) && forall i :: 0 <= i < |signs| ==> Counting(signs[i])
    requires Plays(rest, Point([], images[1..], 0, None))
    ensures var p := Point(signs, images, 0, None);
            Plays(Shot(cuts[0], signs) + rest, p) &&
            Opened(Shot(cuts[0], signs) + rest, p) == [true] + Opened(rest, Point([], images[1..], 0, None))
  {
    hide FrameOf, AllowsAll, SentAll, Commands, Lines, Plays, Opened;
    var p, all := Point(signs, images, 0, None), Point([], images, 0, None);
    var received := Point([], images[1..], 0, Some(images[0]));
    var taken := [Poll(true)] + rest;
    FirstPlays(Poll(true), rest, received);
    WholeFrame(images);
    LinesPlay(cuts[0], taken, all);
    CommandsPlay(signs, Lines(cuts[0]) + taken, p);
    FirstPlays(Command('s'), Commands(signs) + (Lines(cuts[0]) + taken), p);
    assert Shot(cuts[0], signs) + rest == [Command('s')] + (Commands(signs) + (Lines(cuts[0]) + taken));
  }

  /** The bytes of a frame, from any of its bytes on. */
  lemma {:induction false} FrameFrom(images: seq<bytes>, at: nat)
    requires images != [] && |images[0]| == IMAGE_SIZE && at < FRAME_SIZE == |FrameOf(images[0])|
    ensures var p := Point([], images, at, None);
            var rest := FrameOf(images[0])[at..];
            AllowsAll(p, rest) && SentAll(p, rest) == Point([], images[1..], 0, Some(images[0]))
    decreases FRAME_SIZE - at
  {
    FrameSize(images[0]);
    hide FrameOf;
    var p, rest := Point([], images, at, None), FrameOf(images[0])[at..];
    assert Allows(p, rest[0]) && rest[1..] == FrameOf(images[0])[at + 1..];
    if at + 1 < FRAME_SIZE {
      FrameFrom(images, at + 1);
    }
  }

  lemma WholeFrame(images: seq<bytes>)
    requires images != [] && |images[0]| == IMAGE_SIZE
    ensures var p := Point([], images, 0, None);
            AllowsAll(p, FrameOf(images[0])) && SentAll(p, FrameOf(images[0])) == Point([], images[1..], 0, Some(images[0]))
  {
    FrameSize(images[0]);
    FrameFrom(images, 0);
    hide FrameOf;
    assert FrameOf(images[0])[0..] == FrameOf(images[0]);
  }

  /** How the line is cut into callbacks makes no difference. */
  lemma {:induction false} AllowsSplit(p: Point, a: bytes, b: bytes)
    requires AllowsAll(p, a + b)
    ensures AllowsAll(p, a) && AllowsAll(SentAll(p, a), b) && SentAll(SentAll(p, a), b) == SentAll(p, a + b)
    decreases |a|
  {
    hide Allows, Sent;
    if a == [] {
      assert a + b == b;
    } else {
      assert (a + b)[0] == a[0] && (a + b)[1..] == a[1..] + b;
      AllowsSplit(Sent(p, a[0]), a[1..], b);
    }
  }

  lemma FirstPlays(e: Event, rest: seq<Event>, p: Point)
    requires Admits(p, e) && Plays(rest, After(p, e))
    ensures Plays([e] + rest, p)
    ensures Opened([e] + rest, p) == (if e.Poll? && p.waiting.Some? then [e.opens] else []) + Opened(rest, After(p, e))
  {
    assert ([e] + rest)[1..] == rest;
  }

  lemma {:induction false} LinesPlay(pieces: seq<bytes>, tail: seq<Event>, p: Point)
    requires AllowsAll(p, Concat(pieces)) && Plays(tail, SentAll(p, Concat(pieces)))
    ensures Plays(Lines(pieces) + tail, p) && Opened(Lines(pieces) + tail, p) == Opened(tail, SentAll(p, Concat(pieces)))
    decreases |pieces|
  {
    hide AllowsAll, SentAll, Plays, Opened;
    if pieces == [] {
      assert Lines(pieces) + tail == tail;
      assert SentAll(p, []) == p by { NothingSent(p); }
    } else {
      AllowsSplit(p, pieces[0], Concat(pieces[1..]));
      var q := SentAll(p, pieces[0]);
      LinesPlay(pieces[1..], tail, q);
      assert Lines(pieces) + tail == [Line(pieces[0])] + (Lines(pieces[1..]) + tail);
      FirstPlays(Line(pieces[0]), Lines(pieces[1..]) + tail, p);
    }
  }

  lemma NothingSent(p: Point)
    ensures SentAll(p, []) == p
  {
  }

  lemma {:induction false} CommandsPlay(signs: seq<char>, tail: seq<Event>, p: Point)
    requires signs == p.signs && (forall i :: 0 <= i < |signs| ==> Counting(signs[i])) && Plays(tail, p.(signs := []))
    ensures Plays(Commands(signs) + tail, p) && Opened(Commands(signs) + tail, p) == Opened(tail, p.(signs := []))
    decreases |signs|
  {
    hide AllowsAll, SentAll, Plays, Opened;
    if signs == [] {
      assert Commands(signs) + tail == tail;
    } else {
      CommandsPlay(signs[1..], tail, p.(signs := signs[1..]));
      assert Commands(signs) + tail == [Command(signs[0])] + (Commands(signs[1..]) + tail);
      FirstPlays(Command(signs[0]), Commands(signs[1..]) + tail, p);
    }
  }

  lemma {:induction false} ShotsDeliver(cuts: seq<seq<bytes>>, signs: seq<char>)
    requires forall i, j :: 0 <= i < |cuts| && 0 <= j < |cuts[i]| ==> |cuts[i][j]| <= CALLBACK_SIZE
    ensures forall e :: e in Shots(cuts, signs) && e.Line? ==> |e.data| <= CALLBACK_SIZE
    decreases |cuts|
  {
    if cuts != [] {
      ShotsDeliver(cuts[1..], []);
      NoLines(signs);
      LinesDeliver(cuts[0]);
      var rest := Shots(cuts[1..], []);
      assert forall e :: e in Shots(cuts, signs) ==>
               e == Command('s') || e in Commands(signs) || e in Lines(cuts[0]) || e == Poll(true) || e in rest;
    }
  }

  lemma {:induction false} NoLines(signs: seq<char>)
    ensures forall e :: e in Commands(signs) ==> e.Command?
  {
    if signs != [] {
      NoLines(signs[1..]);
    }
  }

  lemma {:induction false} LinesDeliver(pieces: seq<bytes>)
    requires forall j :: 0 <= j < |pieces| ==> |pieces[j]| <= CALLBACK_SIZE
    ensures forall e :: e in Lines(pieces) ==> e.Line? && |e.data| <= CALLBACK_SIZE
  {
    if pieces != [] {
      LinesDeliver(pieces[1..]);
    }
  }

  /** A round as the camera sends it, through callbacks of at most 64 bytes, on the controller's own state: one more
      report, listing the classes of the images in order, and everything ready for the next round. */
  method ServeCamera(receiver: FrameReceiver, inspector: Inspector, images: seq<bytes>, cuts: seq<seq<bytes>>,
                     model: bytes -> Output)
    requires receiver.Valid() && inspector.Valid() && {receiver, receiver.recvBuf, receiver.imageBuffer} !!
             {inspector, inspector.lastDetect, inspector.defectCounter}
    requires Quiet(receiver.Abs()) && Clean(inspector.Abs())
    requires 1 <= |images| <= MAX_IMAGES && Cut(images, cuts)
    requires forall i, j :: 0 <= i < |cuts| && 0 <= j < |cuts[i]| ==> |cuts[i][j]| <= CALLBACK_SIZE
    modifies receiver, receiver.recvBuf, receiver.imageBuffer, inspector, inspector.lastDetect, inspector.defectCounter
    ensures receiver.Valid() && inspector.Valid() && Quiet(receiver.Abs()) && Clean(inspector.Abs())
    ensures var ks := Classes(images, model);
            inspector.reports == old(inspector.reports) + [Report(ks, Histogram(ks))]
  {
    hide Clean, Quiet, Histogram, Classes, Shots, Cut, Played, Closed, Run, AcceptsAll;
    var events := Shots(cuts, RoundSigns(|images|));
    ghost var s := System(receiver.Abs(), inspector.Abs());
    assert Proper(s) by { QuietIsProper(s); }
    assert forall i :: 0 <= i < |images| ==> |images[i]| == IMAGE_SIZE by { CutSizes(images, cuts); }
    CameraPlays(images, cuts);
    RoundRuns(s, events, images, model);
    ShotsDeliver(cuts, RoundSigns(|images|));
    Serve(receiver, inspector, events, model);
  }

  lemma QuietIsProper(s: System)
    requires Quiet(s.receiver) && Clean(s.tally)
    ensures Proper(s)
  {
  }

  lemma CutSizes(images: seq<bytes>, cuts: seq<seq<bytes>>)
    requires Cut(images, cuts)
    ensures forall i :: 0 <= i < |images| ==> |images[i]| == IMAGE_SIZE
  {
  }
}
