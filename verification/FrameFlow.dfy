/** Flow control and pacing of frames in flight to an RDP client (src/frame_flow.h). */
module FrameFlowSpec {
  import opened Machine

  const LIMIT: nat := 3
  const DEFAULT_INTERVAL: u32 := 40
  const MIN_INTERVAL: u32 := 16
  const SUSPENDED_INTERVAL: u32 := 20
  const MAX_INTERVAL: u32 := 100
  const SLOW_ACK_MS: u64 := 250
  const MAX_INFLIGHT_BYTES: u32 := 192 * 1024
  const AVC_WAIT_MS: u64 := 150
  const SUSPEND_DEPTH: u32 := 0xFFFF_FFFF
  const SIZE_BOUND: nat := 0x3FFF_FFFF

  datatype Tracked = Tracked(id: u32, bytes: u32, sentAt: u64)

  /** The FrameFlow record; the three parallel arrays and `count` are one sequence. */
  datatype Flow = Flow(suspended: bool, haveAck: bool, intervalMs: u32, fastAcks: u32, fastSends: u32,
                       lastSlowAt: u64, frames: seq<Tracked>, inflight: u32, lastAckAt: u64)

  const FRESH: Flow := Flow(false, false, 0, 0, 0, 0, [], 0, 0)

  /** Bounds on the stored interval and on the two counters that adapt it. */
  predicate Paced(f: Flow) {
    && (f.intervalMs == 0 || MIN_INTERVAL <= f.intervalMs <= MAX_INTERVAL)
    && (f.suspended ==> f.intervalMs >= SUSPENDED_INTERVAL)
    && f.fastAcks < 8 && f.fastSends < 8
  }

  /** Everything but the pacing fields agrees. */
  predicate SameTracking(f: Flow, g: Flow) {
    && f.frames == g.frames && f.inflight == g.inflight && f.suspended == g.suspended
    && f.haveAck == g.haveAck && f.lastAckAt == g.lastAckAt
  }

  function Interval(f: Flow): u32 {
    var base := if f.intervalMs != 0 then f.intervalMs else DEFAULT_INTERVAL;
    var cautious := if !f.haveAck && !f.suspended && base < DEFAULT_INTERVAL then DEFAULT_INTERVAL else base;
    if f.suspended && cautious < SUSPENDED_INTERVAL then SUSPENDED_INTERVAL else cautious
  }

  function Slow(f: Flow, now: u64): (s: Flow)
    ensures SameTracking(f, s)
    ensures Paced(f) ==> Paced(s)
  {
    var g := f.(fastAcks := 0, fastSends := 0);
    if f.lastSlowAt != 0 && Sub64(now, f.lastSlowAt) < 100 then g
    else
      var interval := Add32(Interval(g), 8);
      g.(intervalMs := if interval > MAX_INTERVAL then MAX_INTERVAL else interval, lastSlowAt := now)
  }

  function SendCost(f: Flow, cost: u64, now: u64): (s: Flow)
    ensures SameTracking(f, s)
    ensures Paced(f) ==> Paced(s)
  {
    var interval := Interval(f);
    if cost >= interval then Slow(f, now)
    else if f.suspended && cost <= interval / 2 then
      var sends := Add32(f.fastSends, 1);
      if sends >= 8 then
        f.(fastSends := 0,
           intervalMs := if interval > SUSPENDED_INTERVAL + 1 then interval - 2 else SUSPENDED_INTERVAL)
      else f.(fastSends := sends)
    else f.(fastSends := 0)
  }

  predicate Blocked(f: Flow) { !f.suspended && |f.frames| == LIMIT }

  function Record(f: Flow, id: u32, bytes: u32, now: u64): Flow {
    f.(frames := f.frames + [Tracked(id, bytes, now)], inflight := Add32(f.inflight, bytes))
  }

  /** Whether frame_flow_sent_sized returns true. */
  predicate CanRecord(f: Flow, bytes: u32) {
    f.suspended ||
    (!Blocked(f) && (f.frames == [] || Add32(f.inflight, bytes) <= MAX_INFLIGHT_BYTES))
  }

  function Sent(f: Flow, id: u32, bytes: u32, now: u64): Flow {
    if f.suspended || !CanRecord(f, bytes) then f else Record(f, id, bytes, now)
  }

  function SentKeyframe(f: Flow, id: u32, bytes: u32, now: u64): Flow {
    if f.suspended || Blocked(f) then f else Record(f, id, bytes, now)
  }

  predicate AckIsStale(f: Flow, now: u64) {
    f.lastAckAt != 0 && Sub64(now, f.lastAckAt) >= SLOW_ACK_MS
  }

  predicate Ready(f: Flow, bytes: u32, now: u64) {
    f.suspended || f.frames == [] ||
    (!Blocked(f) && Add32(f.inflight, bytes) <= MAX_INFLIGHT_BYTES && !AckIsStale(f, now))
  }

  predicate ReadyKeyframe(f: Flow, now: u64) {
    f.suspended || f.frames == [] || (!Blocked(f) && !AckIsStale(f, now))
  }

  datatype Admission = Send | Wait | Resync

  function AvcAdmit(f: Flow, bytes: u32, idr: bool, now: u64, waitStartedAt: u64): Admission {
    if waitStartedAt != 0 && Sub64(now, waitStartedAt) >= AVC_WAIT_MS then Resync
    else if (if idr then ReadyKeyframe(f, now) else Ready(f, bytes, now)) then Send
    else Wait
  }

  /** Position of the first tracked frame with this id, or the number of frames. */
  function FirstMatch(frames: seq<Tracked>, id: u32): (i: nat)
    ensures i <= |frames|
    ensures forall j :: 0 <= j < i ==> frames[j].id != id
    ensures i < |frames| ==> frames[i].id == id
  {
    if frames == [] || frames[0].id == id then 0 else 1 + FirstMatch(frames[1..], id)
  }

  function Suspend(f: Flow): Flow {
    f.(suspended := true, haveAck := false, fastAcks := 0, intervalMs := SUSPENDED_INTERVAL, fastSends := 0,
       lastSlowAt := 0, frames := [], inflight := 0, lastAckAt := 0)
  }

  /** State after a resuming ACK has been noted but before its frame is looked up. */
  function Resumed(f: Flow, depth: u32, now: u64): Flow {
    var g := f.(suspended := false, lastAckAt := now);
    if depth > 256 * 1024 then Slow(g, now) else g
  }

  function FasterAck(f: Flow): (s: Flow)
    ensures SameTracking(f, s)
    ensures Paced(f) && !f.suspended ==> Paced(s)
  {
    var acks := Add32(f.fastAcks, 1);
    if acks >= 8 then
      var interval := Interval(f);
      f.(fastAcks := 0, intervalMs := if interval > MIN_INTERVAL + 1 then interval - 2 else MIN_INTERVAL)
    else f.(fastAcks := acks)
  }

  function Matched(f: Flow, i: nat, depth: u32, now: u64): Flow
    requires i < |f.frames|
  {
    var elapsed := Sub64(now, f.frames[i].sentAt);
    var g := f.(haveAck := true, inflight := Sub32(f.inflight, f.frames[i].bytes));
    var h := if elapsed > 120 then Slow(g, now)
             else if depth == 0 && elapsed <= 60 then FasterAck(g)
             else g.(fastAcks := 0);
    h.(frames := f.frames[..i] + f.frames[i + 1..])
  }

  /** Whether frame_flow_ack returns true. */
  predicate AckMatches(f: Flow, id: u32, depth: u32) {
    depth != SUSPEND_DEPTH && FirstMatch(f.frames, id) < |f.frames|
  }

  function Ack(f: Flow, id: u32, depth: u32, now: u64): Flow {
    if depth == SUSPEND_DEPTH then Suspend(f)
    else
      var g := Resumed(f, depth, now);
      var i := FirstMatch(f.frames, id);
      if i < |g.frames| then Matched(g, i, depth, now) else g
  }

  function SumBytes(frames: seq<Tracked>): nat {
    if frames == [] then 0 else frames[0].bytes + SumBytes(frames[1..])
  }

  lemma {:induction false} SumBytesAppend(a: seq<Tracked>, b: seq<Tracked>)
    ensures SumBytes(a + b) == SumBytes(a) + SumBytes(b)
  {
    if a == [] {
      assert a + b == b;
    } else {
      assert (a + b)[1..] == a[1..] + b;
      SumBytesAppend(a[1..], b);
    }
  }

  lemma SumBytesRemove(frames: seq<Tracked>, i: nat)
    requires i < |frames|
    ensures SumBytes(frames[..i] + frames[i + 1..]) == SumBytes(frames) - frames[i].bytes
  {
    var a, b := frames[..i], frames[i + 1..];
    assert frames == a + ([frames[i]] + b);
    SumBytesAppend(a, [frames[i]] + b);
    SumBytesAppend(a, b);
    assert ([frames[i]] + b)[1..] == b;
  }

  lemma ModSubtract(sum: nat, part: u32)
    ensures Sub32(sum % TWO32, part) == (sum - part) % TWO32
  {
  }

  lemma ModAdd(sum: nat, part: u32)
    ensures Add32(sum % TWO32, part) == (sum + part) % TWO32
  {
  }

  /** What every operation keeps. */
  ghost predicate Inv(f: Flow) {
    && |f.frames| <= LIMIT
    && f.inflight == SumBytes(f.frames) % TWO32
    && (f.suspended ==> f.frames == [])
    && Paced(f)
  }

  // ---------------------------------------------------------------- runs

  datatype Event =
    | SentEvent(id: u32, bytes: u32, now: u64)
    | KeyframeEvent(id: u32, bytes: u32, now: u64)
    | AckEvent(id: u32, depth: u32, now: u64)
    | CostEvent(cost: u64, now: u64)

  function Step(f: Flow, e: Event): Flow {
    match e
    case SentEvent(id, bytes, now) => Sent(f, id, bytes, now)
    case KeyframeEvent(id, bytes, now) => SentKeyframe(f, id, bytes, now)
    case AckEvent(id, depth, now) => Ack(f, id, depth, now)
    case CostEvent(cost, now) => SendCost(f, cost, now)
  }

  function Run(f: Flow, es: seq<Event>): Flow {
    if es == [] then f else Step(Run(f, es[..|es| - 1]), es[|es| - 1])
  }

  predicate IsSuspend(e: Event) { e.AckEvent? && e.depth == SUSPEND_DEPTH }

  lemma InvRecord(f: Flow, id: u32, bytes: u32, now: u64)
    requires Inv(f) && !f.suspended && !Blocked(f)
    ensures Inv(Record(f, id, bytes, now))
  {
    SumBytesAppend(f.frames, [Tracked(id, bytes, now)]);
    ModAdd(SumBytes(f.frames), bytes);
  }

  lemma InvMatched(f: Flow, i: nat, depth: u32, now: u64)
    requires Inv(f) && !f.suspended && i < |f.frames|
    ensures Inv(Matched(f, i, depth, now)) && Matched(f, i, depth, now).haveAck
    ensures !Matched(f, i, depth, now).suspended
  {
    SumBytesRemove(f.frames, i);
    ModSubtract(SumBytes(f.frames), f.frames[i].bytes);
  }

  lemma InvAck(f: Flow, id: u32, depth: u32, now: u64)
    requires Inv(f)
    ensures Inv(Ack(f, id, depth, now))
    ensures Ack(f, id, depth, now).haveAck <==>
              depth != SUSPEND_DEPTH && (f.haveAck || AckMatches(f, id, depth))
    ensures Ack(f, id, depth, now).suspended <==> depth == SUSPEND_DEPTH
  {
    if AckMatches(f, id, depth) {
      InvMatched(Resumed(f, depth, now), FirstMatch(f.frames, id), depth, now);
    }
  }

  lemma InvStep(f: Flow, e: Event)
    requires Inv(f)
    ensures Inv(Step(f, e))
  {
    match e
    case SentEvent(id, bytes, now) =>
      if !f.suspended && CanRecord(f, bytes) { InvRecord(f, id, bytes, now); }
    case KeyframeEvent(id, bytes, now) =>
      if !f.suspended && !Blocked(f) { InvRecord(f, id, bytes, now); }
    case AckEvent(id, depth, now) => InvAck(f, id, depth, now);
    case CostEvent(_, _) =>
  }

  lemma InvFresh()
    ensures Inv(FRESH) && SumBytes(FRESH.frames) == 0
  {
  }

  /** In every run at most three frames are tracked, the byte counter is the sum of the
      tracked sizes (in 32-bit arithmetic, so exactly unless the sizes reach 4 GiB), and a
      suspended flow tracks nothing. */
  lemma {:induction false} RunKeepsAccounting(es: seq<Event>)
    ensures Inv(Run(FRESH, es))
    ensures var f := Run(FRESH, es); SumBytes(f.frames) < TWO32 ==> f.inflight == SumBytes(f.frames)
  {
    hide Step, SumBytes;
    if es == [] {
      InvFresh();
    } else {
      RunKeepsAccounting(es[..|es| - 1]);
      InvStep(Run(FRESH, es[..|es| - 1]), es[|es| - 1]);
    }
  }

  lemma AckFrames(f: Flow, id: u32, depth: u32, now: u64)
    ensures var i := FirstMatch(f.frames, id);
            Ack(f, id, depth, now).frames ==
              if depth == SUSPEND_DEPTH then []
              else if i < |f.frames| then f.frames[..i] + f.frames[i + 1..] else f.frames
  {
  }

  /** An ACK takes away exactly one frame, the oldest with that id, and keeps the others in
      order; an ACK for an unknown id takes away nothing. */
  lemma AckRemovesOldestMatch(f: Flow, id: u32, depth: u32, now: u64)
    returns (a: seq<Tracked>, t: Tracked, b: seq<Tracked>)
    requires depth != SUSPEND_DEPTH
    ensures AckMatches(f, id, depth) <==> exists u :: u in f.frames && u.id == id
    ensures AckMatches(f, id, depth) ==>
              && f.frames == a + [t] + b && t.id == id && (forall u :: u in a ==> u.id != id)
              && Ack(f, id, depth, now).frames == a + b
    ensures !AckMatches(f, id, depth) ==> Ack(f, id, depth, now).frames == f.frames
  {
    hide Ack;
    AckFrames(f, id, depth, now);
    var i := FirstMatch(f.frames, id);
    a, t, b := [], Tracked(0, 0, 0), [];
    if i < |f.frames| {
      a, t, b := f.frames[..i], f.frames[i], f.frames[i + 1..];
      assert t in f.frames;
      assert f.frames == a + [t] + b;
    }
  }

  // ------------------------------------------ admitted frames stay recordable

  ghost predicate StaysRecordable(f: Flow, bytes: u32) {
    forall acks: seq<Event> :: (forall e :: e in acks ==> e.AckEvent?) ==> CanRecord(Run(f, acks), bytes)
  }

  /** The test a caller can make: the sum does not overflow for any remainder of the queue. */
  predicate EveryRemainderFits(f: Flow, bytes: u32) {
    && CanRecord(f, bytes)
    && (!f.suspended && |f.frames| == 2 ==>
          && Add32(f.frames[1].bytes, bytes) <= MAX_INFLIGHT_BYTES
          && (f.frames[0].id != f.frames[1].id ==> Add32(f.frames[0].bytes, bytes) <= MAX_INFLIGHT_BYTES))
  }

  lemma SmallSums(frames: seq<Tracked>)
    requires |frames| <= 2
    ensures |frames| == 1 ==> SumBytes(frames) == frames[0].bytes
    ensures |frames| == 2 ==> SumBytes(frames) == frames[0].bytes + frames[1].bytes
  {
    if |frames| == 2 { assert frames[1..] == [frames[1]]; }
  }

  lemma RemainderStep(f: Flow, e: Event, bytes: u32)
    requires Inv(f) && EveryRemainderFits(f, bytes) && e.AckEvent?
    ensures EveryRemainderFits(Step(f, e), bytes)
  {
    hide Ack, SumBytes, Paced, FirstMatch;
    var g := Ack(f, e.id, e.depth, e.now);
    InvAck(f, e.id, e.depth, e.now);
    AckFrames(f, e.id, e.depth, e.now);
    if |f.frames| <= 2 {
      SmallSums(f.frames);
      SmallSums(g.frames);
    }
  }

  lemma {:induction false} RemainderRun(f: Flow, acks: seq<Event>, bytes: u32)
    requires Inv(f) && EveryRemainderFits(f, bytes) && forall e :: e in acks ==> e.AckEvent?
    ensures Inv(Run(f, acks)) && EveryRemainderFits(Run(f, acks), bytes)
  {
    if acks != [] {
      var init := acks[..|acks| - 1];
      RemainderRun(f, init, bytes);
      InvStep(Run(f, init), acks[|acks| - 1]);
      RemainderStep(Run(f, init), acks[|acks| - 1], bytes);
    }
  }

  lemma OneAckLater(f: Flow, bytes: u32, victim: nat)
    requires Inv(f) && !f.suspended && |f.frames| == 2 && victim < 2
    requires victim == 1 ==> f.frames[0].id != f.frames[1].id
    requires Add32(f.frames[1 - victim].bytes, bytes) > MAX_INFLIGHT_BYTES
    ensures !CanRecord(Run(f, [AckEvent(f.frames[victim].id, 0, 1)]), bytes)
  {
    hide Ack, SumBytes, Paced;
    var e := AckEvent(f.frames[victim].id, 0, 1);
    assert [e][..0] == [];
    InvAck(f, e.id, 0, 1);
    AckFrames(f, e.id, 0, 1);
    assert FirstMatch(f.frames, e.id) == victim;
    SmallSums(Ack(f, e.id, 0, 1).frames);
  }

  lemma FailingRemainder(f: Flow, bytes: u32) returns (acks: seq<Event>)
    requires Inv(f) && !EveryRemainderFits(f, bytes)
    ensures (forall e :: e in acks ==> e.AckEvent?) && !CanRecord(Run(f, acks), bytes)
  {
    if CanRecord(f, bytes) {
      var victim := if Add32(f.frames[1].bytes, bytes) > MAX_INFLIGHT_BYTES then 0 else 1;
      OneAckLater(f, bytes, victim);
      acks := [AckEvent(f.frames[victim].id, 0, 1)];
    } else {
      acks := [];
    }
  }

  /** A frame that may be recorded now may be recorded after any interleaving ACKs exactly when
      no remainder of the tracked frames overflows with it. */
  lemma StaysRecordableIff(f: Flow, bytes: u32)
    requires Inv(f)
    ensures StaysRecordable(f, bytes) <==> EveryRemainderFits(f, bytes)
  {
    if EveryRemainderFits(f, bytes) {
      forall acks: seq<Event> | forall e :: e in acks ==> e.AckEvent?
        ensures CanRecord(Run(f, acks), bytes)
      {
        RemainderRun(f, acks, bytes);
      }
    } else {
      var acks := FailingRemainder(f, bytes);
    }
  }

  /** The admission test implies that condition as long as the 32-bit sum it forms does not wrap. */
  lemma ReadyStaysRecordable(f: Flow, bytes: u32, now: u64)
    requires Inv(f) && Ready(f, bytes, now) && SumBytes(f.frames) + bytes < TWO32
    ensures StaysRecordable(f, bytes)
  {
    hide StaysRecordable, SumBytes, Paced;
    if |f.frames| <= 2 { SmallSums(f.frames); }
    StaysRecordableIff(f, bytes);
  }

  lemma AckLeavesRoom(f: Flow, e: Event)
    requires Inv(f) && e.AckEvent? && (f.suspended || |f.frames| < LIMIT)
    ensures var g := Step(f, e); g.suspended || |g.frames| < LIMIT
  {
    hide Interval, Paced, Sub64, SumBytes;
  }

  /** A keyframe admitted by its own test is recordable after any ACKs, whatever its size. */
  lemma {:induction false} ReadyKeyframeStaysRecordable(f: Flow, now: u64, acks: seq<Event>)
    requires Inv(f) && ReadyKeyframe(f, now) && forall e :: e in acks ==> e.AckEvent?
    ensures var g := Run(f, acks);
            Inv(g) && (g.suspended || |g.frames| < LIMIT)
  {
    hide Step;
    if acks != [] {
      var init := acks[..|acks| - 1];
      ReadyKeyframeStaysRecordable(f, now, init);
      InvStep(Run(f, init), acks[|acks| - 1]);
      AckLeavesRoom(Run(f, init), acks[|acks| - 1]);
    }
  }

  /** Why the condition is needed: after two small frames a frame of almost 4 GiB passes the ready test by
      wrapping the sum, and one ACK later it can no longer be recorded. */
  lemma WrappedSizeIsRefusedLater()
    ensures var f := Run(FRESH, [SentEvent(1, 10, 1), SentEvent(2, 0, 1)]);
            Ready(f, 0xFFFF_FFF8, 1) && !CanRecord(Step(f, AckEvent(1, 1, 1)), 0xFFFF_FFF8)
  {
    var a, b := Tracked(1, 10, 1), Tracked(2, 0, 1);
    var es := [SentEvent(1, 10, 1), SentEvent(2, 0, 1)];
    assert es[..1] == [es[0]] && [es[0]][..0] == [];
    assert Run(FRESH, []) == FRESH;
    var g := Step(FRESH, es[0]);
    assert g.frames == [a] && g.inflight == 10 && Run(FRESH, es[..1]) == g;
    var f := Step(g, es[1]);
    assert f.frames == [a, b] && f.inflight == 10 && Run(FRESH, es) == f;
    assert FirstMatch(f.frames, 1) == 0;
    assert Step(f, AckEvent(1, 1, 1)).frames == [b];
  }

  // ------------------------------------------ frames of a bounded size

  /** No tracked frame is larger than this. */
  predicate FramesWithin(f: Flow, bound: nat) { forall i :: 0 <= i < |f.frames| ==> f.frames[i].bytes <= bound }

  predicate EventWithin(e: Event, bound: nat) {
    match e
    case SentEvent(_, bytes, _) => bytes <= bound
    case KeyframeEvent(_, bytes, _) => bytes <= bound
    case _ => true
  }

  lemma StepKeepsWithin(f: Flow, e: Event, bound: nat)
    requires FramesWithin(f, bound) && EventWithin(e, bound)
    ensures FramesWithin(Step(f, e), bound)
  {
    hide Interval, Sub64, Paced, FirstMatch;
    if e.AckEvent? { AckFrames(f, e.id, e.depth, e.now); }
  }

  lemma {:induction false} SumWithin(frames: seq<Tracked>, bound: nat)
    requires forall i :: 0 <= i < |frames| ==> frames[i].bytes <= bound
    ensures SumBytes(frames) <= |frames| * bound
  {
    if frames != [] {
      SumWithin(frames[1..], bound);
      assert |frames| * bound == |frames[1..]| * bound + bound;
    }
  }

  /** With frames of at most 1 GiB no sum wraps, so an admitted frame can always be recorded later. */
  lemma SmallFramesStayRecordable(f: Flow, bytes: u32, now: u64)
    requires Inv(f) && Ready(f, bytes, now) && FramesWithin(f, SIZE_BOUND) && bytes <= SIZE_BOUND
    ensures StaysRecordable(f, bytes)
  {
    hide StaysRecordable, SumBytes, Paced, Ready;
    SumWithin(f.frames, SIZE_BOUND);
    assert |f.frames| * SIZE_BOUND <= 3 * SIZE_BOUND;
    ReadyStaysRecordable(f, bytes, now);
  }

  // ---------------------------------------------------------------- pacing

  ghost predicate MatchedSinceSuspension(es: seq<Event>) {
    exists i :: 0 <= i < |es| && es[i].AckEvent? && AckMatches(Run(FRESH, es[..i]), es[i].id, es[i].depth)
                && forall j :: i < j < |es| ==> !IsSuspend(es[j])
  }

  lemma MatchedSinceSuspensionStep(es: seq<Event>)
    requires es != []
    ensures var n := |es| - 1;
            MatchedSinceSuspension(es) <==>
              || (es[n].AckEvent? && AckMatches(Run(FRESH, es[..n]), es[n].id, es[n].depth))
              || (!IsSuspend(es[n]) && MatchedSinceSuspension(es[..n]))
  {
    hide Run, AckMatches;
    var n := |es| - 1;
    var init := es[..n];
    forall i | 0 <= i < n ensures init[i] == es[i] && init[..i] == es[..i] { }
    if MatchedSinceSuspension(es) {
      var i :| 0 <= i < |es| && es[i].AckEvent? && AckMatches(Run(FRESH, es[..i]), es[i].id, es[i].depth)
               && forall j :: i < j < |es| ==> !IsSuspend(es[j]);
      if i < n { assert init[i] == es[i]; }
    }
  }

  lemma {:induction false} HaveAckMeansMatched(es: seq<Event>)
    ensures Run(FRESH, es).haveAck <==> MatchedSinceSuspension(es)
  {
    if es != [] {
      var n := |es| - 1;
      HaveAckMeansMatched(es[..n]);
      RunKeepsAccounting(es[..n]);
      MatchedSinceSuspensionStep(es);
      if es[n].AckEvent? { InvAck(Run(FRESH, es[..n]), es[n].id, es[n].depth, es[n].now); }
    }
  }

  /** The interval between frames stays between 16 and 100 ms, at least 20 while ACKs are
      suspended, and at least 40 until an ACK has matched since the last suspension. */
  lemma PacingBounds(es: seq<Event>)
    ensures var f := Run(FRESH, es);
            && MIN_INTERVAL <= Interval(f) <= MAX_INTERVAL
            && (f.suspended ==> Interval(f) >= SUSPENDED_INTERVAL)
            && (!f.suspended && !MatchedSinceSuspension(es) ==> Interval(f) >= DEFAULT_INTERVAL)
  {
    RunKeepsAccounting(es);
    HaveAckMeansMatched(es);
  }

  /** The stored interval, with the value 0 read as the default. */
  function Base(f: Flow): u32 { if f.intervalMs != 0 then f.intervalMs else DEFAULT_INTERVAL }

  ghost predicate ClockAdvances(es: seq<Event>) {
    && (forall i :: 0 <= i < |es| ==> es[i].now != 0)
    && (forall i, j :: 0 <= i < j < |es| ==> es[i].now <= es[j].now)
  }

  /** Event i was a slow-down: it set the stamp, whether or not the interval had already reached its cap. */
  ghost predicate SlowedDown(es: seq<Event>, i: nat)
    requires i < |es|
  {
    !IsSuspend(es[i]) && Run(FRESH, es[..i + 1]).lastSlowAt != Run(FRESH, es[..i]).lastSlowAt
  }

  /** What a slow-down does to the stamp, if it is one; and the interval rises in no other way. */
  predicate Stamps(f: Flow, g: Flow, now: u64) {
    && f.lastSlowAt <= g.lastSlowAt <= now
    && (g.lastSlowAt != f.lastSlowAt ==> g.lastSlowAt == now && (f.lastSlowAt == 0 || now - f.lastSlowAt >= 100))
    && (Base(g) > Base(f) ==> g.lastSlowAt == now && (f.lastSlowAt == 0 || now - f.lastSlowAt >= 100))
  }

  lemma SlowIsStamped(f: Flow, now: u64)
    requires Paced(f) && f.lastSlowAt <= now
    ensures Stamps(f, Slow(f, now), now)
  {
  }

  lemma FasterAckIsNotSlower(f: Flow)
    requires Paced(f) && f.haveAck && !f.suspended
    ensures Base(FasterAck(f)) <= Base(f) && FasterAck(f).lastSlowAt == f.lastSlowAt
  {
  }

  lemma CostIsStamped(f: Flow, cost: u64, now: u64)
    requires Paced(f) && f.lastSlowAt <= now
    ensures Stamps(f, SendCost(f, cost, now), now)
  {
    hide Slow;
    SlowIsStamped(f, now);
  }

  lemma MatchedIsStamped(f: Flow, i: nat, depth: u32, now: u64)
    requires Paced(f) && f.lastSlowAt <= now && !f.suspended && i < |f.frames|
    ensures Stamps(f, Matched(f, i, depth, now), now)
  {
    hide Slow, FasterAck;
    var g := f.(haveAck := true, inflight := Sub32(f.inflight, f.frames[i].bytes));
    SlowIsStamped(g, now);
    FasterAckIsNotSlower(g);
  }

  /** A slow-down in the first half of an ACK leaves none for the second half. */
  lemma AckIsStamped(f: Flow, id: u32, depth: u32, now: u64)
    requires Inv(f) && now != 0 && f.lastSlowAt <= now && depth != SUSPEND_DEPTH
    ensures Stamps(f, Ack(f, id, depth, now), now)
  {
    hide Slow, Matched;
    var g := f.(suspended := false, lastAckAt := now);
    SlowIsStamped(g, now);
    var h := Resumed(f, depth, now);
    var i := FirstMatch(f.frames, id);
    if i < |h.frames| { MatchedIsStamped(h, i, depth, now); }
  }

  lemma SlowdownIsStamped(f: Flow, e: Event)
    requires Inv(f) && e.now != 0 && f.lastSlowAt <= e.now && !IsSuspend(e)
    ensures Stamps(f, Step(f, e), e.now)
  {
    hide Ack, SendCost;
    match e
    case AckEvent(id, depth, now) => AckIsStamped(f, id, depth, now);
    case CostEvent(cost, now) => CostIsStamped(f, cost, now);
    case SentEvent(_, _, _) =>
    case KeyframeEvent(_, _, _) =>
  }

  /** The interval rises only in a slow-down. */
  lemma RiseIsSlowdown(es: seq<Event>, i: nat)
    requires ClockAdvances(es) && i < |es| && !IsSuspend(es[i])
    requires Base(Run(FRESH, es[..i + 1])) > Base(Run(FRESH, es[..i]))
    ensures SlowedDown(es, i)
  {
    hide Step;
    assert es[..i + 1][..i] == es[..i];
    RunKeepsAccounting(es[..i]);
    StampFollowsClock(es, i);
    SlowdownIsStamped(Run(FRESH, es[..i]), es[i]);
  }

  lemma SuspensionClearsStamp(f: Flow, e: Event)
    requires IsSuspend(e)
    ensures Step(f, e).lastSlowAt == 0
  {
  }

  lemma {:induction false} StampFollowsClock(es: seq<Event>, i: nat)
    requires ClockAdvances(es) && i <= |es|
    ensures Run(FRESH, es[..i]).lastSlowAt <= (if i == 0 then 0 else es[i - 1].now)
  {
    hide Step;
    if i > 0 {
      StampFollowsClock(es, i - 1);
      RunKeepsAccounting(es[..i - 1]);
      assert es[..i][..i - 1] == es[..i - 1];
      if IsSuspend(es[i - 1]) {
        SuspensionClearsStamp(Run(FRESH, es[..i - 1]), es[i - 1]);
      } else {
        SlowdownIsStamped(Run(FRESH, es[..i - 1]), es[i - 1]);
      }
    }
  }

  lemma {:induction false} StampPersists(es: seq<Event>, i: nat, j: nat)
    requires ClockAdvances(es) && i <= j <= |es|
    requires forall k :: i <= k < j ==> !IsSuspend(es[k])
    ensures Run(FRESH, es[..i]).lastSlowAt <= Run(FRESH, es[..j]).lastSlowAt
  {
    hide Step;
    if i < j {
      StampPersists(es, i, j - 1);
      StampFollowsClock(es, j - 1);
      RunKeepsAccounting(es[..j - 1]);
      assert es[..j][..j - 1] == es[..j - 1];
      SlowdownIsStamped(Run(FRESH, es[..j - 1]), es[j - 1]);
    }
  }

  /** Two slow-downs with no suspension between them are at least 100 ms apart. */
  lemma SlowdownsAreSpaced(es: seq<Event>, i: nat, j: nat)
    requires ClockAdvances(es) && i < j < |es|
    requires SlowedDown(es, i) && SlowedDown(es, j)
    requires forall k :: i < k < j ==> !IsSuspend(es[k])
    ensures es[j].now - es[i].now >= 100
  {
    hide Step;
    assert es[..i + 1][..i] == es[..i] && es[..j + 1][..j] == es[..j];
    RunKeepsAccounting(es[..i]);
    RunKeepsAccounting(es[..j]);
    StampFollowsClock(es, i);
    StampFollowsClock(es, j);
    SlowdownIsStamped(Run(FRESH, es[..i]), es[i]);
    StampPersists(es, i + 1, j);
    SlowdownIsStamped(Run(FRESH, es[..j]), es[j]);
  }
}

/** The record as the C code keeps it: three fixed arrays shifted in place. */
module FrameFlow {
  import opened Machine
  import opened FrameFlowSpec

  class FrameFlow {
    var suspended: bool
    var haveAck: bool
    var intervalMs: u32
    var fastAcks: u32
    var fastSends: u32
    var lastSlowAt: u64
    var count: nat
    const ids: array<u32>
    const sentAt: array<u64>
    const bytes: array<u32>
    var inflightBytes: u32
    var lastAckAt: u64

    ghost predicate Valid()
      reads this
    {
      ids.Length == LIMIT && sentAt.Length == LIMIT && bytes.Length == LIMIT && ids != bytes && count <= LIMIT
    }

    ghost function Frames(): (s: seq<Tracked>)
      reads this, ids, sentAt, bytes
      requires Valid()
    {
      seq(count, i requires 0 <= i < count && Valid() reads this, ids, sentAt, bytes =>
        Tracked(ids[i], bytes[i], sentAt[i]))
    }

    ghost function Model(): Flow
      reads this, ids, sentAt, bytes
      requires Valid()
    {
      Flow(suspended, haveAck, intervalMs, fastAcks, fastSends, lastSlowAt, Frames(), inflightBytes, lastAckAt)
    }

    constructor ()
      ensures Valid() && fresh(ids) && fresh(sentAt) && fresh(bytes)
      ensures Model() == FRESH
    {
      suspended, haveAck, intervalMs, fastAcks, fastSends, lastSlowAt := false, false, 0, 0, 0, 0;
      count, inflightBytes, lastAckAt := 0, 0, 0;
      ids, sentAt, bytes := new u32[LIMIT], new u64[LIMIT], new u32[LIMIT];
      new;
      assert Frames() == [];
    }

    function CurrentInterval(): (interval: u32)
      reads this, ids, sentAt, bytes
      requires Valid()
      ensures interval == Interval(Model())
    {
      var base := if intervalMs != 0 then intervalMs else DEFAULT_INTERVAL;
      var cautious := if !haveAck && !suspended && base < DEFAULT_INTERVAL then DEFAULT_INTERVAL else base;
      if suspended && cautious < SUSPENDED_INTERVAL then SUSPENDED_INTERVAL else cautious
    }

    method SlowDown(now: u64)
      requires Valid()
      modifies this
      ensures Valid() && Frames() == old(Frames())
      ensures Model() == Slow(old(Model()), now)
    {
      fastAcks, fastSends := 0, 0;
      if lastSlowAt != 0 && Sub64(now, lastSlowAt) < 100 { return; }
      var interval := Add32(CurrentInterval(), 8);
      intervalMs := if interval > MAX_INTERVAL then MAX_INTERVAL else interval;
      lastSlowAt := now;
    }

    method NoteSendCost(cost: u64, now: u64)
      requires Valid()
      modifies this
      ensures Valid() && Model() == SendCost(old(Model()), cost, now)
    {
      var interval := CurrentInterval();
      if cost >= interval {
        SlowDown(now);
      } else if suspended && cost <= interval / 2 {
        fastSends := Add32(fastSends, 1);
        if fastSends >= 8 {
          intervalMs := if interval > SUSPENDED_INTERVAL + 1 then interval - 2 else SUSPENDED_INTERVAL;
          fastSends := 0;
        }
      } else {
        fastSends := 0;
      }
    }

    method Push(id: u32, size: u32, now: u64)
      requires Valid() && count < LIMIT
      modifies this, ids, sentAt, bytes
      ensures Valid() && Model() == Record(old(Model()), id, size, now)
    {
      ghost var before := Frames();
      ids[count], bytes[count], sentAt[count] := id, size, now;
      count := count + 1;
      inflightBytes := Add32(inflightBytes, size);
      assert Frames() == before + [Tracked(id, size, now)];
    }

    method RecordSent(id: u32, size: u32, now: u64) returns (ok: bool)
      requires Valid()
      modifies this, ids, sentAt, bytes
      ensures Valid() && Model() == Sent(old(Model()), id, size, now)
      ensures ok == old(CanRecord(Model(), size))
    {
      if suspended { return true; }
      if count == LIMIT { return false; }
      if count != 0 && Add32(inflightBytes, size) > MAX_INFLIGHT_BYTES { return false; }
      Push(id, size, now);
      return true;
    }

    method RecordKeyframe(id: u32, size: u32, now: u64) returns (ok: bool)
      requires Valid()
      modifies this, ids, sentAt, bytes
      ensures Valid() && Model() == SentKeyframe(old(Model()), id, size, now)
      ensures ok == old(suspended || !Blocked(Model()))
    {
      if suspended { return true; }
      if count == LIMIT { return false; }
      Push(id, size, now);
      return true;
    }

    /** Closes the gap at position `i`, as the shifting loop of frame_flow_ack does. */
    method RemoveAt(i: nat)
      requires Valid() && i < count
      modifies this`count, ids, sentAt, bytes
      ensures Valid() && count == old(count) - 1
      ensures Frames() == old(Frames())[..i] + old(Frames())[i + 1..]
    {
      count := count - 1;
      var j := i;
      while j < count
        invariant i <= j <= count == old(count) - 1
        invariant forall k :: 0 <= k < i ==>
          ids[k] == old(ids[k]) && bytes[k] == old(bytes[k]) && sentAt[k] == old(sentAt[k])
        invariant forall k :: i <= k < j ==>
          ids[k] == old(ids[k + 1]) && bytes[k] == old(bytes[k + 1]) && sentAt[k] == old(sentAt[k + 1])
        invariant forall k :: j <= k <= count ==>
          ids[k] == old(ids[k]) && bytes[k] == old(bytes[k]) && sentAt[k] == old(sentAt[k])
      {
        ids[j], bytes[j], sentAt[j] := ids[j + 1], bytes[j + 1], sentAt[j + 1];
        j := j + 1;
      }
      ghost var before := old(Frames());
      ghost var kept := before[..i] + before[i + 1..];
      forall k | 0 <= k < count ensures Frames()[k] == kept[k] {
        if k < i { assert kept[k] == before[k]; } else { assert kept[k] == before[k + 1]; }
      }
    }

    method FindFrame(id: u32) returns (i: nat)
      requires Valid()
      ensures i == FirstMatch(Frames(), id)
    {
      i := 0;
      ghost var frames := Frames();
      while i < count && ids[i] != id
        invariant 0 <= i <= count
        invariant FirstMatch(frames, id) == i + FirstMatch(frames[i..], id)
      {
        assert frames[i..][1..] == frames[i + 1..];
        i := i + 1;
      }
    }

    method AdaptToAck(elapsed: u64, depth: u32, now: u64)
      requires Valid()
      modifies this
      ensures Valid() && Frames() == old(Frames())
      ensures Model() == (if elapsed > 120 then Slow(old(Model()), now)
                          else if depth == 0 && elapsed <= 60 then FasterAck(old(Model()))
                          else old(Model()).(fastAcks := 0))
    {
      if elapsed > 120 {
        SlowDown(now);
      } else if depth == 0 && elapsed <= 60 {
        fastAcks := Add32(fastAcks, 1);
        if fastAcks >= 8 {
          var interval := CurrentInterval();
          intervalMs := if interval > MIN_INTERVAL + 1 then interval - 2 else MIN_INTERVAL;
          fastAcks := 0;
        }
      } else {
        fastAcks := 0;
      }
    }

    method AcknowledgeTracked(i: nat, depth: u32, now: u64) returns (elapsed: u64)
      requires Valid() && i < count
      modifies this, ids, sentAt, bytes
      ensures Valid() && Model() == Matched(old(Model()), i, depth, now)
      ensures elapsed == old(Sub64(now, Frames()[i].sentAt))
    {
      elapsed := Sub64(now, sentAt[i]);
      haveAck, inflightBytes := true, Sub32(inflightBytes, bytes[i]);
      AdaptToAck(elapsed, depth, now);
      RemoveAt(i);
    }

    method SuspendAcks()
      requires Valid()
      modifies this
      ensures Valid() && Model() == Suspend(old(Model()))
    {
      suspended, haveAck, fastAcks, intervalMs, fastSends, lastSlowAt := true, false, 0, SUSPENDED_INTERVAL, 0, 0;
      count, inflightBytes, lastAckAt := 0, 0, 0;
      assert Frames() == [];
    }

    method Resume(depth: u32, now: u64)
      requires Valid()
      modifies this
      ensures Valid() && Model() == Resumed(old(Model()), depth, now)
    {
      suspended, lastAckAt := false, now;
      assert Frames() == old(Frames());
      if depth > 256 * 1024 { SlowDown(now); }
    }

    method Acknowledge(id: u32, depth: u32, now: u64) returns (matched: bool, elapsed: u64)
      requires Valid()
      modifies this, ids, sentAt, bytes
      ensures Valid() && Model() == Ack(old(Model()), id, depth, now)
      ensures matched == old(AckMatches(Model(), id, depth))
      ensures matched ==> elapsed == old(Sub64(now, Frames()[FirstMatch(Frames(), id)].sentAt))
    {
      hide Suspend, Matched, Slow;
      elapsed, matched := 0, false;
      if depth == SUSPEND_DEPTH {
        SuspendAcks();
      } else {
        ghost var frames := Model().frames;
        Resume(depth, now);
        assert Model().frames == frames;
        var i := FindFrame(id);
        assert i == FirstMatch(frames, id);
        if i < count {
          elapsed := AcknowledgeTracked(i, depth, now);
          matched := true;
        }
      }
    }
  }
}
