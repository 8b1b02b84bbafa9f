/** The AVC passthrough: loss gating, admission and the reference chain (src/rdp_gfx.c). */
module AvcPathSpec {
  import opened Machine
  import opened AnnexB
  import opened FrameFlowSpec
  import V = VideoSourceSpec

  /** An ACK that arrives from the RDP client while the video thread is elsewhere. */
  datatype Arrival = Arrival(id: u32, depth: u32, now: u64)

  /** One wake-up of the admission loop: ACKs applied first, then the stop flag, then the clock. */
  datatype Tick = Tick(acks: seq<Arrival>, stop: bool, now: u64)

  /** The environment of one access unit. */
  datatype Turn = Turn(bytes: u32, prepared: bool, ticks: seq<Tick>, stopBeforeSend: bool,
                       submitOk: bool, acksDuringSubmit: seq<Arrival>, sentAt: u64)

  datatype Client = Client(needIdr: bool, stopping: bool, flow: Flow, nextFrameId: u32, idrRequests: nat)

  const CONNECTED: Client := Client(true, false, FRESH, 0, 0)

  function ApplyAcks(f: Flow, acks: seq<Arrival>): Flow {
    if acks == [] then f
    else
      var last := acks[|acks| - 1];
      Ack(ApplyAcks(f, acks[..|acks| - 1]), last.id, last.depth, last.now)
  }

  datatype Verdict = Accepted | Refused | Stopped | StillWaiting

  function Heard(c: Client, t: Tick): Client {
    c.(flow := ApplyAcks(c.flow, t.acks), stopping := c.stopping || t.stop)
  }

  function Rejected(c: Client): Client {
    c.(needIdr := true, idrRequests := if c.needIdr then c.idrRequests else c.idrRequests + 1)
  }

  /** The loop of client_accept_avc_frame over the wake-ups it gets. */
  function Admit(c: Client, bytes: u32, idr: bool, ticks: seq<Tick>, waitStartedAt: u64): (Client, Verdict)
    decreases |ticks|
  {
    if ticks == [] then (c, StillWaiting)
    else
      var heard := Heard(c, ticks[0]);
      var now := ticks[0].now;
      if heard.stopping then (heard, Stopped)
      else match AvcAdmit(heard.flow, bytes, idr, now, waitStartedAt)
        case Send => (heard, Accepted)
        case Resync => (Rejected(heard), Refused)
        case Wait => Admit(heard, bytes, idr, ticks[1..], if waitStartedAt == 0 then now else waitStartedAt)
  }

  datatype Outcome = Suppressed | Skipped | NotPrepared | Withheld(verdict: Verdict) | SendFailed | Submitted

  function Submit(c: Client, idr: bool, turn: Turn): (Client, Outcome) {
    if turn.stopBeforeSend || c.stopping then (c.(stopping := true), SendFailed)
    else
      var id := c.nextFrameId;
      var started := c.(nextFrameId := Add32(id, 1), flow := ApplyAcks(c.flow, turn.acksDuringSubmit));
      if !turn.submitOk then (started.(needIdr := true, stopping := true), SendFailed)
      else
        var flow := if idr then SentKeyframe(started.flow, id, turn.bytes, turn.sentAt)
                    else Sent(started.flow, id, turn.bytes, turn.sentAt);
        (started.(flow := flow, needIdr := started.needIdr && !idr), Submitted)
  }

  predicate ShouldSend(needIdr: bool, idr: bool, pFrame: bool) { idr || (!needIdr && pFrame) }

  /** The body of the video thread's loop for one unit returned by the source. */
  function Handle(c: Client, u: V.Delivered, turn: Turn): (Client, Outcome) {
    var idr, pFrame := IDR in u.nals, SLICE_P in u.nals;
    var noted := c.(needIdr := c.needIdr || u.packetLoss);
    if u.packetLoss || !ShouldSend(noted.needIdr, idr, pFrame) || c.stopping then (noted, Skipped)
    else if idr && !turn.prepared then (noted.(needIdr := true, stopping := true), NotPrepared)
    else
      var (admitted, verdict) := Admit(noted, turn.bytes, idr, turn.ticks, 0);
      if verdict == Accepted then Submit(admitted, idr, turn)
      else (admitted.(stopping := admitted.stopping || verdict == StillWaiting), Withheld(verdict))
  }

  /** Client state after the units `h`, each met with its own turn of the environment.
      A unit whose admission never ends is the last one of the run. */
  function ClientAfter(h: seq<V.RtpUnit>, turns: seq<Turn>): Client
    requires |turns| == |h|
  {
    if h == [] then CONNECTED
    else
      var n := |h| - 1;
      var before := ClientAfter(h[..n], turns[..n]);
      if V.Returned(h, n) then Handle(before, V.Deliver(V.State(h[..n]), h[n]), turns[n]).0 else before
  }

  /** What became of unit i. */
  function OutcomeOf(h: seq<V.RtpUnit>, turns: seq<Turn>, i: nat): Outcome
    requires |turns| == |h| && i < |h|
  {
    if V.Returned(h, i) then
      Handle(ClientAfter(h[..i], turns[..i]), V.Deliver(V.State(h[..i]), h[i]), turns[i]).1
    else Suppressed
  }

  predicate IsPicture(u: V.RtpUnit) { SLICE_P in u.nals || IDR in u.nals }

  predicate HasSet(u: V.RtpUnit) { SPS in u.nals || PPS in u.nals }

  /** From the submitted IDR at j up to n nothing was lost and every picture was submitted. */
  ghost predicate UnbrokenFrom(h: seq<V.RtpUnit>, turns: seq<Turn>, j: nat, n: nat)
    requires |turns| == |h| && j < n <= |h|
  {
    && IDR in h[j].nals && OutcomeOf(h, turns, j) == Submitted
    && forall m :: j < m < n ==> !V.LossAt(h, m) && (IsPicture(h[m]) ==> OutcomeOf(h, turns, m) == Submitted)
  }

  ghost predicate Unbroken(h: seq<V.RtpUnit>, turns: seq<Turn>, n: nat)
    requires |turns| == |h| && n <= |h|
  {
    exists j :: 0 <= j < n && UnbrokenFrom(h, turns, j, n)
  }

  /** Every submitted P unit follows an unbroken chain of references. */
  ghost predicate ReferencesIntact(h: seq<V.RtpUnit>, turns: seq<Turn>)
    requires |turns| == |h|
  {
    forall c :: 0 <= c < |h| && SLICE_P in h[c].nals && IDR !in h[c].nals && OutcomeOf(h, turns, c) == Submitted ==>
                  !V.LossAt(h, c) && Unbroken(h, turns, c)
  }

  // ------------------------------------------------------------ one unit

  lemma {:induction false} AdmitKeepsNeedIdr(c: Client, bytes: u32, idr: bool, ticks: seq<Tick>, waitStartedAt: u64)
    ensures var (d, v) := Admit(c, bytes, idr, ticks, waitStartedAt);
            && (v == Accepted ==> d.needIdr == c.needIdr && !d.stopping)
            && (v == Refused ==> d.needIdr && d.idrRequests == c.idrRequests + (if c.needIdr then 0 else 1))
            && (v == Stopped ==> d.stopping) && (c.stopping ==> d.stopping || v == StillWaiting)
            && (c.needIdr ==> d.needIdr)
            && (v != Refused ==> d.idrRequests == c.idrRequests)
    decreases |ticks|
  {
    hide ApplyAcks, AvcAdmit;
    if ticks != [] {
      var heard := Heard(c, ticks[0]);
      AdmitKeepsNeedIdr(heard, bytes, idr, ticks[1..], if waitStartedAt == 0 then ticks[0].now else waitStartedAt);
    }
  }

  /** Admission never outlasts its deadline: by the first wake-up 150 ms after the wait began the
      frame has been accepted, refused or stopped. */
  lemma {:induction false} AdmitMeetsDeadline(c: Client, bytes: u32, idr: bool, ticks: seq<Tick>, k: nat,
                                              waitStartedAt: u64)
    requires k < |ticks| && waitStartedAt != 0 && Sub64(ticks[k].now, waitStartedAt) >= AVC_WAIT_MS
    ensures Admit(c, bytes, idr, ticks, waitStartedAt).1 != StillWaiting
    decreases |ticks|
  {
    hide ApplyAcks, ReadyKeyframe, Ready;
    if k > 0 {
      assert ticks[1..][k - 1] == ticks[k];
      AdmitMeetsDeadline(Heard(c, ticks[0]), bytes, idr, ticks[1..], k - 1, waitStartedAt);
    }
  }

  /** What one unit does to the flags, whatever the environment. */
  lemma HandleEffect(c: Client, u: V.Delivered, turn: Turn)
    ensures var (d, o) := Handle(c, u, turn);
            && (o == Submitted ==>
                  && !u.packetLoss && !c.stopping && (IDR in u.nals || (SLICE_P in u.nals && !c.needIdr))
                  && d.needIdr == (c.needIdr && IDR !in u.nals))
            && (o != Submitted && (u.packetLoss || IDR in u.nals || SLICE_P in u.nals) ==> d.needIdr || d.stopping)
            && (o != Submitted && c.needIdr ==> d.needIdr)
            && (c.stopping ==> d.stopping)
  {
    hide Admit, Sent, SentKeyframe, ApplyAcks;
    AdmitKeepsNeedIdr(c.(needIdr := c.needIdr || u.packetLoss), turn.bytes, IDR in u.nals, turn.ticks, 0);
  }

  // ------------------------------------------------------------ whole runs

  ghost predicate NoSliceWithSets(h: seq<V.RtpUnit>) {
    forall i :: 0 <= i < |h| && HasSet(h[i]) ==> SLICE_P !in h[i].nals
  }

  lemma PrefixOutcomes(h: seq<V.RtpUnit>, turns: seq<Turn>, n: nat, i: nat)
    requires |turns| == |h| && i < n <= |h|
    ensures OutcomeOf(h[..n], turns[..n], i) == OutcomeOf(h, turns, i)
    ensures V.LossAt(h[..n], i) == V.LossAt(h, i)
    ensures V.Returned(h[..n], i) == V.Returned(h, i)
  {
    hide Handle, V.Passes;
    assert h[..n][..i] == h[..i] && turns[..n][..i] == turns[..i];
  }

  lemma UnbrokenExtends(h: seq<V.RtpUnit>, turns: seq<Turn>, n: nat)
    requires |turns| == |h| && n < |h|
    requires Unbroken(h, turns, n) && !V.LossAt(h, n)
    requires IsPicture(h[n]) ==> OutcomeOf(h, turns, n) == Submitted
    ensures Unbroken(h, turns, n + 1)
  {
    hide OutcomeOf;
    var j :| 0 <= j < n && UnbrokenFrom(h, turns, j, n);
    assert UnbrokenFrom(h, turns, j, n + 1);
  }

  lemma UnbrokenStarts(h: seq<V.RtpUnit>, turns: seq<Turn>, n: nat)
    requires |turns| == |h| && n < |h|
    requires IDR in h[n].nals && OutcomeOf(h, turns, n) == Submitted
    ensures Unbroken(h, turns, n + 1)
  {
    hide OutcomeOf;
    assert UnbrokenFrom(h, turns, n, n + 1);
  }

  /** While the client may send P units and the source lets plain units through, the chain holds. */
  lemma {:induction false} ChainInvariant(h: seq<V.RtpUnit>, turns: seq<Turn>, n: nat)
    requires |turns| == |h| && n <= |h|
    ensures var c := ClientAfter(h[..n], turns[..n]);
            !c.needIdr && !c.stopping && !V.State(h[..n]).awaitingIdr ==> Unbroken(h, turns, n)
  {
    hide Handle, Unbroken, UnbrokenFrom;
    if n > 0 {
      var i := n - 1;
      ChainInvariant(h, turns, i);
      assert h[..n][..i] == h[..i] && turns[..n][..i] == turns[..i];
      PrefixOutcomes(h, turns, n, i);
      V.StateMeaning(h[..i]);
      var u := V.Deliver(V.State(h[..i]), h[i]);
      HandleEffect(ClientAfter(h[..i], turns[..i]), u, turns[i]);
      var c := ClientAfter(h[..n], turns[..n]);
      if !c.needIdr && !c.stopping && !V.State(h[..n]).awaitingIdr {
        assert V.Returned(h, i);
        if IDR in h[i].nals {
          UnbrokenStarts(h, turns, i);
        } else {
          UnbrokenExtends(h, turns, i);
        }
      }
    }
  }

  /** Whenever a P unit is submitted, nothing has been lost, refused or left unsent since the last
      submitted IDR, provided parameter sets never share a unit with a P slice. */
  lemma SubmittedPFollowsUnbrokenChain(h: seq<V.RtpUnit>, turns: seq<Turn>)
    requires |turns| == |h| && NoSliceWithSets(h)
    ensures ReferencesIntact(h, turns)
  {
    hide Handle, Unbroken;
    forall c | 0 <= c < |h| && SLICE_P in h[c].nals && IDR !in h[c].nals && OutcomeOf(h, turns, c) == Submitted
      ensures !V.LossAt(h, c) && Unbroken(h, turns, c)
    {
      V.StateMeaning(h[..c]);
      HandleEffect(ClientAfter(h[..c], turns[..c]), V.Deliver(V.State(h[..c]), h[c]), turns[c]);
      ChainInvariant(h, turns, c);
    }
  }

  // ------------------------------------ exactly which streams are safe

  predicate Flagged(h: seq<V.RtpUnit>, i: nat)
    requires i < |h|
  {
    V.Returned(h, i) && V.Deliver(V.State(h[..i]), h[i]).packetLoss
  }

  /** An IDR let through only because it carries a parameter set (j), then a picture held back (m),
      then a P slice let through only because it carries a parameter set (c). */
  ghost predicate Exposed(h: seq<V.RtpUnit>, j: nat, m: nat, c: nat)
    requires j < m < c < |h|
  {
    && V.Returned(h, j) && IDR in h[j].nals && !Flagged(h, j)
    && !V.Returned(h, m) && IsPicture(h[m])
    && V.Returned(h, c) && SLICE_P in h[c].nals && IDR !in h[c].nals
    && (forall k :: j < k < c ==> !(V.Returned(h, k) && IDR in h[k].nals))
    && (forall k :: j < k <= c ==> !V.LossAt(h, k))
  }

  ghost predicate StreamExposed(h: seq<V.RtpUnit>) {
    exists j: nat, m: nat, c: nat :: j < m < c < |h| && Exposed(h, j, m, c)
  }

  /** Since the submitted IDR at j every returned unit was clean, and every returned picture a
      submitted P unit. */
  ghost predicate CleanSince(h: seq<V.RtpUnit>, turns: seq<Turn>, j: nat, n: nat)
    requires |turns| == |h| && j < n <= |h|
  {
    && IDR in h[j].nals && OutcomeOf(h, turns, j) == Submitted
    && forall k :: j < k < n && V.Returned(h, k) ==>
         !Flagged(h, k) && (IsPicture(h[k]) ==> OutcomeOf(h, turns, k) == Submitted && IDR !in h[k].nals)
  }

  lemma {:induction false} CleanInvariant(h: seq<V.RtpUnit>, turns: seq<Turn>, n: nat)
    requires |turns| == |h| && n <= |h|
    ensures var c := ClientAfter(h[..n], turns[..n]);
            !c.needIdr && !c.stopping ==> exists j :: 0 <= j < n && CleanSince(h, turns, j, n)
  {
    hide Handle, V.Passes;
    if n > 0 {
      var i := n - 1;
      CleanInvariant(h, turns, i);
      assert h[..n][..i] == h[..i] && turns[..n][..i] == turns[..i];
      PrefixOutcomes(h, turns, n, i);
      var u := V.Deliver(V.State(h[..i]), h[i]);
      HandleEffect(ClientAfter(h[..i], turns[..i]), u, turns[i]);
      var c := ClientAfter(h[..n], turns[..n]);
      if !c.needIdr && !c.stopping {
        if V.Returned(h, i) && IDR in h[i].nals {
          assert CleanSince(h, turns, i, n);
        } else {
          var j :| 0 <= j < i && CleanSince(h, turns, j, i);
          assert CleanSince(h, turns, j, n);
        }
      }
    }
  }

  /** A loss after j surfaces as a flag on the next returned unit. */
  lemma {:induction false} LossSurfaces(h: seq<V.RtpUnit>, i: nat, c: nat)
    requires i <= c < |h| && V.LossAt(h, i) && V.Returned(h, c)
    ensures exists k :: i <= k <= c && Flagged(h, k)
    decreases c - i
  {
    hide V.Passes, V.LossSincePrevious;
    var k := i;
    while !V.Returned(h, k)
      invariant i <= k <= c
      invariant forall x :: i <= x < k ==> !V.Returned(h, x)
      decreases c - k
    {
      k := k + 1;
    }
    assert V.LossSincePrevious(h, k, i) by { LossSincePreviousHolds(h, k, i); }
    V.PacketLossIff(h, k);
    assert Flagged(h, k);
  }

  lemma LossSincePreviousHolds(h: seq<V.RtpUnit>, k: nat, i: nat)
    requires i <= k < |h| && V.LossAt(h, i) && forall x :: i <= x < k ==> !V.Returned(h, x)
    ensures V.LossSincePrevious(h, k, i)
  {
  }

  lemma CleanMeansNoLoss(h: seq<V.RtpUnit>, turns: seq<Turn>, j: nat, c: nat, k: nat)
    requires |turns| == |h| && j < c < |h| && CleanSince(h, turns, j, c) && j < k <= c
    requires V.Returned(h, c) && !Flagged(h, c)
    ensures !V.LossAt(h, k)
  {
    hide OutcomeOf, V.Passes;
    if V.LossAt(h, k) {
      LossSurfaces(h, k, c);
      assert false;
    }
  }

  lemma HeldBackSince(h: seq<V.RtpUnit>, turns: seq<Turn>, j: nat, c: nat) returns (m: nat)
    requires |turns| == |h| && j < c < |h| && CleanSince(h, turns, j, c)
    requires forall k :: j < k <= c ==> !V.LossAt(h, k)
    requires !UnbrokenFrom(h, turns, j, c)
    ensures j < m < c && IsPicture(h[m]) && !V.Returned(h, m)
  {
    hide OutcomeOf, V.Passes, V.LossAt;
    m :| j < m < c && IsPicture(h[m]) && OutcomeOf(h, turns, m) != Submitted;
  }

  lemma SubmittedWasReturned(h: seq<V.RtpUnit>, turns: seq<Turn>, i: nat)
    requires |turns| == |h| && i < |h| && OutcomeOf(h, turns, i) == Submitted
    ensures V.Returned(h, i) && !Flagged(h, i)
    ensures IDR !in h[i].nals ==> !ClientAfter(h[..i], turns[..i]).needIdr
    ensures !ClientAfter(h[..i], turns[..i]).stopping
  {
    hide Handle, V.Passes;
    HandleEffect(ClientAfter(h[..i], turns[..i]), V.Deliver(V.State(h[..i]), h[i]), turns[i]);
  }

  lemma ViolationIsExposed(h: seq<V.RtpUnit>, turns: seq<Turn>, c: nat)
    requires |turns| == |h| && c < |h|
    requires SLICE_P in h[c].nals && IDR !in h[c].nals && OutcomeOf(h, turns, c) == Submitted
    requires V.LossAt(h, c) || !Unbroken(h, turns, c)
    ensures StreamExposed(h)
  {
    hide OutcomeOf, ClientAfter, V.Passes, UnbrokenFrom;
    SubmittedWasReturned(h, turns, c);
    CleanInvariant(h, turns, c);
    var j :| 0 <= j < c && CleanSince(h, turns, j, c);
    forall k | j < k <= c ensures !V.LossAt(h, k) {
      CleanMeansNoLoss(h, turns, j, c, k);
    }
    SubmittedWasReturned(h, turns, j);
    var m := HeldBackSince(h, turns, j, c);
    assert Exposed(h, j, m, c);
  }

  /** An environment that prepares, admits and submits everything. */
  const WILLING: Turn := Turn(1, true, [Tick([Arrival(0, SUSPEND_DEPTH, 1)], false, 1)], false, true, [], 1)

  lemma WillingAdmits(c: Client, bytes: u32, idr: bool)
    requires !c.stopping
    ensures var (d, v) := Admit(c, bytes, idr, WILLING.ticks, 0); v == Accepted && !d.stopping && d.needIdr == c.needIdr
  {
    var acks := WILLING.ticks[0].acks;
    assert acks[..0] == [];
    assert ApplyAcks(c.flow, acks) == Suspend(c.flow);
  }

  lemma WillingHandles(c: Client, u: V.Delivered)
    requires !c.stopping
    ensures var (d, o) := Handle(c, u, WILLING);
            && !d.stopping
            && (o == Submitted <==> !u.packetLoss && ShouldSend(c.needIdr, IDR in u.nals, SLICE_P in u.nals))
            && d.needIdr == ((c.needIdr || u.packetLoss) && (u.packetLoss || IDR !in u.nals))
  {
    hide Admit, Sent, SentKeyframe, ApplyAcks;
    WillingAdmits(c.(needIdr := c.needIdr || u.packetLoss), 1, IDR in u.nals);
  }

  lemma {:induction false} WillingNeverStops(h: seq<V.RtpUnit>, turns: seq<Turn>)
    requires |turns| == |h| && forall i :: 0 <= i < |h| ==> turns[i] == WILLING
    ensures !ClientAfter(h, turns).stopping
  {
    hide Handle, V.Passes;
    if h != [] {
      var n := |h| - 1;
      WillingNeverStops(h[..n], turns[..n]);
      WillingHandles(ClientAfter(h[..n], turns[..n]), V.Deliver(V.State(h[..n]), h[n]));
    }
  }

  /** After the IDR at j is submitted, P units stay sendable while nothing is flagged. */
  lemma {:induction false} WillingKeepsSending(h: seq<V.RtpUnit>, turns: seq<Turn>, j: nat, n: nat)
    requires |turns| == |h| && (forall i :: 0 <= i < |h| ==> turns[i] == WILLING)
    requires j < n <= |h| && V.Returned(h, j) && IDR in h[j].nals && !Flagged(h, j)
    requires forall k :: j < k < n ==> !V.LossAt(h, k)
    ensures !ClientAfter(h[..n], turns[..n]).needIdr
    ensures !V.State(h[..n]).pendingLoss
  {
    hide Handle, V.Passes, V.Seen, V.Recovered, V.UnreportedLoss;
    var i := n - 1;
    assert h[..n][..i] == h[..i] && turns[..n][..i] == turns[..i];
    PrefixOutcomes(h, turns, n, i);
    WillingNeverStops(h[..i], turns[..i]);
    WillingHandles(ClientAfter(h[..i], turns[..i]), V.Deliver(V.State(h[..i]), h[i]));
    if i > j {
      WillingKeepsSending(h, turns, j, i);
      V.StateMeaning(h[..i]);
    }
  }

  lemma ExposedIsSubmitted(h: seq<V.RtpUnit>, turns: seq<Turn>, j: nat, m: nat, c: nat)
    requires |turns| == |h| && (forall i :: 0 <= i < |h| ==> turns[i] == WILLING)
    requires j < m < c < |h| && Exposed(h, j, m, c)
    ensures OutcomeOf(h, turns, c) == Submitted
  {
    hide Handle, V.Passes, V.Seen, V.Recovered, V.UnreportedLoss;
    WillingKeepsSending(h, turns, j, c);
    WillingNeverStops(h[..c], turns[..c]);
    V.StateMeaning(h[..c]);
    assert !V.LossAt(h, c);
    assert turns[c] == WILLING;
    WillingHandles(ClientAfter(h[..c], turns[..c]), V.Deliver(V.State(h[..c]), h[c]));
  }

  lemma ExposedViolates(h: seq<V.RtpUnit>, turns: seq<Turn>, j: nat, m: nat, c: nat)
    requires |turns| == |h| && j < m < c < |h| && Exposed(h, j, m, c)
    ensures !Unbroken(h, turns, c)
  {
    hide Handle, V.Passes;
    assert OutcomeOf(h, turns, m) == Suppressed;
    forall x | 0 <= x < c ensures !UnbrokenFrom(h, turns, x, c) {
      if UnbrokenFrom(h, turns, x, c) {
        SubmittedWasReturned(h, turns, x);
        assert false;
      }
    }
  }

  /** The promise holds in every environment exactly for the streams that are not exposed. */
  lemma StreamIsSafeIff(h: seq<V.RtpUnit>)
    ensures (forall turns: seq<Turn> | |turns| == |h| :: ReferencesIntact(h, turns)) <==> !StreamExposed(h)
  {
    hide Exposed, OutcomeOf, Unbroken;
    if StreamExposed(h) {
      var j: nat, m: nat, c: nat :| j < m < c < |h| && Exposed(h, j, m, c);
      var turns := seq(|h|, i => WILLING);
      ExposedIsSubmitted(h, turns, j, m, c);
      ExposedViolates(h, turns, j, m, c);
      ExposedIsPUnit(h, j, m, c);
      assert !ReferencesIntact(h, turns);
    } else {
      forall turns: seq<Turn> | |turns| == |h| ensures ReferencesIntact(h, turns) {
        forall c | 0 <= c < |h| && SLICE_P in h[c].nals && IDR !in h[c].nals && OutcomeOf(h, turns, c) == Submitted
          ensures !V.LossAt(h, c) && Unbroken(h, turns, c)
        {
          if V.LossAt(h, c) || !Unbroken(h, turns, c) { ViolationIsExposed(h, turns, c); }
        }
      }
    }
  }

  lemma ExposedIsPUnit(h: seq<V.RtpUnit>, j: nat, m: nat, c: nat)
    requires j < m < c < |h| && Exposed(h, j, m, c)
    ensures SLICE_P in h[c].nals && IDR !in h[c].nals
  {
  }

  /** An IDR with only an SPS, a P unit, a P unit with an SPS. */
  const EXPOSED_STREAM: seq<V.RtpUnit> :=
    [V.RtpUnit({5, 7}, 0, false), V.RtpUnit({1}, 0, false), V.RtpUnit({1, 7}, 0, false)]

  /** A stream that breaks the promise, with an environment in which it does. */
  lemma ExposedStreamExists()
    ensures StreamExposed(EXPOSED_STREAM) && !NoSliceWithSets(EXPOSED_STREAM)
    ensures !ReferencesIntact(EXPOSED_STREAM, [WILLING, WILLING, WILLING])
  {
    var h, turns := EXPOSED_STREAM, [WILLING, WILLING, WILLING];
    ThirdIsExposed();
    assert StreamExposed(h);
    assert HasSet(h[2]) && SLICE_P in h[2].nals;
    ExposedIsSubmitted(h, turns, 0, 1, 2);
    ExposedViolates(h, turns, 0, 1, 2);
    ExposedIsPUnit(h, 0, 1, 2);
  }

  lemma ThirdIsExposed()
    ensures Exposed(EXPOSED_STREAM, 0, 1, 2)
  {
    var h := EXPOSED_STREAM;
    var a, b, c := h[0], h[1], h[2];
    var s := V.Source(0, true, true, false, false, false);
    assert h[..0] == [] && h[..1] == [a] && h[..2] == [a, b];
    assert V.State([]) == V.OPENED;
    assert V.Examine(V.OPENED, a) == s && V.Passes(V.OPENED, a) && V.Step(V.OPENED, a) == s;
    assert [a][..0] == [] && V.State([a]) == s;
    assert V.Examine(s, b) == s && !V.Passes(s, b) && V.Step(s, b) == s;
    assert [a, b][..1] == [a] && V.State([a, b]) == s;
    assert V.Passes(s, c);
  }

  // ------------------------------------ the same, read off the stream

  /** Unit i carries a parameter set, or an IDR with both sets seen was read at or after the last loss. */
  ghost predicate LetThrough(h: seq<V.RtpUnit>, i: nat)
    requires i < |h|
  {
    HasSet(h[i]) || V.Recovered(h[..i + 1])
  }

  /** The loss counter changed at or before unit i, and nothing was let through since. */
  ghost predicate LossNotShown(h: seq<V.RtpUnit>, i: nat)
    requires i < |h|
  {
    exists j: nat :: j <= i && V.LossAt(h, j) && forall k :: j <= k < i ==> !LetThrough(h, k)
  }

  /** The exposed streams without a word about the reader: an IDR (j) that reports no loss, a picture after it
      that is not let through (m), and a P unit with a parameter set (c), with no loss and no IDR let through
      in between. */
  ghost predicate PlainlyExposed(h: seq<V.RtpUnit>, j: nat, m: nat, c: nat)
    requires j < m < c < |h|
  {
    && LetThrough(h, j) && IDR in h[j].nals && !LossNotShown(h, j)
    && !LetThrough(h, m) && IsPicture(h[m])
    && LetThrough(h, c) && SLICE_P in h[c].nals && IDR !in h[c].nals
    && (forall k :: j < k < c ==> !(LetThrough(h, k) && IDR in h[k].nals))
    && (forall k :: j < k <= c ==> !V.LossAt(h, k))
  }

  lemma FlaggedIff(h: seq<V.RtpUnit>, i: nat)
    requires i < |h| && V.Returned(h, i)
    ensures Flagged(h, i) <==> LossNotShown(h, i)
  {
    hide V.Returned, V.Recovered, V.LossAt;
    V.PacketLossIff(h, i);
    forall k: nat | k < |h| ensures V.Returned(h, k) <==> LetThrough(h, k) { V.ReturnedIff(h, k); }
    if Flagged(h, i) {
      var j :| 0 <= j <= i && V.LossSincePrevious(h, i, j);
      assert V.LossAt(h, j);
    }
    if LossNotShown(h, i) {
      var j: nat :| j <= i && V.LossAt(h, j) && forall k :: j <= k < i ==> !LetThrough(h, k);
      assert V.LossSincePrevious(h, i, j);
    }
  }

  /** Which streams are exposed can be told from the NAL types and loss counters of their units. */
  lemma ExposedIff(h: seq<V.RtpUnit>, j: nat, m: nat, c: nat)
    requires j < m < c < |h|
    ensures Exposed(h, j, m, c) <==> PlainlyExposed(h, j, m, c)
  {
    hide V.Returned, LetThrough, Flagged, LossNotShown, V.LossAt;
    forall k: nat | k < |h| ensures V.Returned(h, k) <==> LetThrough(h, k) { LetThroughIff(h, k); }
    if V.Returned(h, j) { FlaggedIff(h, j); }
  }

  lemma LetThroughIff(h: seq<V.RtpUnit>, k: nat)
    requires k < |h|
    ensures V.Returned(h, k) <==> LetThrough(h, k)
  {
    hide V.Returned, V.Recovered;
    V.ReturnedIff(h, k);
  }

  // ------------------------------------ what is submitted is recorded

  function AckEvents(acks: seq<Arrival>): (es: seq<Event>)
    ensures |es| == |acks| && forall e :: e in es ==> e.AckEvent?
  {
    seq(|acks|, i requires 0 <= i < |acks| => AckEvent(acks[i].id, acks[i].depth, acks[i].now))
  }

  lemma {:induction false} AcksAreRun(f: Flow, acks: seq<Arrival>)
    ensures ApplyAcks(f, acks) == Run(f, AckEvents(acks))
  {
    hide Ack;
    if acks != [] {
      var n := |acks| - 1;
      AcksAreRun(f, acks[..n]);
      assert AckEvents(acks)[..n] == AckEvents(acks[..n]);
    }
  }

  ghost predicate Bounded(f: Flow) { Inv(f) && FramesWithin(f, SIZE_BOUND) }

  lemma StepBounded(f: Flow, e: Event)
    requires Bounded(f) && EventWithin(e, SIZE_BOUND)
    ensures Bounded(Step(f, e))
  {
    hide Step, Inv;
    InvStep(f, e);
    StepKeepsWithin(f, e, SIZE_BOUND);
  }

  lemma {:induction false} AcksBounded(f: Flow, acks: seq<Arrival>)
    requires Bounded(f)
    ensures Bounded(ApplyAcks(f, acks))
  {
    hide Ack, Bounded;
    if acks != [] {
      var n := |acks| - 1;
      AcksBounded(f, acks[..n]);
      StepBounded(ApplyAcks(f, acks[..n]), AckEvent(acks[n].id, acks[n].depth, acks[n].now));
    }
  }

  /** An accepted unit passed its check in the state that admission leaves. */
  lemma {:induction false} AdmitBounded(c: Client, bytes: u32, idr: bool, ticks: seq<Tick>, waitStartedAt: u64)
    returns (now: u64)
    requires Bounded(c.flow)
    ensures var (d, v) := Admit(c, bytes, idr, ticks, waitStartedAt);
            && Bounded(d.flow)
            && (v == Accepted ==> if idr then ReadyKeyframe(d.flow, now) else Ready(d.flow, bytes, now))
    decreases |ticks|
  {
    hide ApplyAcks, Bounded, Ready, ReadyKeyframe;
    now := 0;
    if ticks != [] {
      AcksBounded(c.flow, ticks[0].acks);
      var heard := Heard(c, ticks[0]);
      now := ticks[0].now;
      if !heard.stopping && AvcAdmit(heard.flow, bytes, idr, now, waitStartedAt) == Wait {
        now := AdmitBounded(heard, bytes, idr, ticks[1..], if waitStartedAt == 0 then now else waitStartedAt);
      }
    }
  }

  lemma HandleBounded(c: Client, u: V.Delivered, turn: Turn)
    requires Bounded(c.flow) && turn.bytes <= SIZE_BOUND
    ensures Bounded(Handle(c, u, turn).0.flow)
  {
    hide Bounded, Admit, ApplyAcks, Sent, SentKeyframe, Ready, ReadyKeyframe;
    var idr := IDR in u.nals;
    var noted := c.(needIdr := c.needIdr || u.packetLoss);
    var _ := AdmitBounded(noted, turn.bytes, idr, turn.ticks, 0);
    var d := Admit(noted, turn.bytes, idr, turn.ticks, 0).0;
    AcksBounded(d.flow, turn.acksDuringSubmit);
    var f := ApplyAcks(d.flow, turn.acksDuringSubmit);
    StepBounded(f, SentEvent(d.nextFrameId, turn.bytes, turn.sentAt));
    StepBounded(f, KeyframeEvent(d.nextFrameId, turn.bytes, turn.sentAt));
  }

  lemma {:induction false} RunBounded(h: seq<V.RtpUnit>, turns: seq<Turn>)
    requires |turns| == |h| && forall i :: 0 <= i < |turns| ==> turns[i].bytes <= SIZE_BOUND
    ensures Bounded(ClientAfter(h, turns).flow)
  {
    hide Handle, Bounded, V.Passes;
    if h == [] {
      FreshIsBounded();
    } else {
      var n := |h| - 1;
      RunBounded(h[..n], turns[..n]);
      if V.Returned(h, n) {
        HandleBounded(ClientAfter(h[..n], turns[..n]), V.Deliver(V.State(h[..n]), h[n]), turns[n]);
      }
    }
  }

  lemma FreshIsBounded()
    ensures Bounded(CONNECTED.flow)
  {
    InvFresh();
  }

  /** The flow at the moment unit i is recorded, after the ACKs that came in while it was being sent. */
  function FlowAtRecord(h: seq<V.RtpUnit>, turns: seq<Turn>, i: nat): Flow
    requires |turns| == |h| && i < |h|
  {
    var c, u := ClientAfter(h[..i], turns[..i]), V.Deliver(V.State(h[..i]), h[i]);
    var admitted := Admit(c.(needIdr := c.needIdr || u.packetLoss), turns[i].bytes, IDR in u.nals, turns[i].ticks, 0).0;
    ApplyAcks(admitted.flow, turns[i].acksDuringSubmit)
  }

  /** In every run with units of at most 1 GiB, which the 2 MiB of the RTP client keep far below: every submitted unit
      can be recorded when its turn comes, whatever ACKs came in since it was admitted. */
  lemma SubmittedIsRecorded(h: seq<V.RtpUnit>, turns: seq<Turn>, i: nat)
    requires |turns| == |h| && i < |h| && OutcomeOf(h, turns, i) == Submitted
    requires forall k :: 0 <= k < |turns| ==> turns[k].bytes <= SIZE_BOUND
    ensures var f := FlowAtRecord(h, turns, i);
            if IDR in h[i].nals then !Blocked(f) else CanRecord(f, turns[i].bytes)
  {
    hide ClientAfter, V.Passes, V.State, Bounded, Ready, ReadyKeyframe, Admit, CanRecord, ApplyAcks, Sent, SentKeyframe;
    RunBounded(h[..i], turns[..i]);
    var c, u, turn := ClientAfter(h[..i], turns[..i]), V.Deliver(V.State(h[..i]), h[i]), turns[i];
    var noted := c.(needIdr := c.needIdr || u.packetLoss);
    var now := AdmitBounded(noted, turn.bytes, IDR in u.nals, turn.ticks, 0);
    var d := Admit(noted, turn.bytes, IDR in u.nals, turn.ticks, 0).0;
    StillRecordable(d.flow, turn.bytes, IDR in u.nals, now, turn.acksDuringSubmit);
  }

  lemma StillRecordable(f: Flow, bytes: u32, idr: bool, now: u64, acks: seq<Arrival>)
    requires Bounded(f) && bytes <= SIZE_BOUND && if idr then ReadyKeyframe(f, now) else Ready(f, bytes, now)
    ensures var g := ApplyAcks(f, acks); if idr then !Blocked(g) else CanRecord(g, bytes)
  {
    hide Ready, ReadyKeyframe, ApplyAcks, Inv;
    AcksAreRun(f, acks);
    if idr {
      ReadyKeyframeStaysRecordable(f, now, AckEvents(acks));
    } else {
      SmallFramesStayRecordable(f, bytes, now);
    }
  }
}

/** The client record as the video thread and the ACK callback change it. */
module AvcPath {
  import opened Machine
  import opened AnnexB
  import opened FrameFlowSpec
  import opened AvcPathSpec
  import F = FrameFlow
  import V = VideoSourceSpec

  class AvcClient {
    var needIdr: bool
    var stopping: bool
    var nextFrameId: u32
    var idrRequests: nat
    const flow: F.FrameFlow

    ghost const Repr: set<object>

    ghost predicate Valid()
      reads this, Repr
    {
      && Repr == {this, flow, flow.ids, flow.sentAt, flow.bytes}
      && flow.Valid()
    }

    ghost function Model(): Client
      reads this, Repr
      requires Valid()
    {
      Client(needIdr, stopping, flow.Model(), nextFrameId, idrRequests)
    }

    constructor ()
      ensures Valid() && fresh(Repr) && Model() == CONNECTED
    {
      needIdr, stopping, nextFrameId, idrRequests := true, false, 0, 0;
      var f := new F.FrameFlow();
      flow := f;
      Repr := {this, f, f.ids, f.sentAt, f.bytes};
    }

    method HearAcks(acks: seq<Arrival>)
      requires Valid()
      modifies Repr - {this}
      ensures Valid() && Model() == old(Model()).(flow := ApplyAcks(old(Model()).flow, acks))
    {
      hide Ack;
      var i := 0;
      while i < |acks|
        invariant 0 <= i <= |acks| && Valid()
        invariant Model() == old(Model()).(flow := ApplyAcks(old(Model()).flow, acks[..i]))
      {
        assert acks[..i + 1][..i] == acks[..i];
        var matched, elapsed := flow.Acknowledge(acks[i].id, acks[i].depth, acks[i].now);
        i := i + 1;
      }
      assert acks[..i] == acks;
    }

    method AdmissionTest(bytes: u32, idr: bool, now: u64, waitStartedAt: u64) returns (a: Admission)
      requires Valid()
      ensures a == AvcAdmit(flow.Model(), bytes, idr, now, waitStartedAt)
    {
      if waitStartedAt != 0 && Sub64(now, waitStartedAt) >= AVC_WAIT_MS { return Resync; }
      if flow.suspended || flow.count == 0 { return Send; }
      var stale := flow.lastAckAt != 0 && Sub64(now, flow.lastAckAt) >= SLOW_ACK_MS;
      var full := flow.count == LIMIT || (!idr && Add32(flow.inflightBytes, bytes) > MAX_INFLIGHT_BYTES);
      return if full || stale then Wait else Send;
    }

    method AcceptFrame(bytes: u32, idr: bool, ticks: seq<Tick>) returns (verdict: Verdict)
      requires Valid()
      modifies Repr
      ensures Valid() && (Model(), verdict) == Admit(old(Model()), bytes, idr, ticks, 0)
    {
      hide ApplyAcks, AvcAdmit;
      var waitStartedAt: u64 := 0;
      var i := 0;
      ghost var result := Admit(Model(), bytes, idr, ticks, 0);
      while i < |ticks|
        invariant 0 <= i <= |ticks| && Valid()
        invariant Admit(Model(), bytes, idr, ticks[i..], waitStartedAt) == result
      {
        assert ticks[i..][0] == ticks[i] && ticks[i..][1..] == ticks[i + 1..];
        HearAcks(ticks[i].acks);
        stopping := stopping || ticks[i].stop;
        if stopping { return Stopped; }
        var now := ticks[i].now;
        var admission := AdmissionTest(bytes, idr, now, waitStartedAt);
        if admission == Send { return Accepted; }
        if admission == Resync {
          if !needIdr { idrRequests := idrRequests + 1; }
          needIdr := true;
          return Refused;
        }
        if waitStartedAt == 0 { waitStartedAt := now; }
        i := i + 1;
      }
      return StillWaiting;
    }

    method SendFrame(idr: bool, turn: Turn) returns (outcome: Outcome)
      requires Valid()
      modifies Repr
      ensures Valid() && (Model(), outcome) == Submit(old(Model()), idr, turn)
    {
      hide ApplyAcks, Sent, SentKeyframe;
      if turn.stopBeforeSend || stopping {
        stopping := true;
        return SendFailed;
      }
      var id := nextFrameId;
      nextFrameId := Add32(id, 1);
      HearAcks(turn.acksDuringSubmit);
      if !turn.submitOk {
        needIdr, stopping := true, true;
        return SendFailed;
      }
      if idr {
        var ok := flow.RecordKeyframe(id, turn.bytes, turn.sentAt);
        needIdr := false;
      } else {
        var ok := flow.RecordSent(id, turn.bytes, turn.sentAt);
      }
      return Submitted;
    }

    method HandleUnit(u: V.Delivered, turn: Turn) returns (outcome: Outcome)
      requires Valid()
      modifies Repr
      ensures Valid() && (Model(), outcome) == Handle(old(Model()), u, turn)
    {
      hide Admit, Submit;
      var idr, pFrame := IDR in u.nals, SLICE_P in u.nals;
      if u.packetLoss { needIdr := true; }
      if u.packetLoss || !ShouldSend(needIdr, idr, pFrame) || stopping { return Skipped; }
      if idr && !turn.prepared {
        needIdr, stopping := true, true;
        return NotPrepared;
      }
      var verdict := AcceptFrame(turn.bytes, idr, turn.ticks);
      if verdict != Accepted {
        if verdict == StillWaiting { stopping := true; }
        return Withheld(verdict);
      }
      outcome := SendFrame(idr, turn);
    }
  }
}
