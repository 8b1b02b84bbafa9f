/** Gating of received access units until a decodable picture (src/video_source.c). */
module VideoSourceSpec {
  import opened Machine
  import opened AnnexB

  /** One successful read from RTP: the NAL types of the unit, the loss counter at that moment,
      and the answer the IDR request callback gives if it is asked. */
  datatype RtpUnit = RtpUnit(nals: set<nat>, losses: u32, idrAccepted: bool)

  /** What the reader hands to its caller. */
  datatype Delivered = Delivered(nals: set<nat>, losses: u32, packetLoss: bool, idrRequested: bool)

  datatype Source = Source(observed: u32, awaitingIdr: bool, haveSps: bool, havePps: bool,
                           pendingLoss: bool, pendingIdrRequested: bool)

  const OPENED: Source := Source(0, true, false, false, false, false)

  /** The state once a unit has been examined, before the decision to return it. */
  function Examine(s: Source, u: RtpUnit): Source {
    var lossy := u.losses != s.observed;
    var sps, pps := s.haveSps || SPS in u.nals, s.havePps || PPS in u.nals;
    Source(u.losses,
           (s.awaitingIdr || lossy) && !(IDR in u.nals && sps && pps),
           sps, pps,
           s.pendingLoss || lossy,
           s.pendingIdrRequested || (lossy && u.idrAccepted))
  }

  predicate Passes(s: Source, u: RtpUnit) {
    !Examine(s, u).awaitingIdr || SPS in u.nals || PPS in u.nals
  }

  function Step(s: Source, u: RtpUnit): Source {
    var t := Examine(s, u);
    if Passes(s, u) then t.(pendingLoss := false, pendingIdrRequested := false) else t
  }

  function Deliver(s: Source, u: RtpUnit): Delivered {
    var t := Examine(s, u);
    Delivered(u.nals, u.losses, t.pendingLoss, t.pendingIdrRequested)
  }

  /** The state after all units read since the source was opened. */
  function State(h: seq<RtpUnit>): Source {
    if h == [] then OPENED else Step(State(h[..|h| - 1]), h[|h| - 1])
  }

  // ------------------------------------------------ what the history says

  predicate LossAt(h: seq<RtpUnit>, i: nat)
    requires i < |h|
  {
    h[i].losses != (if i == 0 then 0 else h[i - 1].losses)
  }

  /** How often the loss counter changed. */
  function Changes(h: seq<RtpUnit>): nat {
    if h == [] then 0 else Changes(h[..|h| - 1]) + if LossAt(h, |h| - 1) then 1 else 0
  }

  lemma ObservedIsLast(h: seq<RtpUnit>)
    ensures State(h).observed == if h == [] then 0 else h[|h| - 1].losses
  {
  }

  ghost predicate Seen(h: seq<RtpUnit>, t: nat) { exists i :: 0 <= i < |h| && t in h[i].nals }

  predicate Returned(h: seq<RtpUnit>, i: nat)
    requires i < |h|
  {
    Passes(State(h[..i]), h[i])
  }

  ghost predicate NoneReturned(h: seq<RtpUnit>, from: nat, upto: nat)
    requires upto <= |h|
  {
    forall i :: from <= i < upto ==> !Returned(h, i)
  }

  /** One more unit after the history h. */
  lemma OneMoreUnit(h: seq<RtpUnit>, u: RtpUnit, from: nat)
    requires NoneReturned(h, from, |h|)
    ensures var more := h + [u];
            && State(more) == Step(State(h), u) && Returned(more, |h|) == Passes(State(h), u)
            && Changes(more) == Changes(h) + (if u.losses != State(h).observed then 1 else 0)
            && Deliver(State(more[..|h|]), more[|h|]) == Deliver(State(h), u)
            && NoneReturned(more, from, |h|)
  {
    hide Step, Deliver, Passes;
    var more := h + [u];
    assert more[..|h|] == h;
    ObservedIsLast(h);
    forall i | from <= i < |h| ensures !Returned(more, i) { assert more[..i] == h[..i] && !Returned(h, i); }
  }

  /** Unit k is an IDR read with both parameter sets already seen, and no loss came after it. */
  ghost predicate RecoversAt(h: seq<RtpUnit>, k: nat)
    requires k < |h|
  {
    && IDR in h[k].nals && Seen(h[..k + 1], SPS) && Seen(h[..k + 1], PPS)
    && forall j :: k < j < |h| ==> !LossAt(h, j)
  }

  ghost predicate Recovered(h: seq<RtpUnit>) { exists k :: 0 <= k < |h| && RecoversAt(h, k) }

  /** Some loss has been observed that no returned unit reported yet. */
  ghost predicate UnreportedLoss(h: seq<RtpUnit>) {
    exists j :: 0 <= j < |h| && LossAt(h, j) && forall k :: j <= k < |h| ==> !Returned(h, k)
  }

  lemma SeenStep(h: seq<RtpUnit>, t: nat)
    requires h != []
    ensures Seen(h, t) <==> Seen(h[..|h| - 1], t) || t in h[|h| - 1].nals
  {
    var n := |h| - 1;
    if Seen(h, t) {
      var i :| 0 <= i < |h| && t in h[i].nals;
      if i < n { assert h[..n][i] == h[i]; }
    }
    if Seen(h[..n], t) {
      var i :| 0 <= i < n && t in h[..n][i].nals;
      assert h[i] == h[..n][i];
    }
  }

  lemma RecoveredStep(h: seq<RtpUnit>)
    requires h != []
    ensures var n := |h| - 1;
            Recovered(h) <==>
              || (IDR in h[n].nals && Seen(h, SPS) && Seen(h, PPS))
              || (!LossAt(h, n) && Recovered(h[..n]))
  {
    hide Seen;
    var n := |h| - 1;
    var init := h[..n];
    assert h[..n + 1] == h;
    if Recovered(h) {
      var k :| 0 <= k < |h| && RecoversAt(h, k);
      if k < n {
        assert init[..k + 1] == h[..k + 1] && init[k] == h[k];
        forall j | k < j < n ensures !LossAt(init, j) { assert !LossAt(h, j); }
        assert RecoversAt(init, k);
      }
    }
    if !LossAt(h, n) && Recovered(init) {
      var k :| 0 <= k < n && RecoversAt(init, k);
      assert init[..k + 1] == h[..k + 1] && init[k] == h[k];
      forall j | k < j < |h| ensures !LossAt(h, j) { if j < n { assert !LossAt(init, j); } }
      assert RecoversAt(h, k);
    }
    if IDR in h[n].nals && Seen(h, SPS) && Seen(h, PPS) { assert RecoversAt(h, n); }
  }

  lemma UnreportedLossStep(h: seq<RtpUnit>)
    requires h != []
    ensures var n := |h| - 1;
            UnreportedLoss(h) <==> !Returned(h, n) && (LossAt(h, n) || UnreportedLoss(h[..n]))
  {
    hide Passes;
    var n := |h| - 1;
    var init := h[..n];
    forall k | 0 <= k < n ensures Returned(init, k) == Returned(h, k) && LossAt(init, k) == LossAt(h, k) {
      assert init[..k] == h[..k];
    }
    if UnreportedLoss(h) {
      var j :| 0 <= j < |h| && LossAt(h, j) && forall k :: j <= k < |h| ==> !Returned(h, k);
      if j < n { assert LossAt(init, j) && forall k :: j <= k < n ==> !Returned(init, k); }
    }
    if !Returned(h, n) && UnreportedLoss(init) {
      var j :| 0 <= j < n && LossAt(init, j) && forall k :: j <= k < n ==> !Returned(init, k);
      assert LossAt(h, j) && forall k :: j <= k < |h| ==> !Returned(h, k);
    }
  }

  /** Every field of the state is a statement about the history since the open. */
  lemma {:induction false} StateMeaning(h: seq<RtpUnit>)
    ensures State(h).observed == (if h == [] then 0 else h[|h| - 1].losses)
    ensures State(h).haveSps <==> Seen(h, SPS)
    ensures State(h).havePps <==> Seen(h, PPS)
    ensures State(h).awaitingIdr <==> !Recovered(h)
    ensures State(h).pendingLoss <==> UnreportedLoss(h)
  {
    hide Seen, Recovered, UnreportedLoss;
    if h == [] {
      NothingYet();
    } else {
      var n := |h| - 1;
      StateMeaning(h[..n]);
      SeenStep(h, SPS);
      SeenStep(h, PPS);
      RecoveredStep(h);
      UnreportedLossStep(h);
    }
  }

  lemma NothingYet()
    ensures !Seen([], SPS) && !Seen([], PPS) && !Recovered([]) && !UnreportedLoss([])
  {
  }

  /** A unit is returned exactly when it carries a parameter set, or an IDR with both sets
      already seen was read at or after the last change of the loss counter. */
  lemma ReturnedIff(h: seq<RtpUnit>, i: nat)
    requires i < |h|
    ensures Returned(h, i) <==> SPS in h[i].nals || PPS in h[i].nals || Recovered(h[..i + 1])
  {
    hide Recovered;
    assert h[..i + 1][..i] == h[..i];
    StateMeaning(h[..i + 1]);
  }

  /** The loss counter changed at unit j, and no unit from j up to i was returned. */
  ghost predicate LossSincePrevious(h: seq<RtpUnit>, i: nat, j: nat)
    requires i < |h| && j <= i
  {
    LossAt(h, j) && forall k :: j <= k < i ==> !Returned(h, k)
  }

  lemma UnreportedLossBefore(h: seq<RtpUnit>, i: nat)
    requires i < |h|
    ensures UnreportedLoss(h[..i]) <==> exists j :: 0 <= j < i && LossSincePrevious(h, i, j)
  {
    hide Passes;
    var init := h[..i];
    forall k | 0 <= k < i ensures Returned(init, k) == Returned(h, k) && LossAt(init, k) == LossAt(h, k) {
      assert init[..k] == h[..k];
    }
    if UnreportedLoss(init) {
      var j :| 0 <= j < i && LossAt(init, j) && forall k :: j <= k < i ==> !Returned(init, k);
      assert LossSincePrevious(h, i, j);
    }
    if j :| 0 <= j < i && LossSincePrevious(h, i, j) {
      assert LossAt(init, j) && forall k :: j <= k < i ==> !Returned(init, k);
    }
  }

  /** A returned unit is flagged exactly when the loss counter changed at some unit after the
      previously returned one, this unit and the suppressed ones between them included. */
  lemma PacketLossIff(h: seq<RtpUnit>, i: nat)
    requires i < |h| && Returned(h, i)
    ensures Deliver(State(h[..i]), h[i]).packetLoss <==> exists j :: 0 <= j <= i && LossSincePrevious(h, i, j)
  {
    hide Passes, UnreportedLoss;
    StateMeaning(h[..i]);
    UnreportedLossBefore(h, i);
    assert LossAt(h, i) ==> LossSincePrevious(h, i, i);
  }
}

/** The reader as the C code runs it: fields updated inside the read loop. */
module VideoSource {
  import opened Machine
  import opened AnnexB
  import opened VideoSourceSpec
  class VideoSource {
    var epoch: u64
    var observedLosses: u32
    var awaitingIdr: bool
    var haveSps: bool
    var havePps: bool
    var pendingPacketLoss: bool
    var pendingIdrRequested: bool
    var isOpen: bool
    /** Every unit read from RTP since the last open, and how many IDRs were asked for. */
    ghost var history: seq<RtpUnit>
    ghost var requests: nat

    ghost function Model(): Source
      reads this
    {
      Source(observedLosses, awaitingIdr, haveSps, havePps, pendingPacketLoss, pendingIdrRequested)
    }

    ghost predicate Valid()
      reads this
    {
      isOpen ==> Model() == State(history) && requests == 1 + Changes(history)
    }

    constructor ()
      ensures Valid() && !isOpen && epoch == 0
    {
      epoch, observedLosses, isOpen := 0, 0, false;
      awaitingIdr, haveSps, havePps, pendingPacketLoss, pendingIdrRequested := false, false, false, false, false;
      history, requests := [], 0;
    }

    /** `socketOpens` is the outcome of opening the RTP socket. */
    method Open(socketOpens: bool) returns (ok: bool)
      requires Valid()
      modifies this
      ensures Valid()
      ensures ok == (!old(isOpen) && socketOpens)
      ensures ok ==> isOpen && history == [] && requests == 1 && Model() == OPENED
      ensures ok ==> epoch != 0 && epoch == Add64(old(epoch), if old(epoch) == TWO64 - 1 then 2 else 1)
      ensures !ok ==> unchanged(this)
    {
      if isOpen || !socketOpens { return false; }
      isOpen, observedLosses, awaitingIdr, haveSps, havePps := true, 0, true, false, false;
      pendingPacketLoss, pendingIdrRequested := false, false;
      epoch := Add64(epoch, 1);
      if epoch == 0 { epoch := 1; }
      history, requests := [], 1;
      ok := true;
    }

    /** Reads units until one passes. `arrivals` is what RTP delivers; its end is a failing read. */
    method Read(arrivals: seq<RtpUnit>) returns (unit: Option<Delivered>, used: nat)
      requires Valid()
      modifies this
      ensures Valid() && isOpen == old(isOpen) && epoch == old(epoch)
      ensures !isOpen ==> unit == None && used == 0
      ensures isOpen ==> used <= |arrivals| && history == old(history) + arrivals[..used]
      ensures unit == None && isOpen ==> used == |arrivals|
      ensures unit.Some? ==>
                && isOpen && used > 0 && Returned(history, |history| - 1)
                && unit.value == Deliver(State(history[..|history| - 1]), history[|history| - 1])
      ensures isOpen ==> NoneReturned(history, |old(history)|, |history| - if unit.Some? then 1 else 0)
    {
      hide Step, Deliver, Passes, State, Changes, Returned;
      used := 0;
      if !isOpen { return None, 0; }
      while used < |arrivals|
        invariant used <= |arrivals| && isOpen && epoch == old(epoch)
        invariant history == old(history) + arrivals[..used]
        invariant Model() == State(history) && requests == 1 + Changes(history)
        invariant NoneReturned(history, |old(history)|, |history|)
      {
        OneMoreUnit(history, arrivals[used], |old(history)|);
        var passed, delivered := Process(arrivals[used]);
        history := history + [arrivals[used]];
        used := used + 1;
        if passed { return Some(delivered), used; }
      }
      return None, used;
    }

    method Inspect(u: RtpUnit)
      requires isOpen
      modifies this`observedLosses, this`awaitingIdr, this`haveSps, this`havePps, this`pendingPacketLoss,
          this`pendingIdrRequested, this`requests
      ensures Model() == Examine(old(Model()), u)
              && requests == old(requests) + if u.losses != old(observedLosses) then 1 else 0
    {
      if u.losses != observedLosses {
        requests := requests + 1;
        pendingPacketLoss, awaitingIdr := true, true;
        pendingIdrRequested := u.idrAccepted || pendingIdrRequested;
      }
      observedLosses := u.losses;
      haveSps, havePps := haveSps || SPS in u.nals, havePps || PPS in u.nals;
      if IDR in u.nals && haveSps && havePps { awaitingIdr := false; }
    }

    /** One iteration of the read loop. */
    method Process(u: RtpUnit) returns (passed: bool, unit: Delivered)
      requires isOpen
      modifies this`observedLosses, this`awaitingIdr, this`haveSps, this`havePps, this`pendingPacketLoss,
          this`pendingIdrRequested, this`requests
      ensures Model() == Step(old(Model()), u)
              && requests == old(requests) + if u.losses != old(observedLosses) then 1 else 0
      ensures passed == old(Passes(Model(), u)) && (passed ==> unit == old(Deliver(Model(), u)))
    {
      hide Examine;
      Inspect(u);
      unit := Delivered(u.nals, u.losses, pendingPacketLoss, pendingIdrRequested);
      passed := !awaitingIdr || SPS in u.nals || PPS in u.nals;
      if passed { pendingPacketLoss, pendingIdrRequested := false, false; }
    }

    method Close()
      requires Valid()
      modifies this
      ensures Valid() && !isOpen && epoch == old(epoch)
      ensures Model() == if old(isOpen) then Source(0, false, false, false, false, false) else old(Model())
    {
      if !isOpen { return; }
      isOpen, observedLosses, awaitingIdr, haveSps, havePps := false, 0, false, false, false;
      pendingPacketLoss, pendingIdrRequested := false, false;
    }
  }
}
