/** What the RDP client is sent: the access unit, an IDR with the parameter sets that were cached before it
    (src/rdp_gfx.c with src/h264.c), over whole runs of the video thread. */
module AvcPayloadSpec {
  import opened Machine
  import opened AnnexB
  import opened AvcPathSpec
  import FrameFlowSpec
  import RtpSpec
  import H = H264Spec
  import V = VideoSourceSpec

  /** The units the reader returned, among the first n. */
  function Kept(h: seq<V.RtpUnit>, units: seq<seq<byte>>, n: nat): seq<seq<byte>>
    requires n <= |h| == |units|
  {
    if n == 0 then [] else Kept(h, units, n - 1) + if V.Returned(h, n - 1) then [units[n - 1]] else []
  }

  /** The bytes to submit for unit i: an IDR gets the cached sets in front that it does not carry itself. */
  function Payload(h: seq<V.RtpUnit>, units: seq<seq<byte>>, i: nat): Option<seq<byte>>
    requires i < |h| == |units|
  {
    if IDR in h[i].nals then H.PrepareIdr(H.Cache(Kept(h, units, i + 1)), units[i], h[i].nals) else Some(units[i])
  }

  /** The NAL types of every unit are those of its bytes. */
  ghost predicate Scanned(h: seq<V.RtpUnit>, units: seq<seq<byte>>) {
    |h| == |units| && forall i :: 0 <= i < |h| ==> h[i].nals == H.Mask(units[i])
  }

  /** The environment of unit i is that of its payload. */
  predicate PreparedAt(h: seq<V.RtpUnit>, units: seq<seq<byte>>, turns: seq<Turn>, i: nat)
    requires i < |h| == |units| == |turns|
  {
    var payload := Payload(h, units, i);
    turns[i].prepared == payload.Some? && (payload.Some? ==> turns[i].bytes == |payload.value| % TWO32)
  }

  ghost predicate Prepared(h: seq<V.RtpUnit>, units: seq<seq<byte>>, turns: seq<Turn>) {
    |h| == |units| == |turns| && forall i :: 0 <= i < |h| ==> PreparedAt(h, units, turns, i)
  }

  // ------------------------------------------------ the cache follows the reader

  /** A unit with a parameter set is always returned, so the client has cached every set the reader saw. */
  lemma {:induction false} EverySetIsKept(h: seq<V.RtpUnit>, units: seq<seq<byte>>, n: nat, t: nat)
    requires Scanned(h, units) && n <= |h| && (t == SPS || t == PPS)
    ensures H.SeenIn(Kept(h, units, n), t) <==> V.Seen(h[..n], t)
  {
    hide H.Mask, H.HasType, H.SeenIn, V.Seen, V.State;
    if n == 0 {
      NothingSeen(h, units, t);
    } else {
      EverySetIsKept(h, units, n - 1, t);
      assert h[..n][..n - 1] == h[..n - 1];
      V.SeenStep(h[..n], t);
      H.MaskMeaning(units[n - 1], t);
      if V.Returned(h, n - 1) {
        var kept := Kept(h, units, n);
        assert kept[..|kept| - 1] == Kept(h, units, n - 1);
        H.SeenInStep(kept, t);
      } else {
        assert Kept(h, units, n) == Kept(h, units, n - 1);
      }
    }
  }

  lemma NothingSeen(h: seq<V.RtpUnit>, units: seq<seq<byte>>, t: nat)
    requires |h| == |units|
    ensures !H.SeenIn(Kept(h, units, 0), t) && !V.Seen(h[..0], t)
  {
  }

  // ------------------------------------------------ what is submitted

  lemma SubmittedIsPrepared(h: seq<V.RtpUnit>, turns: seq<Turn>, i: nat)
    requires |turns| == |h| && i < |h| && OutcomeOf(h, turns, i) == Submitted
    ensures V.Returned(h, i) && (IDR in h[i].nals ==> turns[i].prepared)
  {
    hide Admit, Submit, V.Examine, V.State, ClientAfter;
  }

  ghost predicate Complete(payload: seq<byte>) { SPS in H.Mask(payload) && PPS in H.Mask(payload) }

  /** In every run: an IDR that is submitted once the reader has seen both parameter sets carries both, with the unit
      as it was received behind them. */
  lemma SubmittedIdrIsComplete(h: seq<V.RtpUnit>, units: seq<seq<byte>>, turns: seq<Turn>, i: nat)
    requires Scanned(h, units) && Prepared(h, units, turns)
    requires i < |h| && IDR in h[i].nals && OutcomeOf(h, turns, i) == Submitted
    requires V.Seen(h[..i + 1], SPS) && V.Seen(h[..i + 1], PPS)
    ensures Payload(h, units, i).Some?
    ensures var payload, unit := Payload(h, units, i).value, units[i];
            Complete(payload) && |unit| <= |payload| && payload[|payload| - |unit|..] == unit
  {
    hide OutcomeOf, Kept, H.Mask, H.SeenIn, V.Seen, H.Cache, H.PrepareIdr;
    SubmittedIsPrepared(h, turns, i);
    assert PreparedAt(h, units, turns, i);
    EverySetIsKept(h, units, i + 1, SPS);
    EverySetIsKept(h, units, i + 1, PPS);
    H.PreparedIdrIsComplete(Kept(h, units, i + 1), units[i]);
  }

  // ------------------------------------------------ what a shown P unit rests on

  lemma SeenStays(h: seq<V.RtpUnit>, m: nat, n: nat, t: nat)
    requires m <= n <= |h| && V.Seen(h[..m], t)
    ensures V.Seen(h[..n], t)
  {
    var i :| 0 <= i < m && t in h[..m][i].nals;
    assert h[..n][i] == h[..m][i];
  }

  /** A submitted P unit without parameter sets follows an IDR that was read after both sets, and no loss since. */
  lemma RecoveredBefore(h: seq<V.RtpUnit>, turns: seq<Turn>, c: nat) returns (k: nat)
    requires |turns| == |h| && c < |h| && OutcomeOf(h, turns, c) == Submitted
    requires SLICE_P in h[c].nals && IDR !in h[c].nals && !HasSet(h[c])
    ensures k < c && IDR in h[k].nals && V.Seen(h[..k + 1], SPS) && V.Seen(h[..k + 1], PPS)
    ensures Unbroken(h, turns, c)
  {
    hide Handle, V.Seen, V.Examine, Unbroken;
    V.ReturnedIff(h, c);
    SubmittedIsPrepared(h, turns, c);
    var read := h[..c + 1];
    k :| 0 <= k < |read| && V.RecoversAt(read, k);
    assert read[..k + 1] == h[..k + 1];
    NotAwaiting(h, turns, c);
    ChainInvariant(h, turns, c);
  }

  lemma NotAwaiting(h: seq<V.RtpUnit>, turns: seq<Turn>, c: nat)
    requires |turns| == |h| && c < |h| && OutcomeOf(h, turns, c) == Submitted
    requires SLICE_P in h[c].nals && IDR !in h[c].nals && !HasSet(h[c])
    ensures var before := ClientAfter(h[..c], turns[..c]);
            !before.needIdr && !before.stopping && !V.State(h[..c]).awaitingIdr
  {
    hide Handle, ClientAfter, V.State;
    HandleEffect(ClientAfter(h[..c], turns[..c]), V.Deliver(V.State(h[..c]), h[c]), turns[c]);
  }

  /** In every run, on every stream: a submitted P unit without parameter sets of its own follows a submitted IDR whose
      payload carries both sets, with every picture between them submitted and nothing lost. */
  lemma ShownPRestsOnCompleteIdr(h: seq<V.RtpUnit>, units: seq<seq<byte>>, turns: seq<Turn>, c: nat) returns (j: nat)
    requires Scanned(h, units) && Prepared(h, units, turns)
    requires c < |h| && OutcomeOf(h, turns, c) == Submitted
    requires SLICE_P in h[c].nals && IDR !in h[c].nals && !HasSet(h[c])
    ensures j < c && UnbrokenFrom(h, turns, j, c) && Payload(h, units, j).Some? && Complete(Payload(h, units, j).value)
  {
    hide OutcomeOf, V.Seen, V.LossAt, PreparedAt, H.Mask, Payload, Complete, HasSet;
    var k := RecoveredBefore(h, turns, c);
    j :| 0 <= j < c && UnbrokenFrom(h, turns, j, c);
    if j < k {
      assert IsPicture(h[k]);
      j := k;
    } else {
      SeenStays(h, k + 1, j + 1, SPS);
      SeenStays(h, k + 1, j + 1, PPS);
    }
    SubmittedIdrIsComplete(h, units, turns, j);
  }

  // ------------------------------------------------ sizes

  ghost predicate AllWithin(units: seq<seq<byte>>, limit: nat) { forall i :: 0 <= i < |units| ==> |units[i]| <= limit }

  lemma {:induction false} KeptWithin(h: seq<V.RtpUnit>, units: seq<seq<byte>>, n: nat, limit: nat)
    requires n <= |h| == |units| && AllWithin(units, limit)
    ensures AllWithin(Kept(h, units, n), limit)
  {
    hide V.Returned;
    if n > 0 { KeptWithin(h, units, n - 1, limit); }
  }

  lemma {:induction false} CacheWithin(units: seq<seq<byte>>, limit: nat)
    requires AllWithin(units, limit)
    ensures |H.Cache(units).sps| <= limit && |H.Cache(units).pps| <= limit
  {
    hide H.Mask, H.FindNal;
    if units != [] {
      var n := |units| - 1;
      CacheWithin(units[..n], limit);
      assert |units[n]| <= limit;
    }
  }

  /** No payload is longer than three units. */
  lemma PayloadWithin(h: seq<V.RtpUnit>, units: seq<seq<byte>>, i: nat, limit: nat)
    requires i < |h| == |units| && AllWithin(units, limit) && 3 * limit <= H.SIZE_MAX
    ensures Payload(h, units, i).Some? && |Payload(h, units, i).value| <= 3 * limit
  {
    hide Kept, H.Cache, H.Mask, H.Cached, H.SeenIn, H.Annexb;
    var kept := Kept(h, units, i + 1);
    KeptWithin(h, units, i + 1, limit);
    CacheWithin(kept, limit);
    H.CacheHoldsSeenSets(kept);
    H.CachedIsAnnexb(H.Cache(kept).sps, SPS);
    H.CachedIsAnnexb(H.Cache(kept).pps, PPS);
    assert |units[i]| <= limit;
  }

  /** In every run with units of at most 2 MiB, as the RTP client returns them: the size recorded for a submitted
      unit is that of its payload, and it can be recorded whatever ACKs came in since it was admitted. */
  lemma SubmittedPayloadIsRecorded(h: seq<V.RtpUnit>, units: seq<seq<byte>>, turns: seq<Turn>, i: nat)
    requires Prepared(h, units, turns) && AllWithin(units, RtpSpec.MAX_NAL)
    requires i < |h| && OutcomeOf(h, turns, i) == Submitted
    ensures Payload(h, units, i).Some? && turns[i].bytes == |Payload(h, units, i).value|
    ensures var f := FlowAtRecord(h, turns, i);
            if IDR in h[i].nals then !FrameFlowSpec.Blocked(f) else FrameFlowSpec.CanRecord(f, turns[i].bytes)
  {
    hide OutcomeOf, Payload, FlowAtRecord;
    forall k | 0 <= k < |turns| ensures turns[k].bytes <= FrameFlowSpec.SIZE_BOUND {
      PayloadWithin(h, units, k, RtpSpec.MAX_NAL);
      assert PreparedAt(h, units, turns, k);
    }
    PayloadWithin(h, units, i, RtpSpec.MAX_NAL);
    assert PreparedAt(h, units, turns, i);
    SubmittedIsRecorded(h, turns, i);
  }
}
