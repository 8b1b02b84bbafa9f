/** RTP packets carrying H.264, out of the packetizer and into the reassembler (src/rtp_h264.c). */
module RtpSpec {
  import opened Machine

  const HEADER_SIZE: nat := 12
  const DEFAULT_MTU: nat := 1200
  const MAX_NAL: nat := 2 * 1024 * 1024

  /** A NAL unit with the timestamp and marker it is sent under. */
  datatype Nal = Nal(data: seq<byte>, ts: u32, marker: bool)

  /** What the initialiser makes of a requested MTU. */
  function InitMtu(mtu: u16): (m: nat)
    ensures ValidMtu(m)
  {
    if mtu < HEADER_SIZE + 3 then DEFAULT_MTU else Min(mtu, DEFAULT_MTU)
  }

  predicate ValidMtu(mtu: nat) { HEADER_SIZE + 3 <= mtu <= DEFAULT_MTU }

  /** The n-th 16-bit sequence number after s. */
  function Number(s: u16, n: nat): u16 { (s + n) % TWO16 }

  function Header(marker: bool, seqNo: u16, ts: u32, ssrc: u32): (h: seq<byte>)
    ensures |h| == HEADER_SIZE
  {
    [0x80, if marker then 96 + 0x80 else 96] + U16Bytes(seqNo) + U32Bytes(ts) + U32Bytes(ssrc)
  }

  // ------------------------------------------------ pieces of NALs

  /** The part of a NAL one packet carries: the whole NAL when offset is 0, else an FU-A fragment. */
  datatype Piece = Piece(nal: Nal, offset: nat)

  predicate Fits(mtu: nat, length: nat)
    requires ValidMtu(mtu)
  {
    length <= mtu - HEADER_SIZE
  }

  function Size(mtu: nat, p: Piece): nat
    requires ValidMtu(mtu)
  {
    if p.offset == 0 || p.offset > |p.nal.data| then |p.nal.data|
        else Min(|p.nal.data| - p.offset, mtu - HEADER_SIZE - 2)
  }

  /** The NALs the receiver gives back: not empty, at most 2 MiB, of a type between 1 and 23. */
  predicate Sendable(n: Nal) { 1 <= |n.data| <= MAX_NAL && 1 <= n.data[0] % 32 <= 23 }

  predicate PieceOk(mtu: nat, p: Piece)
    requires ValidMtu(mtu)
  {
    Sendable(p.nal) && if Fits(mtu, |p.nal.data|) then p.offset == 0 else 1 <= p.offset < |p.nal.data|
  }

  predicate Starts(p: Piece) { p.offset <= 1 }

  predicate Ends(mtu: nat, p: Piece)
    requires ValidMtu(mtu)
  {
    p.offset == 0 || p.offset + Size(mtu, p) >= |p.nal.data|
  }

  function Payload(mtu: nat, p: Piece): seq<byte>
    requires ValidMtu(mtu)
  {
    if p.offset == 0 || p.offset >= |p.nal.data| then p.nal.data
    else
      [p.nal.data[0] / 32 * 32 + 28,
       p.nal.data[0] % 32 + (if p.offset == 1 then 0x80 else 0) + (if Ends(mtu, p) then 0x40 else 0)]
      + p.nal.data[p.offset..p.offset + Size(mtu, p)]
  }

  function PacketOf(mtu: nat, ssrc: u32, seqNo: u16, p: Piece): seq<byte>
    requires ValidMtu(mtu)
  {
    Header(p.nal.marker && Ends(mtu, p), seqNo, p.nal.ts, ssrc) + Payload(mtu, p)
  }

  /** The fragments of a long NAL from `offset` on. */
  function Fragments(mtu: nat, n: Nal, offset: nat): (ps: seq<Piece>)
    requires ValidMtu(mtu) && 1 <= offset <= |n.data|
    decreases |n.data| - offset
  {
    if offset == |n.data| then []
    else
      var p := Piece(n, offset);
      [p] + Fragments(mtu, n, offset + Size(mtu, p))
  }

  function Pieces(mtu: nat, n: Nal): seq<Piece>
    requires ValidMtu(mtu) && n.data != []
  {
    if Fits(mtu, |n.data|) then [Piece(n, 0)] else Fragments(mtu, n, 1)
  }

  predicate AllOk(mtu: nat, ps: seq<Piece>)
    requires ValidMtu(mtu)
  {
    forall i :: 0 <= i < |ps| ==> PieceOk(mtu, ps[i])
  }

  function Packets(mtu: nat, ssrc: u32, s: u16, ps: seq<Piece>): (r: seq<seq<byte>>)
    requires ValidMtu(mtu)
    ensures |r| == |ps|
    ensures forall i :: 0 <= i < |ps| ==> r[i] == PacketOf(mtu, ssrc, Number(s, i), ps[i])
  {
    seq(|ps|, i requires 0 <= i < |ps| => PacketOf(mtu, ssrc, Number(s, i), ps[i]))
  }

  predicate Follows(mtu: nat, p: Piece, q: Piece)
    requires ValidMtu(mtu)
  {
    p.offset >= 1 && q.nal == p.nal && q.offset == p.offset + Size(mtu, p)
  }

  /** What a packetizer can produce: every fragment but a first one directly follows its
      predecessor. A NAL may be cut short after any packet, as it is when sending one fails. */
  ghost predicate Stream(mtu: nat, ps: seq<Piece>)
    requires ValidMtu(mtu)
  {
    AllOk(mtu, ps) && forall i :: 0 <= i < |ps| ==> Linked(mtu, ps, i)
  }

  predicate Linked(mtu: nat, ps: seq<Piece>, i: nat)
    requires ValidMtu(mtu) && i < |ps|
  {
    Starts(ps[i]) || (i > 0 && Follows(mtu, ps[i - 1], ps[i]))
  }

  lemma {:induction false} FragmentsAreStream(mtu: nat, n: Nal, offset: nat)
    requires ValidMtu(mtu) && Sendable(n) && !Fits(mtu, |n.data|) && 1 <= offset <= |n.data|
    ensures var ps := Fragments(mtu, n, offset);
            && AllOk(mtu, ps)
            && (ps != [] ==> ps[0] == Piece(n, offset))
            && forall i :: 1 <= i < |ps| ==> Follows(mtu, ps[i - 1], ps[i])
    decreases |n.data| - offset
  {
    if offset < |n.data| {
      var p := Piece(n, offset);
      FragmentsAreStream(mtu, n, offset + Size(mtu, p));
    }
  }

  lemma PiecesAreStream(mtu: nat, n: Nal)
    requires ValidMtu(mtu) && Sendable(n)
    ensures Stream(mtu, Pieces(mtu, n)) && Pieces(mtu, n) != [] && Starts(Pieces(mtu, n)[0])
  {
    if !Fits(mtu, |n.data|) {
      FragmentsAreStream(mtu, n, 1);
      var ps := Fragments(mtu, n, 1);
      assert ps[0] == Piece(n, 1);
      forall i | 0 <= i < |ps| ensures Linked(mtu, ps, i) {
        if i > 0 { assert Follows(mtu, ps[i - 1], ps[i]); }
      }
    }
  }

  lemma StreamPrefix(mtu: nat, ps: seq<Piece>, n: nat)
    requires ValidMtu(mtu) && Stream(mtu, ps) && n <= |ps|
    ensures Stream(mtu, ps[..n])
  {
    forall i | 0 <= i < n ensures Linked(mtu, ps[..n], i) {
      assert Linked(mtu, ps, i);
    }
  }

  /** Sending one more NAL, or only the first packets of it, extends a stream. */
  lemma StreamAppend(mtu: nat, ps: seq<Piece>, qs: seq<Piece>)
    requires ValidMtu(mtu) && Stream(mtu, ps) && Stream(mtu, qs)
    ensures Stream(mtu, ps + qs)
  {
    hide PieceOk, Follows;
    var r := ps + qs;
    forall i | 0 <= i < |r| ensures PieceOk(mtu, r[i]) && Linked(mtu, r, i) {
      if i < |ps| {
        assert Linked(mtu, ps, i);
        assert r[i] == ps[i];
        if i > 0 { assert r[i - 1] == ps[i - 1]; }
      } else {
        assert Linked(mtu, qs, i - |ps|);
        assert r[i] == qs[i - |ps|];
        if i > |ps| { assert r[i - 1] == qs[i - 1 - |ps|]; }
      }
    }
  }

  // ------------------------------------------------ the reassembler

  datatype Reassembly = Reassembly(haveSequence: bool, expected: u16, assembling: bool, buffer: seq<byte>, ts: u32)

  const IDLE: Reassembly := Reassembly(false, 0, false, [], 0)

  /** What one push does: whether it reported a loss, which NALs it offered to the callback, and
      whether it would return true if the callback takes them all. */
  datatype Pushed = Pushed(state: Reassembly, lost: bool, offered: seq<Nal>, ok: bool)

  /** The NALs of a STAP-A payload from `offset` on. */
  function Stap(payload: seq<byte>, offset: nat, ts: u32, marker: bool): (seq<Nal>, bool)
    requires offset <= |payload|
    decreases |payload| - offset
  {
    if offset + 2 > |payload| then ([], offset == |payload|)
    else
      var length := U16At(payload, offset);
      var at := offset + 2;
      if length == 0 || length > |payload| - at then ([], false)
      else
        var (rest, ok) := Stap(payload, at + length, ts, marker);
        ([Nal(payload[at..at + length], ts, marker && at + length == |payload|)] + rest, ok)
  }

  /** Bookkeeping of the sequence number, before the payload is looked at. */
  function Sequenced(r: Reassembly, seqNo: u16): Reassembly {
    var lost := r.haveSequence && seqNo != r.expected;
    Reassembly(true, Number(seqNo, 1), r.assembling && !lost, if lost then [] else r.buffer, r.ts)
  }

  function PushFragment(r: Reassembly, lost: bool, payload: seq<byte>, ts: u32, marker: bool): Pushed
    requires |payload| >= 3
  {
    var start, end := payload[1] / 0x80 == 1, payload[1] / 0x40 % 2 == 1;
    var begun := if start then r.(assembling := true, ts := ts, buffer := [payload[0] / 32 * 32 + payload[1] % 32])
                 else r;
    if !begun.assembling || ts != begun.ts || |payload| - 2 > MAX_NAL - |begun.buffer|
    then Pushed(begun, lost, [], false)
    else
      var grown := begun.buffer + payload[2..];
      if end then Pushed(begun.(assembling := false, buffer := []), lost, [Nal(grown, begun.ts, marker)], true)
      else Pushed(begun.(buffer := grown), lost, [], true)
  }

  function Push(r: Reassembly, packet: seq<byte>): Pushed {
    if |packet| <= HEADER_SIZE || packet[0] / 64 != 2 then Pushed(r, false, [], false)
    else
      var seqNo := U16At(packet, 2);
      var lost := r.haveSequence && seqNo != r.expected;
      var s := Sequenced(r, seqNo);
      var ts, marker, payload := U32At(packet, 4), packet[1] >= 0x80, packet[HEADER_SIZE..];
      var t := payload[0] % 32;
      if 1 <= t <= 23 then Pushed(s, lost, [Nal(payload, ts, marker)], true)
      else if t == 24 then
        var (nals, whole) := Stap(payload, 1, ts, marker);
        Pushed(s, lost, nals, whole && nals != [])
      else if t != 28 || |payload| < 3 then Pushed(s, lost, [], true)
      else PushFragment(s, lost, payload, ts, marker)
  }

  // ------------------------------------------------ one packet of a stream

  lemma HeaderFields(marker: bool, seqNo: u16, ts: u32, ssrc: u32, payload: seq<byte>)
    ensures var packet := Header(marker, seqNo, ts, ssrc) + payload;
            && packet[0] / 64 == 2 && (packet[1] >= 0x80 <==> marker)
            && U16At(packet, 2) == seqNo && U32At(packet, 4) == ts && U32At(packet, 8) == ssrc
            && packet[HEADER_SIZE..] == payload
  {
    var packet := Header(marker, seqNo, ts, ssrc) + payload;
    assert packet[2..4] == U16Bytes(seqNo);
    assert packet[4..8] == U32Bytes(ts);
    assert packet[8..12] == U32Bytes(ssrc);
    U16RoundTrip(seqNo, packet, 2);
    U32RoundTrip(ts, packet, 4);
    U32RoundTrip(ssrc, packet, 8);
  }

  lemma FragmentBits(first: byte, start: bool, end: bool)
    ensures var b: int := first % 32 + (if start then 0x80 else 0) + (if end then 0x40 else 0);
            && (b / 0x80 == 1 <==> start) && (b / 0x40 % 2 == 1 <==> end) && b % 32 == first % 32
    ensures var a: int := first / 32 * 32 + 28; a % 32 == 28 && a / 32 * 32 + first % 32 == first
  {
  }

  /** The effect of a whole NAL in one packet. */
  lemma PushWhole(r: Reassembly, mtu: nat, ssrc: u32, seqNo: u16, p: Piece)
    requires ValidMtu(mtu) && PieceOk(mtu, p) && p.offset == 0
    ensures Push(r, PacketOf(mtu, ssrc, seqNo, p)) ==
              Pushed(Sequenced(r, seqNo), r.haveSequence && seqNo != r.expected, [p.nal], true)
  {
    hide Sequenced, Header;
    HeaderFields(p.nal.marker, seqNo, p.nal.ts, ssrc, p.nal.data);
  }

  lemma FragmentPayload(mtu: nat, p: Piece)
    requires ValidMtu(mtu) && PieceOk(mtu, p) && p.offset >= 1
    ensures var b := Payload(mtu, p);
            && |b| >= 3 && b[0] % 32 == 28 && b[2..] == p.nal.data[p.offset..p.offset + Size(mtu, p)]
            && (b[1] / 0x80 == 1 <==> p.offset == 1) && (b[1] / 0x40 % 2 == 1 <==> Ends(mtu, p))
            && b[0] / 32 * 32 + b[1] % 32 == p.nal.data[0]
  {
    FragmentBits(p.nal.data[0], p.offset == 1, Ends(mtu, p));
  }

  lemma PushIsFragment(r: Reassembly, mtu: nat, ssrc: u32, seqNo: u16, p: Piece)
    requires ValidMtu(mtu) && PieceOk(mtu, p) && p.offset >= 1 && |Payload(mtu, p)| >= 3
    ensures Push(r, PacketOf(mtu, ssrc, seqNo, p)) ==
              PushFragment(Sequenced(r, seqNo), r.haveSequence && seqNo != r.expected, Payload(mtu, p), p.nal.ts,
                           p.nal.marker && Ends(mtu, p))
  {
    hide Sequenced, Header, PushFragment, Payload;
    FragmentPayload(mtu, p);
    HeaderFields(p.nal.marker && Ends(mtu, p), seqNo, p.nal.ts, ssrc, Payload(mtu, p));
  }

  /** The buffer holds the NAL of p up to p, or p starts its NAL. */
  predicate Continues(s: Reassembly, p: Piece) {
    p.offset == 1 || (s.assembling && s.ts == p.nal.ts && p.offset <= |p.nal.data|
                      && s.buffer == p.nal.data[..p.offset])
  }

  lemma PrefixGrows(data: seq<byte>, offset: nat, size: nat)
    requires offset + size <= |data|
    ensures data[..offset] + data[offset..offset + size] == data[..offset + size]
    ensures offset + size == |data| ==> data[..offset + size] == data
    ensures offset == 1 ==> data[..offset] == [data[0]]
  {
    if offset == 1 { assert data[..1][0] == data[0]; }
  }

  /** The effect of a fragment on a buffer that holds the NAL up to it, or that it starts. */
  lemma PushPart(r: Reassembly, mtu: nat, ssrc: u32, seqNo: u16, p: Piece)
    requires ValidMtu(mtu) && PieceOk(mtu, p) && p.offset >= 1
    ensures var s := Sequenced(r, seqNo);
            var lost := r.haveSequence && seqNo != r.expected;
            var pushed := Push(r, PacketOf(mtu, ssrc, seqNo, p));
            && (Continues(s, p) ==>
                  pushed ==
                    if Ends(mtu, p) then
                      Pushed(s.(assembling := false, buffer := [], ts := p.nal.ts), lost, [p.nal], true)
                    else
                      Pushed(s.(assembling := true, buffer := p.nal.data[..p.offset + Size(mtu, p)], ts := p.nal.ts),
                             lost, [], true))
            && (p.offset > 1 && !s.assembling ==> pushed == Pushed(s, lost, [], false))
  {
    hide Sequenced, Header, Payload, Push;
    FragmentPayload(mtu, p);
    PushIsFragment(r, mtu, ssrc, seqNo, p);
    PrefixGrows(p.nal.data, p.offset, Size(mtu, p));
  }

  // ------------------------------------------------ any channel

  /** The reassembler fed with packets of the stream, in the order the channel delivers them. */
  function Receive(mtu: nat, ssrc: u32, s: u16, ps: seq<Piece>, channel: seq<nat>): Reassembly
    requires ValidMtu(mtu) && AllOk(mtu, ps) && forall j :: 0 <= j < |channel| ==> channel[j] < |ps|
  {
    if channel == [] then IDLE
    else
      var n := |channel| - 1;
      Push(Receive(mtu, ssrc, s, ps, channel[..n]), PacketOf(mtu, ssrc, Number(s, channel[n]), ps[channel[n]])).state
  }

  /** The NALs delivered when the last packet of the channel arrives. */
  function Delivered(mtu: nat, ssrc: u32, s: u16, ps: seq<Piece>, channel: seq<nat>): seq<Nal>
    requires ValidMtu(mtu) && AllOk(mtu, ps) && (forall j :: 0 <= j < |channel| ==> channel[j] < |ps|) && channel != []
  {
    var n := |channel| - 1;
    Push(Receive(mtu, ssrc, s, ps, channel[..n]), PacketOf(mtu, ssrc, Number(s, channel[n]), ps[channel[n]])).offered
  }

  /** Packet i, received after packet q, does not bear the number after that of q unless it is the next one. */
  predicate Unmistaken(q: nat, i: nat) { i == q + 1 || (i - q - 1) % TWO16 != 0 }

  predicate ClearAt(channel: seq<nat>, n: nat)
    requires n < |channel|
  {
    n > 0 ==> Unmistaken(channel[n - 1], channel[n])
  }

  /** No packet is taken for the successor of the one received before it without being that. */
  ghost predicate Clear(channel: seq<nat>) { forall n :: 0 <= n < |channel| ==> ClearAt(channel, n) }

  /** The same but for the first packet of the stream, which continues nothing. */
  ghost predicate NearlyClear(channel: seq<nat>) {
    forall n :: 0 <= n < |channel| ==> channel[n] == 0 || ClearAt(channel, n)
  }

  /** Any delivery of a stream of fewer than 65536 packets is clear, and of one more nearly. */
  lemma ShortIsClear(channel: seq<nat>, length: nat)
    requires forall n :: 0 <= n < |channel| ==> channel[n] < length
    ensures length < TWO16 ==> Clear(channel)
    ensures length <= TWO16 ==> NearlyClear(channel)
  {
    forall n | 0 <= n < |channel|
      ensures length < TWO16 ==> ClearAt(channel, n)
      ensures length <= TWO16 ==> channel[n] == 0 || ClearAt(channel, n)
    {
      if n > 0 && length <= TWO16 { SmallIsUnmistaken(channel[n - 1], channel[n]); }
    }
  }

  lemma SmallIsUnmistaken(q: nat, i: nat)
    ensures q + 1 - TWO16 < i < q + 1 + TWO16 ==> Unmistaken(q, i)
  {
  }

  /** So is the delivery of a stream of any length if every packet comes within d places of its slot and at most
      g - 1 slots in a row stay empty, with 2 * d + g at most 65536; for one, if nothing is lost and every packet is
      displaced by less than 32768 places. */
  lemma DisplacedIsClear(channel: seq<nat>, slots: seq<nat>, d: nat, g: nat)
    requires |slots| == |channel| && 2 * d + g <= TWO16 && 2 * d + 1 < TWO16
    requires forall n :: 0 <= n < |channel| ==> slots[n] - d <= channel[n] <= slots[n] + d
    requires forall n :: 0 < n < |slots| ==> slots[n - 1] <= slots[n] <= slots[n - 1] + g
    ensures Clear(channel)
  {
    forall n | 0 <= n < |channel| ensures ClearAt(channel, n) {
      if n > 0 { SmallIsUnmistaken(channel[n - 1], channel[n]); }
    }
  }

  lemma SuccessorIsUnique(s: u16, q: nat, i: nat)
    requires Unmistaken(q, i) && Number(s, i) == Number(s, q + 1)
    ensures i == q + 1
  {
    var a, b := (s + i) / TWO16, (s + q + 1) / TWO16;
    assert s + i == a * TWO16 + Number(s, i) && s + q + 1 == b * TWO16 + Number(s, q + 1);
    assert i - q - 1 == (a - b) * TWO16;
  }

  lemma NumberAdds(s: u16, a: nat, b: nat)
    ensures Number(Number(s, a), b) == Number(s, a + b)
  {
  }

  /** The buffer, while assembling, is a NAL of the stream up to the end of fragment k, and either k
      was the last packet or the last packet was a NAL of its own. */
  ghost predicate Holds(mtu: nat, ps: seq<Piece>, r: Reassembly, q: nat, k: nat)
    requires ValidMtu(mtu) && q < |ps| && k < |ps|
  {
    && ps[k].offset >= 1 && !Ends(mtu, ps[k])
    && r.buffer == ps[k].nal.data[..ps[k].offset + Size(mtu, ps[k])] && r.ts == ps[k].nal.ts
    && (k == q || ps[q].offset == 0)
  }

  ghost predicate Sound(mtu: nat, s: u16, ps: seq<Piece>, r: Reassembly, q: nat)
    requires ValidMtu(mtu) && q < |ps|
  {
    && r.haveSequence && r.expected == Number(Number(s, q), 1)
    && (r.assembling ==> exists k :: 0 <= k < |ps| && Holds(mtu, ps, r, q, k))
  }

  lemma SoundStep(mtu: nat, ssrc: u32, s: u16, ps: seq<Piece>, r: Reassembly, q: nat, i: nat)
    requires ValidMtu(mtu) && Stream(mtu, ps) && q < |ps| && i < |ps|
    requires r == IDLE || (Sound(mtu, s, ps, r, q) && (i == 0 || Unmistaken(q, i)))
    ensures var pushed := Push(r, PacketOf(mtu, ssrc, Number(s, i), ps[i]));
            && Sound(mtu, s, ps, pushed.state, i)
            && (pushed.offered == [] || (pushed.offered == [ps[i].nal] && Ends(mtu, ps[i])))
  {
    hide Push, PacketOf, Payload, Number;
    var p, seqNo := ps[i], Number(s, i);
    var t := Sequenced(r, seqNo);
    var pushed := Push(r, PacketOf(mtu, ssrc, seqNo, p));
    if p.offset == 0 {
      PushWhole(r, mtu, ssrc, seqNo, p);
      if t.assembling {
        var k :| 0 <= k < |ps| && Holds(mtu, ps, r, q, k);
        assert Holds(mtu, ps, pushed.state, i, k);
      }
    } else {
      PushPart(r, mtu, ssrc, seqNo, p);
      if p.offset > 1 && t.assembling {
        var k :| 0 <= k < |ps| && Holds(mtu, ps, r, q, k);
        assert Linked(mtu, ps, i) && !Starts(ps[i]);
        NumberAdds(s, q, 1);
        SuccessorIsUnique(s, q, i);
        assert Follows(mtu, ps[q], ps[i]);
        assert k == q;
      }
      if pushed.state.assembling { assert Holds(mtu, ps, pushed.state, i, i); }
    }
  }

  /** Of a stream that is dropped, duplicated and reordered in any way that leaves the numbers clear, as every way
      does with at most 65536 packets, whatever the reassembler delivers is byte for byte a NAL that was sent,
      with its own timestamp and marker. */
  lemma {:induction false} OnlySentNalsAreDelivered(mtu: nat, ssrc: u32, s: u16, ps: seq<Piece>, channel: seq<nat>)
    requires ValidMtu(mtu) && Stream(mtu, ps) && NearlyClear(channel)
    requires channel != [] && forall j :: 0 <= j < |channel| ==> channel[j] < |ps|
    ensures var last := channel[|channel| - 1];
            && Sound(mtu, s, ps, Receive(mtu, ssrc, s, ps, channel), last)
            && var nals := Delivered(mtu, ssrc, s, ps, channel);
               nals == [] || (nals == [ps[last].nal] && Ends(mtu, ps[last]))
    decreases |channel|
  {
    hide Push, PacketOf, Sound, Number, PieceOk, Follows, Unmistaken;
    var n := |channel| - 1;
    var i := channel[n];
    var init := channel[..n];
    if init == [] {
      SoundStep(mtu, ssrc, s, ps, IDLE, i, i);
    } else {
      assert init[n - 1] == channel[n - 1] && (channel[n] == 0 || ClearAt(channel, n));
      forall m | 0 <= m < n ensures init[m] == 0 || ClearAt(init, m) { assert channel[m] == 0 || ClearAt(channel, m); }
      OnlySentNalsAreDelivered(mtu, ssrc, s, ps, init);
      SoundStep(mtu, ssrc, s, ps, Receive(mtu, ssrc, s, ps, init), init[n - 1], i);
    }
  }

  // ------------------------------------------------ why the numbers have to be clear

  /** The front of one NAL and the rest of another. */
  function Splice(a: Nal, b: Nal, o: nat): Nal
    requires o <= |a.data| == |b.data|
  {
    Nal(a.data[..o] + b.data[o..], b.ts, b.marker)
  }

  /** A fragment does not tell which NAL it continues: it is the same packet for any with its first byte and its end. */
  lemma SpliceIsSamePacket(mtu: nat, ssrc: u32, seqNo: u16, a: Nal, b: Nal, o: nat)
    requires ValidMtu(mtu) && |a.data| == |b.data| && 1 <= o < |b.data| && a.data[0] == b.data[0]
    ensures PacketOf(mtu, ssrc, seqNo, Piece(Splice(a, b, o), o)) == PacketOf(mtu, ssrc, seqNo, Piece(b, o))
  {
    hide Header, Payload;
    SpliceIsSamePayload(mtu, a, b, o);
  }

  lemma SpliceIsSamePayload(mtu: nat, a: Nal, b: Nal, o: nat)
    requires ValidMtu(mtu) && |a.data| == |b.data| && 1 <= o < |b.data| && a.data[0] == b.data[0]
    ensures var p, q := Piece(Splice(a, b, o), o), Piece(b, o);
            Ends(mtu, p) == Ends(mtu, q) && Payload(mtu, p) == Payload(mtu, q)
  {
    var p, q := Piece(Splice(a, b, o), o), Piece(b, o);
    var size := Size(mtu, q);
    SpliceParts(a.data, b.data, o, size);
    hide Splice;
    assert Size(mtu, p) == size;
  }

  lemma SpliceParts(a: seq<byte>, b: seq<byte>, o: nat, size: nat)
    requires |a| == |b| && 1 <= o < |b| && a[0] == b[0] && o + size <= |b|
    ensures var x := a[..o] + b[o..];
            |x| == |b| && x[0] == b[0] && x[o..o + size] == b[o..o + size]
  {
  }

  /** After the first fragment of NAL a, the last of NAL b with the number that was expected completes the splice. */
  lemma SplicedIsDelivered(mtu: nat, ssrc: u32, s: u16, ps: seq<Piece>, i: nat, a: Nal, b: Nal, o: nat)
    requires ValidMtu(mtu) && AllOk(mtu, ps) && 0 < i < |ps| && Number(s, i) == Number(s, 1)
    requires a.ts == b.ts && |a.data| == |b.data| && a.data != [] && a.data[0] == b.data[0]
    requires ps[0] == Piece(a, 1) && ps[i] == Piece(b, o) && o == 1 + Size(mtu, ps[0]) && !Ends(mtu, ps[0])
    requires Ends(mtu, ps[i])
    ensures o <= |a.data| && Delivered(mtu, ssrc, s, ps, [0, i]) == [Splice(a, b, o)]
  {
    hide Push, PacketOf, Number;
    var first, x := Number(s, 0), Splice(a, b, o);
    PushPart(IDLE, mtu, ssrc, first, ps[0]);
    var r := Push(IDLE, PacketOf(mtu, ssrc, first, ps[0])).state;
    assert [0, i][..1] == [0] && [0][..0] == [];
    assert Receive(mtu, ssrc, s, ps, []) == IDLE;
    assert Receive(mtu, ssrc, s, ps, [0]) == r;
    NumberAdds(s, 0, 1);
    SpliceIsSamePacket(mtu, ssrc, Number(s, i), a, b, o);
    assert x.data[..o] == a.data[..o];
    assert r.buffer == a.data[..o];
    PushPart(r, mtu, ssrc, Number(s, i), Piece(x, o));
  }

  /** A NAL of type 1 that just does not fit one packet. */
  function Filled(mtu: nat, value: byte): Nal
    requires ValidMtu(mtu)
  {
    Nal([1] + seq(mtu - HEADER_SIZE, i => value), 0, false)
  }

  /** Two such NALs with 65534 short ones between them. */
  function LongStream(mtu: nat): seq<Piece>
    requires ValidMtu(mtu)
  {
    var a, b, o := Filled(mtu, 2), Filled(mtu, 3), mtu - HEADER_SIZE - 1;
    [Piece(a, 1), Piece(a, o)] + seq(TWO16 - 2, i => Piece(Nal([1], 0, false), 0)) + [Piece(b, 1), Piece(b, o)]
  }

  lemma FilledIsTwo(mtu: nat, value: byte)
    requires ValidMtu(mtu) && mtu > HEADER_SIZE + 3
    ensures var n, o := Filled(mtu, value), mtu - HEADER_SIZE - 1;
            && PieceOk(mtu, Piece(n, 1)) && PieceOk(mtu, Piece(n, o)) && Follows(mtu, Piece(n, 1), Piece(n, o))
            && !Ends(mtu, Piece(n, 1)) && Ends(mtu, Piece(n, o))
  {
  }

  /** A stream, and a delivery of it that loses 65536 packets in a row, by which the reassembler delivers a NAL that was
      never sent. */
  lemma UnclearNumbersSplice(mtu: nat, ssrc: u32, s: u16)
    requires ValidMtu(mtu) && mtu > HEADER_SIZE + 3
    ensures var ps, channel := LongStream(mtu), [0, TWO16 + 1];
            && Stream(mtu, ps) && |ps| == TWO16 + 2 && !NearlyClear(channel)
            && var nals := Delivered(mtu, ssrc, s, ps, channel);
               |nals| == 1 && forall i :: 0 <= i < |ps| ==> ps[i].nal != nals[0]
  {
    hide Delivered, PieceOk, Follows, Ends, Number;
    var a, b, o, w := Filled(mtu, 2), Filled(mtu, 3), mtu - HEADER_SIZE - 1, Nal([1], 0, false);
    var ps, i := LongStream(mtu), TWO16 + 1;
    FilledIsTwo(mtu, 2);
    FilledIsTwo(mtu, 3);
    ShortIsOk(mtu);
    assert ps[0] == Piece(a, 1) && ps[1] == Piece(a, o) && ps[TWO16] == Piece(b, 1) && ps[i] == Piece(b, o);
    forall j | 0 <= j < |ps| ensures PieceOk(mtu, ps[j]) && Linked(mtu, ps, j) && ps[j].nal in {a, b, w} {
      if 2 <= j < TWO16 { assert ps[j] == Piece(w, 0); }
    }
    assert !ClearAt([0, i], 1);
    WrapsAround(s);
    FirstSize(mtu);
    SplicedIsDelivered(mtu, ssrc, s, ps, i, a, b, o);
    SpliceIsNew(mtu);
  }

  lemma ShortIsOk(mtu: nat)
    requires ValidMtu(mtu)
    ensures PieceOk(mtu, Piece(Nal([1], 0, false), 0))
  {
  }

  lemma WrapsAround(s: u16)
    ensures Number(s, TWO16 + 1) == Number(s, 1)
  {
  }

  lemma FirstSize(mtu: nat)
    requires ValidMtu(mtu)
    ensures 1 + Size(mtu, Piece(Filled(mtu, 2), 1)) == mtu - HEADER_SIZE - 1
  {
  }

  lemma SpliceIsNew(mtu: nat)
    requires ValidMtu(mtu)
    ensures var a, b, o := Filled(mtu, 2), Filled(mtu, 3), mtu - HEADER_SIZE - 1;
            o <= |a.data| == |b.data| && Splice(a, b, o) !in {a, b, Nal([1], 0, false)}
  {
    var a, b, o := Filled(mtu, 2), Filled(mtu, 3), mtu - HEADER_SIZE - 1;
    var x := Splice(a, b, o);
    assert |x.data| == |a.data| && x.data[1] == a.data[1] == 2 && x.data[o] == b.data[o] == 3;
    assert a.data[o] == 2 && b.data[1] == 3;
  }
}
