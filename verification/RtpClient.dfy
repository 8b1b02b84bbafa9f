/** Access units over RTP: splitting at the sender (src/rtp_h264.c), collecting at the receiver
    (src/rtp_client.c), and the two together. */
module AccessUnitSpec {
  import opened Machine
  import opened AnnexB
  import opened RtpSpec

  // ------------------------------------------------ the sender's side

  /** start_code_length. */
  function CodeAt(d: seq<byte>, i: nat): (n: nat)
    ensures i + n <= |d| || n == 0
  {
    if i + 3 <= |d| && d[i] == 0 && d[i + 1] == 0 && d[i + 2] == 1 then 3
    else if i + 4 <= |d| && d[i] == 0 && d[i + 1] == 0 && d[i + 2] == 0 && d[i + 3] == 1 then 4
    else 0
  }

  function NextCode(d: seq<byte>, i: nat): (r: nat)
    requires i <= |d|
    ensures i <= r <= |d| && (r < |d| ==> CodeAt(d, r) > 0)
    ensures forall k :: i <= k < r ==> CodeAt(d, k) == 0
    decreases |d| - i
  {
    if i == |d| || CodeAt(d, i) > 0 then i else NextCode(d, i + 1)
  }

  /** The NALs behind the start code at i and all later ones; an empty NAL is not sent. */
  function NalsFrom(d: seq<byte>, i: nat, ts: u32): seq<Nal>
    requires i <= |d| && (i == |d| || CodeAt(d, i) > 0)
    decreases |d| - i
  {
    if i == |d| then []
    else
      var start := i + CodeAt(d, i);
      var next := NextCode(d, start);
      (if start < next then [Nal(d[start..next], ts, next == |d|)] else []) + NalsFrom(d, next, ts)
  }

  /** rtp_h264_packetize_access_unit: without any start code the unit is a single NAL. */
  function NalsOf(d: seq<byte>, ts: u32): seq<Nal> {
    var first := NextCode(d, 0);
    if first == |d| then [Nal(d, ts, true)] else NalsFrom(d, first, ts)
  }

  predicate NonEmpty(ns: seq<Nal>) { forall i :: 0 <= i < |ns| ==> ns[i].data != [] }

  function PiecesOfAll(mtu: nat, ns: seq<Nal>): seq<Piece>
    requires ValidMtu(mtu) && NonEmpty(ns)
  {
    if ns == [] then [] else Pieces(mtu, ns[0]) + PiecesOfAll(mtu, ns[1..])
  }

  // ------------------------------------------------ the receiver's side

  datatype Unit = Unit(data: seq<byte>, ts: u32, ssrc: u32)

  datatype Client = Client(re: Reassembly, au: seq<byte>, have: bool, ts: u32, losses: u32)

  const FRESH: Client := Client(IDLE, [], false, 0, 0)

  const START_CODE: seq<byte> := [0, 0, 0, 1]

  /** save_nal; the flag is its return value. */
  function SaveNal(c: Client, n: Nal): (Client, bool) {
    var d := if !c.have || c.ts != n.ts then c.(au := [], ts := n.ts, have := true) else c;
    if 4 > MAX_NAL - |d.au| then (d, false)
    else
      var coded := d.(au := d.au + START_CODE);
      if |n.data| > MAX_NAL - |coded.au| then (coded, false) else (coded.(au := coded.au + n.data), true)
  }

  function SaveAll(c: Client, ns: seq<Nal>): (Client, bool)
    decreases |ns|
  {
    if ns == [] then (c, true)
    else
      var (d, ok) := SaveNal(c, ns[0]);
      if ok then SaveAll(d, ns[1..]) else (d, false)
  }

  /** One received datagram in the loop of rtp_client_read_h264. */
  function Handle(c: Client, packet: seq<byte>): (Client, Option<Unit>) {
    var pushed := Push(c.re, packet);
    var d := c.(re := pushed.state);
    var e := if pushed.lost then d.(losses := Add32(d.losses, 1), au := [], have := false) else d;
    var (f, saved) := SaveAll(e, pushed.offered);
    if !pushed.ok || !saved || packet[1] < 0x80 || f.au == [] then (f, None)
    else (f.(au := [], have := false), Some(Unit(f.au, f.ts, U32At(packet, 8))))
  }

  /** The client after a run of datagrams, and all units it returned. */
  function Feed(c: Client, packets: seq<seq<byte>>): (Client, seq<Unit>)
    decreases |packets|
  {
    if packets == [] then (c, [])
    else
      var n := |packets| - 1;
      var (d, units) := Feed(c, packets[..n]);
      var (e, unit) := Handle(d, packets[n]);
      (e, if unit.Some? then units + [unit.value] else units)
  }

  lemma {:induction false} FeedAppend(c: Client, a: seq<seq<byte>>, b: seq<seq<byte>>)
    ensures var (d, us) := Feed(c, a);
            var (e, vs) := Feed(d, b);
            Feed(c, a + b) == (e, us + vs)
    decreases |b|
  {
    hide Handle;
    if b == [] {
      assert a + b == a;
      assert Feed(c, a).1 + [] == Feed(c, a).1;
    } else {
      var n := |b| - 1;
      FeedAppend(c, a, b[..n]);
      assert (a + b)[..|a| + n] == a + b[..n] && (a + b)[|a| + n] == b[n];
      var (d, us) := Feed(c, a);
      var (x, vs) := Feed(d, b[..n]);
      var (y, unit) := Handle(x, b[n]);
      if unit.Some? { assert us + vs + [unit.value] == us + (vs + [unit.value]); }
    }
  }

  // ------------------------------------------------ one NAL through the channel

  /** Nothing is half assembled and the next packet is the expected one. */
  predicate Ready(c: Client, s: u16) { !c.re.assembling && (c.re.haveSequence ==> c.re.expected == s) }

  /** The unit so far, if it belongs to this timestamp. */
  function Collected(c: Client, ts: u32): seq<byte> { if c.have && c.ts == ts then c.au else [] }

  /** What a NAL leaves behind once all its packets arrived: the client, and the unit if it was the last. */
  predicate NalArrived(c: Client, n: Nal, ssrc: u32, d: Client, us: seq<Unit>) {
    var bytes := Collected(c, n.ts) + START_CODE + n.data;
    && d.losses == c.losses
    && (if n.marker then us == [Unit(bytes, n.ts, ssrc)] && !d.have
        else us == [] && d.have && d.ts == n.ts && d.au == bytes)
  }

  predicate Room(c: Client, n: Nal) { |Collected(c, n.ts)| + 4 + |n.data| <= MAX_NAL }

  lemma SavedWhole(c: Client, n: Nal)
    requires Room(c, n)
    ensures SaveAll(c, [n]) == (c.(au := Collected(c, n.ts) + START_CODE + n.data, ts := n.ts, have := true), true)
  {
    assert [n][1..] == [];
    var d := c.(au := Collected(c, n.ts), ts := n.ts, have := true);
    assert SaveNal(c, n) == (d.(au := d.au + START_CODE + n.data), true);
    assert SaveAll(SaveNal(c, n).0, []) == (SaveNal(c, n).0, true);
  }

  lemma PacketHeader(mtu: nat, ssrc: u32, s: u16, p: Piece)
    requires ValidMtu(mtu) && PieceOk(mtu, p)
    ensures var packet := PacketOf(mtu, ssrc, s, p);
            |packet| >= HEADER_SIZE && (packet[1] >= 0x80 <==> p.nal.marker && Ends(mtu, p)) && U32At(packet, 8) == ssrc
  {
    hide Header, Payload;
    HeaderFields(p.nal.marker && Ends(mtu, p), s, p.nal.ts, ssrc, Payload(mtu, p));
  }

  /** A packet that completes its NAL without loss. */
  lemma LastPacket(c: Client, mtu: nat, ssrc: u32, s: u16, p: Piece, after: Reassembly)
    requires ValidMtu(mtu) && PieceOk(mtu, p) && Ends(mtu, p) && Room(c, p.nal)
    requires Push(c.re, PacketOf(mtu, ssrc, s, p)) == Pushed(after, false, [p.nal], true)
    ensures var (d, unit) := Handle(c, PacketOf(mtu, ssrc, s, p));
            d.re == after && NalArrived(c, p.nal, ssrc, d, if unit.Some? then [unit.value] else [])
  {
    hide Push, PacketOf, SaveAll;
    PacketHeader(mtu, ssrc, s, p);
    SavedWhole(c.(re := after), p.nal);
  }

  lemma QuietPacket(c: Client, mtu: nat, ssrc: u32, s: u16, p: Piece, after: Reassembly)
    requires ValidMtu(mtu) && PieceOk(mtu, p) && !Ends(mtu, p)
    requires Push(c.re, PacketOf(mtu, ssrc, s, p)) == Pushed(after, false, [], true)
    ensures Handle(c, PacketOf(mtu, ssrc, s, p)) == (c.(re := after), None)
  {
    hide Push, PacketOf;
    PacketHeader(mtu, ssrc, s, p);
  }

  lemma FirstOfFeed(c: Client, packet: seq<byte>, rest: seq<seq<byte>>)
    ensures var (d, unit) := Handle(c, packet);
            var (e, vs) := Feed(d, rest);
            Feed(c, [packet] + rest) == (e, (if unit.Some? then [unit.value] else []) + vs)
  {
    hide Handle;
    FeedAppend(c, [packet], rest);
    assert [packet][..0] == [];
    assert Feed(c, []) == (c, []);
    var (d, unit) := Handle(c, packet);
    if unit.Some? { assert [] + [unit.value] == [unit.value]; }
  }

  lemma PacketsCons(mtu: nat, ssrc: u32, s: u16, p: Piece, rest: seq<Piece>)
    requires ValidMtu(mtu) && PieceOk(mtu, p) && AllOk(mtu, rest)
    ensures AllOk(mtu, [p] + rest)
    ensures Packets(mtu, ssrc, s, [p] + rest) == [PacketOf(mtu, ssrc, s, p)] + Packets(mtu, ssrc, Number(s, 1), rest)
  {
    hide PacketOf, PieceOk;
    var ps := [p] + rest;
    forall i | 0 <= i < |ps| ensures PieceOk(mtu, ps[i]) { if i > 0 { assert ps[i] == rest[i - 1]; } }
    var a, b := Packets(mtu, ssrc, s, ps), [PacketOf(mtu, ssrc, s, p)] + Packets(mtu, ssrc, Number(s, 1), rest);
    forall i | 0 <= i < |ps| ensures a[i] == b[i] {
      if i > 0 {
        assert ps[i] == rest[i - 1];
        NumberShift(s, i);
      }
    }
  }

  lemma NumberShift(s: u16, i: nat)
    requires i > 0
    ensures Number(s, i) == Number(Number(s, 1), i - 1)
  {
  }

  lemma NumberZero(s: u16)
    ensures Number(s, 0) == s
  {
  }

  /** All fragments from `offset` on, with the earlier ones in the buffer. */
  lemma {:induction false} FragmentsArrive(c: Client, mtu: nat, ssrc: u32, s: u16, n: Nal, offset: nat)
    requires ValidMtu(mtu) && Sendable(n) && !Fits(mtu, |n.data|) && 1 <= offset < |n.data|
    requires Room(c, n) && (c.re.haveSequence ==> c.re.expected == s)
    requires Continues(c.re, Piece(n, offset))
    ensures var ps := Fragments(mtu, n, offset);
            && AllOk(mtu, ps)
            && var (d, us) := Feed(c, Packets(mtu, ssrc, s, ps));
               NalArrived(c, n, ssrc, d, us) && Ready(d, Number(s, |ps|)) && d.re.haveSequence
    decreases |n.data| - offset
  {
    hide Push, PacketOf, Handle, Number, Feed, NalArrived;
    var p := Piece(n, offset);
    var t := Sequenced(c.re, s);
    FragmentsAreStream(mtu, n, offset);
    var rest := Fragments(mtu, n, offset + Size(mtu, p));
    assert Fragments(mtu, n, offset) == [p] + rest;
    PushPart(c.re, mtu, ssrc, s, p);
    FragmentsAreStream(mtu, n, offset + Size(mtu, p));
    PacketsCons(mtu, ssrc, s, p, rest);
    FirstOfFeed(c, PacketOf(mtu, ssrc, s, p), Packets(mtu, ssrc, Number(s, 1), rest));
    if Ends(mtu, p) {
      assert rest == [];
      LastPacket(c, mtu, ssrc, s, p, t.(assembling := false, buffer := [], ts := n.ts));
      var (d, unit) := Handle(c, PacketOf(mtu, ssrc, s, p));
      FeedNothing(d);
      var us := if unit.Some? then [unit.value] else [];
      assert us + [] == us;
      assert Packets(mtu, ssrc, Number(s, 1), rest) == [];
    } else {
      var after := t.(assembling := true, buffer := n.data[..offset + Size(mtu, p)], ts := n.ts);
      QuietPacket(c, mtu, ssrc, s, p, after);
      var d := c.(re := after);
      FragmentsArrive(d, mtu, ssrc, Number(s, 1), n, offset + Size(mtu, p));
      NumberAdds(s, 1, |rest|);
      var (e, us) := Feed(d, Packets(mtu, ssrc, Number(s, 1), rest));
      SameCollection(c, d, n, ssrc, e, us);
      assert [] + us == us;
    }
  }

  lemma FeedNothing(c: Client)
    ensures Feed(c, []) == (c, [])
  {
  }

  lemma SameCollection(c: Client, d: Client, n: Nal, ssrc: u32, e: Client, us: seq<Unit>)
    requires d == c.(re := d.re) && NalArrived(d, n, ssrc, e, us)
    ensures NalArrived(c, n, ssrc, e, us)
  {
  }

  lemma NalArrives(c: Client, mtu: nat, ssrc: u32, s: u16, n: Nal)
    requires ValidMtu(mtu) && Sendable(n) && Ready(c, s) && Room(c, n)
    ensures AllOk(mtu, Pieces(mtu, n))
    ensures var (d, us) := Feed(c, Packets(mtu, ssrc, s, Pieces(mtu, n)));
            NalArrived(c, n, ssrc, d, us) && Ready(d, Number(s, |Pieces(mtu, n)|)) && d.re.haveSequence
  {
    hide Push, PacketOf, Handle, NalArrived, Feed;
    PiecesAreStream(mtu, n);
    if Fits(mtu, |n.data|) {
      var p := Piece(n, 0);
      PushWhole(c.re, mtu, ssrc, s, p);
      LastPacket(c, mtu, ssrc, s, p, Sequenced(c.re, s));
      assert Pieces(mtu, n) == [p] && [p] + [] == [p];
      PacketsCons(mtu, ssrc, s, p, []);
      FirstOfFeed(c, PacketOf(mtu, ssrc, s, p), Packets(mtu, ssrc, Number(s, 1), []));
      var (d, unit) := Handle(c, PacketOf(mtu, ssrc, s, p));
      FeedNothing(d);
      var us := if unit.Some? then [unit.value] else [];
      assert us + [] == us;
      assert Packets(mtu, ssrc, Number(s, 1), []) == [];
    } else {
      FragmentsArrive(c, mtu, ssrc, s, n, 1);
    }
  }

  // ------------------------------------------------ whole units

  /** An access unit to send: its NALs and its timestamp. */
  datatype Picture = Picture(nals: seq<seq<byte>>, ts: u32)

  function Bytes(nals: seq<seq<byte>>): seq<byte> {
    if nals == [] then [] else START_CODE + nals[0] + Bytes(nals[1..])
  }

  predicate NalOk(nal: seq<byte>) { nal != [] && 1 <= nal[0] % 32 <= 23 && FreeOfStartCodes(nal) }

  /** Annex-B units of four-byte start codes, at most 2 MiB in all. */
  predicate PictureOk(p: Picture) {
    p.nals != [] && (forall i :: 0 <= i < |p.nals| ==> NalOk(p.nals[i])) && |Bytes(p.nals)| <= MAX_NAL
  }

  /** The NALs of the unit, the last one under the marker. */
  function Tagged(nals: seq<seq<byte>>, ts: u32): (ns: seq<Nal>)
    ensures |ns| == |nals|
    ensures forall i :: 0 <= i < |nals| ==> ns[i] == Nal(nals[i], ts, i == |nals| - 1)
  {
    if nals == [] then [] else [Nal(nals[0], ts, |nals| == 1)] + Tagged(nals[1..], ts)
  }

  lemma CodeAtFront(nals: seq<seq<byte>>)
    requires nals != []
    ensures CodeAt(Bytes(nals), 0) == 4
  {
  }

  lemma NoCodeInside(nal: seq<byte>, rest: seq<seq<byte>>, p: nat)
    requires NalOk(nal) && p < |nal|
    ensures CodeAt(START_CODE + nal + Bytes(rest), 4 + p) == 0
  {
    var tail := Bytes(rest);
    var d := START_CODE + nal + tail;
    assert forall k :: 0 <= k < |nal| ==> d[4 + k] == nal[k];
    assert forall k :: 0 <= k < |tail| ==> d[4 + |nal| + k] == tail[k];
    assert tail == [] || tail[..4] == START_CODE;
    if tail != [] {
      assert tail[0] == tail[..4][0] && tail[1] == tail[..4][1] && tail[2] == tail[..4][2];
    }
    if p + 2 < |nal| {
      assert !(nal[p] == 0 && nal[p + 1] == 0 && nal[p + 2] == 1);
      if p + 3 < |nal| { assert !(nal[p + 1] == 0 && nal[p + 2] == 0 && nal[p + 3] == 1); }
    }
  }

  lemma CodeBeyond(a: seq<byte>, b: seq<byte>, i: nat)
    ensures CodeAt(a + b, |a| + i) == CodeAt(b, i)
  {
    var d := a + b;
    assert forall k :: 0 <= k < |b| ==> d[|a| + k] == b[k];
  }

  lemma NextCodeAfterNal(nal: seq<byte>, rest: seq<seq<byte>>)
    requires NalOk(nal)
    ensures NextCode(START_CODE + nal + Bytes(rest), 4) == 4 + |nal|
  {
    hide CodeAt, NalOk, Bytes;
    var front, tail := START_CODE + nal, Bytes(rest);
    var d := front + tail;
    var r := NextCode(d, 4);
    if r < 4 + |nal| {
      NoCodeInside(nal, rest, r - 4);
      assert false;
    }
    if r > 4 + |nal| {
      TailStarts(rest);
      CodeBeyond(front, tail, 0);
      assert false;
    }
  }

  lemma TailStarts(rest: seq<seq<byte>>)
    ensures Bytes(rest) == [] || CodeAt(Bytes(rest), 0) == 4
  {
    if rest != [] { CodeAtFront(rest); }
  }

  lemma {:induction false} NextCodeBeyond(a: seq<byte>, b: seq<byte>, i: nat)
    requires i <= |b|
    ensures NextCode(a + b, |a| + i) == |a| + NextCode(b, i)
    decreases |b| - i
  {
    hide CodeAt;
    CodeBeyond(a, b, i);
    if i < |b| && CodeAt(b, i) == 0 { NextCodeBeyond(a, b, i + 1); }
  }

  lemma SliceBeyond(a: seq<byte>, b: seq<byte>, i: nat, j: nat)
    requires i <= j <= |b|
    ensures (a + b)[|a| + i..|a| + j] == b[i..j]
  {
  }

  lemma {:induction false} NalsFromBeyond(a: seq<byte>, b: seq<byte>, i: nat, ts: u32)
    requires i <= |b| && (i == |b| || CodeAt(b, i) > 0)
    ensures |a| + i == |a + b| || CodeAt(a + b, |a| + i) > 0
    ensures NalsFrom(a + b, |a| + i, ts) == NalsFrom(b, i, ts)
    decreases |b| - i
  {
    hide CodeAt, NextCode;
    CodeBeyond(a, b, i);
    if i < |b| {
      var start := i + CodeAt(b, i);
      NextCodeBeyond(a, b, start);
      var next := NextCode(b, start);
      NextCodeIsCode(b, start);
      NalsFromBeyond(a, b, next, ts);
      SliceBeyond(a, b, start, next);
    }
  }

  lemma NextCodeIsCode(d: seq<byte>, i: nat)
    requires i <= |d|
    ensures i <= NextCode(d, i) <= |d| && (NextCode(d, i) < |d| ==> CodeAt(d, NextCode(d, i)) > 0)
  {
  }

  /** The sender splits such a unit into exactly its NALs, whatever zero bytes they end in. */
  lemma {:induction false} SplitsIntoItsNals(nals: seq<seq<byte>>, ts: u32)
    requires forall i :: 0 <= i < |nals| ==> NalOk(nals[i])
    ensures Bytes(nals) == [] || CodeAt(Bytes(nals), 0) > 0
    ensures NalsFrom(Bytes(nals), 0, ts) == Tagged(nals, ts)
  {
    hide CodeAt, NalOk, NextCode;
    TailStarts(nals);
    if nals != [] {
      var nal, rest := nals[0], nals[1..];
      var front, tail := START_CODE + nal, Bytes(rest);
      var d := front + tail;
      CodeAtFront(nals);
      NextCodeAfterNal(nal, rest);
      SplitsIntoItsNals(rest, ts);
      NalsFromBeyond(front, tail, 0, ts);
      assert d[4..4 + |nal|] == nal;
      NotEmptyNal(nal);
      BytesEmpty(rest);
    }
  }

  lemma NotEmptyNal(nal: seq<byte>)
    requires NalOk(nal)
    ensures |nal| > 0
  {
  }

  lemma BytesEmpty(nals: seq<seq<byte>>)
    ensures Bytes(nals) == [] <==> nals == []
  {
  }

  lemma SplitPicture(p: Picture)
    requires PictureOk(p)
    ensures NalsOf(Bytes(p.nals), p.ts) == Tagged(p.nals, p.ts)
  {
    hide CodeAt, NalsFrom;
    SplitsIntoItsNals(p.nals, p.ts);
    CodeAtFront(p.nals);
    BytesEmpty(p.nals);
  }

  lemma PacketsAppend(mtu: nat, ssrc: u32, s: u16, a: seq<Piece>, b: seq<Piece>)
    requires ValidMtu(mtu) && AllOk(mtu, a) && AllOk(mtu, b)
    ensures AllOk(mtu, a + b)
    ensures Packets(mtu, ssrc, s, a + b) == Packets(mtu, ssrc, s, a) + Packets(mtu, ssrc, Number(s, |a|), b)
  {
    hide PacketOf, PieceOk, Number;
    var ps := a + b;
    forall i | 0 <= i < |ps| ensures PieceOk(mtu, ps[i]) {
      if i < |a| { assert ps[i] == a[i]; } else { assert ps[i] == b[i - |a|]; }
    }
    var x, y := Packets(mtu, ssrc, s, ps), Packets(mtu, ssrc, s, a) + Packets(mtu, ssrc, Number(s, |a|), b);
    forall i | 0 <= i < |ps| ensures x[i] == y[i] {
      if i < |a| {
        assert ps[i] == a[i];
      } else {
        assert ps[i] == b[i - |a|];
        NumberAdds(s, |a|, i - |a|);
      }
    }
  }

  lemma FeedInTwo(c: Client, mtu: nat, ssrc: u32, s: u16, a: seq<Piece>, b: seq<Piece>)
    requires ValidMtu(mtu) && AllOk(mtu, a) && AllOk(mtu, b)
    ensures AllOk(mtu, a + b)
    ensures var (d, us) := Feed(c, Packets(mtu, ssrc, s, a));
            var (e, vs) := Feed(d, Packets(mtu, ssrc, Number(s, |a|), b));
            Feed(c, Packets(mtu, ssrc, s, a + b)) == (e, us + vs)
    ensures Number(Number(s, |a|), |b|) == Number(s, |a + b|)
  {
    hide Feed, Packets, Number, AllOk;
    PacketsAppend(mtu, ssrc, s, a, b);
    FeedAppend(c, Packets(mtu, ssrc, s, a), Packets(mtu, ssrc, Number(s, |a|), b));
    NumberAdds(s, |a|, |b|);
  }

  /** What the packetizer makes of the bytes of a picture. */
  function PiecesOfPicture(mtu: nat, p: Picture): (ps: seq<Piece>)
    requires ValidMtu(mtu) && PictureOk(p)
    ensures NonEmpty(Tagged(p.nals, p.ts)) && ps == PiecesOfAll(mtu, Tagged(p.nals, p.ts))
  {
    SplitPicture(p);
    PiecesOfAll(mtu, NalsOf(Bytes(p.nals), p.ts))
  }

  function PiecesOfPictures(mtu: nat, ps: seq<Picture>): seq<Piece>
    requires ValidMtu(mtu) && forall i :: 0 <= i < |ps| ==> PictureOk(ps[i])
  {
    if ps == [] then [] else PiecesOfPicture(mtu, ps[0]) + PiecesOfPictures(mtu, ps[1..])
  }

  function UnitsOf(ps: seq<Picture>, ssrc: u32): (us: seq<Unit>)
    ensures |us| == |ps| && forall i :: 0 <= i < |ps| ==> us[i] == Unit(Bytes(ps[i].nals), ps[i].ts, ssrc)
  {
    seq(|ps|, i requires 0 <= i < |ps| => Unit(Bytes(ps[i].nals), ps[i].ts, ssrc))
  }

  predicate NalsOk(nals: seq<seq<byte>>) { forall i :: 0 <= i < |nals| ==> NalOk(nals[i]) }

  lemma TaggedTail(nals: seq<seq<byte>>, ts: u32)
    requires nals != []
    ensures Tagged(nals, ts)[0] == Nal(nals[0], ts, |nals| == 1)
    ensures Tagged(nals, ts)[1..] == Tagged(nals[1..], ts)
  {
    var a, b := Tagged(nals, ts)[1..], Tagged(nals[1..], ts);
    assert forall i :: 0 <= i < |b| ==> a[i] == b[i];
  }

  /** What a picture leaves behind once all its packets arrived. */
  predicate PictureArrived(c: Client, bytes: seq<byte>, ts: u32, ssrc: u32, next: u16, d: Client, us: seq<Unit>) {
    us == [Unit(bytes, ts, ssrc)] && !d.have && d.losses == c.losses && Ready(d, next) && d.re.haveSequence
  }

  lemma PiecesOfTagged(mtu: nat, nals: seq<seq<byte>>, ts: u32)
    requires ValidMtu(mtu) && nals != [] && NalsOk(nals)
    ensures PiecesOfAll(mtu, Tagged(nals, ts)) ==
              Pieces(mtu, Nal(nals[0], ts, |nals| == 1)) + PiecesOfAll(mtu, Tagged(nals[1..], ts))
  {
    hide Pieces, FreeOfStartCodes;
    TaggedTail(nals, ts);
  }

  lemma LastNalArrives(c: Client, mtu: nat, ssrc: u32, s: u16, nal: seq<byte>, ts: u32)
    requires ValidMtu(mtu) && NalOk(nal) && Ready(c, s)
    requires |Collected(c, ts)| + |Bytes([nal])| <= MAX_NAL
    ensures var ps := Pieces(mtu, Nal(nal, ts, true));
            && AllOk(mtu, ps)
            && var (d, us) := Feed(c, Packets(mtu, ssrc, s, ps));
               PictureArrived(c, Collected(c, ts) + Bytes([nal]), ts, ssrc, Number(s, |ps|), d, us)
  {
    hide Feed, Packets, Number, Pieces, FreeOfStartCodes, AllOk;
    assert [nal][1..] == [];
    assert Bytes([nal]) == START_CODE + nal;
    NalArrives(c, mtu, ssrc, s, Nal(nal, ts, true));
    assert Collected(c, ts) + START_CODE + nal == Collected(c, ts) + Bytes([nal]);
  }

  lemma InnerNalArrives(c: Client, mtu: nat, ssrc: u32, s: u16, nal: seq<byte>, rest: seq<seq<byte>>, ts: u32)
    requires ValidMtu(mtu) && NalOk(nal) && Ready(c, s)
    requires |Collected(c, ts)| + |Bytes([nal] + rest)| <= MAX_NAL
    ensures var ps := Pieces(mtu, Nal(nal, ts, false));
            && AllOk(mtu, ps)
            && var (d, us) := Feed(c, Packets(mtu, ssrc, s, ps));
               && us == [] && d.have && d.ts == ts && d.losses == c.losses && Ready(d, Number(s, |ps|))
               && Collected(d, ts) + Bytes(rest) == Collected(c, ts) + Bytes([nal] + rest)
               && |Collected(d, ts)| + |Bytes(rest)| <= MAX_NAL
  {
    hide Feed, Packets, Number, Pieces, FreeOfStartCodes, AllOk;
    assert ([nal] + rest)[1..] == rest;
    assert Bytes([nal] + rest) == START_CODE + nal + Bytes(rest);
    NalArrives(c, mtu, ssrc, s, Nal(nal, ts, false));
    assert Collected(c, ts) + START_CODE + nal + Bytes(rest) == Collected(c, ts) + Bytes([nal] + rest);
  }

  /** The rest of a picture arrives behind what was already collected of it. */
  lemma {:induction false} PictureArrives(c: Client, mtu: nat, ssrc: u32, s: u16, nals: seq<seq<byte>>, ts: u32)
    requires ValidMtu(mtu) && nals != [] && NalsOk(nals) && Ready(c, s)
    requires |Collected(c, ts)| + |Bytes(nals)| <= MAX_NAL
    ensures NonEmpty(Tagged(nals, ts))
    ensures var ps := PiecesOfAll(mtu, Tagged(nals, ts));
            && AllOk(mtu, ps)
            && var (d, us) := Feed(c, Packets(mtu, ssrc, s, ps));
               PictureArrived(c, Collected(c, ts) + Bytes(nals), ts, ssrc, Number(s, |ps|), d, us)
    decreases |nals|
  {
    hide Feed, Packets, Number, Pieces, FreeOfStartCodes, AllOk, Bytes, Ready, Collected;
    var nal, rest := nals[0], nals[1..];
    PiecesOfTagged(mtu, nals, ts);
    var a, b := Pieces(mtu, Nal(nal, ts, |nals| == 1)), PiecesOfAll(mtu, Tagged(rest, ts));
    if rest == [] {
      assert a + b == a;
      assert nals == [nal];
      LastNalArrives(c, mtu, ssrc, s, nal, ts);
    } else {
      assert nals == [nal] + rest;
      InnerNalArrives(c, mtu, ssrc, s, nal, rest, ts);
      var d := Feed(c, Packets(mtu, ssrc, s, a)).0;
      PictureArrives(d, mtu, ssrc, Number(s, |a|), rest, ts);
      PacketsAppend(mtu, ssrc, s, a, b);
      FeedAppend(c, Packets(mtu, ssrc, s, a), Packets(mtu, ssrc, Number(s, |a|), b));
      NumberAdds(s, |a|, |b|);
      var vs := Feed(d, Packets(mtu, ssrc, Number(s, |a|), b)).1;
      assert [] + vs == vs;
    }
  }

  /** From a client between units, a picture comes out as one unit of the same bytes. */
  lemma OnePictureArrives(c: Client, mtu: nat, ssrc: u32, s: u16, p: Picture)
    requires ValidMtu(mtu) && PictureOk(p) && Ready(c, s) && Collected(c, p.ts) == []
    ensures var ps := PiecesOfPicture(mtu, p);
            && AllOk(mtu, ps)
            && var (d, us) := Feed(c, Packets(mtu, ssrc, s, ps));
               PictureArrived(c, Bytes(p.nals), p.ts, ssrc, Number(s, |ps|), d, us)
  {
    hide Feed, Packets, Number, NalOk, AllOk, PiecesOfAll, Bytes;
    PictureArrives(c, mtu, ssrc, s, p.nals, p.ts);
    assert [] + Bytes(p.nals) == Bytes(p.nals);
  }

  /** Over a loss-free channel every sequence of such units comes out as the same units, in the same
      order, with no loss counted, for every MTU and across the wrap of the sequence number. */
  lemma {:induction false} LosslessRoundTrip(c: Client, mtu: nat, ssrc: u32, s: u16, ps: seq<Picture>)
    requires ValidMtu(mtu) && (forall i :: 0 <= i < |ps| ==> PictureOk(ps[i])) && Ready(c, s) && !c.have
    ensures var pieces := PiecesOfPictures(mtu, ps);
            && AllOk(mtu, pieces)
            && var (d, us) := Feed(c, Packets(mtu, ssrc, s, pieces));
               us == UnitsOf(ps, ssrc) && d.losses == c.losses
    decreases |ps|
  {
    hide Feed, Packets, Number, PictureOk, AllOk, PiecesOfPicture, Bytes;
    if ps == [] {
      NothingSent(c, mtu, ssrc, s);
    } else {
      var a, b := PiecesOfPicture(mtu, ps[0]), PiecesOfPictures(mtu, ps[1..]);
      OnePictureArrives(c, mtu, ssrc, s, ps[0]);
      var (d, us) := Feed(c, Packets(mtu, ssrc, s, a));
      LosslessRoundTrip(d, mtu, ssrc, Number(s, |a|), ps[1..]);
      PacketsAppend(mtu, ssrc, s, a, b);
      FeedAppend(c, Packets(mtu, ssrc, s, a), Packets(mtu, ssrc, Number(s, |a|), b));
      assert UnitsOf(ps, ssrc) == us + UnitsOf(ps[1..], ssrc);
    }
  }

  lemma NothingSent(c: Client, mtu: nat, ssrc: u32, s: u16)
    requires ValidMtu(mtu)
    ensures AllOk(mtu, []) && Feed(c, Packets(mtu, ssrc, s, [])) == (c, []) && UnitsOf([], ssrc) == []
  {
    assert Packets(mtu, ssrc, s, []) == [];
  }

  // ------------------------------------------------ units that are too long

  /** How many NALs from the front have a length that can be sent. */
  function Sized(ns: seq<Nal>): (k: nat)
    ensures k <= |ns| && (k < |ns| ==> !(1 <= |ns[k].data| <= MAX_NAL))
    ensures NonEmpty(ns[..k]) && forall i :: 0 <= i < k ==> 1 <= |ns[i].data| <= MAX_NAL
  {
    if ns == [] || !(1 <= |ns[0].data| <= MAX_NAL) then 0 else 1 + Sized(ns[1..])
  }

  /** The pieces the packetizer sends of a unit: it stops before a NAL above 2 MiB. */
  function PiecesSent(mtu: nat, nals: seq<seq<byte>>, ts: u32): seq<Piece>
    requires ValidMtu(mtu)
  {
    var ns := Tagged(nals, ts);
    PiecesOfAll(mtu, ns[..Sized(ns)])
  }

  /** What NALs of one timestamp leave behind when all their packets arrived in order, saved or not. */
  predicate Passed(c: Client, ts: u32, next: u16, d: Client) {
    d.losses == c.losses && Ready(d, next) && (d.have ==> d.ts == ts || (c.have && d.ts == c.ts))
  }

  lemma SaveStamps(c: Client, ns: seq<Nal>, n: Nal)
    requires ns == [] || ns == [n]
    ensures var d := SaveAll(c, ns).0; d.have ==> d.ts == n.ts || (c.have && d.ts == c.ts)
  {
    assert [n][1..] == [];
    if ns == [n] { assert SaveAll(c, ns).0 == SaveNal(c, n).0; }
  }

  lemma HandleStamps(c: Client, packet: seq<byte>, n: Nal)
    requires Push(c.re, packet).offered == [] || Push(c.re, packet).offered == [n]
    ensures var d := Handle(c, packet).0; d.have ==> d.ts == n.ts || (c.have && d.ts == c.ts)
  {
    hide Push, SaveAll;
    var pushed := Push(c.re, packet);
    var d := c.(re := pushed.state);
    SaveStamps(if pushed.lost then d.(losses := Add32(d.losses, 1), au := [], have := false) else d, pushed.offered, n);
  }

  lemma {:induction false} FragmentsPass(c: Client, mtu: nat, ssrc: u32, s: u16, n: Nal, offset: nat)
    requires ValidMtu(mtu) && Sendable(n) && !Fits(mtu, |n.data|) && 1 <= offset < |n.data|
    requires (c.re.haveSequence ==> c.re.expected == s) && Continues(c.re, Piece(n, offset))
    ensures var ps := Fragments(mtu, n, offset);
            AllOk(mtu, ps) && Passed(c, n.ts, Number(s, |ps|), Feed(c, Packets(mtu, ssrc, s, ps)).0)
    decreases |n.data| - offset
  {
    hide Push, PacketOf, Handle, Number, Feed;
    var p := Piece(n, offset);
    FragmentsAreStream(mtu, n, offset);
    var rest := Fragments(mtu, n, offset + Size(mtu, p));
    assert Fragments(mtu, n, offset) == [p] + rest;
    PushPart(c.re, mtu, ssrc, s, p);
    FragmentsAreStream(mtu, n, offset + Size(mtu, p));
    PacketsCons(mtu, ssrc, s, p, rest);
    var packet := PacketOf(mtu, ssrc, s, p);
    FirstOfFeed(c, packet, Packets(mtu, ssrc, Number(s, 1), rest));
    HandleCounts(c, packet);
    HandleStamps(c, packet, n);
    var d := Handle(c, packet).0;
    if Ends(mtu, p) {
      FeedNothing(d);
      assert Packets(mtu, ssrc, Number(s, 1), rest) == [];
    } else {
      FragmentsPass(d, mtu, ssrc, Number(s, 1), n, offset + Size(mtu, p));
      NumberAdds(s, 1, |rest|);
    }
  }

  lemma NalPasses(c: Client, mtu: nat, ssrc: u32, s: u16, n: Nal)
    requires ValidMtu(mtu) && Sendable(n) && Ready(c, s)
    ensures var ps := Pieces(mtu, n);
            AllOk(mtu, ps) && Passed(c, n.ts, Number(s, |ps|), Feed(c, Packets(mtu, ssrc, s, ps)).0)
  {
    hide Push, PacketOf, Handle, Feed;
    PiecesAreStream(mtu, n);
    if Fits(mtu, |n.data|) {
      var p, packet := Piece(n, 0), PacketOf(mtu, ssrc, s, Piece(n, 0));
      PushWhole(c.re, mtu, ssrc, s, p);
      assert Pieces(mtu, n) == [p] && [p] + [] == [p];
      PacketsCons(mtu, ssrc, s, p, []);
      FirstOfFeed(c, packet, Packets(mtu, ssrc, Number(s, 1), []));
      HandleCounts(c, packet);
      HandleStamps(c, packet, n);
      FeedNothing(Handle(c, packet).0);
      assert Packets(mtu, ssrc, Number(s, 1), []) == [];
    } else {
      FragmentsPass(c, mtu, ssrc, s, n, 1);
    }
  }

  predicate AllSendable(ns: seq<Nal>, ts: u32) { forall i :: 0 <= i < |ns| ==> Sendable(ns[i]) && ns[i].ts == ts }

  /** What passes in two parts passes as a whole. */
  lemma PassesOn(c: Client, mtu: nat, ssrc: u32, s: u16, a: seq<Piece>, b: seq<Piece>, ts: u32)
    requires ValidMtu(mtu) && AllOk(mtu, a) && AllOk(mtu, b)
    requires var d := Feed(c, Packets(mtu, ssrc, s, a)).0;
             && Passed(c, ts, Number(s, |a|), d)
             && Passed(d, ts, Number(Number(s, |a|), |b|), Feed(d, Packets(mtu, ssrc, Number(s, |a|), b)).0)
    ensures AllOk(mtu, a + b) && Passed(c, ts, Number(s, |a + b|), Feed(c, Packets(mtu, ssrc, s, a + b)).0)
  {
    hide Feed, Packets, Number, AllOk, Ready;
    PacketsAppend(mtu, ssrc, s, a, b);
    FeedAppend(c, Packets(mtu, ssrc, s, a), Packets(mtu, ssrc, Number(s, |a|), b));
    NumberAdds(s, |a|, |b|);
  }

  /** Nothing is counted and nothing is left half assembled, however long the NALs are together. */
  lemma {:induction false} NalsPass(c: Client, mtu: nat, ssrc: u32, s: u16, ns: seq<Nal>, ts: u32)
    requires ValidMtu(mtu) && Ready(c, s) && AllSendable(ns, ts)
    ensures NonEmpty(ns)
    ensures var ps := PiecesOfAll(mtu, ns);
            AllOk(mtu, ps) && Passed(c, ts, Number(s, |ps|), Feed(c, Packets(mtu, ssrc, s, ps)).0)
    decreases |ns|
  {
    hide Feed, Packets, Number, Pieces, AllOk, Ready;
    if ns == [] {
      NothingSent(c, mtu, ssrc, s);
      NumberZero(s);
    } else {
      var a := Pieces(mtu, ns[0]);
      NalPasses(c, mtu, ssrc, s, ns[0]);
      NalsPass(Feed(c, Packets(mtu, ssrc, s, a)).0, mtu, ssrc, Number(s, |a|), ns[1..], ts);
      PassesOn(c, mtu, ssrc, s, a, PiecesOfAll(mtu, ns[1..]), ts);
    }
  }

  ghost predicate UnitsFit(us: seq<Unit>) { forall i :: 0 <= i < |us| ==> |us[i].data| <= MAX_NAL }

  lemma {:induction false} SaveAllFits(c: Client, ns: seq<Nal>)
    requires |c.au| <= MAX_NAL
    ensures |SaveAll(c, ns).0.au| <= MAX_NAL
    decreases |ns|
  {
    if ns != [] && SaveNal(c, ns[0]).1 { SaveAllFits(SaveNal(c, ns[0]).0, ns[1..]); }
  }

  lemma HandleFits(c: Client, packet: seq<byte>)
    requires |c.au| <= MAX_NAL
    ensures var (d, unit) := Handle(c, packet); |d.au| <= MAX_NAL && (unit.Some? ==> |unit.value.data| <= MAX_NAL)
  {
    hide Push, SaveAll;
    var pushed := Push(c.re, packet);
    var d := c.(re := pushed.state);
    SaveAllFits(if pushed.lost then d.(losses := Add32(d.losses, 1), au := [], have := false) else d, pushed.offered);
  }

  /** Whatever is received, no unit above 2 MiB is ever returned. */
  lemma {:induction false} NoLongUnitIsReturned(c: Client, packets: seq<seq<byte>>)
    requires |c.au| <= MAX_NAL
    ensures |Feed(c, packets).0.au| <= MAX_NAL && UnitsFit(Feed(c, packets).1)
    decreases |packets|
  {
    hide Handle;
    if packets != [] {
      var n := |packets| - 1;
      NoLongUnitIsReturned(c, packets[..n]);
      HandleFits(Feed(c, packets[..n]).0, packets[n]);
    }
  }

  lemma {:induction false} NalWithin(nals: seq<seq<byte>>, i: nat)
    requires i < |nals|
    ensures |nals[i]| <= |Bytes(nals)|
    decreases |nals|
  {
    if i > 0 { NalWithin(nals[1..], i - 1); }
  }

  lemma SentArePassed(c: Client, mtu: nat, ssrc: u32, s: u16, nals: seq<seq<byte>>, ts: u32)
    requires ValidMtu(mtu) && NalsOk(nals) && Ready(c, s)
    ensures var ps := PiecesSent(mtu, nals, ts);
            AllOk(mtu, ps) && Passed(c, ts, Number(s, |ps|), Feed(c, Packets(mtu, ssrc, s, ps)).0)
  {
    hide Feed, Packets, AllOk, Number, PiecesOfAll, FreeOfStartCodes, Passed;
    var ns := Tagged(nals, ts);
    NalsPass(c, mtu, ssrc, s, ns[..Sized(ns)], ts);
  }

  /** Over a loss-free channel a unit comes out whole exactly when it has at most 2 MiB with its start codes.
      Either way nothing is counted as lost. */
  lemma UnitSurvivesIff(c: Client, mtu: nat, ssrc: u32, s: u16, nals: seq<seq<byte>>, ts: u32)
    requires ValidMtu(mtu) && nals != [] && NalsOk(nals)
    requires Ready(c, s) && Collected(c, ts) == [] && |c.au| <= MAX_NAL
    ensures var (d, us) := Feed(c, Packets(mtu, ssrc, s, PiecesSent(mtu, nals, ts)));
            && (Unit(Bytes(nals), ts, ssrc) in us <==> |Bytes(nals)| <= MAX_NAL)
            && (|Bytes(nals)| <= MAX_NAL ==> us == [Unit(Bytes(nals), ts, ssrc)])
            && d.losses == c.losses
  {
    hide Feed, Packets, AllOk, Number, PiecesOfAll, Bytes, FreeOfStartCodes, Ready, Collected;
    var ns := Tagged(nals, ts);
    SentArePassed(c, mtu, ssrc, s, nals, ts);
    if |Bytes(nals)| <= MAX_NAL {
      if Sized(ns) < |ns| { NalWithin(nals, Sized(ns)); }
      assert ns[..|ns|] == ns;
      PictureArrives(c, mtu, ssrc, s, nals, ts);
      assert [] + Bytes(nals) == Bytes(nals);
    } else {
      NoLongUnitIsReturned(c, Packets(mtu, ssrc, s, PiecesSent(mtu, nals, ts)));
    }
  }

  /** The picture after a unit that is too long comes out whole, and unflagged: no count moves between the
      unit before the lost one and it. */
  lemma NextPictureIsUnflagged(c: Client, mtu: nat, ssrc: u32, s: u16, nals: seq<seq<byte>>, ts: u32, p: Picture)
    requires ValidMtu(mtu) && nals != [] && NalsOk(nals) && |Bytes(nals)| > MAX_NAL
    requires Ready(c, s) && !c.have && |c.au| <= MAX_NAL && PictureOk(p) && p.ts != ts
    ensures var a, b := PiecesSent(mtu, nals, ts), PiecesOfPicture(mtu, p);
            var (d, us) := Feed(c, Packets(mtu, ssrc, s, a + b));
            && Unit(Bytes(nals), ts, ssrc) !in us
            && us != [] && us[|us| - 1] == Unit(Bytes(p.nals), p.ts, ssrc) && d.losses == c.losses
  {
    hide Feed, Packets, AllOk, Number, PiecesSent, PiecesOfPicture, Bytes, NalOk, Ready;
    var a, b := PiecesSent(mtu, nals, ts), PiecesOfPicture(mtu, p);
    SentArePassed(c, mtu, ssrc, s, nals, ts);
    var d := Feed(c, Packets(mtu, ssrc, s, a)).0;
    OnePictureArrives(d, mtu, ssrc, Number(s, |a|), p);
    PacketsAppend(mtu, ssrc, s, a, b);
    FeedAppend(c, Packets(mtu, ssrc, s, a), Packets(mtu, ssrc, Number(s, |a|), b));
    NoLongUnitIsReturned(c, Packets(mtu, ssrc, s, a + b));
  }

  /** A slice of a picture that is one byte too long with its start code. */
  function LongSlice(): seq<byte> { seq(MAX_NAL - 3, i => 1) }

  /** A unit that is lost without a trace: a single P slice of MAX_NAL - 3 bytes, then a picture. */
  lemma LongSliceIsLost(mtu: nat, ssrc: u32)
    requires ValidMtu(mtu)
    ensures NalsOk([LongSlice()]) && |LongSlice()| < MAX_NAL && PictureOk(Picture([[1]], 1))
    ensures var packets := Packets(mtu, ssrc, 1, PiecesSent(mtu, [LongSlice()], 0)
                                   + PiecesOfPicture(mtu, Picture([[1]], 1)));
            var (d, us) := Feed(FRESH, packets);
            && Unit(Bytes([LongSlice()]), 0, ssrc) !in us
            && us != [] && us[|us| - 1] == Unit(Bytes([[1]]), 1, ssrc) && d.losses == 0
  {
    hide Feed, Packets, PiecesSent, PiecesOfPicture;
    var nal, p := LongSlice(), Picture([[1]], 1);
    var none: seq<seq<byte>> := [];
    assert [nal][1..] == none && p.nals[1..] == none;
    assert |Bytes([nal])| == MAX_NAL + 1;
    NextPictureIsUnflagged(FRESH, mtu, ssrc, 1, [nal], 0, p);
  }

  // ------------------------------------------------ units under loss

  /** No packet of the run is reported as following a gap. */
  predicate NoGap(c: Client, packets: seq<seq<byte>>)
    decreases |packets|
  {
    packets == [] ||
    (var n := |packets| - 1; NoGap(c, packets[..n]) && !Push(Feed(c, packets[..n]).0.re, packets[n]).lost)
  }

  lemma {:induction false} SaveAllKeepsLosses(c: Client, ns: seq<Nal>)
    ensures SaveAll(c, ns).0.losses == c.losses && SaveAll(c, ns).0.re == c.re
    decreases |ns|
  {
    if ns != [] && SaveNal(c, ns[0]).1 { SaveAllKeepsLosses(SaveNal(c, ns[0]).0, ns[1..]); }
  }

  lemma HandleCounts(c: Client, packet: seq<byte>)
    ensures Handle(c, packet).0.losses == (if Push(c.re, packet).lost then Add32(c.losses, 1) else c.losses)
    ensures Handle(c, packet).0.re == Push(c.re, packet).state
  {
    hide Push, SaveAll;
    var pushed := Push(c.re, packet);
    var d := c.(re := pushed.state);
    var e := if pushed.lost then d.(losses := Add32(d.losses, 1), au := [], have := false) else d;
    SaveAllKeepsLosses(e, pushed.offered);
  }

  /** How many gaps were reported. */
  function Gaps(c: Client, packets: seq<seq<byte>>): (g: nat)
    ensures g <= |packets| && (g == 0 <==> NoGap(c, packets))
    decreases |packets|
  {
    if packets == [] then 0
    else
      var n := |packets| - 1;
      Gaps(c, packets[..n]) + if Push(Feed(c, packets[..n]).0.re, packets[n]).lost then 1 else 0
  }

  lemma {:induction false} CounterCountsGaps(c: Client, packets: seq<seq<byte>>)
    requires |packets| < TWO32
    ensures var total := c.losses + Gaps(c, packets);
            Feed(c, packets).0.losses == if total < TWO32 then total else total - TWO32
    decreases |packets|
  {
    hide Push, Handle;
    if packets != [] {
      var n := |packets| - 1;
      CounterCountsGaps(c, packets[..n]);
      HandleCounts(Feed(c, packets[..n]).0, packets[n]);
    }
  }

  lemma GapFreePush(r: Reassembly, mtu: nat, ssrc: u32, seqNo: u16, p: Piece)
    requires ValidMtu(mtu) && PieceOk(mtu, p)
    ensures var pushed := Push(r, PacketOf(mtu, ssrc, seqNo, p));
            && pushed.lost == (r.haveSequence && seqNo != r.expected)
            && pushed.state.haveSequence && pushed.state.expected == Number(seqNo, 1)
  {
    hide Header, Stap, Payload;
    PayloadNotEmpty(mtu, p);
    HeaderFields(p.nal.marker && Ends(mtu, p), seqNo, p.nal.ts, ssrc, Payload(mtu, p));
  }

  lemma SameNumberIff(s: u16, q: nat, i: nat)
    ensures Number(s, i) == Number(s, q + 1) <==> (i - q - 1) % TWO16 == 0
  {
    if Number(s, i) == Number(s, q + 1) {
      var a, b := (s + i) / TWO16, (s + q + 1) / TWO16;
      assert i - q - 1 == (a - b) * TWO16;
    }
  }

  /** After piece q, a gap is reported before piece i if and only if their numbers do not follow each other; so what
      is skipped or repeated goes unnoticed exactly when it comes to a multiple of 65536 packets. */
  lemma GapIsReportedIff(r: Reassembly, mtu: nat, ssrc: u32, s: u16, ps: seq<Piece>, q: nat, i: nat)
    requires ValidMtu(mtu) && i < |ps| && PieceOk(mtu, ps[i])
    requires r.haveSequence && r.expected == Number(s, q + 1)
    ensures Push(r, PacketOf(mtu, ssrc, Number(s, i), ps[i])).lost <==> (i - q - 1) % TWO16 != 0
    ensures !Unmistaken(q, i) <==> i != q + 1 && !Push(r, PacketOf(mtu, ssrc, Number(s, i), ps[i])).lost
  {
    hide Push, PacketOf, Number, PieceOk;
    GapFreePush(r, mtu, ssrc, Number(s, i), ps[i]);
    SameNumberIff(s, q, i);
  }

  lemma PayloadNotEmpty(mtu: nat, p: Piece)
    requires ValidMtu(mtu) && PieceOk(mtu, p)
    ensures |Payload(mtu, p)| > 0
  {
  }

  /** The packets the channel delivers, numbered by their place in the stream. */
  function Picked(mtu: nat, ssrc: u32, s: u16, ps: seq<Piece>, channel: seq<nat>): (r: seq<seq<byte>>)
    requires ValidMtu(mtu) && forall j :: 0 <= j < |channel| ==> channel[j] < |ps|
    ensures |r| == |channel|
    ensures forall j :: 0 <= j < |channel| ==> r[j] == PacketOf(mtu, ssrc, Number(s, channel[j]), ps[channel[j]])
  {
    seq(|channel|, j requires 0 <= j < |channel| => PacketOf(mtu, ssrc, Number(s, channel[j]), ps[channel[j]]))
  }

  /** Piece i is the next to come: it is the expected one, and a packet of that number is that piece; or nothing
      was received before, and it comes. */
  predicate Joins(c: Client, s: u16, i: nat, channel: seq<nat>) {
    if c.re.haveSequence then c.re.expected == Number(s, i) && (channel == [] || Joinable(i, channel[0]))
    else channel == [] || channel[0] == i
  }

  predicate Joinable(i: nat, first: nat) { first == i || (first - i) % TWO16 != 0 }

  lemma JoinedIsNext(s: u16, i: nat, first: nat)
    requires Joinable(i, first) && Number(s, first) == Number(s, i)
    ensures first == i
  {
    if i > 0 {
      SuccessorIsUnique(s, i - 1, first);
    } else {
      SuccessorIsUnique(Number(s, 0), 0, first + 1);
    }
  }

  lemma ClearPrefix(channel: seq<nat>, n: nat)
    requires Clear(channel) && n <= |channel|
    ensures Clear(channel[..n])
  {
    hide Unmistaken;
    forall m | 0 <= m < n ensures ClearAt(channel[..n], m) { assert ClearAt(channel, m); }
  }

  /** Without a reported gap the channel delivers consecutive packets. */
  lemma {:induction false} NoGapIsConsecutive(c: Client, mtu: nat, ssrc: u32, s: u16, ps: seq<Piece>, i: nat,
                                              channel: seq<nat>)
    requires ValidMtu(mtu) && AllOk(mtu, ps) && Clear(channel)
    requires forall j :: 0 <= j < |channel| ==> channel[j] < |ps|
    requires Joins(c, s, i, channel) && NoGap(c, Picked(mtu, ssrc, s, ps, channel))
    ensures forall j :: 0 <= j < |channel| ==> channel[j] == i + j
    ensures var d := Feed(c, Picked(mtu, ssrc, s, ps, channel)).0;
            channel != [] ==> d.re.haveSequence && d.re.expected == Number(s, i + |channel|)
    decreases |channel|
  {
    hide Push, Handle, PacketOf, Number, PieceOk;
    if channel != [] {
      var n := |channel| - 1;
      var init := channel[..n];
      var packets := Picked(mtu, ssrc, s, ps, channel);
      assert packets[..n] == Picked(mtu, ssrc, s, ps, init);
      ClearPrefix(channel, n);
      NoGapIsConsecutive(c, mtu, ssrc, s, ps, i, init);
      var d := Feed(c, packets[..n]).0;
      var k := channel[n];
      GapFreePush(d.re, mtu, ssrc, Number(s, k), ps[k]);
      HandleCounts(d, packets[n]);
      if n > 0 {
        assert init[n - 1] == i + (n - 1) && ClearAt(channel, n);
        if !Push(d.re, packets[n]).lost { SuccessorIsUnique(s, channel[n - 1], k); }
      } else if c.re.haveSequence {
        JoinedIsNext(s, i, k);
      }
      NumberAdds(s, k, 1);
      forall j | 0 <= j < |channel| ensures channel[j] == i + j { if j < n { assert channel[j] == init[j]; } }
    }
  }

  lemma FeedGrows(c: Client, a: seq<seq<byte>>, b: seq<seq<byte>>)
    ensures Feed(c, a).1 <= Feed(c, a + b).1
  {
    hide Feed;
    FeedAppend(c, a, b);
  }

  lemma {:induction false} PiecesOfPicturesAppend(mtu: nat, a: seq<Picture>, b: seq<Picture>)
    requires ValidMtu(mtu) && (forall i :: 0 <= i < |a + b| ==> PictureOk((a + b)[i]))
    ensures (forall i :: 0 <= i < |a| ==> PictureOk(a[i])) && (forall i :: 0 <= i < |b| ==> PictureOk(b[i]))
    ensures PiecesOfPictures(mtu, a + b) == PiecesOfPictures(mtu, a) + PiecesOfPictures(mtu, b)
    decreases |a|
  {
    hide PiecesOfPicture, PictureOk;
    forall i | 0 <= i < |a| ensures PictureOk(a[i]) { assert (a + b)[i] == a[i]; }
    forall i | 0 <= i < |b| ensures PictureOk(b[i]) { assert (a + b)[|a| + i] == b[i]; }
    if a == [] {
      assert a + b == b;
    } else {
      assert (a + b)[1..] == a[1..] + b && (a + b)[0] == a[0];
      PiecesOfPicturesAppend(mtu, a[1..], b);
    }
  }

  lemma PictureFitsAt(mtu: nat, pics: seq<Picture>, k: nat)
    requires ValidMtu(mtu) && (forall i :: 0 <= i < |pics| ==> PictureOk(pics[i])) && k <= |pics|
    ensures var whole, front := PiecesOfPictures(mtu, pics), PiecesOfPictures(mtu, pics[..k]);
            && whole == front + PiecesOfPictures(mtu, pics[k..])
            && (k < |pics| ==>
                  PiecesOfPictures(mtu, pics[k..]) ==
                    PiecesOfPicture(mtu, pics[k]) + PiecesOfPictures(mtu, pics[k + 1..]))
  {
    hide PiecesOfPicture, PictureOk;
    assert pics[..k] + pics[k..] == pics;
    PiecesOfPicturesAppend(mtu, pics[..k], pics[k..]);
    if k < |pics| { assert pics[k..][1..] == pics[k + 1..]; }
  }

  /** Consecutive packets from piece i on are the packets of the pieces that stand there. */
  lemma PickedIsPackets(mtu: nat, ssrc: u32, s: u16, ps: seq<Piece>, i: nat, a: seq<Piece>, channel: seq<nat>)
    requires ValidMtu(mtu) && AllOk(mtu, ps) && AllOk(mtu, a) && i + |a| <= |ps| && ps[i..i + |a|] == a
    requires forall j :: 0 <= j < |channel| ==> channel[j] < |ps| && channel[j] == i + j
    ensures var packets, all := Picked(mtu, ssrc, s, ps, channel), Packets(mtu, ssrc, Number(s, i), a);
            packets <= all || all <= packets
  {
    hide PacketOf, Number, PieceOk;
    var packets, all := Picked(mtu, ssrc, s, ps, channel), Packets(mtu, ssrc, Number(s, i), a);
    forall j | 0 <= j < Min(|channel|, |a|) ensures packets[j] == all[j] {
      assert ps[i + j] == a[j];
      NumberAdds(s, i, j);
    }
  }

  lemma FirstUnit(c: Client, packets: seq<seq<byte>>, all: seq<seq<byte>>)
    requires packets <= all || all <= packets
    requires Feed(c, packets).1 != [] && Feed(c, all).1 != []
    ensures Feed(c, packets).1[0] == Feed(c, all).1[0]
  {
    hide Feed;
    if packets <= all {
      assert all == packets + all[|packets|..];
      FeedGrows(c, packets, all[|packets|..]);
    } else {
      assert packets == all + packets[|all|..];
      FeedGrows(c, all, packets[|all|..]);
    }
  }

  /** Of a stream delivered in any way that leaves the numbers clear: the next unit the client returns
      after a complete one, if its loss counter has not moved, is exactly the next unit sent. */
  lemma UnflaggedUnitIsIntact(c: Client, mtu: nat, ssrc: u32, s: u16, pics: seq<Picture>, k: nat, channel: seq<nat>)
    requires ValidMtu(mtu) && (forall i :: 0 <= i < |pics| ==> PictureOk(pics[i])) && k < |pics|
    requires AllOk(mtu, PiecesOfPictures(mtu, pics)) && Clear(channel)
    requires (forall j :: 0 <= j < |channel| ==> channel[j] < |PiecesOfPictures(mtu, pics)|) && |channel| < TWO32
    requires Ready(c, Number(s, |PiecesOfPictures(mtu, pics[..k])|)) && !c.have
    requires Joins(c, s, |PiecesOfPictures(mtu, pics[..k])|, channel)
    ensures var (d, us) := Feed(c, Picked(mtu, ssrc, s, PiecesOfPictures(mtu, pics), channel));
            d.losses == c.losses && us != [] ==> us[0] == Unit(Bytes(pics[k].nals), pics[k].ts, ssrc)
  {
    hide Feed, PacketOf, Packets, PictureOk, PieceOk, AllOk, PiecesOfPicture, PiecesOfPictures, Bytes, Gaps, NoGap;
    hide Number;
    var ps, i := PiecesOfPictures(mtu, pics), |PiecesOfPictures(mtu, pics[..k])|;
    var packets := Picked(mtu, ssrc, s, ps, channel);
    var (d, us) := Feed(c, packets);
    CounterCountsGaps(c, packets);
    if d.losses == c.losses && us != [] {
      PictureFitsAt(mtu, pics, k);
      NoGapIsConsecutive(c, mtu, ssrc, s, ps, i, channel);
      var a, b := PiecesOfPicture(mtu, pics[k]), PiecesOfPictures(mtu, pics[k + 1..]);
      OnePictureArrives(c, mtu, ssrc, Number(s, i), pics[k]);
      assert ps[i..i + |a|] == a;
      PickedIsPackets(mtu, ssrc, s, ps, i, a, channel);
      FirstUnit(c, packets, Packets(mtu, ssrc, Number(s, i), a));
    }
  }

  // ------------------------------------------------ whole sessions

  /** A unit handed to the packetizer: its bytes, its timestamp, and how many of its packets the callback takes. */
  datatype Call = Call(data: seq<byte>, ts: u32, accepts: nat)

  /** The NALs the packetizer sends if it can: those before the first that is empty or too long. */
  function NalsSent(c: Call): (ns: seq<Nal>)
    ensures NonEmpty(ns)
  {
    if c.data == [] then [] else var ns := NalsOf(c.data, c.ts); ns[..Sized(ns)]
  }

  /** The pieces that use up a number: those taken by the callback, and the one it refuses. */
  function Numbered(mtu: nat, c: Call): seq<Piece>
    requires ValidMtu(mtu)
  {
    var ps := PiecesOfAll(mtu, NalsSent(c));
    ps[..Min(|ps|, c.accepts + 1)]
  }

  function TakenOf(mtu: nat, c: Call): nat
    requires ValidMtu(mtu)
  {
    Min(|PiecesOfAll(mtu, NalsSent(c))|, c.accepts)
  }

  /** All pieces of a session, by their numbers. */
  function Session(mtu: nat, calls: seq<Call>): seq<Piece>
    requires ValidMtu(mtu)
  {
    if calls == [] then [] else Session(mtu, calls[..|calls| - 1]) + Numbered(mtu, calls[|calls| - 1])
  }

  /** The places in it of those the callback took. */
  function Taken(mtu: nat, calls: seq<Call>): (places: seq<nat>)
    requires ValidMtu(mtu)
    ensures forall j :: 0 <= j < |places| ==> places[j] < |Session(mtu, calls)|
  {
    if calls == [] then []
    else
      var n := |calls| - 1;
      Taken(mtu, calls[..n]) + seq(TakenOf(mtu, calls[n]), j => |Session(mtu, calls[..n])| + j)
  }

  /** NALs of the types that stand for themselves in a packet. */
  predicate Typed(ns: seq<Nal>) { forall i :: 0 <= i < |ns| ==> ns[i].data != [] && 1 <= ns[i].data[0] % 32 <= 23 }

  lemma {:induction false} PiecesOfAllAreStream(mtu: nat, ns: seq<Nal>)
    requires ValidMtu(mtu) && NonEmpty(ns) && forall i :: 0 <= i < |ns| ==> Sendable(ns[i])
    ensures Stream(mtu, PiecesOfAll(mtu, ns))
  {
    hide Pieces, Stream, Sendable;
    if ns == [] {
      EmptyIsStream(mtu);
    } else {
      PiecesAreStream(mtu, ns[0]);
      PiecesOfAllAreStream(mtu, ns[1..]);
      StreamAppend(mtu, Pieces(mtu, ns[0]), PiecesOfAll(mtu, ns[1..]));
    }
  }

  lemma EmptyIsStream(mtu: nat)
    requires ValidMtu(mtu)
    ensures Stream(mtu, [])
  {
  }

  lemma NumberedIsStream(mtu: nat, c: Call)
    requires ValidMtu(mtu) && Typed(NalsSent(c))
    ensures Stream(mtu, Numbered(mtu, c))
  {
    hide Stream, PiecesOfAll, NalsOf;
    PiecesOfAllAreStream(mtu, NalsSent(c));
    var ps := PiecesOfAll(mtu, NalsSent(c));
    StreamPrefix(mtu, ps, Min(|ps|, c.accepts + 1));
  }

  /** Whatever units are sent and whichever packets are refused: what was numbered is a stream. */
  lemma {:induction false} SessionIsStream(mtu: nat, calls: seq<Call>)
    requires ValidMtu(mtu) && forall i :: 0 <= i < |calls| ==> Typed(NalsSent(calls[i]))
    ensures Stream(mtu, Session(mtu, calls))
  {
    hide Stream, Numbered, NalsSent, Typed;
    if calls == [] {
      EmptyIsStream(mtu);
    } else {
      var n := |calls| - 1;
      SessionIsStream(mtu, calls[..n]);
      NumberedIsStream(mtu, calls[n]);
      StreamAppend(mtu, Session(mtu, calls[..n]), Numbered(mtu, calls[n]));
    }
  }

  predicate IsNalOf(c: Call, n: Nal) { n in NalsOf(c.data, c.ts) }

  /** The NAL is one of the units of the session. */
  ghost predicate Of(calls: seq<Call>, n: Nal) { exists i :: 0 <= i < |calls| && IsNalOf(calls[i], n) }

  lemma {:induction false} PieceIsOf(mtu: nat, ns: seq<Nal>, i: nat)
    requires ValidMtu(mtu) && NonEmpty(ns) && i < |PiecesOfAll(mtu, ns)|
    ensures PiecesOfAll(mtu, ns)[i].nal in ns
    decreases |ns|
  {
    hide Pieces;
    if ns != [] {
      var n := |Pieces(mtu, ns[0])|;
      if i < n { PieceIsOfNal(mtu, ns[0], i); } else { PieceIsOf(mtu, ns[1..], i - n); }
    }
  }

  lemma PieceIsOfNal(mtu: nat, n: Nal, i: nat)
    requires ValidMtu(mtu) && n.data != [] && i < |Pieces(mtu, n)|
    ensures Pieces(mtu, n)[i].nal == n
  {
    if !Fits(mtu, |n.data|) { FragmentIsOfNal(mtu, n, 1, i); }
  }

  lemma {:induction false} FragmentIsOfNal(mtu: nat, n: Nal, offset: nat, i: nat)
    requires ValidMtu(mtu) && 1 <= offset <= |n.data| && i < |Fragments(mtu, n, offset)|
    ensures Fragments(mtu, n, offset)[i].nal == n
    decreases |n.data| - offset
  {
    if i > 0 { FragmentIsOfNal(mtu, n, offset + Size(mtu, Piece(n, offset)), i - 1); }
  }

  lemma {:induction false} SessionPieceIsOf(mtu: nat, calls: seq<Call>, i: nat)
    requires ValidMtu(mtu) && i < |Session(mtu, calls)|
    ensures Of(calls, Session(mtu, calls)[i].nal)
    decreases |calls|
  {
    hide NalsOf, PiecesOfAll;
    if calls != [] {
      var n := |calls| - 1;
      var front := Session(mtu, calls[..n]);
      if i < |front| {
        SessionPieceIsOf(mtu, calls[..n], i);
        var j :| 0 <= j < n && IsNalOf(calls[..n][j], front[i].nal);
        assert calls[j] == calls[..n][j];
      } else {
        PieceIsOf(mtu, NalsSent(calls[n]), i - |front|);
        assert IsNalOf(calls[n], Session(mtu, calls)[i].nal);
      }
    }
  }

  /** Any number of units, any packets of them refused, and those that were sent received in any way that leaves the
      numbers clear: every NAL delivered is byte for byte one of a unit that was handed to the packetizer. */
  lemma SessionIsSound(mtu: nat, ssrc: u32, s: u16, calls: seq<Call>, channel: seq<nat>)
    requires ValidMtu(mtu) && (forall i :: 0 <= i < |calls| ==> Typed(NalsSent(calls[i])))
    requires channel != [] && NearlyClear(channel) && forall j :: 0 <= j < |channel| ==> channel[j] in Taken(mtu, calls)
    ensures AllOk(mtu, Session(mtu, calls)) && forall j :: 0 <= j < |channel| ==> channel[j] < |Session(mtu, calls)|
    ensures var nals := Delivered(mtu, ssrc, s, Session(mtu, calls), channel);
            nals == [] || (|nals| == 1 && Of(calls, nals[0]))
  {
    hide Session, Taken, Typed, Delivered, Receive, Sound, Of, NearlyClear, Linked;
    var ps := Session(mtu, calls);
    SessionIsStream(mtu, calls);
    var places := Taken(mtu, calls);
    forall j | 0 <= j < |channel| ensures channel[j] < |ps| {
      assert channel[j] in places;
    }
    OnlySentNalsAreDelivered(mtu, ssrc, s, ps, channel);
    SessionPieceIsOf(mtu, calls, channel[|channel| - 1]);
  }
}

/** Sender and receiver as the C code runs them. */
module RtpTransport {
  import opened Machine
  import opened RtpSpec
  import opened AccessUnitSpec

  /** What sending these pieces from number s on comes to when the callback takes `accepts` packets: the
      first packets of them, and the next number, a refused packet having used one up. */
  predicate Emitted(mtu: nat, ssrc: u32, ps: seq<Piece>, s: u16, accepts: nat, sent: seq<seq<byte>>, after: u16)
    requires ValidMtu(mtu)
  {
    && sent == Packets(mtu, ssrc, s, ps)[..Min(|ps|, accepts)]
    && after == Number(s, |sent| + (if |ps| <= accepts then 0 else 1))
  }

  /** A call adds the pieces it numbers to the session, and sends those that were taken. */
  lemma SessionGrows(mtu: nat, ssrc: u32, s: u16, calls: seq<Call>, c: Call, packets: seq<seq<byte>>, middle: u16,
                     after: u16)
    requires ValidMtu(mtu) && middle == Number(s, |Session(mtu, calls)|)
    requires if c.data == [] then packets == [] && after == middle
             else Emitted(mtu, ssrc, PiecesOfAll(mtu, NalsSent(c)), middle, c.accepts, packets, after)
    ensures after == Number(s, |Session(mtu, calls + [c])|)
    ensures Picked(mtu, ssrc, s, Session(mtu, calls), Taken(mtu, calls)) + packets
         == Picked(mtu, ssrc, s, Session(mtu, calls + [c]), Taken(mtu, calls + [c]))
  {
    hide PacketOf, Number, PiecesOfAll, NalsSent, Session, Taken;
    var ps, front, more := PiecesOfAll(mtu, NalsSent(c)), Session(mtu, calls), Session(mtu, calls + [c]);
    SessionSnoc(mtu, calls, c);
    NothingNumbered(mtu, c);
    NumberAdds(s, |front|, |Numbered(mtu, c)|);
    var a, b := Picked(mtu, ssrc, s, front, Taken(mtu, calls)) + packets,
        Picked(mtu, ssrc, s, more, Taken(mtu, calls + [c]));
    var n := |Taken(mtu, calls)|;
    assert |a| == |b|;
    forall j | 0 <= j < |a| ensures a[j] == b[j] {
      if j >= n {
        NumberAdds(s, |front|, j - n);
        assert more[|front| + (j - n)] == ps[j - n];
      } else {
        assert more[Taken(mtu, calls)[j]] == front[Taken(mtu, calls)[j]];
      }
    }
  }

  lemma SessionSnoc(mtu: nat, calls: seq<Call>, c: Call)
    requires ValidMtu(mtu)
    ensures Session(mtu, calls + [c]) == Session(mtu, calls) + Numbered(mtu, c)
    ensures Taken(mtu, calls + [c]) == Taken(mtu, calls) + seq(TakenOf(mtu, c), j => |Session(mtu, calls)| + j)
  {
    hide Numbered, TakenOf;
    assert (calls + [c])[..|calls|] == calls;
  }

  lemma NoCalls(mtu: nat, calls: seq<Call>)
    requires ValidMtu(mtu)
    ensures Session(mtu, calls[..0]) == [] && Taken(mtu, calls[..0]) == []
  {
  }

  lemma NothingNumbered(mtu: nat, c: Call)
    requires ValidMtu(mtu)
    ensures c.data == [] ==> Numbered(mtu, c) == [] && PiecesOfAll(mtu, NalsSent(c)) == []
  {
  }

  class Packetizer {
    var sequence: u16
    const ssrc: u32
    const mtu: nat

    constructor (requested: u16, id: u32)
      ensures sequence == 1 && ssrc == id && mtu == InitMtu(requested) && ValidMtu(mtu)
    {
      sequence, ssrc := 1, id;
      mtu := InitMtu(requested);
    }

    /** emit_packet: takes a sequence number even when the callback refuses the packet. */
    method Emit(p: Piece, accepts: nat) returns (sent: seq<seq<byte>>)
      requires ValidMtu(mtu)
      modifies this
      ensures sequence == Number(old(sequence), 1)
      ensures sent == if accepts == 0 then [] else [PacketOf(mtu, ssrc, old(sequence), p)]
    {
      var payload := Payload(mtu, p);
      var packet := Header(p.nal.marker && Ends(mtu, p), sequence, p.nal.ts, ssrc) + payload;
      sequence := Number(sequence, 1);
      sent := if accepts == 0 then [] else [packet];
    }

    /** The FU-A loop; the callback takes `accepts` more packets and then refuses. */
    method SendFragments(n: Nal, accepts: nat) returns (sent: seq<seq<byte>>, ok: bool)
      requires ValidMtu(mtu) && !Fits(mtu, |n.data|)
      modifies this
      ensures Emitted(mtu, ssrc, Pieces(mtu, n), old(sequence), accepts, sent, sequence)
      ensures ok <==> |Pieces(mtu, n)| <= accepts
    {
      hide PacketOf, Number, Fragments, Size;
      ghost var ps, s := Pieces(mtu, n), sequence;
      ghost var all := Packets(mtu, ssrc, s, ps);
      NumberZero(s);
      sent, ok := [], false;
      var offset := 1;
      while offset < |n.data|
        invariant 1 <= offset <= |n.data| && |sent| <= |ps| && |sent| <= accepts
        invariant ps[|sent|..] == Fragments(mtu, n, offset)
        invariant sent == all[..|sent|] && sequence == Number(s, |sent|)
        decreases |n.data| - offset
      {
        var p := Piece(n, offset);
        FragmentsStep(mtu, n, offset);
        assert ps[|sent|..][0] == p && ps[|sent|] == p;
        var emitted := Emit(p, accepts - |sent|);
        NumberAdds(s, |sent|, 1);
        if |emitted| == 0 { return; }
        assert all[..|sent| + 1] == all[..|sent|] + [all[|sent|]];
        assert ps[|sent| + 1..] == ps[|sent|..][1..];
        sent := sent + emitted;
        offset := offset + Size(mtu, p);
      }
      FragmentsEnd(mtu, n);
      ok := true;
    }

    /** rtp_h264_packetize_marker. */
    method PacketizeNal(n: Nal, accepts: nat) returns (sent: seq<seq<byte>>, ok: bool)
      requires ValidMtu(mtu)
      modifies this
      ensures !(1 <= |n.data| <= MAX_NAL) ==> !ok && sent == [] && sequence == old(sequence)
      ensures 1 <= |n.data| <= MAX_NAL ==>
                && Emitted(mtu, ssrc, Pieces(mtu, n), old(sequence), accepts, sent, sequence)
                && (ok <==> |Pieces(mtu, n)| <= accepts)
    {
      hide PacketOf, Number;
      if |n.data| == 0 || |n.data| > MAX_NAL { return [], false; }
      if Fits(mtu, |n.data|) {
        NumberZero(sequence);
        sent := Emit(Piece(n, 0), accepts);
        ok := accepts > 0;
      } else {
        sent, ok := SendFragments(n, accepts);
      }
    }

    /** rtp_h264_packetize_access_unit: the packets of the unit's NALs, numbered in a row, up to the
        first refused packet or the first NAL that is too long. */
    method PacketizeAccessUnit(data: seq<byte>, ts: u32, accepts: nat) returns (sent: seq<seq<byte>>, ok: bool)
      requires ValidMtu(mtu)
      modifies this
      ensures data == [] ==> !ok && sent == [] && sequence == old(sequence)
      ensures data != [] ==>
                var ns := NalsOf(data, ts);
                var k := Sized(ns);
                var ps := PiecesOfAll(mtu, ns[..k]);
                && Emitted(mtu, ssrc, ps, old(sequence), accepts, sent, sequence)
                && (ok <==> |ps| <= accepts && k == |ns| && ns != [])
    {
      hide PacketOf, Number, Pieces, CodeAt, Packets, Emitted, NalsOf;
      if data == [] { return [], false; }
      var ns := SplitUnit(data, ts);
      ghost var s, k := sequence, Sized(ns);
      sent := [];
      EmittedNothing(mtu, ssrc, s, accepts);
      assert ns[..0] == [];
      var i := 0;
      while i < |ns|
        invariant 0 <= i <= k && NonEmpty(ns[..i])
        invariant var done := PiecesOfAll(mtu, ns[..i]);
                  |sent| == |done| <= accepts && Emitted(mtu, ssrc, done, s, accepts, sent, sequence)
      {
        ghost var done, middle := PiecesOfAll(mtu, ns[..i]), sequence;
        var packets, whole := PacketizeNal(ns[i], accepts - |sent|);
        if i < k {
          PiecesSnoc(mtu, ns, i);
          EmittedMore(mtu, ssrc, done, Pieces(mtu, ns[i]), s, accepts, sent, middle, packets, sequence);
        }
        if !whole {
          if i < k { EmittedStays(mtu, ssrc, ns, i + 1, k, s, accepts, sent + packets, sequence); }
          else { assert sent + packets == sent; }
          return sent + packets, false;
        }
        sent := sent + packets;
        i := i + 1;
      }
      assert ns[..i] == ns;
      ok := ns != [];
    }

    /** Any number of units one after the other: every packet the callback took is sent, in order, as the piece of the
        session it is, under the number of its place there. */
    method SendUnits(calls: seq<Call>) returns (sent: seq<seq<byte>>)
      requires ValidMtu(mtu)
      modifies this
      ensures sequence == Number(old(sequence), |Session(mtu, calls)|)
      ensures sent == Picked(mtu, ssrc, old(sequence), Session(mtu, calls), Taken(mtu, calls))
    {
      hide PacketOf, Number, PiecesOfAll, NalsOf, Session, Taken, Emitted;
      sent := [];
      ghost var s := sequence;
      NumberZero(s);
      NoCalls(mtu, calls);
      var i := 0;
      while i < |calls|
        invariant 0 <= i <= |calls| && sequence == Number(s, |Session(mtu, calls[..i])|)
        invariant sent == Picked(mtu, ssrc, s, Session(mtu, calls[..i]), Taken(mtu, calls[..i]))
      {
        ghost var middle := sequence;
        var packets, _ := PacketizeAccessUnit(calls[i].data, calls[i].ts, calls[i].accepts);
        SessionGrows(mtu, ssrc, s, calls[..i], calls[i], packets, middle, sequence);
        assert calls[..i + 1] == calls[..i] + [calls[i]];
        sent := sent + packets;
        i := i + 1;
      }
      assert calls[..i] == calls;
    }

    /** The scan for start codes. */
    method SplitUnit(data: seq<byte>, ts: u32) returns (ns: seq<Nal>)
      ensures ns == NalsOf(data, ts)
    {
      hide CodeAt;
      hide NalsFrom;
      var first := Scan(data, 0);
      if first == |data| { return [Nal(data, ts, true)]; }
      ns := [];
      assert ns + NalsFrom(data, first, ts) == NalsFrom(data, first, ts);
      var offset := first;
      while offset < |data|
        invariant first <= offset <= |data| && (offset == |data| || CodeAt(data, offset) > 0)
        invariant NalsFrom(data, first, ts) == ns + NalsFrom(data, offset, ts)
        decreases |data| - offset
      {
        var start := offset + CodeAt(data, offset);
        var next := Scan(data, start);
        var nal := if start < next then [Nal(data[start..next], ts, next == |data|)] else [];
        NalsFromStep(data, offset, ts);
        Regroup(ns, nal, NalsFrom(data, next, ts));
        ns := ns + nal;
        offset := next;
      }
      NalsFromEnd(data, ts);
      assert ns + [] == ns;
    }

    method Scan(data: seq<byte>, from: nat) returns (next: nat)
      requires from <= |data|
      ensures next == NextCode(data, from)
    {
      hide CodeAt;
      next := from;
      while next < |data| && CodeAt(data, next) == 0
        invariant from <= next <= |data| && NextCode(data, from) == NextCode(data, next)
      {
        next := next + 1;
      }
    }
  }

  lemma FragmentsStep(mtu: nat, n: Nal, offset: nat)
    requires ValidMtu(mtu) && 1 <= offset < |n.data|
    ensures var p := Piece(n, offset);
            offset < offset + Size(mtu, p) <= |n.data|
                && Fragments(mtu, n, offset) == [p] + Fragments(mtu, n, offset + Size(mtu, p))
  {
  }

  lemma FragmentsEnd(mtu: nat, n: Nal)
    requires ValidMtu(mtu) && n.data != []
    ensures Fragments(mtu, n, |n.data|) == []
  {
  }

  lemma NalsFromStep(d: seq<byte>, i: nat, ts: u32)
    requires i < |d| && CodeAt(d, i) > 0
    ensures var start := i + CodeAt(d, i);
            var next := NextCode(d, start);
            NalsFrom(d, i, ts) == (if start < next then [Nal(d[start..next], ts, next == |d|)] else [])
                + NalsFrom(d, next, ts)
  {
    hide CodeAt;
  }

  lemma NalsFromEnd(d: seq<byte>, ts: u32)
    ensures NalsFrom(d, |d|, ts) == []
  {
  }

  lemma EmittedNothing(mtu: nat, ssrc: u32, s: u16, accepts: nat)
    requires ValidMtu(mtu)
    ensures PiecesOfAll(mtu, []) == [] && Emitted(mtu, ssrc, [], s, accepts, [], s)
  {
    NumberZero(s);
  }

  lemma EmittedMore(mtu: nat, ssrc: u32, a: seq<Piece>, b: seq<Piece>, s: u16, accepts: nat,
                    sent: seq<seq<byte>>, middle: u16, more: seq<seq<byte>>, after: u16)
    requires ValidMtu(mtu) && |a| <= accepts
    requires Emitted(mtu, ssrc, a, s, accepts, sent, middle)
             && Emitted(mtu, ssrc, b, middle, accepts - |a|, more, after)
    ensures Emitted(mtu, ssrc, a + b, s, accepts, sent + more, after)
    ensures |sent| == |a| && (|b| <= accepts - |a| ==> |sent + more| == |a + b|)
  {
    hide PacketOf, Number;
    var all := Packets(mtu, ssrc, s, a + b);
    forall j | 0 <= j < |sent + more| ensures (sent + more)[j] == all[j] {
      if j >= |a| { NumberAdds(s, |a|, j - |a|); }
    }
    NumberAdds(s, |a|, |more| + (if |a + b| <= accepts then 0 else 1));
  }

  /** A refusal before the end of the first i NALs is one before the end of the first k. */
  lemma {:induction false} EmittedStays(mtu: nat, ssrc: u32, ns: seq<Nal>, i: nat, k: nat, s: u16, accepts: nat,
                                        sent: seq<seq<byte>>, after: u16)
    requires ValidMtu(mtu) && i <= k <= |ns| && NonEmpty(ns[..i]) && NonEmpty(ns[..k])
    requires accepts < |PiecesOfAll(mtu, ns[..i])|
             && Emitted(mtu, ssrc, PiecesOfAll(mtu, ns[..i]), s, accepts, sent, after)
    ensures accepts < |PiecesOfAll(mtu, ns[..k])|
            && Emitted(mtu, ssrc, PiecesOfAll(mtu, ns[..k]), s, accepts, sent, after)
    decreases k - i
  {
    hide Pieces, PacketOf, Number;
    if i < k {
      assert ns[i] == ns[..k][i];
      PiecesSnoc(mtu, ns, i);
      EmittedStays(mtu, ssrc, ns, i + 1, k, s, accepts, sent, after);
    }
  }

  lemma {:induction false} PiecesSnoc(mtu: nat, ns: seq<Nal>, i: nat)
    requires ValidMtu(mtu) && i < |ns| && NonEmpty(ns[..i]) && ns[i].data != []
    ensures NonEmpty(ns[..i + 1])
    ensures PiecesOfAll(mtu, ns[..i + 1]) == PiecesOfAll(mtu, ns[..i]) + Pieces(mtu, ns[i])
  {
    hide Pieces;
    assert ns[..i + 1] == ns[..i] + [ns[i]];
    PiecesOfAppend(mtu, ns[..i], ns[i]);
  }

  lemma {:induction false} PiecesOfAppend(mtu: nat, ns: seq<Nal>, n: Nal)
    requires ValidMtu(mtu) && NonEmpty(ns) && n.data != []
    ensures NonEmpty(ns + [n])
    ensures PiecesOfAll(mtu, ns + [n]) == PiecesOfAll(mtu, ns) + Pieces(mtu, n)
    decreases |ns|
  {
    hide Pieces;
    if ns == [] {
      assert ns + [n] == [n] && [n][1..] == [];
    } else {
      PiecesOfAppend(mtu, ns[1..], n);
      assert (ns + [n])[1..] == ns[1..] + [n] && (ns + [n])[0] == ns[0];
    }
  }

  class Reassembler {
    var haveSequence: bool
    var expectedSequence: u16
    var assembling: bool
    var buffer: seq<byte>
    var timestamp: u32

    ghost function Model(): Reassembly
      reads this
    {
      Reassembly(haveSequence, expectedSequence, assembling, buffer, timestamp)
    }

    constructor ()
      ensures Model() == IDLE
    {
      haveSequence, expectedSequence, assembling, buffer, timestamp := false, 0, false, [], 0;
    }

    method Append(data: seq<byte>) returns (ok: bool)
      modifies this`buffer
      ensures ok <==> |data| <= MAX_NAL - old(|buffer|)
      ensures buffer == if ok then old(buffer) + data else old(buffer)
    {
      if |data| > MAX_NAL - |buffer| { return false; }
      buffer := buffer + data;
      ok := true;
    }

    method AcceptFragment(payload: seq<byte>, ts: u32, marker: bool) returns (offered: seq<Nal>, ok: bool)
      requires |payload| >= 3
      modifies this
      ensures PushFragment(old(Model()), false, payload, ts, marker) == Pushed(Model(), false, offered, ok)
    {
      var start, end := payload[1] / 0x80 == 1, payload[1] / 0x40 % 2 == 1;
      offered := [];
      if start {
        assembling, timestamp, buffer := true, ts, [];
        ok := Append([payload[0] / 32 * 32 + payload[1] % 32]);
        assert buffer == [payload[0] / 32 * 32 + payload[1] % 32];
      }
      if !assembling || ts != timestamp { return [], false; }
      ok := Append(payload[2..]);
      if !ok { return [], false; }
      if end {
        offered := [Nal(buffer, timestamp, marker)];
        assembling, buffer := false, [];
      }
    }

    /** rtp_h264_reassembler_push, up to what the callback is offered. */
    method Accept(packet: seq<byte>) returns (lost: bool, offered: seq<Nal>, ok: bool)
      modifies this
      ensures Push(old(Model()), packet) == Pushed(Model(), lost, offered, ok)
    {
      hide Stap, PushFragment;
      if |packet| <= HEADER_SIZE || packet[0] / 64 != 2 { return false, [], false; }
      var seqNo := U16At(packet, 2);
      lost := haveSequence && seqNo != expectedSequence;
      if lost { assembling, buffer := false, []; }
      haveSequence, expectedSequence := true, Number(seqNo, 1);
      var ts, marker, payload := U32At(packet, 4), packet[1] >= 0x80, packet[HEADER_SIZE..];
      var t := payload[0] % 32;
      if 1 <= t <= 23 { return lost, [Nal(payload, ts, marker)], true; }
      if t == 24 {
        var nals, whole := Aggregated(payload, ts, marker);
        return lost, nals, whole && nals != [];
      }
      if t != 28 || |payload| < 3 { return lost, [], true; }
      ghost var s := Model();
      offered, ok := AcceptFragment(payload, ts, marker);
      FragmentIgnoresLoss(s, lost, payload, ts, marker);
    }
  }

  lemma FragmentIgnoresLoss(r: Reassembly, lost: bool, payload: seq<byte>, ts: u32, marker: bool)
    requires |payload| >= 3
    ensures PushFragment(r, lost, payload, ts, marker) == PushFragment(r, false, payload, ts, marker).(lost := lost)
  {
  }

  lemma PushNeedsHeader(r: Reassembly, packet: seq<byte>)
    ensures Push(r, packet).ok ==> |packet| > HEADER_SIZE
  {
    hide Stap, PushFragment, Sequenced;
  }

  lemma StapStep(payload: seq<byte>, offset: nat, ts: u32, marker: bool)
    requires offset + 2 <= |payload| && 0 < U16At(payload, offset) <= |payload| - offset - 2
    ensures var end := offset + 2 + U16At(payload, offset);
            var (rest, whole) := Stap(payload, end, ts, marker);
            Stap(payload, offset, ts, marker)
              == ([Nal(payload[offset + 2..end], ts, marker && end == |payload|)] + rest, whole)
  {
    hide U16At;
  }

  lemma StapStop(payload: seq<byte>, offset: nat, ts: u32, marker: bool)
    requires offset <= |payload|
    requires offset + 2 <= |payload| ==> U16At(payload, offset) == 0 || U16At(payload, offset) > |payload| - offset - 2
    ensures Stap(payload, offset, ts, marker) == ([], offset == |payload|)
  {
    hide U16At;
  }

  /** The STAP-A loop. */
  method Aggregated(payload: seq<byte>, ts: u32, marker: bool) returns (nals: seq<Nal>, whole: bool)
    requires |payload| >= 1
    ensures (nals, whole) == Stap(payload, 1, ts, marker)
  {
    hide Stap, U16At;
    var offset := 1;
    nals := [];
    assert nals + Stap(payload, 1, ts, marker).0 == Stap(payload, 1, ts, marker).0;
    while offset + 2 <= |payload|
      invariant 1 <= offset <= |payload|
      invariant var (rest, ok) := Stap(payload, offset, ts, marker); Stap(payload, 1, ts, marker) == (nals + rest, ok)
      decreases |payload| - offset
    {
      var length := U16At(payload, offset);
      var at := offset + 2;
      if length == 0 || length > |payload| - at {
        StapStop(payload, offset, ts, marker);
        assert nals + [] == nals;
        return nals, false;
      }
      var nal := Nal(payload[at..at + length], ts, marker && at + length == |payload|);
      StapStep(payload, offset, ts, marker);
      Regroup(nals, [nal], Stap(payload, at + length, ts, marker).0);
      nals := nals + [nal];
      offset := at + length;
    }
    StapStop(payload, offset, ts, marker);
    assert nals + [] == nals;
    whole := offset == |payload|;
  }

  class RtpClient {
    const reassembler: Reassembler
    var accessUnit: seq<byte>
    var haveAccessUnit: bool
    var timestamp: u32
    var losses: u32

    ghost function Model(): Client
      reads this, reassembler
    {
      Client(reassembler.Model(), accessUnit, haveAccessUnit, timestamp, losses)
    }

    constructor ()
      ensures Model() == FRESH && fresh(reassembler)
    {
      reassembler := new Reassembler();
      accessUnit, haveAccessUnit, timestamp, losses := [], false, 0, 0;
    }

    method Save(n: Nal) returns (ok: bool)
      modifies this
      ensures (Model(), ok) == SaveNal(old(Model()), n)
    {
      if !haveAccessUnit || timestamp != n.ts { accessUnit, timestamp, haveAccessUnit := [], n.ts, true; }
      if 4 > MAX_NAL - |accessUnit| { return false; }
      accessUnit := accessUnit + START_CODE;
      if |n.data| > MAX_NAL - |accessUnit| { return false; }
      accessUnit := accessUnit + n.data;
      ok := true;
    }

    method Receive(packet: seq<byte>) returns (unit: Option<Unit>)
      modifies this, reassembler
      ensures (Model(), unit) == Handle(old(Model()), packet)
    {
      hide Push, SaveNal;
      var lost, offered, ok := reassembler.Accept(packet);
      PushNeedsHeader(old(reassembler.Model()), packet);
      if lost { losses, accessUnit, haveAccessUnit := Add32(losses, 1), [], false; }
      ghost var start := Model();
      var saved, i := true, 0;
      while i < |offered| && saved
        invariant 0 <= i <= |offered| && reassembler.Model() == start.re
        invariant saved ==> SaveAll(start, offered) == SaveAll(Model(), offered[i..])
        invariant !saved ==> SaveAll(start, offered) == (Model(), false)
      {
        assert offered[i..][0] == offered[i] && offered[i..][1..] == offered[i + 1..];
        saved := Save(offered[i]);
        i := i + 1;
      }
      if !ok || !saved || packet[1] < 0x80 || accessUnit == [] { return None; }
      unit := Some(Unit(accessUnit, timestamp, U32At(packet, 8)));
      accessUnit, haveAccessUnit := [], false;
    }

    /** rtp_client_read_h264: datagrams are taken until a unit is complete or the socket fails. */
    method Read(datagrams: seq<seq<byte>>) returns (unit: Option<Unit>, used: nat)
      modifies this, reassembler
      ensures used <= |datagrams| && (unit == None ==> used == |datagrams|)
      ensures Feed(old(Model()), datagrams[..used]) == (Model(), if unit.Some? then [unit.value] else [])
    {
      hide Handle;
      used := 0;
      ghost var start := Model();
      while used < |datagrams|
        invariant 0 <= used <= |datagrams|
        invariant Feed(start, datagrams[..used]) == (Model(), [])
      {
        assert datagrams[..used + 1][..used] == datagrams[..used];
        unit := Receive(datagrams[used]);
        used := used + 1;
        if unit.Some? {
          assert [] + [unit.value] == [unit.value];
          return;
        }
      }
      unit := None;
    }
  }
}
