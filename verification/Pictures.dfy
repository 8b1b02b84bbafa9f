/** From the pictures the agent sends to the units the client shows: which packets end a picture, where the
    receiver stands after each unit, and the promise across sender, receiver, source and client. */
module PictureTracking {
  import opened Machine
  import opened RtpSpec
  import opened AccessUnitSpec

  // ------------------------------------------------ the shape of a stream of whole pictures

  /** A fragment that does not end its NAL is followed by the next one. */
  predicate GoesOn(mtu: nat, ps: seq<Piece>, i: nat)
    requires ValidMtu(mtu) && i < |ps|
  {
    ps[i].offset >= 1 && !Ends(mtu, ps[i]) ==> i + 1 < |ps| && Follows(mtu, ps[i], ps[i + 1])
  }

  ghost predicate Uncut(mtu: nat, ps: seq<Piece>)
    requires ValidMtu(mtu)
  {
    forall i :: 0 <= i < |ps| ==> GoesOn(mtu, ps, i)
  }

  /** The piece that a receiver takes for the end of a unit. */
  predicate Marks(mtu: nat, p: Piece)
    requires ValidMtu(mtu)
  {
    p.nal.marker && Ends(mtu, p)
  }

  lemma {:induction false} FragmentsEndOnce(mtu: nat, n: Nal, offset: nat)
    requires ValidMtu(mtu) && 1 <= offset < |n.data|
    ensures var ps := Fragments(mtu, n, offset);
            && ps != [] && ps[0] == Piece(n, offset) && Uncut(mtu, ps)
            && (forall i :: 0 <= i < |ps| ==>
                ps[i].nal == n && ps[i].offset >= 1 && (Ends(mtu, ps[i]) <==> i == |ps| - 1))
    decreases |n.data| - offset
  {
    var p := Piece(n, offset);
    var next := offset + Size(mtu, p);
    var ps, rest := Fragments(mtu, n, offset), Fragments(mtu, n, next);
    assert ps == [p] + rest;
    if next < |n.data| {
      FragmentsEndOnce(mtu, n, next);
      forall i | 0 <= i < |ps| ensures GoesOn(mtu, ps, i) {
        if i > 0 { assert GoesOn(mtu, rest, i - 1); }
      }
    }
  }

  lemma PiecesEndOnce(mtu: nat, n: Nal)
    requires ValidMtu(mtu) && n.data != []
    ensures var ps := Pieces(mtu, n);
            && ps != [] && Uncut(mtu, ps)
            && forall i :: 0 <= i < |ps| ==> ps[i].nal == n && (Ends(mtu, ps[i]) <==> i == |ps| - 1)
  {
    if !Fits(mtu, |n.data|) { FragmentsEndOnce(mtu, n, 1); }
  }

  lemma UncutAppend(mtu: nat, a: seq<Piece>, b: seq<Piece>)
    requires ValidMtu(mtu) && Uncut(mtu, a) && Uncut(mtu, b)
    ensures Uncut(mtu, a + b)
  {
    hide Follows, Ends;
    var ps := a + b;
    forall i | 0 <= i < |ps| ensures GoesOn(mtu, ps, i) {
      if i < |a| { assert GoesOn(mtu, a, i); } else { assert GoesOn(mtu, b, i - |a|); }
    }
  }

  /** Of the pieces of a picture exactly the last one marks its end. */
  lemma {:induction false} NalsMarkOnce(mtu: nat, nals: seq<seq<byte>>, ts: u32)
    requires ValidMtu(mtu) && nals != [] && NalsOk(nals)
    ensures NonEmpty(Tagged(nals, ts))
    ensures var ps := PiecesOfAll(mtu, Tagged(nals, ts));
            && ps != [] && Uncut(mtu, ps) && forall i :: 0 <= i < |ps| ==> (Marks(mtu, ps[i]) <==> i == |ps| - 1)
    decreases |nals|
  {
    hide Pieces, Ends, Uncut;
    PiecesOfTagged(mtu, nals, ts);
    var n := Nal(nals[0], ts, |nals| == 1);
    PiecesEndOnce(mtu, n);
    var a := Pieces(mtu, n);
    if |nals| == 1 {
      assert PiecesOfAll(mtu, Tagged(nals, ts)) == a;
    } else {
      NalsMarkOnce(mtu, nals[1..], ts);
      var b := PiecesOfAll(mtu, Tagged(nals[1..], ts));
      UncutAppend(mtu, a, b);
      forall i | 0 <= i < |a + b| ensures Marks(mtu, (a + b)[i]) <==> i == |a + b| - 1 {
        if i < |a| { assert (a + b)[i] == a[i]; } else { assert (a + b)[i] == b[i - |a|]; }
      }
    }
  }

  lemma PictureMarksOnce(mtu: nat, p: Picture)
    requires ValidMtu(mtu) && PictureOk(p)
    ensures var ps := PiecesOfPicture(mtu, p);
            && ps != [] && Uncut(mtu, ps) && forall i :: 0 <= i < |ps| ==> (Marks(mtu, ps[i]) <==> i == |ps| - 1)
  {
    hide PiecesOfAll, Uncut, Marks;
    NalsMarkOnce(mtu, p.nals, p.ts);
  }

  ghost predicate AllPictures(pics: seq<Picture>) { forall i :: 0 <= i < |pics| ==> PictureOk(pics[i]) }

  /** How many packets the first k pictures take. */
  ghost function Length(mtu: nat, pics: seq<Picture>, k: nat): nat
    requires ValidMtu(mtu) && AllPictures(pics) && k <= |pics|
  {
    |PiecesOfPictures(mtu, pics[..k])|
  }

  lemma LengthStep(mtu: nat, pics: seq<Picture>, k: nat)
    requires ValidMtu(mtu) && AllPictures(pics) && k < |pics|
    ensures Length(mtu, pics, k + 1) == Length(mtu, pics, k) + |PiecesOfPicture(mtu, pics[k])| > Length(mtu, pics, k)
  {
    hide PiecesOfPicture, PiecesOfPictures, PictureOk;
    PictureMarksOnce(mtu, pics[k]);
    PicturesSnoc(mtu, pics[..k], pics[k]);
    assert pics[..k + 1] == pics[..k] + [pics[k]];
  }

  lemma PicturesSnoc(mtu: nat, pics: seq<Picture>, p: Picture)
    requires ValidMtu(mtu) && AllPictures(pics) && PictureOk(p)
    ensures AllPictures(pics + [p])
    ensures PiecesOfPictures(mtu, pics + [p]) == PiecesOfPictures(mtu, pics) + PiecesOfPicture(mtu, p)
  {
    hide PiecesOfPicture, PictureOk;
    assert [p][1..] == [];
    PiecesOfPicturesAppend(mtu, pics, [p]);
  }

  lemma {:induction false} LengthGrows(mtu: nat, pics: seq<Picture>, k: nat, m: nat)
    requires ValidMtu(mtu) && AllPictures(pics) && k <= m <= |pics|
    ensures Length(mtu, pics, k) <= Length(mtu, pics, m) && (k < m ==> Length(mtu, pics, k) < Length(mtu, pics, m))
    decreases m - k
  {
    hide Length, PictureOk, PiecesOfPicture;
    if k < m {
      LengthStep(mtu, pics, m - 1);
      LengthGrows(mtu, pics, k, m - 1);
    }
  }

  lemma MarkInLast(mtu: nat, pics: seq<Picture>, p: Picture, i: nat)
    requires ValidMtu(mtu) && AllPictures(pics) && PictureOk(p) && AllPictures(pics + [p])
    requires i < |PiecesOfPictures(mtu, pics + [p])| && Marks(mtu, PiecesOfPictures(mtu, pics + [p])[i])
    ensures var front := PiecesOfPictures(mtu, pics);
            if i < |front| then Marks(mtu, front[i]) else i + 1 == |PiecesOfPictures(mtu, pics + [p])|
  {
    hide PiecesOfPicture, PiecesOfPictures, PictureOk, Marks;
    PicturesSnoc(mtu, pics, p);
    PictureMarksOnce(mtu, p);
    var front, last := PiecesOfPictures(mtu, pics), PiecesOfPicture(mtu, p);
    if i >= |front| { assert (front + last)[i] == last[i - |front|]; }
  }

  lemma SomePicture(mtu: nat, pics: seq<Picture>)
    requires ValidMtu(mtu) && AllPictures(pics) && PiecesOfPictures(mtu, pics) != []
    ensures pics != []
  {
  }

  /** A piece that marks the end of a unit is the last one of a picture. */
  lemma {:induction false} MarkEndsPicture(mtu: nat, pics: seq<Picture>, i: nat) returns (k: nat)
    requires ValidMtu(mtu) && AllPictures(pics) && i < |PiecesOfPictures(mtu, pics)|
             && Marks(mtu, PiecesOfPictures(mtu, pics)[i])
    ensures 1 <= k <= |pics| && i + 1 == Length(mtu, pics, k)
    decreases |pics|
  {
    hide PiecesOfPictures, PictureOk, Marks;
    SomePicture(mtu, pics);
    var n := |pics| - 1;
    var init := pics[..n];
    assert init + [pics[n]] == pics == pics[..|pics|];
    MarkInLast(mtu, init, pics[n], i);
    if i < |PiecesOfPictures(mtu, init)| {
      k := MarkEndsPicture(mtu, init, i);
      assert init[..k] == pics[..k];
    } else {
      k := |pics|;
    }
  }

  lemma {:induction false} PicturesAreUncut(mtu: nat, pics: seq<Picture>)
    requires ValidMtu(mtu) && AllPictures(pics)
    ensures Uncut(mtu, PiecesOfPictures(mtu, pics))
  {
    hide PiecesOfPicture, PictureOk, Uncut;
    if pics == [] {
      EmptyIsUncut(mtu);
    } else {
      PictureMarksOnce(mtu, pics[0]);
      PicturesAreUncut(mtu, pics[1..]);
      UncutAppend(mtu, PiecesOfPicture(mtu, pics[0]), PiecesOfPictures(mtu, pics[1..]));
    }
  }

  lemma EmptyIsUncut(mtu: nat)
    requires ValidMtu(mtu)
    ensures Uncut(mtu, [])
  {
  }

  // ------------------------------------------------ where the receiver stands

  /** After piece q: the next one is expected, and a NAL is being assembled only up to q. */
  ghost predicate Upright(mtu: nat, s: u16, ps: seq<Piece>, r: Reassembly, q: nat)
    requires ValidMtu(mtu) && q < |ps|
  {
    r.haveSequence && r.expected == Number(s, q + 1) && (r.assembling ==> Holds(mtu, ps, r, q, q))
  }

  /** Whatever piece comes next, the receiver stays upright. */
  lemma UprightStep(mtu: nat, ssrc: u32, s: u16, ps: seq<Piece>, r: Reassembly, q: nat, i: nat)
    requires ValidMtu(mtu) && AllOk(mtu, ps) && Uncut(mtu, ps) && q < |ps| && i < |ps|
    requires r == IDLE || (Upright(mtu, s, ps, r, q) && Unmistaken(q, i))
    ensures Upright(mtu, s, ps, Push(r, PacketOf(mtu, ssrc, Number(s, i), ps[i])).state, i)
  {
    hide Push, PacketOf, Payload, Number;
    var p, seqNo := ps[i], Number(s, i);
    var t := Sequenced(r, seqNo);
    NumberAdds(s, i, 1);
    if t.assembling {
      SuccessorIsUnique(s, q, i);
      assert GoesOn(mtu, ps, q);
      assert Continues(t, p);
    }
    if p.offset == 0 {
      PushWhole(r, mtu, ssrc, seqNo, p);
    } else {
      PushPart(r, mtu, ssrc, seqNo, p);
    }
  }

  /** A packet that returns a unit marks the end of a picture and leaves no unit behind. */
  lemma ReturnMarks(c: Client, mtu: nat, ssrc: u32, s: u16, p: Piece)
    requires ValidMtu(mtu) && PieceOk(mtu, p)
    ensures var (d, unit) := Handle(c, PacketOf(mtu, ssrc, s, p));
            unit.Some? ==> Marks(mtu, p) && !d.have
  {
    hide Push, PacketOf, SaveAll, PieceOk;
    PacketHeader(mtu, ssrc, s, p);
  }

  /** The pictures as sent, and the places of the packets that arrive, in any order and multiplicity that leaves
      their numbers clear. */
  ghost predicate Delivery(mtu: nat, pics: seq<Picture>, channel: seq<nat>) {
    && ValidMtu(mtu) && AllPictures(pics) && AllOk(mtu, PiecesOfPictures(mtu, pics)) && Clear(channel)
    && forall j :: 0 <= j < |channel| ==> channel[j] < |PiecesOfPictures(mtu, pics)|
  }

  ghost function Arriving(mtu: nat, ssrc: u32, s: u16, pics: seq<Picture>, channel: seq<nat>): (r: seq<seq<byte>>)
    requires Delivery(mtu, pics, channel)
    ensures |r| == |channel|
  {
    Picked(mtu, ssrc, s, PiecesOfPictures(mtu, pics), channel)
  }

  /** A unit as rtp_client_read_h264 returns it, with the loss counter and the number of packets received by then. */
  datatype Logged = Logged(unit: Unit, losses: u32, at: nat)

  function UnitLog(c: Client, packets: seq<seq<byte>>): seq<Logged>
    decreases |packets|
  {
    if packets == [] then []
    else
      var n := |packets| - 1;
      var (d, unit) := Handle(Feed(c, packets[..n]).0, packets[n]);
      UnitLog(c, packets[..n]) + if unit.Some? then [Logged(unit.value, d.losses, |packets|)] else []
  }

  lemma OneMore(c: Client, packets: seq<seq<byte>>)
    requires packets != []
    ensures var n := |packets| - 1;
            var (d, unit) := Handle(Feed(c, packets[..n]).0, packets[n]);
            Feed(c, packets) == (d, Feed(c, packets[..n]).1 + if unit.Some? then [unit.value] else [])
  {
    hide Handle;
    var us := Feed(c, packets[..|packets| - 1]).1;
    assert us + [] == us;
  }

  /** The last packet of the run returns unit u and leaves the receiver in state d. */
  predicate Returns(packets: seq<seq<byte>>, d: Client, u: Unit)
    requires packets != []
  {
    var n := |packets| - 1;
    Handle(Feed(FRESH, packets[..n]).0, packets[n]) == (d, Some(u))
  }

  /** Between two units: k pictures are behind the receiver, the next one is to come whole. */
  ghost predicate Between(c: Client, mtu: nat, s: u16, pics: seq<Picture>, k: nat)
    requires ValidMtu(mtu) && AllPictures(pics)
  {
    k <= |pics| && Ready(c, Number(s, Length(mtu, pics, k))) && !c.have
  }

  /** After any delivery the receiver is upright at the last packet. */
  lemma {:induction false} StaysUpright(mtu: nat, ssrc: u32, s: u16, pics: seq<Picture>, channel: seq<nat>)
    requires Delivery(mtu, pics, channel) && channel != []
    ensures Upright(mtu, s, PiecesOfPictures(mtu, pics), Feed(FRESH, Arriving(mtu, ssrc, s, pics, channel)).0.re,
                    channel[|channel| - 1])
    decreases |channel|
  {
    hide Push, Handle, PacketOf, Number, PieceOk, PictureOk, PiecesOfPictures, Uncut, Upright, Unmistaken;
    var n := |channel| - 1;
    var init, packets, ps := channel[..n], Arriving(mtu, ssrc, s, pics, channel), PiecesOfPictures(mtu, pics);
    ClearPrefix(channel, n);
    assert ClearAt(channel, n);
    assert packets[..n] == Arriving(mtu, ssrc, s, pics, init);
    var c := Feed(FRESH, packets[..n]).0;
    HandleCounts(c, packets[n]);
    PicturesAreUncut(mtu, pics);
    if n > 0 {
      StaysUpright(mtu, ssrc, s, pics, init);
      assert init[n - 1] == channel[n - 1];
      UprightStep(mtu, ssrc, s, ps, c.re, channel[n - 1], channel[n]);
    } else {
      UprightStep(mtu, ssrc, s, ps, c.re, channel[n], channel[n]);
    }
  }

  /** In every run from a fresh client, whatever the channel did before, the receiver stands between
      two units after each unit it returns. */
  lemma ReturnsBetweenUnits(mtu: nat, ssrc: u32, s: u16, pics: seq<Picture>, channel: seq<nat>, d: Client, u: Unit)
    returns (k: nat)
    requires Delivery(mtu, pics, channel) && channel != []
    requires Returns(Arriving(mtu, ssrc, s, pics, channel), d, u)
    ensures 1 <= k <= |pics| && channel[|channel| - 1] + 1 == Length(mtu, pics, k)
    ensures Between(d, mtu, s, pics, k) && d.re.haveSequence
  {
    hide Handle, PacketOf, Number, PieceOk, PictureOk, PiecesOfPictures;
    var n := |channel| - 1;
    var packets, ps, q := Arriving(mtu, ssrc, s, pics, channel), PiecesOfPictures(mtu, pics), channel[n];
    ReturnMarks(Feed(FRESH, packets[..n]).0, mtu, ssrc, Number(s, q), ps[q]);
    OneMore(FRESH, packets);
    StaysUpright(mtu, ssrc, s, pics, channel);
    k := MarkEndsPicture(mtu, pics, q);
  }

  // ------------------------------------------------ which picture each unit is

  /** While the counter stands still the packets come in order. */
  lemma StillCounterMeansOrder(c: Client, mtu: nat, ssrc: u32, s: u16, pics: seq<Picture>, i: nat, channel: seq<nat>)
    requires Delivery(mtu, pics, channel) && Joins(c, s, i, channel)
    requires |channel| < TWO32 && Feed(c, Arriving(mtu, ssrc, s, pics, channel)).0.losses == c.losses
    ensures forall j :: 0 <= j < |channel| ==> channel[j] == i + j
  {
    hide Feed, PictureOk, PieceOk, PiecesOfPictures, Gaps, NoGap, Number;
    CounterCountsGaps(c, Arriving(mtu, ssrc, s, pics, channel));
    NoGapIsConsecutive(c, mtu, ssrc, s, PiecesOfPictures(mtu, pics), i, channel);
  }

  /** By the last packet of the next picture a unit has come out. */
  lemma PictureBringsUnit(c: Client, mtu: nat, ssrc: u32, s: u16, pics: seq<Picture>, k: nat, channel: seq<nat>, m: nat)
    requires Delivery(mtu, pics, channel) && k < |pics| && Between(c, mtu, s, pics, k)
    requires forall j :: 0 <= j < |channel| ==> channel[j] == Length(mtu, pics, k) + j
    requires |PiecesOfPicture(mtu, pics[k])| <= m <= |channel|
    ensures Feed(c, Arriving(mtu, ssrc, s, pics, channel)[..m]).1 != []
  {
    hide Feed, PacketOf, Packets, PictureOk, PieceOk, PiecesOfPicture, PiecesOfPictures, Bytes, Number;
    var ps, i, a := PiecesOfPictures(mtu, pics), Length(mtu, pics, k), PiecesOfPicture(mtu, pics[k]);
    var packets, all := Arriving(mtu, ssrc, s, pics, channel), Packets(mtu, ssrc, Number(s, i), a);
    PictureFitsAt(mtu, pics, k);
    assert ps[i..i + |a|] == a;
    OnePictureArrives(c, mtu, ssrc, Number(s, i), pics[k]);
    PickedIsPackets(mtu, ssrc, s, ps, i, a, channel);
    assert packets[..m] == all + packets[|a|..m];
    FeedGrows(c, all, packets[|a|..m]);
  }

  /** From between two units: the next unit, if the counter has not moved, is the next picture and ends with it. */
  lemma NextUnitIsNextPicture(c: Client, mtu: nat, ssrc: u32, s: u16, pics: seq<Picture>, k: nat, channel: seq<nat>,
                              e: nat)
    requires Delivery(mtu, pics, channel) && 0 < |channel| < TWO32 && Between(c, mtu, s, pics, k)
    requires Joins(c, s, Length(mtu, pics, k), channel)
    requires e <= |pics| && channel[|channel| - 1] + 1 == Length(mtu, pics, e)
    requires var packets := Arriving(mtu, ssrc, s, pics, channel);
             && Feed(c, packets[..|packets| - 1]).1 == [] && Feed(c, packets).1 != []
             && Feed(c, packets).0.losses == c.losses
    ensures e == k + 1 && Feed(c, Arriving(mtu, ssrc, s, pics, channel)).1[0]
            == Unit(Bytes(pics[k].nals), pics[k].ts, ssrc)
  {
    hide Feed, Picked, PictureOk, PieceOk, PiecesOfPicture, PiecesOfPictures, Bytes, Number;
    StillCounterMeansOrder(c, mtu, ssrc, s, pics, Length(mtu, pics, k), channel);
    if e <= k {
      LengthGrows(mtu, pics, e, k);
      assert false;
    }
    UnflaggedUnitIsIntact(c, mtu, ssrc, s, pics, k, channel);
    LengthStep(mtu, pics, k);
    if e > k + 1 {
      LengthGrows(mtu, pics, k + 1, e);
      PictureBringsUnit(c, mtu, ssrc, s, pics, k, channel, |channel| - 1);
      assert false;
    }
  }

  // ------------------------------------------------ the first unit

  /** How many of the NALs begin before piece o. */
  function Begun(mtu: nat, ns: seq<Nal>, o: nat): (m: nat)
    requires ValidMtu(mtu) && NonEmpty(ns)
    ensures m <= |ns| && (m == 0 <==> o == 0 || ns == [])
  {
    if o == 0 || ns == [] then 0
    else
      var n := |Pieces(mtu, ns[0])|;
      1 + Begun(mtu, ns[1..], if o <= n then 0 else o - n)
  }

  /** Pieces in the middle of a NAL. */
  ghost predicate Orphans(mtu: nat, ps: seq<Piece>)
    requires ValidMtu(mtu)
  {
    AllOk(mtu, ps) && forall i :: 0 <= i < |ps| ==> ps[i].offset > 1
  }

  lemma {:induction false} FragmentsBeyond(mtu: nat, n: Nal, offset: nat)
    requires ValidMtu(mtu) && 1 <= offset <= |n.data|
    ensures forall i :: 0 <= i < |Fragments(mtu, n, offset)| ==> Fragments(mtu, n, offset)[i].offset >= offset
    decreases |n.data| - offset
  {
    if offset < |n.data| { FragmentsBeyond(mtu, n, offset + Size(mtu, Piece(n, offset))); }
  }

  lemma RestIsOrphans(mtu: nat, n: Nal, o: nat)
    requires ValidMtu(mtu) && Sendable(n) && 0 < o <= |Pieces(mtu, n)|
    ensures Orphans(mtu, Pieces(mtu, n)[o..])
  {
    PiecesAreStream(mtu, n);
    if !Fits(mtu, |n.data|) {
      var next := 1 + Size(mtu, Piece(n, 1));
      FragmentsBeyond(mtu, n, next);
      assert Fragments(mtu, n, 1) == [Piece(n, 1)] + Fragments(mtu, n, next);
    }
  }

  /** From piece o on: the rest of a NAL, then whole NALs. */
  lemma {:induction false} TailSplits(mtu: nat, ns: seq<Nal>, ts: u32, o: nat) returns (orphans: seq<Piece>)
    requires ValidMtu(mtu) && AllSendable(ns, ts) && NonEmpty(ns) && o <= |PiecesOfAll(mtu, ns)|
    ensures Orphans(mtu, orphans)
    ensures PiecesOfAll(mtu, ns)[o..] == orphans + PiecesOfAll(mtu, ns[Begun(mtu, ns, o)..])
    decreases |ns|
  {
    hide Pieces, Sendable;
    if o == 0 || ns == [] {
      orphans := [];
      assert ns[0..] == ns;
    } else {
      var a, b := Pieces(mtu, ns[0]), PiecesOfAll(mtu, ns[1..]);
      if o <= |a| {
        orphans := a[o..];
        RestIsOrphans(mtu, ns[0], o);
        assert (a + b)[o..] == a[o..] + b;
        assert ns[1..][0..] == ns[1..];
      } else {
        orphans := TailSplits(mtu, ns[1..], ts, o - |a|);
        assert (a + b)[o..] == b[o - |a|..];
        assert ns[1..][Begun(mtu, ns[1..], o - |a|)..] == ns[Begun(mtu, ns, o)..];
      }
    }
  }

  /** The client before its first NAL. */
  predicate Empty(c: Client, s: u16) { Ready(c, s) && !c.have && c.au == [] && c.losses == 0 }

  /** Pieces in the middle of a NAL come to nothing. */
  lemma {:induction false} OrphansPass(c: Client, mtu: nat, ssrc: u32, s: u16, ps: seq<Piece>)
    requires ValidMtu(mtu) && Orphans(mtu, ps) && Empty(c, s)
    ensures var (d, us) := Feed(c, Packets(mtu, ssrc, s, ps)); Empty(d, Number(s, |ps|)) && us == []
    decreases |ps|
  {
    hide Push, PacketOf, Handle, Number, Feed, PieceOk;
    if ps == [] {
      NothingSent(c, mtu, ssrc, s);
      NumberZero(s);
    } else {
      var rest, packet := ps[1..], PacketOf(mtu, ssrc, s, ps[0]);
      assert [ps[0]] + rest == ps;
      OrphanPasses(c, mtu, ssrc, s, ps[0]);
      PacketsCons(mtu, ssrc, s, ps[0], rest);
      FirstOfFeed(c, packet, Packets(mtu, ssrc, Number(s, 1), rest));
      OrphansPass(Handle(c, packet).0, mtu, ssrc, Number(s, 1), rest);
      NumberAdds(s, 1, |rest|);
      assert [] + Feed(Handle(c, packet).0, Packets(mtu, ssrc, Number(s, 1), rest)).1 == [];
    }
  }

  lemma OrphanPasses(c: Client, mtu: nat, ssrc: u32, s: u16, p: Piece)
    requires ValidMtu(mtu) && PieceOk(mtu, p) && p.offset > 1 && Empty(c, s)
    ensures var (d, unit) := Handle(c, PacketOf(mtu, ssrc, s, p)); Empty(d, Number(s, 1)) && unit.None?
  {
    hide Push, PacketOf, PieceOk;
    PushPart(c.re, mtu, ssrc, s, p);
  }

  /** Reception from piece o of a picture on: its last NALs, those that begin there or later, come out as a unit. */
  lemma TailArrives(mtu: nat, ssrc: u32, s: u16, p: Picture, o: nat)
    requires ValidMtu(mtu) && PictureOk(p) && o < |PiecesOfPicture(mtu, p)|
    ensures AllOk(mtu, PiecesOfPicture(mtu, p)[o..])
    ensures var tail := PiecesOfPicture(mtu, p)[o..];
            var m := Begun(mtu, Tagged(p.nals, p.ts), o);
            var (d, us) := Feed(FRESH, Packets(mtu, ssrc, s, tail));
            && Ready(d, Number(s, |tail|)) && !d.have && d.losses == 0
            && us == if m < |p.nals| then [Unit(Bytes(p.nals[m..]), p.ts, ssrc)] else []
  {
    hide Feed, Packets, Number, PiecesOfAll, PictureOk, AllOk, Bytes, Begun, Orphans, Empty, Ready, AllSendable;
    var ns := Tagged(p.nals, p.ts);
    var m := Begun(mtu, ns, o);
    AllAreSendable(p);
    var orphans := TailSplits(mtu, ns, p.ts, o);
    var rest := PiecesOfAll(mtu, ns[m..]);
    FreshIsEmpty(s);
    OrphansPass(FRESH, mtu, ssrc, s, orphans);
    var c, next := Feed(FRESH, Packets(mtu, ssrc, s, orphans)).0, Number(s, |orphans|);
    RestArrivesEmpty(c, mtu, ssrc, next, p, m);
    OrphansAreOk(mtu, orphans);
    FeedInTwo(FRESH, mtu, ssrc, s, orphans, rest);
    var us := Feed(c, Packets(mtu, ssrc, next, rest)).1;
    assert [] + us == us;
  }

  /** The NALs from m on arrive at a client that has none. */
  lemma RestArrivesEmpty(c: Client, mtu: nat, ssrc: u32, s: u16, p: Picture, m: nat)
    requires ValidMtu(mtu) && PictureOk(p) && m <= |p.nals| && Empty(c, s)
    ensures NonEmpty(Tagged(p.nals, p.ts)[m..]) && AllOk(mtu, PiecesOfAll(mtu, Tagged(p.nals, p.ts)[m..]))
    ensures var rest := PiecesOfAll(mtu, Tagged(p.nals, p.ts)[m..]);
            var (d, us) := Feed(c, Packets(mtu, ssrc, s, rest));
            && Ready(d, Number(s, |rest|)) && !d.have && d.losses == 0
            && us == if m < |p.nals| then [Unit(Bytes(p.nals[m..]), p.ts, ssrc)] else []
  {
    hide Feed, Packets, Number, PiecesOfAll, NalOk, AllOk, Bytes;
    var ns := Tagged(p.nals, p.ts)[m..];
    if m < |p.nals| {
      assert ns == Tagged(p.nals[m..], p.ts);
      BytesOfRest(p.nals, m);
      PictureArrives(c, mtu, ssrc, s, p.nals[m..], p.ts);
      assert [] + Bytes(p.nals[m..]) == Bytes(p.nals[m..]);
    } else {
      assert ns == [];
      NoNals(mtu);
      NothingSent(c, mtu, ssrc, s);
      NumberZero(s);
    }
  }

  lemma NoNals(mtu: nat)
    requires ValidMtu(mtu)
    ensures PiecesOfAll(mtu, []) == []
  {
  }

  lemma OrphansAreOk(mtu: nat, ps: seq<Piece>)
    requires ValidMtu(mtu) && Orphans(mtu, ps)
    ensures AllOk(mtu, ps)
  {
  }

  lemma FreshIsEmpty(s: u16)
    ensures Empty(FRESH, s)
  {
  }

  lemma AllAreSendable(p: Picture)
    requires PictureOk(p)
    ensures AllSendable(Tagged(p.nals, p.ts), p.ts) && NonEmpty(Tagged(p.nals, p.ts))
  {
    hide Bytes;
    forall i | 0 <= i < |p.nals| ensures |p.nals[i]| <= MAX_NAL { NalWithin(p.nals, i); }
  }

  lemma {:induction false} BytesOfRest(nals: seq<seq<byte>>, m: nat)
    requires m <= |nals|
    ensures |Bytes(nals[m..])| + 4 * m <= |Bytes(nals)|
    decreases m
  {
    if m == 0 {
      assert nals[0..] == nals;
    } else {
      BytesOfRest(nals[1..], m - 1);
      assert nals[1..][m - 1..] == nals[m..];
    }
  }

  /** Piece i belongs to picture k. */
  ghost predicate Within(mtu: nat, pics: seq<Picture>, k: nat, i: nat)
    requires ValidMtu(mtu) && AllPictures(pics)
  {
    k < |pics| && Length(mtu, pics, k) <= i < Length(mtu, pics, k + 1)
  }

  lemma {:induction false} Located(mtu: nat, pics: seq<Picture>, n: nat, i: nat) returns (k: nat)
    requires ValidMtu(mtu) && AllPictures(pics) && n <= |pics| && i < Length(mtu, pics, n)
    ensures Within(mtu, pics, k, i) && k < n
    decreases n
  {
    NoneIsNothing(mtu, pics);
    hide Length;
    if i >= Length(mtu, pics, n - 1) { k := n - 1; } else { k := Located(mtu, pics, n - 1, i); }
  }

  lemma NoneIsNothing(mtu: nat, pics: seq<Picture>)
    requires ValidMtu(mtu) && AllPictures(pics)
    ensures Length(mtu, pics, 0) == 0
  {
  }

  lemma WithinOne(mtu: nat, pics: seq<Picture>, k: nat, m: nat, i: nat)
    requires ValidMtu(mtu) && AllPictures(pics) && Within(mtu, pics, k, i) && Within(mtu, pics, m, i)
    ensures k == m
  {
    hide Length;
    if k < m { LengthGrows(mtu, pics, k + 1, m); }
    if m < k { LengthGrows(mtu, pics, m + 1, k); }
  }

  /** How many NALs of picture k begin before piece i of the stream. */
  ghost function Missed(mtu: nat, pics: seq<Picture>, k: nat, i: nat): (m: nat)
    requires ValidMtu(mtu) && AllPictures(pics) && Within(mtu, pics, k, i)
    ensures m <= |pics[k].nals|
  {
    Begun(mtu, Tagged(pics[k].nals, pics[k].ts), i - Length(mtu, pics, k))
  }

  /** Piece i is the first of a picture, or comes behind the first one of the last NAL of a picture. */
  ghost predicate StartsWhole(mtu: nat, pics: seq<Picture>, i: nat)
    requires ValidMtu(mtu) && AllPictures(pics)
  {
    exists k: nat :: Within(mtu, pics, k, i)
        && (Missed(mtu, pics, k, i) == 0 || Missed(mtu, pics, k, i) == |pics[k].nals|)
  }

  /** The pieces of the stream from i on, up to the end of picture k. */
  lemma TailOfPicture(mtu: nat, pics: seq<Picture>, k: nat, i: nat)
    requires ValidMtu(mtu) && AllPictures(pics) && Within(mtu, pics, k, i)
    ensures var a, o := PiecesOfPicture(mtu, pics[k]), i - Length(mtu, pics, k);
            && 0 <= o < |a| && i + |a| - o == Length(mtu, pics, k + 1) <= |PiecesOfPictures(mtu, pics)|
            && PiecesOfPictures(mtu, pics)[i..Length(mtu, pics, k + 1)] == a[o..]
  {
    hide PictureOk, PiecesOfPicture, PiecesOfPictures;
    LengthStep(mtu, pics, k);
    PictureFitsAt(mtu, pics, k);
    MiddlePart(PiecesOfPictures(mtu, pics[..k]), PiecesOfPicture(mtu, pics[k]), PiecesOfPictures(mtu, pics[k + 1..]),
               i);
  }

  lemma MiddlePart<T>(front: seq<T>, a: seq<T>, rest: seq<T>, i: nat)
    requires |front| <= i < |front| + |a|
    ensures (front + (a + rest))[i..|front| + |a|] == a[i - |front|..]
  {
  }

  /** What comes out first when reception begins at piece i, in picture k, and the packets come in order: nothing
      before the end of that picture, and then its NALs that begin at i or later. */
  lemma FirstPicture(mtu: nat, ssrc: u32, s: u16, pics: seq<Picture>, k: nat, channel: seq<nat>)
    requires Delivery(mtu, pics, channel) && channel != [] && Within(mtu, pics, k, channel[0])
    requires forall j :: 0 <= j < |channel| ==> channel[j] == channel[0] + j
    ensures var i, m, packets := channel[0], Missed(mtu, pics, k, channel[0]), Arriving(mtu, ssrc, s, pics, channel);
            var n := Length(mtu, pics, k + 1) - i;
            && (|channel| <= n ==> Feed(FRESH, packets).1 <= FirstOf(pics[k], m, ssrc))
            && (n <= |channel| ==>
                  var (d, us) := Feed(FRESH, packets[..n]);
                  us == FirstOf(pics[k], m, ssrc) && Between(d, mtu, s, pics, k + 1) && d.losses == 0)
  {
    hide Feed, PacketOf, Packets, PictureOk, PieceOk, PiecesOfPicture, PiecesOfPictures, Bytes, Number, Begun, Length;
    var ps, i, packets := PiecesOfPictures(mtu, pics), channel[0], Arriving(mtu, ssrc, s, pics, channel);
    var n, o := Length(mtu, pics, k + 1) - i, i - Length(mtu, pics, k);
    TailOfPicture(mtu, pics, k, i);
    var tail := PiecesOfPicture(mtu, pics[k])[o..];
    TailArrives(mtu, ssrc, Number(s, i), pics[k], o);
    PickedIsPackets(mtu, ssrc, s, ps, i, tail, channel);
    var all := Packets(mtu, ssrc, Number(s, i), tail);
    NumberAdds(s, i, n);
    if |channel| <= n {
      assert all == packets + all[|packets|..];
      FeedGrows(FRESH, packets, all[|packets|..]);
    }
    if n <= |channel| { assert packets[..n] == all; }
  }

  ghost function FirstOf(p: Picture, m: nat, ssrc: u32): seq<Unit>
    requires m <= |p.nals|
  {
    if m < |p.nals| then [Unit(Bytes(p.nals[m..]), p.ts, ssrc)] else []
  }

  /** The first unit, if the counter has not moved: reception began in picture k behind the first packets of m of its
      NALs, and the unit is the rest of that picture, or if there is none the next one. */
  lemma FirstUnitIs(mtu: nat, ssrc: u32, s: u16, pics: seq<Picture>, channel: seq<nat>, e: nat, d: Client, u: Unit)
    returns (k: nat)
    requires Delivery(mtu, pics, channel) && 0 < |channel| < TWO32
    requires e <= |pics| && channel[|channel| - 1] + 1 == Length(mtu, pics, e)
    requires var packets := Arriving(mtu, ssrc, s, pics, channel);
             Feed(FRESH, packets[..|packets| - 1]).1 == [] && Feed(FRESH, packets) == (d, [u]) && d.losses == 0
    ensures Within(mtu, pics, k, channel[0])
    ensures var m := Missed(mtu, pics, k, channel[0]);
            if m < |pics[k].nals| then e == k + 1 && u == Unit(Bytes(pics[k].nals[m..]), pics[k].ts, ssrc)
            else e == k + 2 && u == Unit(Bytes(pics[k + 1].nals), pics[k + 1].ts, ssrc)
  {
    hide Feed, Arriving, AllPictures, PiecesOfPictures, Bytes, Number, Length, Missed, Between, AllOk, Clear, FirstOf;
    var packets, i, n := Arriving(mtu, ssrc, s, pics, channel), channel[0], |channel|;
    WholeLength(mtu, pics);
    k := Located(mtu, pics, |pics|, i);
    FreshJoins(s, channel);
    StillCounterMeansOrder(FRESH, mtu, ssrc, s, pics, i, channel);
    FirstPicture(mtu, ssrc, s, pics, k, channel);
    var m, size := Missed(mtu, pics, k, i), Length(mtu, pics, k + 1) - i;
    assert channel[n - 1] == i + (n - 1);
    FirstOfIs(pics[k], m, ssrc);
    if m < |pics[k].nals| {
      if n > size {
        assert packets[..n - 1] == packets[..size] + packets[size..n - 1];
        FeedGrows(FRESH, packets[..size], packets[size..n - 1]);
        assert false;
      }
      EndsHere(mtu, pics, k, e, i, n);
      assert [u] <= FirstOf(pics[k], m, ssrc) && [u][0] == u;
    } else {
      assert n > size;
      SecondPicture(mtu, ssrc, s, pics, channel, size, k + 1, e, d, u);
    }
  }

  lemma FreshJoins(s: u16, channel: seq<nat>)
    requires channel != []
    ensures Joins(FRESH, s, channel[0], channel)
  {
  }

  lemma FirstOfIs(p: Picture, m: nat, ssrc: u32)
    requires m <= |p.nals|
    ensures FirstOf(p, m, ssrc) == if m < |p.nals| then [Unit(Bytes(p.nals[m..]), p.ts, ssrc)] else []
  {
  }

  lemma EndsHere(mtu: nat, pics: seq<Picture>, k: nat, e: nat, i: nat, n: nat)
    requires ValidMtu(mtu) && AllPictures(pics) && Within(mtu, pics, k, i) && n > 0 && e <= |pics|
    requires i + n == Length(mtu, pics, e) <= Length(mtu, pics, k + 1)
    ensures e == k + 1
  {
    hide Length;
    if e <= k { LengthGrows(mtu, pics, e, k); }
    if e > k + 1 { LengthGrows(mtu, pics, k + 1, e); }
  }

  /** The first unit when only the last of picture k - 1 was received before, and nothing came of it. */
  lemma SecondPicture(mtu: nat, ssrc: u32, s: u16, pics: seq<Picture>, channel: seq<nat>, size: nat, k: nat, e: nat,
                      d: Client, u: Unit)
    requires Delivery(mtu, pics, channel) && 0 < size < |channel| < TWO32 && k <= |pics|
    requires e <= |pics| && channel[|channel| - 1] + 1 == Length(mtu, pics, e) && channel[size] == Length(mtu, pics, k)
    requires var packets := Arriving(mtu, ssrc, s, pics, channel);
             var (c, us) := Feed(FRESH, packets[..size]);
             && us == [] && Between(c, mtu, s, pics, k) && c.losses == 0
             && Feed(FRESH, packets[..|packets| - 1]).1 == [] && Feed(FRESH, packets) == (d, [u]) && d.losses == 0
    ensures e == k + 1 && u == Unit(Bytes(pics[k].nals), pics[k].ts, ssrc)
  {
    hide Feed, Arriving, AllPictures, PiecesOfPictures, AllOk, Bytes, Length, Number;
    var packets, rest := Arriving(mtu, ssrc, s, pics, channel), channel[size..];
    var n, c, tail := |packets| - 1, Feed(FRESH, packets[..size]).0, packets[size..];
    RestArrives(mtu, ssrc, s, pics, channel, size);
    SplitFeed(packets, size);
    SplitFeed(packets[..n], size);
    assert packets[..n][..size] == packets[..size] && packets[..n][size..] == tail[..n - size];
    var us, vs := Feed(c, tail).1, Feed(c, tail[..n - size]).1;
    assert [] + us == us && [] + vs == vs;
    NextUnitIsNextPicture(c, mtu, ssrc, s, pics, k, rest, e);
  }

  /** The first unit is a picture as sent if and only if reception began with the first packet of a picture, or
      behind the first one of the last NAL of a picture. */
  lemma FirstUnitIsWholeIff(mtu: nat, ssrc: u32, s: u16, pics: seq<Picture>, channel: seq<nat>, e: nat, d: Client,
                            u: Unit)
    requires Delivery(mtu, pics, channel) && 0 < |channel| < TWO32
    requires 1 <= e <= |pics| && channel[|channel| - 1] + 1 == Length(mtu, pics, e)
    requires var packets := Arriving(mtu, ssrc, s, pics, channel);
             Feed(FRESH, packets[..|packets| - 1]).1 == [] && Feed(FRESH, packets) == (d, [u]) && d.losses == 0
    ensures u == Unit(Bytes(pics[e - 1].nals), pics[e - 1].ts, ssrc) <==> StartsWhole(mtu, pics, channel[0])
  {
    hide Feed, Arriving, Bytes, Length, Begun, PictureOk, PiecesOfPictures, AllOk, Clear;
    var k := FirstUnitIs(mtu, ssrc, s, pics, channel, e, d, u);
    var nals, m := pics[k].nals, Missed(mtu, pics, k, channel[0]);
    BytesOfRest(nals, m);
    assert nals[0..] == nals;
    assert m == 0 || m == |nals| ==> StartsWhole(mtu, pics, channel[0]);
    if StartsWhole(mtu, pics, channel[0]) {
      var j: nat :| Within(mtu, pics, j, channel[0]) &&
               (Missed(mtu, pics, j, channel[0]) == 0 || Missed(mtu, pics, j, channel[0]) == |pics[j].nals|);
      WithinOne(mtu, pics, j, k, channel[0]);
    }
  }

  /** A picture of two NALs, an SEI message and an IDR slice. */
  const TWO_NALS: Picture := Picture([[6], [5]], 0)

  lemma TwoNalsOk()
    ensures PictureOk(TWO_NALS)
  {
    var none: seq<seq<byte>> := [];
    assert TWO_NALS.nals[1..] == [[5]] && TWO_NALS.nals[1..][1..] == none;
    assert Bytes(none) == [];
    assert Bytes([[5]]) == START_CODE + [5] + Bytes(none);
    assert Bytes(TWO_NALS.nals) == START_CODE + [6] + Bytes([[5]]);
  }

  lemma ShortNal(mtu: nat, n: Nal)
    requires ValidMtu(mtu) && |n.data| == 1 && 1 <= n.data[0] % 32 <= 23
    ensures Pieces(mtu, n) == [Piece(n, 0)] && PieceOk(mtu, Piece(n, 0))
  {
  }

  lemma TwoNals(mtu: nat)
    requires ValidMtu(mtu)
    ensures AllPictures([TWO_NALS]) && PiecesOfPicture(mtu, TWO_NALS) == PiecesOfPictures(mtu, [TWO_NALS])
    ensures PiecesOfPictures(mtu, [TWO_NALS]) == [Piece(Nal([6], 0, false), 0), Piece(Nal([5], 0, true), 0)]
    ensures AllOk(mtu, PiecesOfPictures(mtu, [TWO_NALS])) && Begun(mtu, Tagged(TWO_NALS.nals, 0), 1) == 1
  {
    hide Pieces, PieceOk, PictureOk;
    TwoNalsOk();
    var a, b, nals := Nal([6], 0, false), Nal([5], 0, true), TWO_NALS.nals;
    ShortNal(mtu, a);
    ShortNal(mtu, b);
    var ns := Tagged(nals, 0);
    assert ns == [a, b] && ns[1..] == [b] && ns[1..][1..] == [];
    assert PiecesOfAll(mtu, ns[1..]) == [Piece(b, 0)] + PiecesOfAll(mtu, []);
    assert PiecesOfAll(mtu, ns) == [Piece(a, 0)] + [Piece(b, 0)];
    assert [TWO_NALS][1..] == [];
  }

  /** Reception that begins with the second packet: the first unit is not the picture that was sent, and nothing is
      counted as lost. */
  lemma LateStartLosesTheHead(mtu: nat, ssrc: u32, s: u16)
    requires ValidMtu(mtu)
    ensures Delivery(mtu, [TWO_NALS], [1]) && !StartsWhole(mtu, [TWO_NALS], 1)
    ensures UnitLog(FRESH, Arriving(mtu, ssrc, s, [TWO_NALS], [1])) == [Logged(Unit(Bytes([[5]]), 0, ssrc), 0, 1)]
  {
    hide Handle, Feed, PacketOf, Number, Begun, Bytes, PieceOk, PiecesOfPicture, PiecesOfPictures, Packets;
    TwoNalsOk();
    TwoNals(mtu);
    assert ClearAt([1], 0);
    var packets := Arriving(mtu, ssrc, s, [TWO_NALS], [1]);
    var tail := PiecesOfPicture(mtu, TWO_NALS)[1..];
    TailArrives(mtu, ssrc, Number(s, 1), TWO_NALS, 1);
    NumberAdds(s, 1, 0);
    assert packets == Packets(mtu, ssrc, Number(s, 1), tail);
    assert TWO_NALS.nals[1..] == [[5]];
    assert packets[..0] == [];
    OneMore(FRESH, packets);
    FeedNothing(FRESH);
    assert UnitLog(FRESH, packets[..0]) == [];
    NotWhole(mtu);
  }

  lemma NotWhole(mtu: nat)
    requires ValidMtu(mtu)
    ensures AllPictures([TWO_NALS]) && !StartsWhole(mtu, [TWO_NALS], 1)
  {
    hide Begun, PictureOk, PiecesOfPictures;
    TwoNals(mtu);
    NoneIsNothing(mtu, [TWO_NALS]);
  }

  lemma WholeLength(mtu: nat, pics: seq<Picture>)
    requires ValidMtu(mtu) && AllPictures(pics)
    ensures Length(mtu, pics, |pics|) == |PiecesOfPictures(mtu, pics)|
  {
    hide PictureOk, PiecesOfPictures;
    assert pics[..|pics|] == pics;
  }

  /** The counter did not move since the unit before, or the start, within fewer than 2^32 packets. */
  predicate Still(log: seq<Logged>, i: nat)
    requires i < |log|
  {
    log[i].losses == Counter(log[..i]) && log[i].at < LastAt(log[..i]) + TWO32
  }

  /** Unit i ended with picture ks[i] - 1. If the counter stood still, unit i is that picture byte for byte, and the
      one sent after the picture of the unit before. For the first unit it depends on where reception began. */
  ghost predicate TrackedAt(log: seq<Logged>, pics: seq<Picture>, ssrc: u32, whole: bool, ks: seq<nat>, i: nat)
    requires |ks| == |log| && i < |log|
  {
    && 1 <= ks[i] <= |pics|
    && ((i > 0 || whole) && Still(log, i) ==>
          && (i > 0 ==> ks[i] == ks[i - 1] + 1)
          && log[i].unit == Unit(Bytes(pics[ks[i] - 1].nals), pics[ks[i] - 1].ts, ssrc))
  }

  ghost predicate Tracked(log: seq<Logged>, pics: seq<Picture>, ssrc: u32, whole: bool, ks: seq<nat>) {
    |ks| == |log| && forall i :: 0 <= i < |log| ==> TrackedAt(log, pics, ssrc, whole, ks, i)
  }

  function Behind(ks: seq<nat>): nat { if ks == [] then 0 else ks[|ks| - 1] }

  function Counter(log: seq<Logged>): u32 { if log == [] then 0 else log[|log| - 1].losses }

  function LastAt(log: seq<Logged>): nat { if log == [] then 0 else log[|log| - 1].at }

  /** The last unit came with packet at - 1, and none since. */
  ghost predicate LastReturn(packets: seq<seq<byte>>, channel: seq<nat>, mtu: nat, s: u16, pics: seq<Picture>,
                             log: seq<Logged>, ks: seq<nat>, at: nat)
    requires ValidMtu(mtu) && AllPictures(pics) && at <= |packets| == |channel|
  {
    var c := Feed(FRESH, packets[..at]).0;
    && c.losses == Counter(log) && at == LastAt(log) && Feed(c, packets[at..]).1 == []
    && (if ks == [] then at == 0
        else at > 0 && c.re.haveSequence && Between(c, mtu, s, pics, Behind(ks))
             && Length(mtu, pics, Behind(ks)) == channel[at - 1] + 1)
  }

  lemma TrackedGrows(log: seq<Logged>, pics: seq<Picture>, ssrc: u32, whole: bool, ks: seq<nat>, entry: Logged, k: nat)
    requires Tracked(log, pics, ssrc, whole, ks) && 1 <= k <= |pics|
    requires (log != [] || whole) && entry.losses == Counter(log) && entry.at < LastAt(log) + TWO32 ==>
               && (log != [] ==> k == Behind(ks) + 1)
               && entry.unit == Unit(Bytes(pics[k - 1].nals), pics[k - 1].ts, ssrc)
    ensures Tracked(log + [entry], pics, ssrc, whole, ks + [k])
  {
    hide Bytes;
    var more, ls := log + [entry], ks + [k];
    forall i | 0 <= i < |more| ensures TrackedAt(more, pics, ssrc, whole, ls, i) {
      if i < |log| {
        assert TrackedAt(log, pics, ssrc, whole, ks, i) && more[..i] == log[..i];
      } else {
        assert more[..i] == log;
      }
    }
  }

  lemma SplitFeed(packets: seq<seq<byte>>, at: nat)
    requires at <= |packets|
    ensures var (d, us) := Feed(FRESH, packets[..at]);
            var (e, vs) := Feed(d, packets[at..]);
            Feed(FRESH, packets) == (e, us + vs)
  {
    hide Feed;
    assert packets[..at] + packets[at..] == packets;
    FeedAppend(FRESH, packets[..at], packets[at..]);
  }

  /** Seen from the last return: only the last packet brings a unit. */
  lemma SinceLastReturn(packets: seq<seq<byte>>, at: nat, d: Client, u: Unit)
    requires at < |packets| && Feed(Feed(FRESH, packets[..at]).0, packets[at..|packets| - 1]).1 == []
    requires Returns(packets, d, u)
    ensures var tail, c := packets[at..], Feed(FRESH, packets[..at]).0;
            Feed(c, tail[..|tail| - 1]).1 == [] && Feed(c, tail) == (d, [u])
  {
    hide Handle, Feed;
    var n, tail := |packets| - 1, packets[at..];
    var init := packets[..n];
    SplitFeed(init, at);
    OneMore(Feed(FRESH, packets[..at]).0, tail);
    assert init[..at] == packets[..at] && init[at..] == packets[at..n] == tail[..n - at];
    assert [] + [u] == [u];
  }

  /** A unit returned by the last packet, against the last one before it. */
  lemma ReturnedUnit(mtu: nat, ssrc: u32, s: u16, pics: seq<Picture>, channel: seq<nat>, whole: bool,
                     packets: seq<seq<byte>>, log: seq<Logged>, ks: seq<nat>, at: nat, k: nat, d: Client, u: Unit)
    requires Delivery(mtu, pics, channel) && channel != [] && at < |channel| < at + TWO32
    requires whole ==> StartsWhole(mtu, pics, channel[0])
    requires 1 <= k <= |pics| && channel[|channel| - 1] + 1 == Length(mtu, pics, k)
    requires packets == Arriving(mtu, ssrc, s, pics, channel) && Returns(packets, d, u)
    requires LastReturn(packets[..|packets| - 1], channel[..|channel| - 1], mtu, s, pics, log, ks, at)
    requires (ks != [] || whole) && d.losses == Counter(log) && (ks == [] <==> log == [])
    ensures (ks != [] ==> k == Behind(ks) + 1) && u == Unit(Bytes(pics[k - 1].nals), pics[k - 1].ts, ssrc)
  {
    hide Handle, Feed, Arriving, AllPictures, PiecesOfPictures, AllOk, Bytes, Length, Between, Joins, Returns;
    hide StartsWhole;
    var n, c, rest := |packets| - 1, Feed(FRESH, packets[..at]).0, channel[at..];
    assert packets[..n][..at] == packets[..at] && packets[..n][at..] == packets[at..n];
    SinceLastReturn(packets, at, d, u);
    if ks == [] {
      assert packets[0..] == packets && packets[..0] == [];
      FeedNothing(FRESH);
      FirstUnitIsWholeIff(mtu, ssrc, s, pics, channel, k, d, u);
    } else {
      RestArrives(mtu, ssrc, s, pics, channel, at);
      JoinsBetween(c, mtu, s, pics, Behind(ks), channel, at);
      NextUnitIsNextPicture(c, mtu, ssrc, s, pics, Behind(ks), rest, k);
    }
  }

  lemma RestArrives(mtu: nat, ssrc: u32, s: u16, pics: seq<Picture>, channel: seq<nat>, at: nat)
    requires Delivery(mtu, pics, channel) && at <= |channel|
    ensures Delivery(mtu, pics, channel[at..])
    ensures Arriving(mtu, ssrc, s, pics, channel[at..]) == Arriving(mtu, ssrc, s, pics, channel)[at..]
  {
    hide PacketOf, PictureOk, PieceOk, PiecesOfPictures, Number, Unmistaken;
    var rest := channel[at..];
    forall n | 0 <= n < |rest| ensures ClearAt(rest, n) { assert ClearAt(channel, at + n); }
  }

  lemma JoinsBetween(c: Client, mtu: nat, s: u16, pics: seq<Picture>, k: nat, channel: seq<nat>, at: nat)
    requires ValidMtu(mtu) && AllPictures(pics) && Between(c, mtu, s, pics, k) && c.re.haveSequence && Clear(channel)
    requires 0 < at < |channel| && Length(mtu, pics, k) == channel[at - 1] + 1
    ensures Joins(c, s, Length(mtu, pics, k), channel[at..])
  {
    hide PictureOk, Number, Length;
    assert ClearAt(channel, at);
  }

  lemma FirstArrive(mtu: nat, ssrc: u32, s: u16, pics: seq<Picture>, channel: seq<nat>, n: nat)
    requires Delivery(mtu, pics, channel) && n <= |channel|
    ensures Delivery(mtu, pics, channel[..n])
    ensures Arriving(mtu, ssrc, s, pics, channel[..n]) == Arriving(mtu, ssrc, s, pics, channel)[..n]
  {
    hide PacketOf, PictureOk, PieceOk, PiecesOfPictures, Number, Unmistaken;
    ClearPrefix(channel, n);
  }

  lemma NowLast(packets: seq<seq<byte>>, channel: seq<nat>, mtu: nat, s: u16, pics: seq<Picture>,
                log: seq<Logged>, ks: seq<nat>, k: nat, d: Client, u: Unit)
    requires ValidMtu(mtu) && AllPictures(pics) && |packets| == |channel| > 0 && Returns(packets, d, u)
    requires Between(d, mtu, s, pics, k) && d.re.haveSequence && Length(mtu, pics, k) == channel[|channel| - 1] + 1
    ensures LastReturn(packets, channel, mtu, s, pics, log + [Logged(u, d.losses, |packets|)], ks + [k], |packets|)
  {
    hide Handle, Feed, PictureOk, Between, Length;
    OneMore(FRESH, packets);
    FeedNothing(d);
    assert packets[..|packets|] == packets && packets[|packets|..] == [];
  }

  /** Every run from a fresh client, whatever the channel does: the pictures its units end with. */
  lemma {:induction false} UnitsAreTracked(mtu: nat, ssrc: u32, s: u16, pics: seq<Picture>, channel: seq<nat>,
                                           whole: bool)
    returns (ks: seq<nat>, at: nat)
    requires Delivery(mtu, pics, channel) && (whole && channel != [] ==> StartsWhole(mtu, pics, channel[0]))
    ensures var packets := Arriving(mtu, ssrc, s, pics, channel);
            var log := UnitLog(FRESH, packets);
            Tracked(log, pics, ssrc, whole, ks) && at <= |packets|
                && LastReturn(packets, channel, mtu, s, pics, log, ks, at)
    decreases |channel|
  {
    hide Handle, Feed, Arriving, AllPictures, PiecesOfPictures, AllOk, TrackedAt, LastReturn, Between, Length;
    hide StartsWhole;
    var packets := Arriving(mtu, ssrc, s, pics, channel);
    if channel == [] {
      ks, at := [], 0;
      NothingYet(mtu, s, pics, packets);
    } else {
      var n := |channel| - 1;
      FirstArrive(mtu, ssrc, s, pics, channel, n);
      ks, at := UnitsAreTracked(mtu, ssrc, s, pics, channel[..n], whole);
      var (d, unit) := Handle(Feed(FRESH, packets[..n]).0, packets[n]);
      var log := UnitLog(FRESH, packets[..n]);
      if unit.None? {
        assert UnitLog(FRESH, packets) == log;
        StillLast(packets, channel, mtu, s, pics, log, ks, at);
      } else {
        var u := unit.value;
        var k := ReturnsBetweenUnits(mtu, ssrc, s, pics, channel, d, u);
        LastAtIs(packets[..n], channel[..n], mtu, s, pics, log, ks, at);
        if (log != [] || whole) && d.losses == Counter(log) && n + 1 < at + TWO32 {
          ReturnedUnit(mtu, ssrc, s, pics, channel, whole, packets, log, ks, at, k, d, u);
        }
        TrackedGrows(log, pics, ssrc, whole, ks, Logged(u, d.losses, n + 1), k);
        NowLast(packets, channel, mtu, s, pics, log, ks, k, d, u);
        ks, at := ks + [k], n + 1;
      }
    }
  }

  lemma LastAtIs(packets: seq<seq<byte>>, channel: seq<nat>, mtu: nat, s: u16, pics: seq<Picture>,
                 log: seq<Logged>, ks: seq<nat>, at: nat)
    requires ValidMtu(mtu) && AllPictures(pics) && at <= |packets| == |channel|
    requires LastReturn(packets, channel, mtu, s, pics, log, ks, at)
    ensures at == LastAt(log)
  {
  }

  lemma NothingYet(mtu: nat, s: u16, pics: seq<Picture>, packets: seq<seq<byte>>)
    requires ValidMtu(mtu) && AllPictures(pics) && packets == []
    ensures UnitLog(FRESH, packets) == [] && LastReturn(packets, [], mtu, s, pics, [], [], 0)
  {
    hide PictureOk;
  }

  lemma StillLast(packets: seq<seq<byte>>, channel: seq<nat>, mtu: nat, s: u16, pics: seq<Picture>,
                  log: seq<Logged>, ks: seq<nat>, at: nat)
    requires ValidMtu(mtu) && AllPictures(pics) && |packets| == |channel| > 0 && at < |packets|
    requires var n := |packets| - 1;
             && LastReturn(packets[..n], channel[..n], mtu, s, pics, log, ks, at)
             && Handle(Feed(FRESH, packets[..n]).0, packets[n]).1.None?
    ensures LastReturn(packets, channel, mtu, s, pics, log, ks, at)
  {
    hide Handle, Feed, PictureOk, Between, Length;
    var n, tail := |packets| - 1, packets[at..];
    var c := Feed(FRESH, packets[..at]).0;
    assert packets[..n][..at] == packets[..at] && packets[..n][at..] == tail[..n - at] && tail[n - at] == packets[n];
    SplitFeed(packets[..n], at);
    OneMore(c, tail);
  }
}

/** The promise across sender, network, receiver, source and RDP client. */
module EndToEnd {
  import opened Machine
  import opened AnnexB
  import opened AccessUnitSpec
  import opened PictureTracking
  import RtpSpec
  import V = VideoSourceSpec
  import A = AvcPathSpec
  import P = AvcPayloadSpec
  import H = H264Spec

  /** The units the source reads are the ones the receiver returned. */
  ghost predicate ReadsFrom(h: seq<V.RtpUnit>, log: seq<Logged>) {
    |h| == |log| && forall i :: 0 <= i < |h| ==> h[i].losses == log[i].losses && h[i].nals == H.Mask(log[i].unit.data)
  }

  /** The units from..c are consecutive pictures as sent, the first of them picture k. */
  ghost predicate Consecutive(log: seq<Logged>, pics: seq<Picture>, ssrc: u32, from: nat, c: nat, k: nat) {
    && from <= c < |log| && k + c - from < |pics|
    && forall m :: from <= m <= c ==>
         log[m].unit == Unit(Bytes(pics[k + m - from].nals), pics[k + m - from].ts, ssrc)
  }

  lemma {:induction false} TrackedInARow(log: seq<Logged>, pics: seq<Picture>, ssrc: u32, whole: bool, ks: seq<nat>,
                                         from: nat, c: nat)
    requires Tracked(log, pics, ssrc, whole, ks) && from <= c < |log| && (from > 0 || whole)
    requires forall m :: from <= m <= c ==> Still(log, m)
    ensures ks[from] >= 1 && ks[c] == ks[from] + c - from && Consecutive(log, pics, ssrc, from, c, ks[from] - 1)
    decreases c
  {
    hide Bytes, Still;
    assert TrackedAt(log, pics, ssrc, whole, ks, c) && Still(log, c);
    if from < c { TrackedInARow(log, pics, ssrc, whole, ks, from, c - 1); }
  }

  /** Over any channel: as long as the loss counter stands still, the units are consecutive pictures as sent, from the
      first unit on if reception began where that comes out whole. */
  lemma UnmovedUnitsAreConsecutive(mtu: nat, ssrc: u32, s: u16, pics: seq<Picture>, channel: seq<nat>, from: nat,
                                   c: nat)
    returns (k: nat)
    requires Delivery(mtu, pics, channel)
    requires var log := UnitLog(FRESH, Arriving(mtu, ssrc, s, pics, channel));
             && from <= c < |log| && (from > 0 || BeginsWhole(mtu, pics, channel))
             && forall m :: from <= m <= c ==> Still(log, m)
    ensures Consecutive(UnitLog(FRESH, Arriving(mtu, ssrc, s, pics, channel)), pics, ssrc, from, c, k)
  {
    hide Delivery, Arriving, UnitLog, TrackedAt, LastReturn, Consecutive, StartsWhole, Still;
    DeliveryMeans(mtu, pics, channel);
    var whole := BeginsWhole(mtu, pics, channel);
    var ks, at := UnitsAreTracked(mtu, ssrc, s, pics, channel, whole);
    var log := UnitLog(FRESH, Arriving(mtu, ssrc, s, pics, channel));
    TrackedInARow(log, pics, ssrc, whole, ks, from, c);
    k := ks[from] - 1;
  }

  lemma DeliveryMeans(mtu: nat, pics: seq<Picture>, channel: seq<nat>)
    requires Delivery(mtu, pics, channel)
    ensures RtpSpec.ValidMtu(mtu) && AllPictures(pics)
  {
  }

  /** Reception begins where the first unit comes out whole. */
  ghost predicate BeginsWhole(mtu: nat, pics: seq<Picture>, channel: seq<nat>)
    requires Delivery(mtu, pics, channel)
  {
    channel != [] && StartsWhole(mtu, pics, channel[0])
  }

  lemma SubmittedIsUnflagged(h: seq<V.RtpUnit>, turns: seq<A.Turn>, i: nat)
    requires |turns| == |h| && i < |h| && A.OutcomeOf(h, turns, i) == A.Submitted
    ensures !V.LossAt(h, i)
  {
    hide A.Handle, V.Passes;
    A.HandleEffect(A.ClientAfter(h[..i], turns[..i]), V.Deliver(V.State(h[..i]), h[i]), turns[i]);
    V.ObservedIsLast(h[..i]);
  }

  /** Fewer than 2^32 packets come between two units. */
  ghost predicate Frequent(log: seq<Logged>) {
    forall m :: 0 <= m < |log| ==> log[m].at < LastAt(log[..m]) + TWO32
  }

  lemma ChainIsStill(h: seq<V.RtpUnit>, turns: seq<A.Turn>, log: seq<Logged>, j: nat, c: nat)
    requires |turns| == |h| && ReadsFrom(h, log) && Frequent(log) && j < c < |h|
    requires A.UnbrokenFrom(h, turns, j, c) && !V.LossAt(h, c)
    ensures forall m :: j <= m <= c ==> Still(log, m)
  {
    hide A.OutcomeOf, H.Mask, V.LossAt, Still, Frequent;
    SubmittedIsUnflagged(h, turns, j);
    forall m | j <= m <= c ensures Still(log, m) {
      assert !V.LossAt(h, m);
      LosslessIsStill(h, log, m);
    }
  }

  lemma LosslessIsStill(h: seq<V.RtpUnit>, log: seq<Logged>, m: nat)
    requires m < |h| && ReadsFrom(h, log) && Frequent(log) && !V.LossAt(h, m)
    ensures m < |log| && Still(log, m)
  {
    hide H.Mask;
  }

  /** Where the chain that unit c rests on begins: at the submitted IDR j, unless that is the very first unit and
      reception did not begin where it comes out whole. */
  ghost function Certain(mtu: nat, pics: seq<Picture>, channel: seq<nat>, j: nat): nat
    requires Delivery(mtu, pics, channel)
  {
    if j > 0 || BeginsWhole(mtu, pics, channel) then j else 1
  }

  /** Every submitted P unit follows a submitted IDR such that all units from there on are consecutive
      pictures as sent, byte for byte, and every picture among them was submitted, whatever the network
      drops, repeats or reorders, on every stream that is not exposed. */
  lemma ShownPicturesAreConsecutive(mtu: nat, ssrc: u32, s: u16, pics: seq<Picture>, channel: seq<nat>,
                                    h: seq<V.RtpUnit>, turns: seq<A.Turn>, c: nat) returns (j: nat, k: nat)
    requires Delivery(mtu, pics, channel)
    requires var log := UnitLog(FRESH, Arriving(mtu, ssrc, s, pics, channel)); ReadsFrom(h, log) && Frequent(log)
    requires |turns| == |h| && !A.StreamExposed(h)
    requires c < |h| && SLICE_P in h[c].nals && IDR !in h[c].nals && A.OutcomeOf(h, turns, c) == A.Submitted
    ensures j < c && A.UnbrokenFrom(h, turns, j, c)
    ensures Consecutive(UnitLog(FRESH, Arriving(mtu, ssrc, s, pics, channel)), pics, ssrc,
                        Certain(mtu, pics, channel, j), c, k)
  {
    hide Delivery, Arriving, UnitLog, A.StreamExposed, A.OutcomeOf, A.UnbrokenFrom, V.LossAt, Still, Consecutive;
    hide H.Mask;
    hide BeginsWhole, Frequent;
    A.StreamIsSafeIff(h);
    assert A.ReferencesIntact(h, turns) && A.Unbroken(h, turns, c);
    j :| 0 <= j < c && A.UnbrokenFrom(h, turns, j, c);
    ChainIsStill(h, turns, UnitLog(FRESH, Arriving(mtu, ssrc, s, pics, channel)), j, c);
    k := UnmovedUnitsAreConsecutive(mtu, ssrc, s, pics, channel, Certain(mtu, pics, channel, j), c);
  }

  // ------------------------------------------------ what is shown, byte for byte

  function UnitsOfLog(log: seq<Logged>): (units: seq<seq<byte>>)
    ensures |units| == |log| && forall i :: 0 <= i < |log| ==> units[i] == log[i].unit.data
  {
    seq(|log|, i requires 0 <= i < |log| => log[i].unit.data)
  }

  /** The payload of unit m is this picture; of an IDR behind the cached sets that it does not carry itself. */
  ghost predicate PayloadIs(h: seq<V.RtpUnit>, units: seq<seq<byte>>, m: nat, picture: seq<byte>)
    requires m < |h| == |units|
  {
    P.Payload(h, units, m) ==
      Some((if IDR in h[m].nals then H.Prefix(H.Cache(P.Kept(h, units, m + 1)), h[m].nals) else []) + picture)
  }

  lemma SubmittedPayloadIsPicture(h: seq<V.RtpUnit>, units: seq<seq<byte>>, turns: seq<A.Turn>, m: nat)
    requires P.Prepared(h, units, turns) && m < |h| && A.OutcomeOf(h, turns, m) == A.Submitted
    ensures PayloadIs(h, units, m, units[m])
  {
    hide A.OutcomeOf, H.Cache, H.Prefix, P.Kept;
    P.SubmittedIsPrepared(h, turns, m);
    assert P.PreparedAt(h, units, turns, m);
    assert [] + units[m] == units[m];
  }

  /** The chain of a submitted P unit: for one without parameter sets of its own on every stream, with an IDR that was
      sent with both sets; for any other if the stream is not exposed. */
  lemma ChainOf(h: seq<V.RtpUnit>, units: seq<seq<byte>>, turns: seq<A.Turn>, c: nat) returns (j: nat)
    requires P.Scanned(h, units) && P.Prepared(h, units, turns)
    requires c < |h| && SLICE_P in h[c].nals && IDR !in h[c].nals && A.OutcomeOf(h, turns, c) == A.Submitted
    requires A.HasSet(h[c]) ==> !A.StreamExposed(h)
    ensures j < c && A.UnbrokenFrom(h, turns, j, c)
    ensures !A.HasSet(h[c]) ==> P.Payload(h, units, j).Some? && P.Complete(P.Payload(h, units, j).value)
  {
    hide A.StreamExposed, A.OutcomeOf, A.UnbrokenFrom, A.HasSet, V.LossAt, P.PreparedAt, P.Payload, P.Complete, H.Mask;
    if A.HasSet(h[c]) {
      A.StreamIsSafeIff(h);
      assert A.ReferencesIntact(h, turns) && A.Unbroken(h, turns, c);
      j :| 0 <= j < c && A.UnbrokenFrom(h, turns, j, c);
    } else {
      j := P.ShownPRestsOnCompleteIdr(h, units, turns, c);
    }
  }

  /** Every submitted unit from `from` to c was sent to the RDP client as a picture of its own, in the order in which
      the pictures went out, the first of them picture k. */
  ghost predicate ShownAsSent(h: seq<V.RtpUnit>, units: seq<seq<byte>>, turns: seq<A.Turn>, pics: seq<Picture>,
                              from: nat, c: nat, k: nat)
    requires |turns| == |h| == |units|
  {
    && from <= c < |h| && k + c - from < |pics|
    && forall m :: from <= m <= c && A.OutcomeOf(h, turns, m) == A.Submitted ==>
         PayloadIs(h, units, m, Bytes(pics[k + m - from].nals))
  }

  /** Across sender, network, receiver, source, parameter-set cache and RDP client: every submitted P unit follows a
      submitted IDR such that, from there on, every picture was submitted, and what was submitted is, byte for byte, the
      consecutive pictures as sent, an IDR behind the parameter sets that it lacks. */
  lemma ShownPayloadsAreThePictures(mtu: nat, ssrc: u32, s: u16, pics: seq<Picture>, channel: seq<nat>,
                                    h: seq<V.RtpUnit>, turns: seq<A.Turn>, c: nat) returns (j: nat, k: nat)
    requires Delivery(mtu, pics, channel)
    requires var log := UnitLog(FRESH, Arriving(mtu, ssrc, s, pics, channel));
             ReadsFrom(h, log) && Frequent(log) && P.Prepared(h, UnitsOfLog(log), turns)
    requires c < |h| && SLICE_P in h[c].nals && IDR !in h[c].nals && A.OutcomeOf(h, turns, c) == A.Submitted
    requires A.HasSet(h[c]) ==> !A.StreamExposed(h)
    ensures j < c && A.UnbrokenFrom(h, turns, j, c)
    ensures var units := UnitsOfLog(UnitLog(FRESH, Arriving(mtu, ssrc, s, pics, channel)));
            && ShownAsSent(h, units, turns, pics, Certain(mtu, pics, channel, j), c, k)
            && (!A.HasSet(h[c]) ==> P.Payload(h, units, j).Some? && P.Complete(P.Payload(h, units, j).value))
  {
    hide Delivery, Arriving, UnitLog, A.StreamExposed, A.OutcomeOf, A.UnbrokenFrom, V.LossAt, Still, BeginsWhole;
    hide Frequent, H.Mask, A.HasSet, P.PreparedAt, P.Payload, P.Complete, PayloadIs, Bytes;
    var log := UnitLog(FRESH, Arriving(mtu, ssrc, s, pics, channel));
    var units := UnitsOfLog(log);
    assert P.Scanned(h, units);
    j := ChainOf(h, units, turns, c);
    SubmittedIsUnflagged(h, turns, c);
    ChainIsStill(h, turns, log, j, c);
    var from := Certain(mtu, pics, channel, j);
    k := UnmovedUnitsAreConsecutive(mtu, ssrc, s, pics, channel, from, c);
    forall m | from <= m <= c && A.OutcomeOf(h, turns, m) == A.Submitted
      ensures PayloadIs(h, units, m, Bytes(pics[k + m - from].nals))
    {
      SubmittedPayloadIsPicture(h, units, turns, m);
    }
  }
}
