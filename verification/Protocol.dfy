/** Framing of the control connection (src/protocol.c). */
module ProtocolSpec {
  import opened Machine

  const VERSION: byte := 1
  const HEADER: nat := 4
  const MAX_PAYLOAD: nat := 1024

  datatype Message = Message(kind: byte, payload: seq<byte>)

  predicate Sendable(m: Message) { |m.payload| <= MAX_PAYLOAD }

  function Encode(m: Message): (f: seq<byte>)
    requires Sendable(m)
    ensures |f| == HEADER + |m.payload|
  {
    [VERSION, m.kind] + U16Bytes(|m.payload|) + m.payload
  }

  function EncodeAll(ms: seq<Message>): seq<byte>
    requires forall m :: m in ms ==> Sendable(m)
  {
    if ms == [] then [] else EncodeAll(ms[..|ms| - 1]) + Encode(ms[|ms| - 1])
  }

  datatype Parse = Complete(message: Message) | Incomplete | Malformed

  /** What protocol_receive makes of the bytes at the front of a stream. */
  function ParseFrame(s: seq<byte>): (p: Parse)
    ensures p.Complete? ==> Sendable(p.message) && |Encode(p.message)| <= |s|
  {
    if |s| < HEADER then Incomplete
    else if s[0] != VERSION || U16At(s, 2) > MAX_PAYLOAD then Malformed
    else if |s| < HEADER + U16At(s, 2) then Incomplete
    else Complete(Message(s[1], s[HEADER..HEADER + U16At(s, 2)]))
  }

  /** How many bytes the reader wants to hold before it looks at its frame again. */
  function Needed(held: seq<byte>): nat {
    if |held| < HEADER then HEADER else HEADER + U16At(held, 2)
  }

  lemma NeededIs(held: seq<byte>)
    ensures Needed(held) == if |held| < HEADER then HEADER else HEADER + U16At(held, 2)
  {
  }

  lemma NeededGrows(held: seq<byte>, chunk: seq<byte>)
    requires |held| + |chunk| <= Needed(held)
    ensures |held + chunk| <= Needed(held + chunk)
  {
    if |held| >= HEADER {
      assert (held + chunk)[2] == held[2] && (held + chunk)[3] == held[3];
    }
  }

  lemma HeldFrame(held: seq<byte>)
    requires |held| <= Needed(held)
    ensures |held| < HEADER ==> ParseFrame(held) == Incomplete
    ensures |held| >= HEADER && (held[0] != VERSION || U16At(held, 2) > MAX_PAYLOAD) ==> ParseFrame(held) == Malformed
    ensures |held| >= HEADER && held[0] == VERSION && U16At(held, 2) <= MAX_PAYLOAD && |held| < Needed(held) ==>
              ParseFrame(held) == Incomplete
    ensures |held| >= HEADER && held[0] == VERSION && U16At(held, 2) <= MAX_PAYLOAD && |held| == Needed(held) ==>
              ParseFrame(held) == Complete(Message(held[1], held[HEADER..])) && held == Encode(ParseFrame(held).message)
  {
    if |held| >= HEADER && held[0] == VERSION && U16At(held, 2) <= MAX_PAYLOAD && |held| == Needed(held) {
      assert held[HEADER..HEADER + U16At(held, 2)] == held[HEADER..];
      ParsedIsEncoded(held);
      assert held[..|held|] == held;
    }
  }

  lemma MalformedFront(s: seq<byte>, n: nat)
    requires n <= |s| && ParseFrame(s[..n]) == Malformed
    ensures ParseFrame(s) == Malformed
  {
    assert s[..n][0] == s[0] && s[..n][2] == s[2] && s[..n][3] == s[3];
  }

  /** Calling the blocking reader until it fails: the messages it returns, and whether it failed
      because a header was bad rather than because the stream ended. */
  function BlockingRun(s: seq<byte>): (seq<Message>, bool)
    decreases |s|
  {
    match ParseFrame(s)
    case Incomplete => ([], false)
    case Malformed => ([], true)
    case Complete(m) =>
      var (rest, bad) := BlockingRun(s[|Encode(m)|..]);
      ([m] + rest, bad)
  }

  lemma HeaderLayout(m: Message, rest: seq<byte>)
    requires Sendable(m)
    ensures var s := Encode(m) + rest;
            s[0] == VERSION && s[1] == m.kind && U16At(s, 2) == |m.payload|
                && s[HEADER..HEADER + |m.payload|] == m.payload
  {
    var s := Encode(m) + rest;
    assert s[2..4] == U16Bytes(|m.payload|);
    U16RoundTrip(|m.payload|, s, 2);
  }

  /** A frame followed by anything parses as that frame, and its length marks where the next begins. */
  lemma ParseEncoded(m: Message, rest: seq<byte>)
    requires Sendable(m)
    ensures ParseFrame(Encode(m) + rest) == Complete(m)
    ensures (Encode(m) + rest)[|Encode(m)|..] == rest
  {
    HeaderLayout(m, rest);
  }

  /** The parser accepts nothing but frames: what it reads is the encoding of what it returns. */
  lemma ParsedIsEncoded(s: seq<byte>)
    requires ParseFrame(s).Complete?
    ensures var m := ParseFrame(s).message; s[..|Encode(m)|] == Encode(m)
  {
    var m := ParseFrame(s).message;
    var n := U16At(s, 2);
    assert U16Bytes(n) == [s[2], s[3]];
    assert s[..HEADER + n] == [s[0], s[1]] + [s[2], s[3]] + s[HEADER..HEADER + n];
  }

  /** No proper prefix of a frame is a frame or an error. */
  lemma PrefixIsIncomplete(m: Message, n: nat)
    requires Sendable(m) && n < |Encode(m)|
    ensures ParseFrame(Encode(m)[..n]) == Incomplete
  {
    HeaderLayout(m, []);
    assert Encode(m) + [] == Encode(m);
    if n >= HEADER {
      assert Encode(m)[..n][2..4] == Encode(m)[2..4];
      assert U16At(Encode(m)[..n], 2) == U16At(Encode(m), 2);
    }
  }

  lemma {:induction false} EncodeAllCons(m: Message, ms: seq<Message>)
    requires Sendable(m) && forall x :: x in ms ==> Sendable(x)
    ensures forall x :: x in [m] + ms ==> Sendable(x)
    ensures EncodeAll([m] + ms) == Encode(m) + EncodeAll(ms)
  {
    hide Encode;
    if ms == [] {
      assert [m] + ms == [m] && [m][..0] == [];
    } else {
      var init, last := ms[..|ms| - 1], ms[|ms| - 1];
      EncodeAllCons(m, init);
      assert ([m] + ms)[..|ms|] == [m] + init;
      assert last in ms;
      assert EncodeAll([m] + ms) == EncodeAll([m] + init) + Encode(last);
    }
  }

  lemma BlockingRunStep(m: Message, rest: seq<byte>)
    requires Sendable(m)
    ensures BlockingRun(Encode(m) + rest) == ([m] + BlockingRun(rest).0, BlockingRun(rest).1)
  {
    hide Encode, ParseFrame;
    ParseEncoded(m, rest);
  }

  lemma {:induction false} BlockingRunSplits(ms: seq<Message>, rest: seq<byte>)
    requires forall m :: m in ms ==> Sendable(m)
    ensures BlockingRun(EncodeAll(ms) + rest) == (ms + BlockingRun(rest).0, BlockingRun(rest).1)
  {
    hide Encode, ParseFrame;
    if ms == [] {
      assert EncodeAll(ms) + rest == rest;
      assert ms + BlockingRun(rest).0 == BlockingRun(rest).0;
    } else {
      var m, tail := ms[0], ms[1..];
      assert ms == [m] + tail && m in ms;
      EncodeAllCons(m, tail);
      assert EncodeAll(ms) + rest == Encode(m) + (EncodeAll(tail) + rest);
      BlockingRunStep(m, EncodeAll(tail) + rest);
      BlockingRunSplits(tail, rest);
      assert [m] + (tail + BlockingRun(rest).0) == ms + BlockingRun(rest).0;
    }
  }

  /** If what has been read is whole frames `got`, they are the first frames that were sent. */
  lemma {:induction false} FramesAreUnique(got: seq<Message>, rest: seq<byte>, sent: seq<Message>)
    requires (forall m :: m in got ==> Sendable(m)) && (forall m :: m in sent ==> Sendable(m))
    requires EncodeAll(got) + rest == EncodeAll(sent)
    ensures got <= sent && rest == EncodeAll(sent[|got|..])
  {
    hide Encode, ParseFrame;
    if got == [] {
      assert EncodeAll(got) + rest == rest && sent[0..] == sent;
    } else {
      var m, tail := got[0], got[1..];
      assert got == [m] + tail && m in got;
      EncodeAllCons(m, tail);
      assert EncodeAll(sent) == Encode(m) + (EncodeAll(tail) + rest);
      ParseEncoded(m, EncodeAll(tail) + rest);
      if sent == [] {
        EmptyParse();
        assert false;
      }
      var k, more := sent[0], sent[1..];
      assert sent == [k] + more && k in sent;
      EncodeAllCons(k, more);
      ParseEncoded(k, EncodeAll(more));
      assert EncodeAll(tail) + rest == EncodeAll(more);
      FramesAreUnique(tail, rest, more);
      assert sent[|got|..] == more[|tail|..];
    }
  }

  lemma EmptyParse()
    ensures ParseFrame([]) == Incomplete
  {
  }
}

/** What the two readers do with a stream that the socket cuts up, as functions. */
module ProtocolReaders {
  import opened Machine
  import opened ProtocolSpec

  /** What one system call does: transfer at least one byte and at most `more` others, as far as they are
      wanted and there (none left is the end of the stream); get interrupted; find nothing yet; fail. */
  datatype Grant = Bytes(more: nat) | Interrupted | WouldBlock | Broken

  /** How many calls from i on may transfer something. */
  function Transfers(grants: seq<Grant>, i: nat): nat
    requires i <= |grants|
    decreases |grants| - i
  {
    if i == |grants| then 0 else (if grants[i].Bytes? then 1 else 0) + Transfers(grants, i + 1)
  }

  predicate NoneBroken(grants: seq<Grant>) { forall i :: 0 <= i < |grants| ==> grants[i] != Broken }

  predicate Steady(grants: seq<Grant>) {
    forall i :: 0 <= i < |grants| ==> grants[i] != Broken && grants[i] != WouldBlock
  }

  function Amount(want: nat, more: nat, there: nat): nat { Min(Min(want, more + 1), there) }

  lemma AmountFits(want: nat, more: nat, there: nat)
    ensures var n := Amount(want, more, there); n <= want && n <= there && (n == 0 <==> want == 0 || there == 0)
  {
  }

  lemma Advance(coming: seq<byte>, n: nat, k: nat)
    requires n + k <= |coming|
    ensures coming[..n] + coming[n..][..k] == coming[..n + k] && coming[n..][k..] == coming[n + k..]
  {
  }

  // ------------------------------------------------ the blocking reader

  /** read_all from call i on: how many bytes it gets, and the next call. */
  function Reading(coming: seq<byte>, want: nat, grants: seq<Grant>, i: nat): (nat, nat)
    requires i <= |grants|
    decreases |grants| - i
  {
    if want == 0 || i == |grants| then (0, i)
    else
      match grants[i]
      case Bytes(more) =>
        var n := Amount(want, more, |coming|);
        if n == 0 then (0, i + 1)
        else
          var (m, j) := Reading(coming[n..], want - n, grants, i + 1);
          (n + m, j)
      case Interrupted => Reading(coming, want, grants, i + 1)
      case _ => (0, i + 1)
  }

  /** read_all gets what is there, unless the calls fail or run out. */
  lemma {:induction false} ReadingMeaning(coming: seq<byte>, want: nat, grants: seq<Grant>, i: nat)
    requires i <= |grants|
    ensures var (n, j) := Reading(coming, want, grants, i);
            && n <= want && n <= |coming| && i <= j <= |grants|
            && (n == want ==> Transfers(grants, j) + n >= Transfers(grants, i))
            && (n < want && Steady(grants) ==> n == |coming| || Transfers(grants, i) <= n)
    decreases |grants| - i
  {
    if want > 0 && i < |grants| {
      match grants[i]
      case Bytes(more) =>
        var n := Amount(want, more, |coming|);
        if n > 0 { ReadingMeaning(coming[n..], want - n, grants, i + 1); }
      case Interrupted => ReadingMeaning(coming, want, grants, i + 1);
      case _ =>
    }
  }

  /** read_all, begun at call `from`, has n bytes and goes on with call `next`. */
  predicate ReadSoFar(coming: seq<byte>, want: nat, grants: seq<Grant>, from: nat, n: nat, next: nat) {
    && from <= next <= |grants| && n <= want && n <= |coming|
    && var (m, j) := Reading(coming[n..], want - n, grants, next);
       Reading(coming, want, grants, from) == (n + m, j)
  }

  lemma ReadBegins(coming: seq<byte>, want: nat, grants: seq<Grant>, from: nat)
    requires from <= |grants|
    ensures ReadSoFar(coming, want, grants, from, 0, from)
  {
    hide Reading;
    assert coming[0..] == coming;
  }

  lemma ReadEnds(coming: seq<byte>, want: nat, grants: seq<Grant>, from: nat, n: nat, next: nat)
    requires ReadSoFar(coming, want, grants, from, n, next) && (n == want || next == |grants|)
    ensures Reading(coming, want, grants, from) == (n, next)
  {
  }

  lemma ReadGoesOn(coming: seq<byte>, want: nat, grants: seq<Grant>, from: nat, n: nat, next: nat)
    requires ReadSoFar(coming, want, grants, from, n, next) && n < want && next < |grants|
    ensures match grants[next]
            case Bytes(more) =>
              var k := Amount(want - n, more, |coming| - n);
              if k == 0 then Reading(coming, want, grants, from) == (n, next + 1)
              else ReadSoFar(coming, want, grants, from, n + k, next + 1)
            case Interrupted => ReadSoFar(coming, want, grants, from, n, next + 1)
            case _ => Reading(coming, want, grants, from) == (n, next + 1)
  {
    match grants[next]
    case Bytes(more) =>
      var k := Amount(want - n, more, |coming| - n);
      Advance(coming, n, k);
    case _ =>
  }

  /** protocol_receive from call i on: the message, the bytes it took, the next call. */
  function Blocking(coming: seq<byte>, grants: seq<Grant>, i: nat): (Option<Message>, nat, nat)
    requires i <= |grants|
  {
    ReadingMeaning(coming, HEADER, grants, i);
    var (h, j) := Reading(coming, HEADER, grants, i);
    if h < HEADER || coming[0] != VERSION || U16At(coming, 2) > MAX_PAYLOAD then (None, h, j)
    else
      var length := U16At(coming, 2);
      ReadingMeaning(coming[HEADER..], length, grants, j);
      var (n, k) := Reading(coming[HEADER..], length, grants, j);
      if n < length then (None, HEADER + n, k)
          else (Some(Message(coming[1], coming[HEADER..HEADER + length])), HEADER + n, k)
  }

  /** A message comes out exactly when a frame is in front, unless the calls fail or run out before the stream
      does; and it takes just that frame. */
  lemma BlockingMeaning(coming: seq<byte>, grants: seq<Grant>, i: nat)
    requires i <= |grants|
    ensures var (m, n, j) := Blocking(coming, grants, i);
            && i <= j <= |grants| && n <= |coming|
            && (m.Some? ==> ParseFrame(coming) == Complete(m.value) && n == |Encode(m.value)|)
            && (m.Some? ==> Transfers(grants, j) + n >= Transfers(grants, i))
            && (Steady(grants) && Transfers(grants, i) >= |coming| ==> (m.Some? <==> ParseFrame(coming).Complete?))
  {
    hide Reading, U16At;
    ReadingMeaning(coming, HEADER, grants, i);
    var (h, j) := Reading(coming, HEADER, grants, i);
    if h == HEADER { ReadingMeaning(coming[HEADER..], U16At(coming, 2), grants, j); }
  }

  // ------------------------------------------------ the reader that does not wait

  /** protocol_receive_available from call i on, with `held` from before: its result, the bytes it took, the
      next call. */
  function Available(held: seq<byte>, coming: seq<byte>, grants: seq<Grant>, i: nat): (int, nat, nat)
    requires i <= |grants| && |held| <= Needed(held)
    decreases |grants| - i
  {
    match ParseFrame(held)
    case Malformed => (-1, 0, i)
    case Complete(_) => (1, 0, i)
    case Incomplete =>
      if i == |grants| then (0, 0, i)
      else
        match grants[i]
        case Bytes(more) =>
          var n := Amount(Needed(held) - |held|, more, |coming|);
          if n == 0 then (-1, 0, i + 1)
          else
            NeededGrows(held, coming[..n]);
            var (r, k, j) := Available(held + coming[..n], coming[n..], grants, i + 1);
            (r, n + k, j)
        case Interrupted => Available(held, coming, grants, i + 1)
        case WouldBlock => (0, 0, i + 1)
        case Broken => (-1, 0, i + 1)
  }

  lemma AvailableStep(held: seq<byte>, coming: seq<byte>, grants: seq<Grant>, i: nat)
    requires i <= |grants| && |held| <= Needed(held)
    ensures var r := Available(held, coming, grants, i);
            match ParseFrame(held)
            case Malformed => r == (-1, 0, i)
            case Complete(_) => r == (1, 0, i)
            case Incomplete =>
              if i == |grants| then r == (0, 0, i)
              else
                match grants[i]
                case Bytes(more) =>
                  var n := Amount(Needed(held) - |held|, more, |coming|);
                  if n == 0 then r == (-1, 0, i + 1)
                  else
                    && |held + coming[..n]| <= Needed(held + coming[..n])
                    && var (x, k, j) := Available(held + coming[..n], coming[n..], grants, i + 1);
                       r == (x, n + k, j)
                case Interrupted => r == Available(held, coming, grants, i + 1)
                case WouldBlock => r == (0, 0, i + 1)
                case Broken => r == (-1, 0, i + 1)
  {
    hide ParseFrame, Needed;
    if ParseFrame(held) == Incomplete && i < |grants| && grants[i].Bytes? {
      NeededGrows(held, coming[..Amount(Needed(held) - |held|, grants[i].more, |coming|)]);
    }
  }

  /** What the results mean: 1 for a frame, of which exactly the bytes were taken; 0 only when a call would have
      waited or the calls ran out; -1 only for a bad header, the end of the stream inside a frame, or a failed call. */
  predicate Explained(held: seq<byte>, coming: seq<byte>, grants: seq<Grant>, i: nat, r: int, k: nat, j: nat)
    requires i <= |grants|
  {
    && k <= |coming| && i <= j <= |grants| && r in {1, 0, -1}
    && (r == 1 ==>
          && ParseFrame(held + coming[..k]).Complete?
          && |Encode(ParseFrame(held + coming[..k]).message)| == |held| + k)
    && (r == 0 ==>
          && ParseFrame(held + coming[..k]) == Incomplete
          && (j == |grants| || (j > i && grants[j - 1] == WouldBlock)))
    && (r == -1 ==>
          || ParseFrame(held + coming[..k]) == Malformed
          || (ParseFrame(held + coming[..k]) == Incomplete && (k == |coming| || (j > i && grants[j - 1] == Broken))))
    && (r != -1 ==> Transfers(grants, j) + k >= Transfers(grants, i))
    && (ParseFrame(held) == Malformed ==> r == -1)
        && (ParseFrame(held) == Incomplete && r != -1 && i < |grants| ==> j > i)
  }

  lemma {:induction false} AvailableMeaning(held: seq<byte>, coming: seq<byte>, grants: seq<Grant>, i: nat)
    requires i <= |grants| && |held| <= Needed(held)
    ensures var (r, k, j) := Available(held, coming, grants, i); Explained(held, coming, grants, i, r, k, j)
    decreases |grants| - i
  {
    hide ParseFrame, Needed, Encode;
    HeldFrame(held);
    NeededIs(held);
    assert held + coming[..0] == held;
    if ParseFrame(held) == Incomplete && i < |grants| {
      match grants[i]
      case Bytes(more) =>
        var n := Amount(Needed(held) - |held|, more, |coming|);
        if n > 0 {
          NeededGrows(held, coming[..n]);
          AvailableMeaning(held + coming[..n], coming[n..], grants, i + 1);
          var (r, k, j) := Available(held + coming[..n], coming[n..], grants, i + 1);
          Advance(coming, n, k);
          Regroup(held, coming[..n], coming[n..][..k]);
        } else {
          assert coming == [];
        }
      case Interrupted => AvailableMeaning(held, coming, grants, i + 1);
      case _ =>
    }
  }

  /** When the rest of a frame is there and the calls cover it without waiting or failing, it comes out. */
  lemma AvailableYields(held: seq<byte>, coming: seq<byte>, grants: seq<Grant>, i: nat)
    requires i <= |grants| && |held| <= Needed(held) && ParseFrame(held + coming).Complete?
    requires Steady(grants[i..]) && Transfers(grants, i) + |held| >= |Encode(ParseFrame(held + coming).message)|
    ensures var (r, k, j) := Available(held, coming, grants, i);
            r == 1 && k <= |coming| && ParseFrame(held + coming[..k]) == ParseFrame(held + coming)
  {
    hide ParseFrame, Needed, Encode, Available, Transfers;
    AvailableMeaning(held, coming, grants, i);
    var (r, k, j) := Available(held, coming, grants, i);
    if j > i { assert grants[j - 1] == grants[i..][j - 1 - i]; }
    NoTransfers(grants);
    assert (held + coming)[..|held| + k] == held + coming[..k];
    FrameInFront(held + coming, |held| + k);
  }

  lemma NoTransfers(grants: seq<Grant>)
    ensures Transfers(grants, |grants|) == 0
  {
  }

  /** The first n bytes of a stream with a frame in front: part of it, or that frame. */
  lemma FrameInFront(s: seq<byte>, n: nat)
    requires n <= |s| && ParseFrame(s).Complete?
    ensures var p := ParseFrame(s[..n]);
            if n < |Encode(ParseFrame(s).message)| then p == Incomplete else p == ParseFrame(s)
  {
    if n >= HEADER {
      assert s[..n][0] == s[0] && s[..n][1] == s[1] && s[..n][2] == s[2] && s[..n][3] == s[3];
      var length := U16At(s, 2);
      if n >= HEADER + length { assert s[..n][HEADER..HEADER + length] == s[HEADER..HEADER + length]; }
    }
  }
}

/** Readers and writer as the C code runs them, over a socket that cuts the stream arbitrarily. */
module Protocol {
  import opened Machine
  import opened ProtocolSpec
  import opened ProtocolReaders

  /** One direction of a connection: all the bytes the peer ever sends, and how many were taken. */
  class Socket {
    const stream: seq<byte>
    var taken: nat

    ghost predicate Valid()
      reads this
    {
      taken <= |stream|
    }

    ghost function Coming(): seq<byte>
      requires Valid()
      reads this
    {
      stream[taken..]
    }

    constructor (bytes: seq<byte>)
      ensures Valid() && stream == bytes && taken == 0
    {
      stream, taken := bytes, 0;
    }

    /** recv or read of at most `want` bytes; nothing wanted or nothing left gives an empty result. */
    method Take(want: nat, more: nat) returns (chunk: seq<byte>)
      requires Valid()
      modifies this
      ensures Valid() && taken == old(taken) + |chunk| && |chunk| == Amount(want, more, |old(Coming())|)
      ensures chunk == old(Coming())[..|chunk|] && Coming() == old(Coming())[|chunk|..]
    {
      var n := Min(Min(want, more + 1), |stream| - taken);
      chunk := stream[taken..taken + n];
      taken := taken + n;
    }
  }

  /** read_all: exactly `want` bytes, or failure. */
  method ReadAll(socket: Socket, want: nat, grants: seq<Grant>, from: nat)
    returns (data: seq<byte>, ok: bool, next: nat)
    requires socket.Valid() && from <= |grants|
    modifies socket
    ensures socket.Valid() && (|data|, next) == Reading(old(socket.Coming()), want, grants, from)
    ensures |data| <= |old(socket.Coming())| && data == old(socket.Coming())[..|data|]
            && socket.Coming() == old(socket.Coming())[|data|..]
    ensures next <= |grants| && |data| <= want && (ok <==> |data| == want) && socket.taken == old(socket.taken) + |data|
  {
    hide Reading, ReadSoFar, Amount;
    data, next, ok := [], from, true;
    ghost var coming := socket.Coming();
    ReadBegins(coming, want, grants, from);
    while |data| < want
      invariant socket.Valid() && from <= next <= |grants| && |data| <= want && ok
      invariant |data| <= |coming| && data == coming[..|data|] && socket.Coming() == coming[|data|..]
                && socket.taken == old(socket.taken) + |data|
      invariant ReadSoFar(coming, want, grants, from, |data|, next)
      decreases |grants| - next
    {
      if next == |grants| {
        ReadEnds(coming, want, grants, from, |data|, next);
        return data, false, next;
      }
      ReadGoesOn(coming, want, grants, from, |data|, next);
      match grants[next] {
        case Bytes(more) =>
          AmountFits(want - |data|, more, |coming| - |data|);
          var chunk := socket.Take(want - |data|, more);
          if chunk == [] { return data, false, next + 1; }
          Advance(coming, |data|, |chunk|);
          data := data + chunk;
        case Interrupted =>
        case WouldBlock => return data, false, next + 1;
        case Broken => return data, false, next + 1;
      }
      next := next + 1;
    }
    ReadEnds(coming, want, grants, from, |data|, next);
  }

  /** protocol_receive. */
  method ReceiveBlocking(socket: Socket, grants: seq<Grant>, from: nat) returns (message: Option<Message>, next: nat)
    requires socket.Valid() && from <= |grants|
    modifies socket
    ensures socket.Valid()
            && (message, socket.taken - old(socket.taken), next) == Blocking(old(socket.Coming()), grants, from)
  {
    hide Reading;
    ghost var coming := socket.Coming();
    var header, ok, j := ReadAll(socket, HEADER, grants, from);
    if !ok || header[0] != VERSION { return None, j; }
    var length := U16At(header, 2);
    assert header[1] == coming[1] && header[2] == coming[2] && header[3] == coming[3];
    if length > MAX_PAYLOAD { return None, j; }
    var payload, whole, k := ReadAll(socket, length, grants, j);
    if !whole { return None, k; }
    assert coming[HEADER..][..length] == coming[HEADER..HEADER + length];
    return Some(Message(header[1], payload)), k;
  }

  /** Calling the blocking reader until it fails gives every frame of the stream, if the calls neither fail nor
      run out first. */
  method DrainBlocking(socket: Socket, grants: seq<Grant>) returns (messages: seq<Message>)
    requires socket.Valid()
    modifies socket
    ensures Steady(grants) && Transfers(grants, 0) >= |old(socket.Coming())| ==>
            messages == BlockingRun(old(socket.Coming())).0
  {
    hide Blocking, ParseFrame, Transfers, Encode;
    ghost var coming := socket.Coming();
    messages := [];
    var i: nat := 0;
    assert messages + BlockingRun(coming).0 == BlockingRun(coming).0;
    while true
      invariant socket.Valid() && i <= |grants|
      invariant BlockingRun(coming).0 == messages + BlockingRun(socket.Coming()).0
      invariant Transfers(grants, 0) >= |coming| ==> Transfers(grants, i) >= |socket.Coming()|
      decreases |socket.Coming()|
    {
      ghost var rest := socket.Coming();
      BlockingMeaning(rest, grants, i);
      var message, next := ReceiveBlocking(socket, grants, i);
      if message.None? {
        assert messages + [] == messages;
        return;
      }
      NotEmptyFrame(message.value);
      Regroup(messages, [message.value], BlockingRun(socket.Coming()).0);
      messages, i := messages + [message.value], next;
    }
  }

  lemma NotEmptyFrame(m: Message)
    requires Sendable(m)
    ensures |Encode(m)| >= HEADER
  {
  }

  /** write_all: the bytes that reached the wire are a prefix of `data`, all of it on success; and it fails only
      when a call does or the calls run out. */
  method WriteAll(data: seq<byte>, grants: seq<Grant>) returns (wrote: seq<byte>, ok: bool)
    ensures wrote <= data && (ok <==> wrote == data)
    ensures Steady(grants) && Transfers(grants, 0) >= |data| ==> ok
  {
    wrote, ok := [], true;
    var i := 0;
    while |wrote| < |data|
      invariant wrote <= data && i <= |grants| && ok && Transfers(grants, i) + |wrote| >= Transfers(grants, 0)
      decreases |grants| - i
    {
      if i == |grants| { return wrote, false; }
      match grants[i] {
        case Bytes(more) =>
          var n := Min(more + 1, |data| - |wrote|);
          wrote := wrote + data[|wrote|..|wrote| + n];
        case Interrupted =>
        case WouldBlock => return wrote, false;
        case Broken => return wrote, false;
      }
      i := i + 1;
    }
  }

  /** protocol_send: a whole frame or, with the connection shut down, a proper prefix of one. */
  method Send(kind: byte, payload: seq<byte>, grants: seq<Grant>) returns (wrote: seq<byte>, ok: bool, shut: bool)
    ensures ok ==> Sendable(Message(kind, payload)) && wrote == Encode(Message(kind, payload)) && !shut
    ensures !ok && Sendable(Message(kind, payload)) ==> wrote < Encode(Message(kind, payload)) && shut
    ensures !Sendable(Message(kind, payload)) ==> !ok && wrote == [] && !shut
    ensures var m := Message(kind, payload);
            Sendable(m) && Steady(grants) && Transfers(grants, 0) >= |Encode(m)| ==> ok
  {
    if |payload| > MAX_PAYLOAD { return [], false, false; }
    wrote, ok := WriteAll([VERSION, kind] + U16Bytes(|payload|) + payload, grants);
    shut := !ok;
  }

  /** NanokvmControlReader: the partial frame kept between calls. */
  class ControlReader {
    const data: array<byte>
    var used: nat
    const socket: Socket
    /** Messages returned so far. */
    ghost var got: seq<Message>

    ghost predicate Valid()
      reads this, data, socket
    {
      && data.Length == HEADER + MAX_PAYLOAD && used <= data.Length
      && socket.Valid() && used <= socket.taken
      && data[..used] == socket.stream[socket.taken - used..socket.taken]
      && used <= Needed(data[..used])
      && (forall m :: m in got ==> Sendable(m))
      && EncodeAll(got) == socket.stream[..socket.taken - used]
    }

    /** No frame is left lying in the buffer between calls. */
    ghost predicate Resting()
      reads this, data
    {
      used <= data.Length && !ParseFrame(data[..used]).Complete?
    }

    constructor (s: Socket)
      requires s.Valid() && s.taken == 0
      ensures Valid() && Resting() && fresh(data) && socket == s && got == [] && used == 0
    {
      data := new byte[HEADER + MAX_PAYLOAD];
      used, socket, got := 0, s, [];
    }

    /** Receives behind the bytes already held. */
    method Fill(more: nat) returns (progress: bool)
      requires Valid() && Needed(data[..used]) <= data.Length
      modifies this`used, data, socket
      ensures Valid()
      ensures var n := Amount(Needed(old(data[..used])) - old(used), more, |old(socket.Coming())|);
              && used == old(used) + n && (progress <==> n > 0)
              && data[..used] == old(data[..used]) + old(socket.Coming())[..n]
              && socket.Coming() == old(socket.Coming())[n..] && socket.taken == old(socket.taken) + n
    {
      hide EncodeAll, Encode, Needed, Amount;
      ghost var held, at := data[..used], socket.taken - used;
      var needed := if used < HEADER then HEADER else HEADER + U16At(data[..used], 2);
      NeededIs(held);
      AmountFits(needed - used, more, |socket.Coming()|);
      var chunk := socket.Take(needed - used, more);
      assert data[..used] == held;
      Store(chunk);
      NeededGrows(held, chunk);
      StreamSlice(socket.stream, at, at + |held|, socket.taken);
      progress := chunk != [];
    }

    method Store(chunk: seq<byte>)
      requires used + |chunk| <= data.Length
      modifies this`used, data
      ensures used == old(used) + |chunk| && used <= data.Length && data[..used] == old(data[..used]) + chunk
    {
      ghost var held := data[..used];
      forall i | 0 <= i < |chunk| { data[used + i] := chunk[i]; }
      Copied(data[..], held, chunk);
      used := used + |chunk|;
    }

    /** protocol_receive_available: 1 for a message, 0 for no more data yet, -1 for an error. */
    method ReceiveAvailable(grants: seq<Grant>, from: nat) returns (result: int, message: Option<Message>, next: nat)
      requires Valid() && from <= |grants|
      modifies this, data, socket
      ensures Valid() && Resting()
      ensures (result, socket.taken - old(socket.taken), next)
              == Available(old(data[..used]), old(socket.Coming()), grants, from)
      ensures if result == 1 then message.Some? && got == old(got) + [message.value] && used == 0
              else message.None? && got == old(got) && used - old(used) == socket.taken - old(socket.taken)
    {
      hide EncodeAll, Encode, ParseFrame, Available, Needed;
      var i := from;
      while true
        invariant Valid() && from <= i <= |grants| && got == old(got) && old(socket.taken) <= socket.taken
        invariant used - old(used) == socket.taken - old(socket.taken)
        invariant var (r, k, j) := Available(data[..used], socket.Coming(), grants, i);
                  (r, socket.taken - old(socket.taken) + k, j)
                      == Available(old(data[..used]), old(socket.Coming()), grants, from)
        decreases |grants| - i
      {
        ghost var front := data[..used];
        HeldFrame(front);
        NeededIs(front);
        AvailableStep(data[..used], socket.Coming(), grants, i);
        if used >= HEADER {
          var held := data[..used];
          var length := U16At(held, 2);
          if held[0] != VERSION || length > MAX_PAYLOAD { return -1, None, i; }
          if used == HEADER + length {
            var m := Message(held[1], held[HEADER..]);
            Finish(m);
            return 1, Some(m), i;
          }
        }
        if i == |grants| { return 0, None, i; }
        i := i + 1;
        match grants[i - 1] {
          case Bytes(more) =>
            var progress := Fill(more);
            if !progress {
              assert front + [] == front;
              return -1, None, i;
            }
          case Interrupted =>
          case WouldBlock => return 0, None, i;
          case Broken => return -1, None, i;
        }
      }
    }

    method Finish(m: Message)
      requires Valid() && Sendable(m) && data[..used] == Encode(m)
      modifies this`used, this`got
      ensures Valid() && Resting() && used == 0 && got == old(got) + [m]
    {
      hide Encode;
      ghost var before, end := got, socket.taken;
      got := got + [m];
      assert got[..|before|] == before;
      assert EncodeAll(got) == EncodeAll(before) + Encode(m);
      assert socket.stream[..end] == socket.stream[..end - used] + socket.stream[end - used..end];
      used := 0;
    }

    /** Calling the reader again and again, however the stream is cut and however often it would have had to wait:
        if no call fails and they do not run out before the stream does, all its frames come out, in order, and
        they are those of the blocking reader. */
    method DrainAvailable(grants: seq<Grant>)
      requires Valid() && Resting()
      modifies this, data, socket
      ensures Valid() && Resting()
      ensures NoneBroken(grants) && Transfers(grants, 0) >= |old(socket.Coming())| ==>
              got == BlockingRun(socket.stream).0
    {
      hide EncodeAll, Encode, ParseFrame, Available, Needed, Transfers, BlockingRun;
      ghost var coming := socket.Coming();
      var i: nat := 0;
      while i < |grants|
        invariant Valid() && Resting() && i <= |grants| && old(socket.taken) <= socket.taken
        invariant Transfers(grants, i) + (socket.taken - old(socket.taken)) >= Transfers(grants, 0)
        decreases |grants| - i
      {
        ghost var held, rest := data[..used], socket.Coming();
        AvailableMeaning(held, rest, grants, i);
        var result, message, next := ReceiveAvailable(grants, i);
        if result == -1 {
          StreamSlice(socket.stream, socket.taken - used, socket.taken - used + |held|, socket.taken);
          AgreesWithBlocking();
          return;
        }
        i := next;
      }
      NoTransfers(grants);
      AgreesWithBlocking();
    }

    /** In particular the messages are exactly those the peer sent. */
    method ReceiveSent(grants: seq<Grant>, ghost sent: seq<Message>)
      requires Valid() && Resting() && (forall m :: m in sent ==> Sendable(m)) && socket.stream == EncodeAll(sent)
      modifies this, data, socket
      ensures NoneBroken(grants) && Transfers(grants, 0) >= |old(socket.Coming())| ==> got == sent
    {
      DrainAvailable(grants);
      BlockingRunSplits(sent, []);
      assert EncodeAll(sent) + [] == EncodeAll(sent) && sent + [] == sent;
      EmptyParse();
    }

    /** Whatever the peer sent and however it was cut, the messages returned are the first ones it
        sent, and every byte taken belongs to them or to the frame being assembled. */
    lemma YieldsWhatWasSent(sent: seq<Message>)
      requires Valid() && (forall m :: m in sent ==> Sendable(m)) && socket.stream == EncodeAll(sent)
      ensures got <= sent
      ensures socket.stream[socket.taken - used..] == EncodeAll(sent[|got|..])
    {
      hide Encode, ParseFrame, EncodeAll;
      var at := socket.taken - used;
      assert socket.stream == EncodeAll(got) + socket.stream[at..];
      FramesAreUnique(got, socket.stream[at..], sent);
    }

    /** On any stream at all the messages agree with those the blocking reader returns, and the two
        readers reject the same header. */
    lemma AgreesWithBlocking()
      requires Valid()
      ensures got <= BlockingRun(socket.stream).0
      ensures ParseFrame(data[..used]) == Malformed ==> BlockingRun(socket.stream) == (got, true)
      ensures ParseFrame(data[..used]) == Incomplete && socket.taken == |socket.stream| ==>
                BlockingRun(socket.stream) == (got, false)
    {
      hide Encode, ParseFrame, EncodeAll;
      var at := socket.taken - used;
      var rest := socket.stream[at..];
      assert socket.stream == EncodeAll(got) + rest;
      BlockingRunSplits(got, rest);
      assert data[..used] == rest[..used];
      if ParseFrame(data[..used]) == Malformed { MalformedFront(rest, used); }
      if socket.taken == |socket.stream| { assert rest == data[..used]; }
      assert got + [] == got;
    }
  }

  lemma Copied(data: seq<byte>, held: seq<byte>, chunk: seq<byte>)
    requires |held| + |chunk| <= |data|
    requires forall i :: 0 <= i < |held| ==> data[i] == held[i]
    requires forall i :: 0 <= i < |chunk| ==> data[|held| + i] == chunk[i]
    ensures data[..|held| + |chunk|] == held + chunk
  {
    forall i | 0 <= i < |held| + |chunk| ensures data[i] == (held + chunk)[i] {
      if i >= |held| { assert data[|held| + (i - |held|)] == chunk[i - |held|]; }
    }
  }

  lemma StreamSlice(s: seq<byte>, a: nat, b: nat, c: nat)
    requires a <= b <= c <= |s|
    ensures s[a..b] + s[b..][..c - b] == s[a..c]
  {
  }
}
