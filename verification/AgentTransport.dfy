/** The control connection to the agent (src/agent_transport.c): one locked section after another, in
    any order, over descriptors whose numbers are used again. */
module AgentTransportSpec {
  import opened Machine
  import ProtocolSpec

  const HELLO: byte := 1
  const PING: byte := 10
  const STATS: byte := 12
  const KEY_ACK: byte := 15
  const HEARTBEAT_INTERVAL := 1000
  const HEARTBEAT_TIMEOUT := 5000

  // ------------------------------------------------ the locked sections

  type Message = ProtocolSpec.Message

  datatype Stats = Stats(sentPackets: u32, droppedPackets: u32, captureFrames: u32, droppedFrames: u32)

  datatype Transport = Transport(fd: int, pendingFd: int, epoch: nat, lastActivity: u64, lastPing: u64,
                                 streamRequested: bool,
                                 supportsKeyAck: bool, timedOut: bool, stopping: bool, waiting: u32, ackReceived: bool,
                                 ackSuccess: bool, stats: Stats)

  const INITIAL: Transport := Transport(-1, -1, 0, 0, 0, false, false, false, false, 0, false, false, Stats(0, 0, 0, 0))

  predicate IsCurrent(t: Transport, fd: int, epoch: nat) { !t.stopping && t.fd == fd && t.epoch == epoch }

  predicate Connected(t: Transport) { !t.stopping && t.fd >= 0 }

  function CancelKeyAck(t: Transport): Transport { t.(waiting := 0, ackReceived := false, ackSuccess := false) }

  predicate CanWait(t: Transport) { !t.stopping && t.pendingFd < 0 }

  /** HELLO has 8 bytes, or 9 with the capabilities. */
  predicate ValidHello(hello: Option<Message>) {
    hello.Some? && hello.value.kind == HELLO && (|hello.value.payload| == 8 || |hello.value.payload| == 9)
  }

  predicate Accepts(t: Transport, hello: Option<Message>) { ValidHello(hello) && !t.stopping }

  predicate Capable(hello: Message) { |hello.payload| == 9 && hello.payload[8] % 2 == 1 }

  /** A new epoch, with nothing left of the one before. */
  function Publish(t: Transport, fd: nat, capable: bool, now: u64): Transport {
    Transport(fd, t.pendingFd, t.epoch + 1, now, now, t.streamRequested, capable, false, t.stopping, 0, false, false,
              t.stats)
  }

  function AfterHello(t: Transport, fd: nat, hello: Option<Message>, now: u64): Transport {
    var u := if t.pendingFd == fd then t.(pendingFd := -1) else t;
    if Accepts(t, hello) then Publish(u, fd, Capable(hello.value), now) else u
  }

  predicate AcksKey(m: Message) { m.kind == KEY_ACK && |m.payload| == 5 }

  function AfterMessage(t: Transport, fd: int, epoch: nat, m: Message, now: u64): Transport {
    if !IsCurrent(t, fd, epoch) then t
    else
      var u := t.(lastActivity := now);
      if AcksKey(m) then
        if U32At(m.payload, 0) == t.waiting then u.(ackReceived := true, ackSuccess := m.payload[4] != 0) else u
      else if m.kind == STATS && |m.payload| == 16 then
        u.(stats := Stats(U32At(m.payload, 0), U32At(m.payload, 4), U32At(m.payload, 8), U32At(m.payload, 12)))
      else u
  }

  /** Whether the end of a run found its connection in use; it then gives it up. */
  predicate Holds(t: Transport, fd: int, epoch: nat) { t.fd == fd && t.epoch == epoch }

  function AfterRun(t: Transport, fd: int, epoch: nat): Transport {
    if Holds(t, fd, epoch) then CancelKeyAck(t).(fd := -1, supportsKeyAck := false) else t
  }

  predicate TimesOut(t: Transport, now: u64) {
    Connected(t) && !t.timedOut && Sub64(now, t.lastActivity) > HEARTBEAT_TIMEOUT
  }

  predicate Pings(t: Transport, now: u64) {
    Connected(t) && !t.timedOut && !TimesOut(t, now) && Sub64(now, t.lastPing) >= HEARTBEAT_INTERVAL
  }

  function AfterHeartbeat(t: Transport, now: u64): Transport {
    if TimesOut(t, now) then t.(timedOut := true, streamRequested := false)
    else if Pings(t, now) then t.(lastPing := now)
    else t
  }

  predicate StartsKeyAck(t: Transport, sequence: u32) { sequence != 0 && Connected(t) && t.supportsKeyAck }

  function AfterBegin(t: Transport, sequence: u32): Transport {
    if StartsKeyAck(t, sequence) then t.(waiting := sequence, ackReceived := false, ackSuccess := false) else t
  }

  datatype KeyAck = KeyAck(received: bool, success: bool)

  function GetKeyAck(t: Transport, sequence: u32): Option<KeyAck> {
    if sequence != 0 && t.waiting == sequence then Some(KeyAck(t.ackReceived, t.ackSuccess)) else None
  }

  // ------------------------------------------------ everything around it

  /** Who will close a descriptor: an accept in its handshake, the run of an epoch, a run that is over, a
      send. */
  datatype Owner = Accepting | Running(epoch: nat) | Ending | Sending

  datatype Handle = Handle(conn: nat, owner: Owner)

  datatype Send = Send(fd: nat, epoch: nat, kind: byte)

  datatype Written = Written(epoch: nat, conn: nat, kind: byte)

  datatype Event = Disconnected(epoch: nat) | TimedOut(epoch: nat)

  /** A shutdown that an accept owes the connection it replaced, by descriptor number. */
  datatype Shot = Shot(fd: nat, conn: nat, epoch: nat)

  /** A shutdown that was made, and the connection it reached. */
  datatype Hit = Hit(shot: Shot, target: Option<nat>)

  /** The transport, the open descriptors, the connection accepted for each epoch, the send that holds the
      send lock, what was written and published; then every connection there was, those whose run has closed
      its descriptor, and the shutdowns owed and made. */
  datatype World = World(t: Transport, open: map<nat, Handle>, conns: map<nat, nat>, sender: Option<Send>,
                         writes: seq<Written>, events: seq<Event>, seen: set<nat>, closed: set<nat>, owed: seq<Shot>,
                         made: seq<Hit>)

  const START: World := World(INITIAL, map[], map[], None, [], [], {}, {}, [], [])

  datatype Step =
    | Connect(fd: nat, conn: nat)
    | Greet(fd: nat, hello: Option<Message>, now: u64)
    | Receive(fd: nat, message: Message, now: u64)
    | EndRun(fd: nat)
    | Close(fd: nat)
    | ShutReplaced(i: nat)
    | Capture(target: int, epoch: nat, kind: byte, copy: nat)
    | Write
    | Shutdown
    | Heartbeat(now: u64)
    | BeginKeyAck(sequence: u32)
    | RequestStream(requested: bool)

  predicate RunsOn(w: World, fd: nat) { fd in w.open && w.open[fd].owner.Running? }

  /** What a call on this descriptor number reaches. */
  function Target(w: World, fd: nat): Option<nat> { if fd in w.open then Some(w.open[fd].conn) else None }

  /** A connection is new, and a descriptor number is given out only while it is not open; a run owns the
      descriptor of its epoch;
      one send at a time holds the send lock, for whatever descriptor and epoch it was asked. */
  predicate Enabled(w: World, e: Step) {
    match e
    case Connect(fd, conn) => fd !in w.open && conn !in w.seen
    case Greet(fd, _, _) => fd in w.open && w.open[fd].owner.Accepting?
    case Receive(fd, _, _) => RunsOn(w, fd)
    case EndRun(fd) => RunsOn(w, fd)
    case Close(fd) => fd in w.open && w.open[fd].owner.Ending?
    case ShutReplaced(i) => i < |w.owed|
    case Capture(_, _, _, copy) => w.sender.None? && copy !in w.open
    case Write => w.sender.Some? && w.sender.value.fd in w.open
    case _ => true
  }

  /** A new connection would replace one. */
  predicate Replaces(w: World) { w.t.fd >= 0 && w.t.epoch in w.conns }

  function OnConnect(w: World, fd: nat, conn: nat): World {
    var u := w.(seen := w.seen + {conn});
    if CanWait(w.t) then u.(t := w.t.(pendingFd := fd), open := w.open[fd := Handle(conn, Accepting)]) else u
  }

  function OnGreet(w: World, fd: nat, hello: Option<Message>, now: u64): World
    requires fd in w.open
  {
    var u := w.(t := AfterHello(w.t, fd, hello, now));
    if Accepts(w.t, hello) then
      u.(open := w.open[fd := w.open[fd].(owner := Running(w.t.epoch + 1))],
         conns := w.conns[w.t.epoch + 1 := w.open[fd].conn],
         owed := if Replaces(w) then w.owed + [Shot(w.t.fd, w.conns[w.t.epoch], w.t.epoch)] else w.owed)
    else u.(open := w.open - {fd})
  }

  function OnEndRun(w: World, fd: nat): World
    requires RunsOn(w, fd)
  {
    var epoch := w.open[fd].owner.epoch;
    w.(t := AfterRun(w.t, fd, epoch), open := w.open[fd := w.open[fd].(owner := Ending)],
       events := if Holds(w.t, fd, epoch) && !w.t.stopping then w.events + [Disconnected(epoch)] else w.events)
  }

  function OnClose(w: World, fd: nat): World
    requires fd in w.open
  {
    w.(open := w.open - {fd}, closed := w.closed + {w.open[fd].conn})
  }

  function OnCapture(w: World, target: int, epoch: nat, kind: byte, copy: nat): World {
    if IsCurrent(w.t, target, epoch) && target >= 0 && target in w.open then
      w.(open := w.open[copy := Handle(w.open[target].conn, Sending)], sender := Some(Send(copy, epoch, kind)))
    else w
  }

  function OnWrite(w: World): World
    requires w.sender.Some? && w.sender.value.fd in w.open
  {
    var s := w.sender.value;
    w.(writes := w.writes + [Written(s.epoch, w.open[s.fd].conn, s.kind)], open := w.open - {s.fd}, sender := None)
  }

  function OnHeartbeat(w: World, now: u64): World {
    w.(t := AfterHeartbeat(w.t, now),
       events := if TimesOut(w.t, now) then w.events + [TimedOut(w.t.epoch)] else w.events)
  }

  function Next(w: World, e: Step): World {
    if !Enabled(w, e) then w
    else
      match e
      case Connect(fd, conn) => OnConnect(w, fd, conn)
      case Greet(fd, hello, now) => OnGreet(w, fd, hello, now)
      case Receive(fd, m, now) => w.(t := AfterMessage(w.t, fd, w.open[fd].owner.epoch, m, now))
      case EndRun(fd) => OnEndRun(w, fd)
      case Close(fd) => OnClose(w, fd)
      case ShutReplaced(i) =>
        w.(owed := w.owed[..i] + w.owed[i + 1..], made := w.made + [Hit(w.owed[i], Target(w, w.owed[i].fd))])
      case Capture(target, epoch, kind, copy) => OnCapture(w, target, epoch, kind, copy)
      case Write => OnWrite(w)
      case Shutdown => w.(t := w.t.(stopping := true))
      case Heartbeat(now) => OnHeartbeat(w, now)
      case BeginKeyAck(sequence) => w.(t := AfterBegin(w.t, sequence))
      case RequestStream(requested) => w.(t := w.t.(streamRequested := requested))
  }

  /** Messages, heartbeats, requests and shutdowns leave connections and descriptors alone. */
  predicate Quiet(e: Step) {
    e.Receive? || e.ShutReplaced? || e.Shutdown? || e.Heartbeat? || e.BeginKeyAck? || e.RequestStream?
  }

  predicate SameConnections(w: World, u: World) {
    && u.t.fd == w.t.fd && u.t.epoch == w.t.epoch && u.open == w.open && u.conns == w.conns && u.sender == w.sender
    && u.writes == w.writes && u.seen == w.seen && u.closed == w.closed
  }

  lemma QuietStep(w: World, e: Step)
    requires Quiet(e) || !Enabled(w, e)
    ensures SameConnections(w, Next(w, e)) && (w.t.stopping ==> Next(w, e).t.stopping)
  {
    hide AfterMessage, AfterHeartbeat, AfterBegin, TimesOut;
    SameConnection(w.t, e);
  }

  /** Messages, heartbeats and key acknowledgements leave the connection alone. */
  lemma SameConnection(t: Transport, e: Step)
    ensures forall fd: int, epoch: nat :: e.Receive? ==>
              var u := AfterMessage(t, fd, epoch, e.message, e.now);
              u.fd == t.fd && u.epoch == t.epoch && u.stopping == t.stopping
    ensures e.Heartbeat? ==>
              var u := AfterHeartbeat(t, e.now); u.fd == t.fd && u.epoch == t.epoch && u.stopping == t.stopping
    ensures e.BeginKeyAck? ==>
              var u := AfterBegin(t, e.sequence); u.fd == t.fd && u.epoch == t.epoch && u.stopping == t.stopping
  {
  }

  /** The world after a run; a step that is not enabled does nothing. */
  function After(es: seq<Step>): World {
    if es == [] then START else Next(After(es[..|es| - 1]), es[|es| - 1])
  }

  // ------------------------------------------------ sends reach their own epoch

  ghost predicate Owned(w: World) {
    && (forall e :: e in w.conns <==> 1 <= e <= w.t.epoch)
    && (w.t.fd >= 0 ==> w.t.fd in w.open && w.open[w.t.fd].owner == Running(w.t.epoch))
    && (forall fd :: fd in w.open && w.open[fd].owner.Running? ==>
          w.open[fd].owner.epoch in w.conns && w.open[fd].conn == w.conns[w.open[fd].owner.epoch])
    && (w.sender.Some? ==>
          w.sender.value.fd in w.open && w.sender.value.epoch in w.conns &&
          w.open[w.sender.value.fd] == Handle(w.conns[w.sender.value.epoch], Sending))
  }

  ghost predicate WrittenRight(w: World) {
    forall i :: 0 <= i < |w.writes| ==> w.writes[i].epoch in w.conns && w.writes[i].conn == w.conns[w.writes[i].epoch]
  }

  lemma ConnectKeepsOwned(w: World, fd: nat, conn: nat)
    requires Owned(w) && fd !in w.open && conn !in w.seen
    ensures Owned(OnConnect(w, fd, conn))
  {
  }

  lemma GreetKeepsOwned(w: World, fd: nat, hello: Option<Message>, now: u64)
    requires Owned(w) && fd in w.open && w.open[fd].owner.Accepting?
    ensures Owned(OnGreet(w, fd, hello, now))
  {
    hide ValidHello, Capable;
  }

  lemma EndRunKeepsOwned(w: World, fd: nat)
    requires Owned(w) && RunsOn(w, fd)
    ensures Owned(OnEndRun(w, fd))
  {
  }

  lemma CloseKeepsOwned(w: World, fd: nat)
    requires Owned(w) && fd in w.open && w.open[fd].owner.Ending?
    ensures Owned(OnClose(w, fd))
  {
  }

  lemma CaptureKeepsOwned(w: World, target: int, epoch: nat, kind: byte, copy: nat)
    requires Owned(w) && w.sender.None? && copy !in w.open
    ensures Owned(OnCapture(w, target, epoch, kind, copy))
  {
  }

  lemma WriteKeepsOwned(w: World)
    requires Owned(w) && w.sender.Some? && w.sender.value.fd in w.open
    ensures Owned(OnWrite(w))
  {
  }

  lemma NextKeepsOwned(w: World, e: Step)
    requires Owned(w)
    ensures Owned(Next(w, e))
  {
    if Quiet(e) || !Enabled(w, e) {
      hide Next;
      QuietStep(w, e);
    } else {
      hide OnConnect, OnGreet, OnEndRun, OnClose, OnCapture, OnWrite, OnHeartbeat;
      match e
      case Connect(fd, conn) => ConnectKeepsOwned(w, fd, conn);
      case Greet(fd, hello, now) => GreetKeepsOwned(w, fd, hello, now);
      case EndRun(fd) => EndRunKeepsOwned(w, fd);
      case Close(fd) => CloseKeepsOwned(w, fd);
      case Capture(target, epoch, kind, copy) => CaptureKeepsOwned(w, target, epoch, kind, copy);
      case Write => WriteKeepsOwned(w);
    }
  }

  lemma NextWritesRight(w: World, e: Step)
    requires Owned(w) && WrittenRight(w)
    ensures WrittenRight(Next(w, e))
  {
    if Quiet(e) || !Enabled(w, e) {
      hide Next;
      QuietStep(w, e);
    } else {
      hide AfterMessage, AfterHeartbeat, AfterBegin, TimesOut, OnHeartbeat;
    }
  }

  lemma {:induction false} RunIsOwned(es: seq<Step>)
    ensures Owned(After(es)) && WrittenRight(After(es))
  {
    hide Next;
    if es != [] {
      var w := After(es[..|es| - 1]);
      RunIsOwned(es[..|es| - 1]);
      NextKeepsOwned(w, es[|es| - 1]);
      NextWritesRight(w, es[|es| - 1]);
    }
  }

  /** Step j of the run accepted connection conn as epoch. */
  predicate AcceptedAt(es: seq<Step>, j: nat, epoch: nat, conn: nat)
    requires j < |es|
  {
    var w := After(es[..j]);
    es[j].Greet? && Enabled(w, es[j]) && Accepts(w.t, es[j].hello) && w.t.epoch + 1 == epoch
        && w.open[es[j].fd].conn == conn
  }

  lemma NextConns(w: World, e: Step, epoch: nat)
    requires Owned(w) && epoch in Next(w, e).conns
    ensures if epoch in w.conns then Next(w, e).conns[epoch] == w.conns[epoch]
            else e.Greet? && Enabled(w, e) && Accepts(w.t, e.hello) && w.t.epoch + 1 == epoch &&
                 Next(w, e).conns[epoch] == w.open[e.fd].conn
  {
    hide AfterMessage, AfterHeartbeat, AfterBegin, TimesOut;
  }

  lemma {:induction false} ConnsWereAccepted(es: seq<Step>, epoch: nat)
    requires epoch in After(es).conns
    ensures exists j: nat :: j < |es| && AcceptedAt(es, j, epoch, After(es).conns[epoch])
    decreases |es|
  {
    hide Next;
    var n := |es| - 1;
    var w := After(es[..n]);
    RunIsOwned(es[..n]);
    NextConns(w, es[n], epoch);
    if epoch in w.conns {
      ConnsWereAccepted(es[..n], epoch);
      var j: nat :| j < n && AcceptedAt(es[..n], j, epoch, w.conns[epoch]);
      assert es[..n][..j] == es[..j] && AcceptedAt(es, j, epoch, w.conns[epoch]);
    } else {
      assert AcceptedAt(es, n, epoch, After(es).conns[epoch]);
    }
  }

  lemma NextEpoch(w: World, e: Step)
    ensures w.t.epoch <= Next(w, e).t.epoch
    ensures e.Greet? && Enabled(w, e) && Accepts(w.t, e.hello) ==> Next(w, e).t.epoch == w.t.epoch + 1
  {
    hide AfterMessage, AfterHeartbeat, AfterBegin, TimesOut;
    SameConnection(w.t, e);
  }

  lemma {:induction false} EpochGrows(es: seq<Step>, n: nat)
    requires n <= |es|
    ensures After(es[..n]).t.epoch <= After(es).t.epoch
    decreases |es|
  {
    hide Next;
    if n == |es| {
      assert es[..n] == es;
    } else {
      var m := |es| - 1;
      EpochGrows(es[..m], n);
      assert es[..m][..n] == es[..n];
      NextEpoch(After(es[..m]), es[m]);
    }
  }

  /** An epoch is accepted once, for one connection. */
  lemma EpochIsAcceptedOnce(es: seq<Step>, j: nat, k: nat, epoch: nat, conn: nat, other: nat)
    requires j < |es| && k < |es| && AcceptedAt(es, j, epoch, conn) && AcceptedAt(es, k, epoch, other)
    ensures j == k && conn == other
  {
    hide Next, Enabled, Accepts;
    if j != k {
      var a, b := Min(j, k), if j < k then k else j;
      assert es[..b][..a + 1] == es[..a + 1] && es[..a + 1][..a] == es[..a];
      NextEpoch(After(es[..a]), es[a]);
      EpochGrows(es[..b], a + 1);
      assert false;
    }
  }

  /** In every run: what was sent for an epoch went to the one connection that was accepted for that
      epoch, whatever became of its descriptor number. */
  lemma SendReachesItsEpoch(es: seq<Step>, i: nat)
    requires i < |After(es).writes|
    ensures var s := After(es).writes[i];
            exists j: nat :: j < |es| && AcceptedAt(es, j, s.epoch, s.conn)
  {
    hide After;
    RunIsOwned(es);
    ConnsWereAccepted(es, After(es).writes[i].epoch);
  }

  // ------------------------------------------------ stale messages

  lemma NextStaleStays(w: World, e: Step, fd: nat, epoch: nat)
    requires epoch <= w.t.epoch && !IsCurrent(w.t, fd, epoch)
    ensures epoch <= Next(w, e).t.epoch && !IsCurrent(Next(w, e).t, fd, epoch)
  {
    if Quiet(e) || !Enabled(w, e) {
      hide Next;
      QuietStep(w, e);
    } else {
      hide ValidHello, Capable, Quiet;
    }
  }

  /** Once a connection is replaced, given up or stopped, it is never current again... */
  lemma {:induction false} StaleStaysStale(es: seq<Step>, n: nat, fd: nat, epoch: nat)
    requires n <= |es| && epoch <= After(es[..n]).t.epoch && !IsCurrent(After(es[..n]).t, fd, epoch)
    ensures epoch <= After(es).t.epoch && !IsCurrent(After(es).t, fd, epoch)
    decreases |es|
  {
    hide Next, IsCurrent;
    if n == |es| {
      assert es[..n] == es;
    } else {
      var m := |es| - 1;
      assert es[..m][..n] == es[..n];
      StaleStaysStale(es[..m], n, fd, epoch);
      NextStaleStays(After(es[..m]), es[m], fd, epoch);
    }
  }

  /** ... so no message that still arrives on it ever changes anything, and nothing is sent on it. */
  lemma StaleChangesNothing(es: seq<Step>, n: nat, fd: nat, epoch: nat, m: Message, now: u64, kind: byte, copy: nat)
    requires n <= |es| && epoch <= After(es[..n]).t.epoch && !IsCurrent(After(es[..n]).t, fd, epoch)
    ensures RunsOn(After(es), fd) && After(es).open[fd].owner.epoch == epoch ==>
            Next(After(es), Receive(fd, m, now)) == After(es)
    ensures Next(After(es), Capture(fd, epoch, kind, copy)) == After(es)
  {
    hide After;
    StaleStaysStale(es, n, fd, epoch);
  }

  // ------------------------------------------------ events

  ghost predicate Once(w: World) {
    && (forall i :: 0 <= i < |w.events| ==>
          match w.events[i]
          case Disconnected(e) => e < w.t.epoch || (e == w.t.epoch && w.t.fd < 0)
          case TimedOut(e) => e < w.t.epoch || (e == w.t.epoch && w.t.timedOut))
    && (forall i, j :: 0 <= i < j < |w.events| ==> w.events[i] != w.events[j])
  }

  lemma SameEvents(w: World, u: World)
    requires Once(w) && u.events == w.events
    requires u.t.epoch == w.t.epoch && u.t.fd == w.t.fd && (w.t.timedOut ==> u.t.timedOut)
    ensures Once(u)
  {
  }

  lemma GreetKeepsOnce(w: World, fd: nat, hello: Option<Message>, now: u64)
    requires Once(w) && fd in w.open
    ensures Once(OnGreet(w, fd, hello, now))
  {
    hide ValidHello, Capable;
  }

  lemma EndRunKeepsOnce(w: World, fd: nat)
    requires Once(w) && RunsOn(w, fd)
    ensures Once(OnEndRun(w, fd))
  {
  }

  lemma HeartbeatKeepsOnce(w: World, now: u64)
    requires Once(w)
    ensures Once(OnHeartbeat(w, now))
  {
    hide Sub64;
  }

  lemma NextKeepsOnce(w: World, e: Step)
    requires Once(w)
    ensures Once(Next(w, e))
  {
    hide Once, OnGreet, OnEndRun, OnHeartbeat, U32At;
    match e
    case Greet(fd, hello, now) => if Enabled(w, e) { GreetKeepsOnce(w, fd, hello, now); }
    case EndRun(fd) => if Enabled(w, e) { EndRunKeepsOnce(w, fd); }
    case Heartbeat(now) => HeartbeatKeepsOnce(w, now);
    case _ => SameEvents(w, Next(w, e));
  }

  /** In every run an epoch publishes at most one disconnect and at most one timeout. */
  lemma {:induction false} EventsAreOnce(es: seq<Step>)
    ensures Once(After(es))
    ensures var events := After(es).events; forall i, j :: 0 <= i < j < |events| ==> events[i] != events[j]
  {
    hide Next;
    if es != [] {
      EventsAreOnce(es[..|es| - 1]);
      NextKeepsOnce(After(es[..|es| - 1]), es[|es| - 1]);
    }
  }

  // ------------------------------------------------ key acknowledgements

  predicate Starts(w: World, e: Step, sequence: u32) { e == BeginKeyAck(sequence) && StartsKeyAck(w.t, sequence) }

  /** A new connection, the loss of the current one, and a new request end the wait for an answer. */
  predicate Cancels(w: World, e: Step) {
    && Enabled(w, e)
    && (|| (e.Greet? && Accepts(w.t, e.hello))
        || (e.EndRun? && Holds(w.t, e.fd, w.open[e.fd].owner.epoch))
        || (e.BeginKeyAck? && StartsKeyAck(w.t, e.sequence)))
  }

  /** The answer to this request arrives on the current connection. */
  predicate Answers(w: World, e: Step, sequence: u32) {
    && e.Receive? && Enabled(w, e) && IsCurrent(w.t, e.fd, w.open[e.fd].owner.epoch)
    && AcksKey(e.message) && U32At(e.message.payload, 0) == sequence
  }

  predicate Positive(e: Step) { e.Receive? && |e.message.payload| > 4 && e.message.payload[4] != 0 }

  lemma NextKeyAck(w: World, e: Step)
    ensures var t, u := w.t, Next(w, e).t;
            if e.BeginKeyAck? && Starts(w, e, e.sequence) then u.waiting == e.sequence && !u.ackReceived
            else if Cancels(w, e) then u.waiting == 0
            else if Answers(w, e, t.waiting) then
              u.waiting == t.waiting && u.ackReceived && (u.ackSuccess <==> Positive(e))
            else u.waiting == t.waiting && u.ackReceived == t.ackReceived && u.ackSuccess == t.ackSuccess
    ensures !Cancels(w, e) ==> Next(w, e).t.epoch == w.t.epoch && Next(w, e).t.fd == w.t.fd
  {
    hide U32At, Sub64;
  }

  predicate StartedAt(es: seq<Step>, i: nat, sequence: u32) { i < |es| && Starts(After(es[..i]), es[i], sequence) }

  predicate CancelledAt(es: seq<Step>, k: nat) { k < |es| && Cancels(After(es[..k]), es[k]) }

  predicate AnsweredAt(es: seq<Step>, j: nat, sequence: u32) { j < |es| && Answers(After(es[..j]), es[j], sequence) }

  ghost predicate WaitingSince(es: seq<Step>, i: nat, sequence: u32) {
    StartedAt(es, i, sequence) && forall k: nat :: i < k < |es| ==> !CancelledAt(es, k)
  }

  ghost predicate Unanswered(es: seq<Step>, i: nat, sequence: u32) {
    forall j: nat :: i < j < |es| ==> !AnsweredAt(es, j, sequence)
  }

  /** Answer j is the last one to the request made at i. */
  ghost predicate LastAnswer(es: seq<Step>, i: nat, j: nat, sequence: u32) {
    i < j < |es| && AnsweredAt(es, j, sequence) && Unanswered(es, j, sequence)
  }

  ghost predicate AnswerIs(es: seq<Step>, i: nat, t: Transport) {
    if t.ackReceived then exists j: nat :: LastAnswer(es, i, j, t.waiting) && (t.ackSuccess <==> Positive(es[j]))
    else Unanswered(es, i, t.waiting)
  }

  /** What the transport remembers of a request is what the run says of it. */
  ghost predicate Remembers(es: seq<Step>) {
    var t := After(es).t;
    if t.waiting == 0 then forall i: nat, sequence: u32 :: !WaitingSince(es, i, sequence)
    else exists i: nat :: WaitingSince(es, i, t.waiting) && AnswerIs(es, i, t)
  }

  /** Earlier steps stand as they were when the run goes on. */
  lemma Earlier(es: seq<Step>, k: nat, sequence: u32)
    requires k < |es| - 1
    ensures var init := es[..|es| - 1];
            && (StartedAt(es, k, sequence) <==> StartedAt(init, k, sequence))
            && (CancelledAt(es, k) <==> CancelledAt(init, k))
            && (AnsweredAt(es, k, sequence) <==> AnsweredAt(init, k, sequence))
  {
    assert es[..|es| - 1][..k] == es[..k];
  }

  lemma WaitingGoesOn(es: seq<Step>, i: nat, sequence: u32)
    requires |es| > 0 && i < |es| - 1
    ensures var n := |es| - 1;
            WaitingSince(es, i, sequence) <==> WaitingSince(es[..n], i, sequence) && !CancelledAt(es, n)
  {
    hide StartedAt, CancelledAt;
    var n := |es| - 1;
    Earlier(es, i, sequence);
    forall k: nat | i < k < n ensures CancelledAt(es, k) <==> CancelledAt(es[..n], k) { Earlier(es, k, sequence); }
  }

  lemma UnansweredGoesOn(es: seq<Step>, i: nat, sequence: u32)
    requires |es| > 0 && i < |es| - 1
    ensures var n := |es| - 1;
            Unanswered(es, i, sequence) <==> Unanswered(es[..n], i, sequence) && !AnsweredAt(es, n, sequence)
  {
    hide AnsweredAt;
    var n := |es| - 1;
    forall k: nat | i < k < n ensures AnsweredAt(es, k, sequence) <==> AnsweredAt(es[..n], k, sequence) {
      Earlier(es, k, sequence);
    }
  }

  lemma AnswerGoesOn(es: seq<Step>, i: nat, t: Transport)
    requires |es| > 0 && i < |es| - 1 && AnswerIs(es[..|es| - 1], i, t) && !AnsweredAt(es, |es| - 1, t.waiting)
    ensures AnswerIs(es, i, t)
  {
    hide AnsweredAt, Unanswered;
    var n := |es| - 1;
    if t.ackReceived {
      var j: nat :| LastAnswer(es[..n], i, j, t.waiting) && (t.ackSuccess <==> Positive(es[..n][j]));
      Earlier(es, j, t.waiting);
      UnansweredGoesOn(es, j, t.waiting);
      assert LastAnswer(es, i, j, t.waiting) && Positive(es[j]) == Positive(es[..n][j]);
    } else {
      UnansweredGoesOn(es, i, t.waiting);
    }
  }

  lemma {:induction false} RunRemembers(es: seq<Step>)
    ensures Remembers(es)
  {
    hide Next, Starts, Cancels, Answers, Unanswered, AnswerIs;
    if es != [] {
      var n := |es| - 1;
      var init, e := es[..n], es[n];
      var w := After(init);
      RunRemembers(init);
      NextKeyAck(w, e);
      if e.BeginKeyAck? && Starts(w, e, e.sequence) {
        assert StartedAt(es, n, e.sequence);
        NewRequest(es);
      } else if Cancels(w, e) {
        assert CancelledAt(es, n);
        NothingWaiting(es);
      } else if w.t.waiting == 0 {
        NothingNew(es);
      } else {
        StillWaiting(es);
      }
    }
  }

  lemma NewRequest(es: seq<Step>)
    requires |es| > 0 && es[|es| - 1].BeginKeyAck? && StartedAt(es, |es| - 1, es[|es| - 1].sequence)
    requires After(es).t.waiting == es[|es| - 1].sequence && !After(es).t.ackReceived
    ensures Remembers(es)
  {
    hide After, Cancels, Answers;
    assert WaitingSince(es, |es| - 1, After(es).t.waiting) && AnswerIs(es, |es| - 1, After(es).t);
    assert After(es).t.waiting != 0;
  }

  lemma NothingWaiting(es: seq<Step>)
    requires |es| > 0 && CancelledAt(es, |es| - 1) && After(es).t.waiting == 0
    requires var e := es[|es| - 1]; e.BeginKeyAck? ==> !Starts(After(es[..|es| - 1]), e, e.sequence)
    ensures Remembers(es)
  {
    hide After, CancelledAt, StartsKeyAck;
    forall i: nat, s: u32 ensures !WaitingSince(es, i, s) {
      if i < |es| - 1 { assert CancelledAt(es, |es| - 1); }
    }
  }

  lemma StillWaiting(es: seq<Step>)
    requires |es| > 0 && Remembers(es[..|es| - 1]) && !CancelledAt(es, |es| - 1)
    requires var n := |es| - 1;
             var t, u := After(es[..n]).t, After(es).t;
             && t.waiting != 0 && u.waiting == t.waiting
             && if AnsweredAt(es, n, t.waiting) then u.ackReceived && (u.ackSuccess <==> Positive(es[n]))
                else u.ackReceived == t.ackReceived && u.ackSuccess == t.ackSuccess
    ensures Remembers(es)
  {
    hide After, CancelledAt, StartedAt, AnsweredAt;
    var n := |es| - 1;
    var t, u := After(es[..n]).t, After(es).t;
    var i: nat :| WaitingSince(es[..n], i, t.waiting) && AnswerIs(es[..n], i, t);
    StartedBefore(es[..n], i, t.waiting);
    WaitingGoesOn(es, i, t.waiting);
    if AnsweredAt(es, n, t.waiting) {
      assert LastAnswer(es, i, n, u.waiting);
    } else {
      AnswerGoesOn(es, i, t);
      AnswerDependsOn(es, i, t, u);
    }
  }

  lemma StartedBefore(es: seq<Step>, i: nat, sequence: u32)
    requires StartedAt(es, i, sequence)
    ensures i < |es|
  {
  }

  lemma AnswerDependsOn(es: seq<Step>, i: nat, t: Transport, u: Transport)
    requires AnswerIs(es, i, t) && u.waiting == t.waiting && u.ackReceived == t.ackReceived
             && u.ackSuccess == t.ackSuccess
    ensures AnswerIs(es, i, u)
  {
    hide AnsweredAt, Unanswered;
    if t.ackReceived {
      var j: nat :| LastAnswer(es, i, j, t.waiting) && (t.ackSuccess <==> Positive(es[j]));
      assert LastAnswer(es, i, j, u.waiting);
    }
  }

  lemma NothingNew(es: seq<Step>)
    requires |es| > 0 && After(es).t.waiting == 0 && After(es[..|es| - 1]).t.waiting == 0 && Remembers(es[..|es| - 1])
    requires var e := es[|es| - 1]; e.BeginKeyAck? ==> !Starts(After(es[..|es| - 1]), e, e.sequence)
    ensures Remembers(es)
  {
    hide After, CancelledAt, StartsKeyAck;
    forall i: nat, s: u32 ensures !WaitingSince(es, i, s) {
      if i < |es| - 1 { WaitingGoesOn(es, i, s); }
    }
  }

  lemma {:induction false} NoCancelKeepsEpoch(es: seq<Step>, k: nat)
    requires k <= |es| && forall j: nat :: k <= j < |es| ==> !CancelledAt(es, j)
    ensures After(es[..k]).t.epoch == After(es).t.epoch && After(es[..k]).t.fd == After(es).t.fd
    decreases |es|
  {
    hide Next, Cancels;
    if k == |es| {
      assert es[..k] == es;
    } else {
      var n := |es| - 1;
      assert es[..n][..k] == es[..k];
      forall j: nat | k <= j < n ensures !CancelledAt(es[..n], j) { Earlier(es, j, 0); }
      NoCancelKeepsEpoch(es[..n], k);
      assert !CancelledAt(es, n);
      NextKeyAck(After(es[..n]), es[n]);
    }
  }

  /** In every run: an answer to a request is on record exactly when a request with that number was
      made, nothing has ended the wait since, and its answer has arrived since; the recorded success is
      the one in the last such answer. */
  lemma KeyAckMeaning(es: seq<Step>, sequence: u32)
    ensures var ack := GetKeyAck(After(es).t, sequence);
            && (ack.Some? <==> exists i: nat :: WaitingSince(es, i, sequence))
            && forall i: nat :: WaitingSince(es, i, sequence) ==>
                 && ack.Some?
                 && (ack.value.received <==> exists j: nat :: LastAnswer(es, i, j, sequence))
                 && forall j: nat :: LastAnswer(es, i, j, sequence) ==> (ack.value.success <==> Positive(es[j]))
  {
    hide After, StartedAt, CancelledAt, AnsweredAt;
    RunRemembers(es);
    var t := After(es).t;
    forall i: nat, s: u32 | WaitingSince(es, i, s) ensures t.waiting != 0 && s == t.waiting != 0 {
      RequestIsWaiting(es, i, s);
    }
    if t.waiting != 0 && t.waiting == sequence {
      var i: nat :| WaitingSince(es, i, sequence) && AnswerIs(es, i, t);
      forall k: nat | WaitingSince(es, k, sequence) ensures k == i { WaitingIsUnique(es, i, k, sequence, sequence); }
      forall j: nat, k: nat | LastAnswer(es, i, j, sequence) && LastAnswer(es, i, k, sequence) ensures j == k {}
      assert Unanswered(es, i, sequence) ==> forall j: nat :: !LastAnswer(es, i, j, sequence);
    }
  }

  lemma WaitingIsUnique(es: seq<Step>, i: nat, k: nat, a: u32, b: u32)
    requires WaitingSince(es, i, a) && WaitingSince(es, k, b)
    ensures i == k && a == b
  {
    hide After, StartsKeyAck;
    assert CancelledAt(es, i) && CancelledAt(es, k);
  }

  lemma RequestIsWaiting(es: seq<Step>, i: nat, sequence: u32)
    requires Remembers(es) && WaitingSince(es, i, sequence)
    ensures After(es).t.waiting == sequence != 0
  {
    hide After, AnswerIs;
    var t := After(es).t;
    if t.waiting != 0 {
      var k: nat :| WaitingSince(es, k, t.waiting) && AnswerIs(es, k, t);
      WaitingIsUnique(es, i, k, sequence, t.waiting);
    }
  }

  /** A recorded answer came over the connection that is current now, after its request was made. */
  lemma AnswerIsOfThisEpoch(es: seq<Step>, i: nat, j: nat, sequence: u32)
    requires WaitingSince(es, i, sequence) && LastAnswer(es, i, j, sequence)
    ensures var w := After(es[..j]);
            && i < j && RunsOn(w, es[j].fd)
                && w.open[es[j].fd].owner.epoch == After(es).t.epoch == After(es[..i]).t.epoch
  {
    hide After, Cancels, StartsKeyAck;
    assert es[..j][..i] == es[..i];
    NoCancelKeepsEpoch(es, j);
    NoCancelKeepsEpoch(es, i + 1);
    BeginKeepsEpoch(es, i, sequence);
  }

  lemma BeginKeepsEpoch(es: seq<Step>, i: nat, sequence: u32)
    requires StartedAt(es, i, sequence)
    ensures After(es[..i + 1]).t.epoch == After(es[..i]).t.epoch
  {
    assert es[..i + 1][..i] == es[..i];
  }

  // ------------------------------------------------ heartbeats

  /** When the agent was heard from in this step: its greeting, or a message on the current connection. */
  function Heard(w: World, e: Step): Option<u64> {
    if e.Greet? && Enabled(w, e) && Accepts(w.t, e.hello) then Some(e.now)
    else if e.Receive? && Enabled(w, e) && IsCurrent(w.t, e.fd, w.open[e.fd].owner.epoch) then Some(e.now)
    else None
  }

  function HeardAt(es: seq<Step>, j: nat): Option<u64> { if j < |es| then Heard(After(es[..j]), es[j]) else None }

  ghost predicate LastHeard(es: seq<Step>, j: nat) {
    HeardAt(es, j).Some? && forall k: nat :: j < k < |es| ==> HeardAt(es, k).None?
  }

  lemma NextActivity(w: World, e: Step)
    ensures Next(w, e).t.lastActivity == (if Heard(w, e).Some? then Heard(w, e).value else w.t.lastActivity)
    ensures Heard(w, e).None? ==> Next(w, e).t.epoch == w.t.epoch
  {
    hide U32At, Sub64;
  }

  lemma {:induction false} ActivityIsLastHeard(es: seq<Step>)
    requires After(es).t.epoch > 0
    ensures exists j: nat :: LastHeard(es, j) && HeardAt(es, j).value == After(es).t.lastActivity
    decreases |es|
  {
    hide Next, Heard;
    var n := |es| - 1;
    var w := After(es[..n]);
    NextActivity(w, es[n]);
    if Heard(w, es[n]).Some? {
      assert LastHeard(es, n);
    } else {
      ActivityIsLastHeard(es[..n]);
      var j: nat :| LastHeard(es[..n], j) && HeardAt(es[..n], j).value == w.t.lastActivity;
      forall k: nat | k < n ensures HeardAt(es, k) == HeardAt(es[..n], k) { assert es[..n][..k] == es[..k]; }
      assert LastHeard(es, j);
    }
  }

  /** There is one last time the agent was heard. */
  lemma LastHeardIsActivity(es: seq<Step>, j: nat)
    requires LastHeard(es, j) && After(es).t.epoch > 0
    ensures After(es).t.lastActivity == HeardAt(es, j).value
  {
    hide After, Heard;
    ActivityIsLastHeard(es);
    var k: nat :| LastHeard(es, k) && HeardAt(es, k).value == After(es).t.lastActivity;
    assert HeardAt(es, j).Some? && HeardAt(es, k).Some?;
    assert j < |es| && k < |es|;
  }

  /** In every run: a connection times out at the times that are more than five seconds after the agent was last
      heard on it, and at the times before that, down to the last five seconds of the 64-bit clock. */
  lemma TimesOutIff(es: seq<Step>, j: nat, now: u64)
    requires Connected(After(es).t) && !After(es).t.timedOut && LastHeard(es, j)
    ensures var heard := HeardAt(es, j).value;
            TimesOut(After(es).t, now) <==>
              if heard <= now then now - heard > HEARTBEAT_TIMEOUT else heard - now < TWO64 - HEARTBEAT_TIMEOUT
  {
    hide After, Heard, LastHeard;
    EpochOfConnection(es);
    LastHeardIsActivity(es, j);
  }

  lemma EpochOfConnection(es: seq<Step>)
    requires After(es).t.fd >= 0
    ensures After(es).t.epoch > 0
  {
    hide After;
    RunIsOwned(es);
    assert After(es).t.epoch in After(es).conns;
  }

  /** With a clock that was read after the agent was last heard, only a silence of more than five seconds times a
      connection out. */
  lemma TimeoutNeedsSilence(es: seq<Step>, j: nat, now: u64)
    requires TimesOut(After(es).t, now) && LastHeard(es, j) && HeardAt(es, j).value <= now
    ensures now - HeardAt(es, j).value > HEARTBEAT_TIMEOUT
  {
    hide After, Heard, LastHeard;
    TimesOutIff(es, j, now);
  }

  /** A clock that was read just before the agent was heard times its connection out at once. */
  lemma EarlyClockTimesOut(p: seq<byte>)
    requires |p| == 8
    ensures var es := [Connect(3, 1), Greet(3, Some(ProtocolSpec.Message(HELLO, p)), 10)];
            LastHeard(es, 1) && HeardAt(es, 1) == Some(10) && TimesOut(After(es).t, 9)
  {
    var es := [Connect(3, 1), Greet(3, Some(ProtocolSpec.Message(HELLO, p)), 10)];
    assert es[..0] == [] && es[..1] == [es[0]] && es[..1][..0] == [];
    var w := Next(START, es[0]);
    assert After(es[..1]) == w;
    assert Enabled(w, es[1]) && Accepts(w.t, es[1].hello);
    assert After(es) == Next(w, es[1]);
  }

  // ------------------------------------------------ the shutdown of a replaced connection

  predicate Keeps(h: Handle) { !h.owner.Sending? }

  /** Connections are told apart: no two epochs have the same, and no two descriptors that someone keeps; and a
      connection whose run has closed its descriptor is kept by none. */
  ghost predicate Identified(w: World) {
    && w.closed <= w.seen && (forall fd :: fd in w.open ==> w.open[fd].conn in w.seen)
    && (forall e :: e in w.conns ==> w.conns[e] in w.seen)
    && (forall a, b :: a in w.conns && b in w.conns && w.conns[a] == w.conns[b] ==> a == b)
    && (forall fd, e :: fd in w.open && w.open[fd].owner.Accepting? && e in w.conns ==> w.open[fd].conn != w.conns[e])
    && (forall a, b | a in w.open && b in w.open && Keeps(w.open[a]) && Keeps(w.open[b]) ::
          w.open[a].conn == w.open[b].conn ==> a == b)
    && (forall fd :: fd in w.open && Keeps(w.open[fd]) ==> w.open[fd].conn !in w.closed)
  }

  /** Until its run closes it, the descriptor owed a shutdown is the replaced connection's own; from then on it is
      never that connection's again. */
  predicate ShotKnown(w: World, shot: Shot) {
    && shot.epoch in w.conns && w.conns[shot.epoch] == shot.conn && shot.epoch < w.t.epoch
    && if shot.conn in w.closed then Target(w, shot.fd) != Some(shot.conn)
       else Target(w, shot.fd) == Some(shot.conn) && Keeps(w.open[shot.fd]) && !w.open[shot.fd].owner.Accepting?
  }

  lemma ConnectKeepsIdentified(w: World, fd: nat, conn: nat)
    requires Owned(w) && Identified(w) && fd !in w.open && conn !in w.seen
    ensures Identified(OnConnect(w, fd, conn))
  {
  }

  lemma GreetKeepsIdentified(w: World, fd: nat, hello: Option<Message>, now: u64)
    requires Owned(w) && Identified(w) && fd in w.open && w.open[fd].owner.Accepting?
    ensures Identified(OnGreet(w, fd, hello, now))
  {
    hide ValidHello, Capable;
  }

  lemma EndRunKeepsIdentified(w: World, fd: nat)
    requires Owned(w) && Identified(w) && RunsOn(w, fd)
    ensures Identified(OnEndRun(w, fd))
  {
  }

  lemma CloseKeepsIdentified(w: World, fd: nat)
    requires Owned(w) && Identified(w) && fd in w.open && w.open[fd].owner.Ending?
    ensures Identified(OnClose(w, fd))
  {
  }

  lemma CaptureKeepsIdentified(w: World, target: int, epoch: nat, kind: byte, copy: nat)
    requires Owned(w) && Identified(w) && w.sender.None? && copy !in w.open
    ensures Identified(OnCapture(w, target, epoch, kind, copy))
  {
  }

  lemma WriteKeepsIdentified(w: World)
    requires Owned(w) && Identified(w) && w.sender.Some? && w.sender.value.fd in w.open
    ensures Identified(OnWrite(w))
  {
  }

  lemma NextKeepsIdentified(w: World, e: Step)
    requires Owned(w) && Identified(w)
    ensures Identified(Next(w, e))
  {
    if Quiet(e) || !Enabled(w, e) {
      hide Next;
      QuietStep(w, e);
    } else {
      hide OnConnect, OnGreet, OnEndRun, OnClose, OnCapture, OnWrite, OnHeartbeat;
      match e
      case Connect(fd, conn) => ConnectKeepsIdentified(w, fd, conn);
      case Greet(fd, hello, now) => GreetKeepsIdentified(w, fd, hello, now);
      case EndRun(fd) => EndRunKeepsIdentified(w, fd);
      case Close(fd) => CloseKeepsIdentified(w, fd);
      case Capture(target, epoch, kind, copy) => CaptureKeepsIdentified(w, target, epoch, kind, copy);
      case Write => WriteKeepsIdentified(w);
    }
  }

  lemma ConnectKeepsShot(w: World, fd: nat, conn: nat, shot: Shot)
    requires Owned(w) && Identified(w) && ShotKnown(w, shot) && fd !in w.open && conn !in w.seen
    ensures ShotKnown(OnConnect(w, fd, conn), shot)
  {
  }

  lemma GreetKeepsShot(w: World, fd: nat, hello: Option<Message>, now: u64, shot: Shot)
    requires Owned(w) && Identified(w) && ShotKnown(w, shot) && fd in w.open && w.open[fd].owner.Accepting?
    ensures ShotKnown(OnGreet(w, fd, hello, now), shot)
  {
    hide ValidHello, Capable;
  }

  lemma EndRunKeepsShot(w: World, fd: nat, shot: Shot)
    requires Owned(w) && Identified(w) && ShotKnown(w, shot) && RunsOn(w, fd)
    ensures ShotKnown(OnEndRun(w, fd), shot)
  {
  }

  lemma CloseKeepsShot(w: World, fd: nat, shot: Shot)
    requires Owned(w) && Identified(w) && ShotKnown(w, shot) && fd in w.open && w.open[fd].owner.Ending?
    ensures ShotKnown(OnClose(w, fd), shot)
  {
  }

  lemma CaptureKeepsShot(w: World, target: int, epoch: nat, kind: byte, copy: nat, shot: Shot)
    requires Owned(w) && Identified(w) && ShotKnown(w, shot) && w.sender.None? && copy !in w.open
    ensures ShotKnown(OnCapture(w, target, epoch, kind, copy), shot)
  {
  }

  lemma WriteKeepsShot(w: World, shot: Shot)
    requires Owned(w) && Identified(w) && ShotKnown(w, shot) && w.sender.Some? && w.sender.value.fd in w.open
    ensures ShotKnown(OnWrite(w), shot)
  {
  }

  lemma NextKeepsShot(w: World, e: Step, shot: Shot)
    requires Owned(w) && Identified(w) && ShotKnown(w, shot)
    ensures ShotKnown(Next(w, e), shot)
  {
    if Quiet(e) || !Enabled(w, e) {
      hide Next;
      QuietStep(w, e);
    } else {
      hide OnConnect, OnGreet, OnEndRun, OnClose, OnCapture, OnWrite, OnHeartbeat;
      match e
      case Connect(fd, conn) => ConnectKeepsShot(w, fd, conn, shot);
      case Greet(fd, hello, now) => GreetKeepsShot(w, fd, hello, now, shot);
      case EndRun(fd) => EndRunKeepsShot(w, fd, shot);
      case Close(fd) => CloseKeepsShot(w, fd, shot);
      case Capture(target, epoch, kind, copy) => CaptureKeepsShot(w, target, epoch, kind, copy, shot);
      case Write => WriteKeepsShot(w, shot);
    }
  }

  /** Only an accept that replaces a connection owes a shutdown. */
  lemma OwedByAccept(w: World, e: Step, shot: Shot)
    requires shot in Next(w, e).owed && shot !in w.owed
    ensures e.Greet? && Enabled(w, e) && Accepts(w.t, e.hello) && Replaces(w)
            && shot == Shot(w.t.fd, w.conns[w.t.epoch], w.t.epoch)
  {
    hide AfterHello, AfterMessage, AfterHeartbeat, AfterBegin, AfterRun, TimesOut;
  }

  lemma NewShotKnown(w: World, e: Step, shot: Shot)
    requires Owned(w) && Identified(w) && shot in Next(w, e).owed && shot !in w.owed
    ensures ShotKnown(Next(w, e), shot)
  {
    OwedByAccept(w, e, shot);
    hide OnConnect, OnEndRun, OnClose, OnCapture, OnWrite, OnHeartbeat, ValidHello, Capable;
    assert w.open[w.t.fd].owner == Running(w.t.epoch);
  }

  lemma {:induction false} RunIsIdentified(es: seq<Step>)
    ensures Identified(After(es)) && forall i :: 0 <= i < |After(es).owed| ==> ShotKnown(After(es), After(es).owed[i])
  {
    hide Next, ShotKnown, Identified, Owned;
    if es == [] {
      StartIsIdentified();
    } else {
      var w, e := After(es[..|es| - 1]), es[|es| - 1];
      RunIsOwned(es[..|es| - 1]);
      RunIsIdentified(es[..|es| - 1]);
      NextKeepsIdentified(w, e);
      forall i | 0 <= i < |Next(w, e).owed| ensures ShotKnown(Next(w, e), Next(w, e).owed[i]) {
        var shot := Next(w, e).owed[i];
        if shot in w.owed { NextKeepsShot(w, e, shot); } else { NewShotKnown(w, e, shot); }
      }
    }
  }

  lemma StartIsIdentified()
    ensures Identified(START)
  {
  }

  /** In every run: the shutdown owed to a replaced connection reaches it, and nothing else, if and only if the run
      of that connection has not closed its descriptor yet. */
  lemma ShutdownReachesItsOwnIff(es: seq<Step>, i: nat)
    requires i < |After(es).owed|
    ensures var shot := After(es).owed[i];
            Target(After(es), shot.fd) == Some(shot.conn) <==> shot.conn !in After(es).closed
  {
    hide After;
    RunIsIdentified(es);
  }

  /** This step closes the descriptor of this connection. */
  predicate Closes(w: World, e: Step, conn: nat) { e.Close? && Enabled(w, e) && w.open[e.fd].conn == conn }

  predicate ClosedAt(es: seq<Step>, k: nat, conn: nat) { k < |es| && Closes(After(es[..k]), es[k], conn) }

  lemma NextClosed(w: World, e: Step, conn: nat)
    ensures conn in Next(w, e).closed <==> conn in w.closed || Closes(w, e, conn)
  {
    hide AfterHello, AfterMessage, AfterHeartbeat, AfterBegin, AfterRun, TimesOut;
  }

  /** The closed connections are those that a step of the run closed. */
  lemma {:induction false} ClosedMeaning(es: seq<Step>, conn: nat)
    ensures conn in After(es).closed <==> exists k: nat :: ClosedAt(es, k, conn)
  {
    hide Next, Closes;
    if es != [] {
      var n := |es| - 1;
      ClosedMeaning(es[..n], conn);
      NextClosed(After(es[..n]), es[n], conn);
      if conn in After(es[..n]).closed {
        var k: nat :| ClosedAt(es[..n], k, conn);
        assert es[..n][..k] == es[..k] && ClosedAt(es, k, conn);
      } else if Closes(After(es[..n]), es[n], conn) {
        assert ClosedAt(es, n, conn);
      } else {
        forall k: nat ensures !ClosedAt(es, k, conn) {
          if k < n { assert es[..n][..k] == es[..k] && !ClosedAt(es[..n], k, conn); }
        }
      }
    }
  }

  /** A run in which it reaches another: the replaced run closes its descriptor first, and the number is given to a
      third connection. */
  lemma ShutdownReachesAnother(p: seq<byte>)
    requires |p| == 8
    ensures var hello := Some(ProtocolSpec.Message(HELLO, p));
            var es := [Connect(3, 1), Greet(3, hello, 0), Connect(4, 2), Greet(4, hello, 0), EndRun(3), Close(3),
                       Connect(3, 7)];
            After(es).owed == [Shot(3, 1, 1)] && Target(After(es), 3) == Some(7)
  {
    var hello := Some(ProtocolSpec.Message(HELLO, p));
    var es := [Connect(3, 1), Greet(3, hello, 0), Connect(4, 2), Greet(4, hello, 0), EndRun(3), Close(3),
               Connect(3, 7)];
    hide Next, After;
    var a := Next(Next(START, es[0]), es[1]);
    FirstAccepted(hello);
    var b := Next(Next(a, es[2]), es[3]);
    SecondAccepted(a, hello);
    ThirdConnected(b);
    AfterSeven(es);
  }

  predicate ServesFirst(w: World) {
    && w.t.fd == 3 && w.t.epoch == 1 && !w.t.stopping && w.t.pendingFd < 0 && w.conns == map[1 := 1] && w.seen == {1}
    && w.open == map[3 := Handle(1, Running(1))] && w.owed == []
  }

  predicate ServesSecond(w: World) {
    && w.t.fd == 4 && w.t.epoch == 2 && !w.t.stopping && w.t.pendingFd < 0 && w.seen == {1, 2}
    && w.open == map[3 := Handle(1, Running(1)), 4 := Handle(2, Running(2))] && w.owed == [Shot(3, 1, 1)]
  }

  lemma FirstAccepted(hello: Option<Message>)
    requires ValidHello(hello)
    ensures ServesFirst(Next(Next(START, Connect(3, 1)), Greet(3, hello, 0)))
  {
    var w := Next(START, Connect(3, 1));
    assert w.open == map[3 := Handle(1, Accepting)] && w.seen == {1};
  }

  lemma SecondAccepted(w: World, hello: Option<Message>)
    requires ServesFirst(w) && ValidHello(hello)
    ensures ServesSecond(Next(Next(w, Connect(4, 2)), Greet(4, hello, 0)))
  {
    var u := Next(w, Connect(4, 2));
    assert u.open == map[3 := Handle(1, Running(1)), 4 := Handle(2, Accepting)] && u.seen == {1, 2};
  }

  lemma ThirdConnected(w: World)
    requires ServesSecond(w)
    ensures var u := Next(Next(Next(w, EndRun(3)), Close(3)), Connect(3, 7));
            u.owed == w.owed && Target(u, 3) == Some(7)
  {
    var u := Next(w, EndRun(3));
    assert u.open == map[3 := Handle(1, Ending), 4 := Handle(2, Running(2))] && u.t.pendingFd < 0 && !u.t.stopping;
    var v := Next(u, Close(3));
    assert v.open == map[4 := Handle(2, Running(2))] && v.seen == {1, 2};
  }

  lemma AfterSeven(es: seq<Step>)
    requires |es| == 7
    ensures After(es) == Next(Next(Next(Next(Next(Next(Next(START, es[0]), es[1]), es[2]), es[3]), es[4]), es[5]),
                              es[6])
  {
    hide Next;
    assert es[..0] == [] && forall k :: 0 <= k < 7 ==> es[..k + 1][..k] == es[..k] && es[..k + 1][k] == es[k];
    assert After(es[..0]) == START;
    AfterOne(es, 0); AfterOne(es, 1); AfterOne(es, 2); AfterOne(es, 3);
    AfterOne(es, 4); AfterOne(es, 5); AfterOne(es, 6);
    assert es[..7] == es;
  }

  lemma AfterOne(es: seq<Step>, k: nat)
    requires k < |es|
    ensures After(es[..k + 1]) == Next(After(es[..k]), es[k])
  {
    hide Next;
    assert es[..k + 1][..k] == es[..k];
  }
}

module AgentTransport {
  import opened Machine
  import opened AgentTransportSpec

  /** Each method is one section under the lock. */
  class AgentTransport {
    var fd: int
    var pendingFd: int
    var epoch: nat
    var lastActivity: u64
    var lastPing: u64
    var streamRequested: bool
    var supportsKeyAck: bool
    var heartbeatTimedOut: bool
    var stopping: bool
    var waitingKeySequence: u32
    var keyAckReceived: bool
    var keyAckSuccess: bool
    var stats: Stats

    ghost function Model(): Transport
      reads this
    {
      Transport(fd, pendingFd, epoch, lastActivity, lastPing, streamRequested, supportsKeyAck, heartbeatTimedOut,
                stopping,
                waitingKeySequence, keyAckReceived, keyAckSuccess, stats)
    }

    constructor ()
      ensures Model() == INITIAL
    {
      fd, pendingFd, epoch, lastActivity, lastPing, streamRequested := -1, -1, 0, 0, 0, false;
      supportsKeyAck, heartbeatTimedOut, stopping, waitingKeySequence := false, false, false, 0;
      keyAckReceived, keyAckSuccess, stats := false, false, Stats(0, 0, 0, 0);
    }

    /** agent_transport_accept before the handshake; false means the descriptor is closed. */
    method BeginAccept(newFd: nat) returns (waits: bool)
      modifies this`pendingFd
      ensures waits == CanWait(old(Model()))
      ensures Model() == if waits then old(Model()).(pendingFd := newFd) else old(Model())
    {
      waits := !stopping && pendingFd < 0;
      if waits { pendingFd := newFd; }
    }

    /** agent_transport_accept after the handshake. */
    method FinishAccept(newFd: nat, hello: Option<Message>, now: u64)
      returns (accepted: bool, replaced: int, start: bool)
      modifies this
      ensures accepted == Accepts(old(Model()), hello) && Model() == AfterHello(old(Model()), newFd, hello, now)
      ensures accepted ==> replaced == old(fd) && start == old(streamRequested)
    {
      accepted, replaced, start := false, -1, false;
      var valid := hello.Some? && hello.value.kind == HELLO
          && (|hello.value.payload| == 8 || |hello.value.payload| == 9);
      if pendingFd == newFd { pendingFd := -1; }
      if valid && !stopping {
        replaced, accepted, start := fd, true, streamRequested;
        NewEpoch(newFd, Capable(hello.value), now);
      }
    }

    method NewEpoch(newFd: nat, capable: bool, now: u64)
      modifies this
      ensures Model() == Publish(old(Model()), newFd, capable, now)
    {
      fd, epoch, supportsKeyAck := newFd, epoch + 1, capable;
      lastActivity, lastPing, heartbeatTimedOut := now, now, false;
      waitingKeySequence, keyAckReceived, keyAckSuccess := 0, false, false;
    }

    /** handle_message; true asks for a PONG to this epoch. */
    method HandleMessage(from: int, of: nat, message: Message, now: u64) returns (pong: bool)
      modifies this
      ensures Model() == AfterMessage(old(Model()), from, of, message, now)
      ensures pong == (IsCurrent(old(Model()), from, of) && message.kind == PING)
    {
      pong := false;
      if !stopping && fd == from && epoch == of {
        lastActivity := now;
        if message.kind == KEY_ACK && |message.payload| == 5 {
          var sequence := U32At(message.payload, 0);
          if waitingKeySequence == sequence { keyAckReceived, keyAckSuccess := true, message.payload[4] != 0; }
        } else if message.kind == STATS && |message.payload| == 16 {
          stats := Stats(U32At(message.payload, 0), U32At(message.payload, 4), U32At(message.payload, 8),
                         U32At(message.payload, 12));
        } else if message.kind == PING {
          pong := true;
        }
      }
    }

    /** The end of agent_transport_run; true publishes the disconnect. */
    method FinishRun(of: int, run: nat) returns (disconnected: bool)
      modifies this
      ensures Model() == AfterRun(old(Model()), of, run)
      ensures disconnected == (Holds(old(Model()), of, run) && !old(stopping))
    {
      disconnected := false;
      if fd == of && epoch == run {
        fd, supportsKeyAck := -1, false;
        waitingKeySequence, keyAckReceived, keyAckSuccess := 0, false, false;
        disconnected := !stopping;
      }
    }

    method Stop()
      modifies this`stopping
      ensures Model() == old(Model()).(stopping := true)
    {
      stopping := true;
    }

    /** agent_transport_heartbeat; at most one of the two is asked for. */
    method Beat(now: u64) returns (timeout: bool, ping: bool)
      modifies this
      ensures timeout == TimesOut(old(Model()), now) && ping == Pings(old(Model()), now)
      ensures Model() == AfterHeartbeat(old(Model()), now)
    {
      timeout, ping := false, false;
      if !stopping && fd >= 0 {
        timeout := !heartbeatTimedOut && Sub64(now, lastActivity) > HEARTBEAT_TIMEOUT;
        if timeout {
          heartbeatTimedOut, streamRequested := true, false;
        } else if !heartbeatTimedOut && Sub64(now, lastPing) >= HEARTBEAT_INTERVAL {
          lastPing, ping := now, true;
        }
      }
    }

    /** agent_transport_send and agent_transport_set_stream_requested up to send_for_epoch: what they take is
        current, and stays the epoch's own if it is current when the send starts. */
    method Target() returns (target: int, of: nat)
      ensures Connected(Model()) ==> IsCurrent(Model(), target, of)
      ensures !Connected(Model()) ==> target == -1
    {
      target, of := -1, 0;
      if !stopping && fd >= 0 { target, of := fd, epoch; }
    }

    method SetStreamRequested(requested: bool) returns (target: int, of: nat)
      modifies this`streamRequested
      ensures Model() == old(Model()).(streamRequested := requested)
      ensures if Connected(Model()) then IsCurrent(Model(), target, of) else target == -1
    {
      streamRequested := requested;
      target, of := Target();
    }

    method StartKeyAck(sequence: u32) returns (started: bool)
      modifies this`waitingKeySequence, this`keyAckReceived, this`keyAckSuccess
      ensures started == StartsKeyAck(old(Model()), sequence) && Model() == AfterBegin(old(Model()), sequence)
    {
      if sequence == 0 { return false; }
      started := !stopping && fd >= 0 && supportsKeyAck;
      if started { waitingKeySequence, keyAckReceived, keyAckSuccess := sequence, false, false; }
    }

    method ReadKeyAck(sequence: u32) returns (ack: Option<KeyAck>)
      ensures ack == GetKeyAck(Model(), sequence)
    {
      if sequence != 0 && waitingKeySequence == sequence { return Some(KeyAck(keyAckReceived, keyAckSuccess)); }
      ack := None;
    }
  }
}
