/** The report queues of the USB gadget (flush_reports and queue_report in src/hid.c): pacing,
    back-pressure, the order across endpoints, motion coalescing, clipboard writes. */
module HidQueueSpec {
  import opened Machine

  const CAPACITY := 256
  const STALL_TIMEOUT := 1000
  const PASTE_DELAY := 30
  const RETRY_DELAY := 100

  /** A report; `state` is its first byte (modifiers or buttons) and `paste` the character that has to be
      on the clipboard when it is sent, or 0. */
  datatype Report = Report(endpoint: nat, state: bv8, rest: seq<byte>, motion: bool, delay: nat, paste: u32)

  /** A queued report, with the character still to be put on the clipboard. */
  datatype Slot = Slot(report: Report, toPaste: u32)

  /** What happened outside, in order: a transfer started, from the queue or past it; an endpoint was found
      ready; a transfer completed; a character went to the clipboard; everything queued was cancelled. */
  datatype Action =
    | Submit(report: Report, at: nat)
    | Direct(report: Report, at: nat)
    | Ready(endpoint: nat)
    | Complete(endpoint: nat)
    | Clip(code: u32, at: nat)
    | Cancel

  // ------------------------------------------------ reading the log

  /** The endpoint has a transfer that has not completed. */
  predicate Busy(log: seq<Action>, endpoint: nat) {
    log != [] &&
    var n := |log| - 1;
    match log[n]
    case Submit(r, _) => r.endpoint == endpoint || Busy(log[..n], endpoint)
    case Direct(r, _) => r.endpoint == endpoint || Busy(log[..n], endpoint)
    case Complete(e) => e != endpoint && Busy(log[..n], endpoint)
    case _ => Busy(log[..n], endpoint)
  }

  /** What the gadget driver promises: a write is taken, and an endpoint polls as ready, only when its
      transfer has completed. */
  predicate Faithful(log: seq<Action>) {
    log == [] ||
    var n := |log| - 1;
    Faithful(log[..n]) &&
    match log[n]
    case Submit(r, _) => !Busy(log[..n], r.endpoint)
    case Direct(r, _) => !Busy(log[..n], r.endpoint)
    case Ready(e) => !Busy(log[..n], e)
    case _ => true
  }

  /** Reports submitted since the last cancellation, in that order... */
  function Sent(log: seq<Action>): seq<Report> {
    if log == [] then []
    else
      var n := |log| - 1;
      match log[n]
      case Submit(r, _) => Sent(log[..n]) + [r]
      case Cancel => []
      case _ => Sent(log[..n])
  }

  function On(rs: seq<Report>, endpoint: nat, wanted: bool): seq<Report> {
    if rs == [] then []
    else
      var last := rs[|rs| - 1];
      On(rs[..|rs| - 1], endpoint, wanted) + if (last.endpoint == endpoint) == wanted then [last] else []
  }

  /** ... those of them that have not completed... */
  function InFlight(log: seq<Action>): seq<Report> {
    if log == [] then []
    else
      var n := |log| - 1;
      match log[n]
      case Submit(r, _) => InFlight(log[..n]) + [r]
      case Complete(e) => On(InFlight(log[..n]), e, false)
      case Cancel => []
      case _ => InFlight(log[..n])
  }

  /** ... and those that have, in the order in which they did. */
  function Finished(log: seq<Action>): seq<Report> {
    if log == [] then []
    else
      var n := |log| - 1;
      match log[n]
      case Complete(e) => Finished(log[..n]) + On(InFlight(log[..n]), e, true)
      case Cancel => []
      case _ => Finished(log[..n])
  }

  /** Every report that ever went out. */
  function Outgoing(log: seq<Action>): seq<Report> {
    if log == [] then []
    else
      var n := |log| - 1;
      match log[n]
      case Submit(r, _) => Outgoing(log[..n]) + [r]
      case Direct(r, _) => Outgoing(log[..n]) + [r]
      case _ => Outgoing(log[..n])
  }

  predicate NoDirect(log: seq<Action>) { log == [] || (!log[|log| - 1].Direct? && NoDirect(log[..|log| - 1])) }

  /** Clipboard writes since the last report or cancellation. */
  function Clips(log: seq<Action>): seq<Action> {
    if log == [] then []
    else
      var n := |log| - 1;
      match log[n]
      case Submit(_, _) => []
      case Cancel => []
      case Clip(_, _) => Clips(log[..n]) + [log[n]]
      case _ => Clips(log[..n])
  }

  predicate Clipped(clips: seq<Action>, code: u32, deadline: nat) {
    |clips| == 1 && clips[0].Clip? && clips[0].code == code && clips[0].at + PASTE_DELAY <= deadline
  }

  /** Each submitted report with a character to paste comes right after exactly one clipboard write, of that
      character, at least 30 ms earlier; and any other report after none. */
  predicate PastesRight(log: seq<Action>) {
    log == [] ||
    var n := |log| - 1;
    PastesRight(log[..n]) &&
    (log[n].Submit? ==>
       if log[n].report.paste == 0 then Clips(log[..n]) == []
           else Clipped(Clips(log[..n]), log[n].report.paste, log[n].at))
  }

  /** The last report submitted since the last cancellation. */
  function LastSubmit(log: seq<Action>): Option<Action> {
    if log == [] then None
    else
      var n := |log| - 1;
      match log[n]
      case Submit(_, _) => Some(log[n])
      case Cancel => None
      case _ => LastSubmit(log[..n])
  }

  /** The delay a submitted report asked for is over. */
  predicate DelayOver(last: Option<Action>, now: nat) {
    last.Some? && last.value.Submit? ==> last.value.at + last.value.report.delay <= now
  }

  /** Each report is submitted after the delay of the one before it. */
  predicate DelaysKept(log: seq<Action>) {
    log == [] ||
    var n := |log| - 1;
    DelaysKept(log[..n]) && (log[n].Submit? ==> DelayOver(LastSubmit(log[..n]), log[n].at))
  }

  lemma LogGrows(log: seq<Action>, a: Action)
    ensures (log + [a])[..|log|] == log && (log + [a])[|log|] == a
  {
  }

  /** An uncompleted transfer makes its endpoint busy. */
  lemma {:induction false} InFlightIsBusy(log: seq<Action>, i: nat)
    requires i < |InFlight(log)|
    ensures Busy(log, InFlight(log)[i].endpoint)
    decreases |log|
  {
    var n := |log| - 1;
    match log[n]
    case Submit(_, _) => if i < |InFlight(log[..n])| { InFlightIsBusy(log[..n], i); }
    case Complete(e) =>
      var k := OnIsFrom(InFlight(log[..n]), e, false, i);
      InFlightIsBusy(log[..n], k);
    case Direct(_, _) => InFlightIsBusy(log[..n], i);
    case Ready(_) => InFlightIsBusy(log[..n], i);
    case Clip(_, _) => InFlightIsBusy(log[..n], i);
  }

  lemma {:induction false} OnIsFrom(rs: seq<Report>, endpoint: nat, wanted: bool, i: nat) returns (k: nat)
    requires i < |On(rs, endpoint, wanted)|
    ensures k < |rs| && rs[k] == On(rs, endpoint, wanted)[i] && (rs[k].endpoint == endpoint) == wanted
    decreases |rs|
  {
    var n := |rs| - 1;
    if i < |On(rs[..n], endpoint, wanted)| { k := OnIsFrom(rs[..n], endpoint, wanted, i); } else { k := n; }
  }

  // ------------------------------------------------ motion that was overtaken

  predicate Superseded(a: Report, b: Report) { a.motion && b.motion && a.endpoint == b.endpoint && a.state == b.state }

  /** Only motion that is directly followed by motion of the same endpoint and state is left out. */
  predicate LeftOutRight(queued: seq<Report>, keep: seq<bool>) {
    |keep| == |queued| && forall i :: 0 <= i < |keep| ==> LeftOutAt(queued, keep, i)
  }

  predicate LeftOutAt(queued: seq<Report>, keep: seq<bool>, i: nat)
    requires i < |keep| == |queued|
  {
    !keep[i] ==> i + 1 < |queued| && Superseded(queued[i], queued[i + 1])
  }

  function Kept(queued: seq<Report>, keep: seq<bool>): seq<Report>
    requires |keep| == |queued|
  {
    if queued == [] then []
    else
      var n := |queued| - 1;
      Kept(queued[..n], keep[..n]) + if keep[n] then [queued[n]] else []
  }

  lemma KeptGrows(queued: seq<Report>, keep: seq<bool>, r: Report)
    requires LeftOutRight(queued, keep)
    ensures LeftOutRight(queued + [r], keep + [true]) && Kept(queued + [r], keep + [true]) == Kept(queued, keep) + [r]
  {
    var all, marks := queued + [r], keep + [true];
    assert all[..|queued|] == queued && marks[..|queued|] == keep;
    forall i | 0 <= i < |marks| ensures LeftOutAt(all, marks, i) {
      if i < |keep| { assert LeftOutAt(queued, keep, i); }
    }
  }

  lemma KeptReplaces(queued: seq<Report>, keep: seq<bool>, r: Report)
    requires LeftOutRight(queued, keep) && queued != [] && Superseded(queued[|queued| - 1], r)
    ensures var n := |queued| - 1;
            && LeftOutRight(queued + [r], keep[n := false] + [true])
            && Kept(queued, keep) == Kept(queued[..n], keep[..n]) + [queued[n]]
            && Kept(queued + [r], keep[n := false] + [true]) == Kept(queued[..n], keep[..n]) + [r]
  {
    var n := |queued| - 1;
    assert LeftOutAt(queued, keep, n);
    var all, marks := queued + [r], keep[n := false] + [true];
    assert all[..n + 1] == queued && marks[..n + 1] == keep[n := false] && keep[n := false][..n] == keep[..n];
    assert Kept(queued, keep[n := false]) == Kept(queued[..n], keep[..n]) + [];
    forall i | 0 <= i < |marks| ensures LeftOutAt(all, marks, i) {
      if i < n { assert LeftOutAt(queued, keep, i); }
    }
  }

  // ------------------------------------------------ the queue and its invariant

  /** A queue with its past: the log, and what was queued since the last cancellation, with marks on what
      was not overtaken. */
  datatype Queue = Queue(pending: seq<Slot>, readyAt: nat, blockedAt: nat, inflight: nat,
                         log: seq<Action>, queued: seq<Report>, keep: seq<bool>)

  const FRESH: Queue := Queue([], 0, 0, 0, [], [], [])

  function Reports(slots: seq<Slot>): (rs: seq<Report>)
    ensures |rs| == |slots| && forall i :: 0 <= i < |slots| ==> rs[i] == slots[i].report
  {
    seq(|slots|, i requires 0 <= i < |slots| => slots[i].report)
  }

  /** What was queued and not overtaken has been submitted, or is still waiting, in the same order. */
  predicate NothingLost(q: Queue) {
    LeftOutRight(q.queued, q.keep) && Kept(q.queued, q.keep) == Sent(q.log) + Reports(q.pending)
  }

  predicate PasteReady(q: Queue) {
    && PastesRight(q.log)
    && (forall i :: 0 <= i < |q.pending| ==>
        q.pending[i].toPaste == q.pending[i].report.paste || (i == 0 && q.pending[i].toPaste == 0))
    && (if q.pending != [] && q.pending[0].toPaste != q.pending[0].report.paste
        then Clipped(Clips(q.log), q.pending[0].report.paste, q.readyAt) else Clips(q.log) == [])
  }

  /** Since the last cancellation transfers completed in the order of submission, at most one is under
      way, and it is on the endpoint the queue remembers. */
  predicate Serial(q: Queue) {
    && Finished(q.log) + InFlight(q.log) == Sent(q.log) && |InFlight(q.log)| <= 1
    && (InFlight(q.log) != [] ==> InFlight(q.log)[0].endpoint == q.inflight != 0)
  }

  predicate Spaced(q: Queue) { DelaysKept(q.log) && DelayOver(LastSubmit(q.log), q.readyAt) }

  predicate Shaped(q: Queue) {
    && |q.pending| <= CAPACITY
    && forall i :: 0 <= i < |q.pending| ==>
         q.pending[i].report.endpoint != 0
             && (q.pending[i].report.motion ==> q.pending[i].report.delay == 0 == q.pending[i].report.paste)
  }

  predicate Ok(q: Queue) {
    Shaped(q) && NothingLost(q) && PasteReady(q) && Spaced(q) && (Faithful(q.log) && NoDirect(q.log) ==> Serial(q))
  }

  lemma OkMeans(q: Queue)
    requires Ok(q)
    ensures NothingLost(q) && PastesRight(q.log) && DelaysKept(q.log)
            && (Faithful(q.log) && NoDirect(q.log) ==> Serial(q))
  {
  }

  /** Every report that went out or will. */
  function History(q: Queue): seq<Report> { Outgoing(q.log) + Reports(q.pending) }

  // ------------------------------------------------ what an iteration of the flush loop does

  datatype Poll = PollReady | PollWaiting | PollError
  datatype Outcome = Done | Again | Failed

  /** The outside during one iteration: transfers that completed before it, the time, the answer to a poll of
      the previous endpoint, whether a clipboard write succeeds, and what a write of the report comes to. */
  datatype Turn = Turn(completed: seq<nat>, now: nat, poll: Poll, clip: bool, write: Outcome)

  datatype Verdict = Continue | Stop(ok: bool)

  function Completions(completed: seq<nat>): (log: seq<Action>)
    ensures |log| == |completed| && forall i :: 0 <= i < |log| ==> log[i] == Complete(completed[i])
  {
    seq(|completed|, i requires 0 <= i < |completed| => Complete(completed[i]))
  }

  function Completed(q: Queue, completed: seq<nat>): Queue { q.(log := q.log + Completions(completed)) }

  predicate Stalled(blockedAt: nat, now: nat) {
    blockedAt != 0 && (now < blockedAt || now - blockedAt >= STALL_TIMEOUT)
  }

  function Blocked(q: Queue, now: nat): Queue { if q.blockedAt == 0 then q.(blockedAt := now) else q }

  /** Another endpoint than the head's may still be at work. */
  predicate Crosses(q: Queue)
    requires q.pending != []
  {
    q.inflight != 0 && q.inflight != q.pending[0].report.endpoint
  }

  function Crossed(q: Queue): Queue { q.(inflight := 0, log := q.log + [Ready(q.inflight)]) }

  function Pasted(q: Queue, now: nat): Queue
    requires q.pending != []
  {
    q.(pending := [q.pending[0].(toPaste := 0)] + q.pending[1..], readyAt := now + PASTE_DELAY,
       log := q.log + [Clip(q.pending[0].toPaste, now)])
  }

  function Popped(q: Queue, now: nat): Queue
    requires q.pending != []
  {
    var r := q.pending[0].report;
    q.(pending := q.pending[1..], blockedAt := 0, inflight := r.endpoint, readyAt := now + r.delay,
       log := q.log + [Submit(r, now)])
  }

  /** The head gets its turn. */
  function Attempt(q: Queue, t: Turn): (Queue, Verdict)
    requires q.pending != []
  {
    if q.pending[0].toPaste != 0 then if t.clip then (Pasted(q, t.now), Stop(true)) else (q, Stop(false))
    else
      match t.write
      case Done => (Popped(q, t.now), Continue)
      case Again => (Blocked(q, t.now), Stop(true))
      case Failed => (Blocked(q, t.now).(readyAt := t.now + RETRY_DELAY), Stop(false))
  }

  function Iterate(p: Queue, t: Turn): (r: (Queue, Verdict))
    requires p.pending != []
    ensures r.1.Continue? ==> |r.0.pending| < |p.pending|
  {
    var q := Completed(p, t.completed);
    if t.now < q.readyAt then (q, Stop(true))
    else if Stalled(q.blockedAt, t.now) then (q, Stop(false))
    else if !Crosses(q) then Attempt(q, t)
    else
      match t.poll
      case PollWaiting => (Blocked(q, t.now), Stop(true))
      case PollError => (q, Stop(false))
      case PollReady => Attempt(Crossed(q), t)
  }

  /** flush_reports: iterations until one stops it or nothing is left; the numbers count the turns taken. */
  function Drain(q: Queue, turns: nat -> Turn, k: nat): (Queue, nat, bool)
    decreases |q.pending|
  {
    if q.pending == [] then (q, k, true)
    else
      var (p, verdict) := Iterate(q, turns(k));
      match verdict
      case Stop(ok) => (p, k + 1, ok)
      case Continue => Drain(p, turns, k + 1)
  }

  lemma DrainStep(q: Queue, turns: nat -> Turn, k: nat)
    requires q.pending != []
    ensures var (p, verdict) := Iterate(q, turns(k));
            && (verdict.Continue? ==> |p.pending| < |q.pending|)
            && Drain(q, turns, k) == if verdict.Stop? then (p, k + 1, verdict.ok) else Drain(p, turns, k + 1)
  {
    hide Iterate;
  }

  lemma DrainEnd(q: Queue, turns: nat -> Turn, k: nat)
    requires q.pending == []
    ensures Drain(q, turns, k) == (q, k, true)
  {
  }

  // ------------------------------------------------ what queueing does

  predicate Coalesces(q: Queue, r: Report) { q.pending != [] && Superseded(q.pending[|q.pending| - 1].report, r) }

  function Renewed(s: Slot, r: Report): Slot { s.(report := s.report.(rest := r.rest)) }

  /** The marks when the last report is overtaken by a new one. */
  function Overtaken(keep: seq<bool>): seq<bool> { if keep == [] then [true] else keep[|keep| - 1 := false] + [true] }

  /** The newer position takes the place of the last one. */
  function Replaced(q: Queue, r: Report): Queue
    requires q.pending != []
  {
    var n := |q.pending| - 1;
    q.(pending := q.pending[n := Renewed(q.pending[n], r)], queued := q.queued + [r], keep := Overtaken(q.keep))
  }

  function Appended(q: Queue, r: Report): Queue {
    q.(pending := q.pending + [Slot(r, r.paste)], queued := q.queued + [r], keep := q.keep + [true])
  }

  /** queue_report: its return value, and whether the report was taken. */
  function Enqueue(q: Queue, r: Report, turns: nat -> Turn, k: nat): (Queue, nat, bool, bool) {
    if Coalesces(q, r) then
      var (p, j, ok) := Drain(Replaced(q, r), turns, k);
      (p, j, ok, true)
    else
      var (p, j, _) := if |q.pending| == CAPACITY then Drain(q, turns, k) else (q, k, true);
      if |p.pending| == CAPACITY then (p, j, false, false)
      else
        var (s, l, ok) := Drain(Appended(p, r), turns, j);
        (s, l, ok, true)
  }

  function Cancelled(q: Queue): Queue { Queue([], 0, 0, 0, q.log + [Cancel], [], []) }

  /** A report written past the queue. */
  function Bypassed(q: Queue, r: Report, now: nat): Queue { q.(log := q.log + [Direct(r, now)]) }

  predicate Queueable(r: Report) { r.endpoint != 0 && (r.motion ==> r.delay == 0 == r.paste) }

  // ------------------------------------------------ all of it keeps the invariant

  /** Other actions leave the spacing alone, and so does waiting longer. */
  lemma SpacedStays(q: Queue, p: Queue, a: Action)
    requires Spaced(q) && p.log == q.log + [a] && !a.Submit? && q.readyAt <= p.readyAt
    ensures Spaced(p)
  {
    LogGrows(q.log, a);
  }

  lemma PoppedIsSpaced(q: Queue, now: nat)
    requires Spaced(q) && q.pending != [] && q.readyAt <= now
    ensures Spaced(Popped(q, now))
  {
    LogGrows(q.log, Submit(q.pending[0].report, now));
  }

  lemma CancelledIsSpaced(q: Queue)
    requires Spaced(q)
    ensures Spaced(Cancelled(q))
  {
    LogGrows(q.log, Cancel);
  }

  lemma CompleteLogged(log: seq<Action>, e: nat)
    ensures var after := log + [Complete(e)];
            && Sent(after) == Sent(log) && Outgoing(after) == Outgoing(log) && Clips(after) == Clips(log)
            && InFlight(after) == On(InFlight(log), e, false)
                && Finished(after) == Finished(log) + On(InFlight(log), e, true)
            && (NoDirect(after) <==> NoDirect(log)) && (PastesRight(after) <==> PastesRight(log))
            && (Faithful(after) <==> Faithful(log))
  {
    LogGrows(log, Complete(e));
  }

  lemma CompleteKeepsOk(q: Queue, e: nat)
    requires Ok(q)
    ensures var p := q.(log := q.log + [Complete(e)]); Ok(p) && History(p) == History(q)
  {
    hide Kept, On, Sent, InFlight, Finished, Outgoing, Clips, PastesRight, Faithful, Busy, NoDirect, LeftOutRight;
    hide Reports, Spaced;
    CompleteLogged(q.log, e);
    SpacedStays(q, q.(log := q.log + [Complete(e)]), Complete(e));
    if Faithful(q.log) && NoDirect(q.log) {
      OnSplits(InFlight(q.log), e);
      var f := Finished(q.log);
      assert f + On(InFlight(q.log), e, true) + On(InFlight(q.log), e, false) == f + InFlight(q.log);
    }
  }

  lemma OnSplits(rs: seq<Report>, e: nat)
    requires |rs| <= 1
    ensures On(rs, e, true) + On(rs, e, false) == rs && |On(rs, e, false)| <= 1
    ensures On(rs, e, false) != [] ==> On(rs, e, false) == rs
  {
    if |rs| == 1 { assert rs[..0] == [] && rs == [rs[0]]; }
  }

  lemma {:induction false} CompletedKeepsOk(q: Queue, completed: seq<nat>)
    requires Ok(q)
    ensures Ok(Completed(q, completed)) && History(Completed(q, completed)) == History(q)
    decreases |completed|
  {
    hide Ok, History;
    if completed == [] {
      assert q.log + [] == q.log;
    } else {
      var n := |completed| - 1;
      CompletedKeepsOk(q, completed[..n]);
      CompleteKeepsOk(Completed(q, completed[..n]), completed[n]);
      assert q.log + Completions(completed) == q.log + Completions(completed[..n]) + [Complete(completed[n])];
    }
  }

  lemma CrossedKeepsOk(q: Queue)
    requires Ok(q) && q.pending != [] && Crosses(q)
    ensures Ok(Crossed(q)) && History(Crossed(q)) == History(q)
  {
    hide Kept, On, Spaced;
    LogGrows(q.log, Ready(q.inflight));
    SpacedStays(q, Crossed(q), Ready(q.inflight));
    if Faithful(Crossed(q).log) && NoDirect(q.log) && InFlight(q.log) != [] {
      InFlightIsBusy(q.log, 0);
      assert false;
    }
  }

  lemma ClipLogged(log: seq<Action>, code: u32, now: nat)
    ensures var after := log + [Clip(code, now)];
            && Sent(after) == Sent(log) && InFlight(after) == InFlight(log) && Finished(after) == Finished(log)
            && Outgoing(after) == Outgoing(log) && Clips(after) == Clips(log) + [Clip(code, now)]
            && (NoDirect(after) <==> NoDirect(log)) && (PastesRight(after) <==> PastesRight(log))
                && (Faithful(after) <==> Faithful(log))
  {
    LogGrows(log, Clip(code, now));
  }

  lemma PastedKeepsOk(q: Queue, now: nat)
    requires Ok(q) && q.pending != [] && q.pending[0].toPaste != 0 && q.readyAt <= now
    ensures Ok(Pasted(q, now)) && History(Pasted(q, now)) == History(q)
  {
    hide Kept, On, Sent, InFlight, Finished, Outgoing, Clips, NoDirect, PastesRight, Faithful, LeftOutRight, Spaced;
    SpacedStays(q, Pasted(q, now), Clip(q.pending[0].toPaste, now));
    ClipLogged(q.log, q.pending[0].toPaste, now);
    assert Reports(Pasted(q, now).pending) == Reports(q.pending);
  }

  lemma SubmitLogged(log: seq<Action>, r: Report, now: nat)
    ensures var after := log + [Submit(r, now)];
            && Sent(after) == Sent(log) + [r] && InFlight(after) == InFlight(log) + [r]
                && Finished(after) == Finished(log)
            && Outgoing(after) == Outgoing(log) + [r] && Clips(after) == [] && (NoDirect(after) <==> NoDirect(log))
            && (PastesRight(after) <==>
                  PastesRight(log) && if r.paste == 0 then Clips(log) == [] else Clipped(Clips(log), r.paste, now))
            && (Faithful(after) <==> Faithful(log) && !Busy(log, r.endpoint))
  {
    LogGrows(log, Submit(r, now));
  }

  /** Submitting to the remembered endpoint, or when none is remembered, starts after everything else. */
  lemma PoppedIsSerial(q: Queue, now: nat)
    requires q.pending != [] && q.pending[0].report.endpoint != 0 && !Crosses(q)
    requires Faithful(q.log) && NoDirect(q.log) ==> Serial(q)
    ensures Faithful(Popped(q, now).log) && NoDirect(Popped(q, now).log) ==> Serial(Popped(q, now))
  {
    hide Sent, InFlight, Finished, Outgoing, Clips, PastesRight, Faithful, Busy, NoDirect, Clipped;
    var r := q.pending[0].report;
    SubmitLogged(q.log, r, now);
    if Faithful(Popped(q, now).log) && NoDirect(q.log) {
      if InFlight(q.log) != [] {
        InFlightIsBusy(q.log, 0);
        assert false;
      }
      assert Finished(q.log) + [] == Finished(q.log) && [] + [r] == [r];
    }
  }

  lemma FirstReport(slots: seq<Slot>)
    requires slots != []
    ensures Reports(slots) == [slots[0].report] + Reports(slots[1..])
  {
  }

  lemma PoppedLosesNothing(q: Queue, now: nat)
    requires q.pending != [] && NothingLost(q)
    ensures NothingLost(Popped(q, now)) && History(Popped(q, now)) == History(q)
  {
    hide Kept, Sent, InFlight, Finished, Outgoing, Clips, PastesRight, Faithful, Busy, NoDirect, LeftOutRight, Reports;
    hide Clipped;
    var r := q.pending[0].report;
    SubmitLogged(q.log, r, now);
    FirstReport(q.pending);
    Regroup(Sent(q.log), [r], Reports(q.pending[1..]));
    Regroup(Outgoing(q.log), [r], Reports(q.pending[1..]));
  }

  lemma PoppedIsPasteReady(q: Queue, now: nat)
    requires q.pending != [] && PasteReady(q) && q.pending[0].toPaste == 0 && q.readyAt <= now
    ensures PasteReady(Popped(q, now))
  {
    hide Kept, Sent, InFlight, Finished, Outgoing, Clips, PastesRight, Faithful, Busy, NoDirect;
    SubmitLogged(q.log, q.pending[0].report, now);
  }

  lemma PoppedKeepsOk(q: Queue, now: nat)
    requires Ok(q) && q.pending != [] && q.pending[0].toPaste == 0 && !Crosses(q) && q.readyAt <= now
    ensures Ok(Popped(q, now)) && History(Popped(q, now)) == History(q)
  {
    hide NothingLost, PasteReady, Serial, Faithful, NoDirect, History, Spaced;
    PoppedIsSpaced(q, now);
    PoppedIsSerial(q, now);
    PoppedIsPasteReady(q, now);
    PoppedLosesNothing(q, now);
  }

  lemma AppendedKeepsOk(q: Queue, r: Report)
    requires Ok(q) && |q.pending| < CAPACITY && Queueable(r)
    ensures Ok(Appended(q, r)) && History(Appended(q, r)) == History(q) + [r]
  {
    hide Kept, On, DelaysKept, LastSubmit;
    KeptGrows(q.queued, q.keep, r);
    assert Reports(q.pending + [Slot(r, r.paste)]) == Reports(q.pending) + [r];
  }

  lemma Snoc<T>(a: seq<T>, x: T, b: seq<T>, y: T)
    requires a + [x] == b + [y]
    ensures a == b && x == y
  {
    assert |a + [x]| == |b + [y]|;
    assert (a + [x])[|a|] == x && (b + [y])[|b|] == y;
    assert (a + [x])[..|a|] == a && (b + [y])[..|b|] == b;
  }

  lemma ReplacedLosesNothing(q: Queue, r: Report)
    requires Shaped(q) && NothingLost(q) && Coalesces(q, r) && Queueable(r)
    ensures NothingLost(Replaced(q, r))
  {
    hide Kept, Sent;
    var n, m := |q.pending| - 1, |q.queued| - 1;
    var front := Reports(q.pending[..n]);
    var last := q.pending[n].report;
    assert Reports(q.pending) == front + [last];
    assert Reports(Replaced(q, r).pending) == front + [r];
    assert Kept(q.queued, q.keep) == (Sent(q.log) + front) + [last];
    SomethingQueued(q.queued, q.keep);
    LastIsKept(q.queued, q.keep);
    Snoc(Kept(q.queued[..m], q.keep[..m]), q.queued[m], Sent(q.log) + front, last);
    KeptReplaces(q.queued, q.keep, r);
    assert Sent(q.log) + front + [r] == Sent(q.log) + (front + [r]);
  }

  lemma SomethingQueued(queued: seq<Report>, keep: seq<bool>)
    requires LeftOutRight(queued, keep) && Kept(queued, keep) != []
    ensures queued != []
  {
  }

  lemma ReplacedKeepsOk(q: Queue, r: Report)
    requires Ok(q) && Coalesces(q, r) && Queueable(r)
    ensures Ok(Replaced(q, r))
    ensures var h := History(q);
            h != [] && History(Replaced(q, r)) == h[..|h| - 1] + [r] && h[|h| - 1].endpoint == r.endpoint
  {
    hide Kept, On, Sent, NothingLost, Outgoing, Clips, InFlight, Finished, PastesRight, DelaysKept, LastSubmit;
    ReplacedLosesNothing(q, r);
    var n := |q.pending| - 1;
    var front := Reports(q.pending[..n]);
    assert Reports(q.pending) == front + [q.pending[n].report];
    assert Reports(Replaced(q, r).pending) == front + [r];
    assert History(q) == (Outgoing(q.log) + front) + [q.pending[n].report];
    assert History(Replaced(q, r)) == (Outgoing(q.log) + front) + [r];
  }

  lemma LastIsKept(queued: seq<Report>, keep: seq<bool>)
    requires LeftOutRight(queued, keep) && queued != []
    ensures var n := |queued| - 1; keep[n] && Kept(queued, keep) == Kept(queued[..n], keep[..n]) + [queued[n]]
  {
    assert LeftOutAt(queued, keep, |queued| - 1);
  }

  lemma CancelLogged(log: seq<Action>)
    ensures var after := log + [Cancel];
            && Sent(after) == [] && InFlight(after) == [] && Finished(after) == [] && Clips(after) == []
            && Outgoing(after) == Outgoing(log) && (PastesRight(after) <==> PastesRight(log))
  {
    LogGrows(log, Cancel);
  }

  lemma CancelledIsOk(q: Queue)
    requires Ok(q)
    ensures Ok(Cancelled(q)) && History(Cancelled(q)) == Outgoing(q.log)
  {
    hide Sent, InFlight, Finished, Clips, Outgoing, PastesRight, Faithful, NoDirect, Spaced;
    CancelLogged(q.log);
    CancelledIsSpaced(q);
  }

  lemma BypassedKeepsOk(q: Queue, r: Report, now: nat)
    requires Ok(q) && q.pending == []
    ensures Ok(Bypassed(q, r, now)) && History(Bypassed(q, r, now)) == History(q) + [r]
  {
    hide Kept, On, Spaced;
    LogGrows(q.log, Direct(r, now));
    SpacedStays(q, Bypassed(q, r, now), Direct(r, now));
  }

  /** Direct writes are only tried on an empty queue that remembers no endpoint. */
  predicate Primed(q: Queue) { q.pending == [] ==> q.inflight != 0 }

  /** What a step of the flush loop may do to a queue. */
  predicate Flushed(q: Queue, p: Queue) {
    && Ok(p) && Primed(p) && History(p) == History(q) && (NoDirect(q.log) ==> NoDirect(p.log))
    && p.queued == q.queued && p.keep == q.keep && |p.pending| <= |q.pending|
  }

  lemma AttemptFlushes(q: Queue, t: Turn)
    requires Ok(q) && q.pending != [] && !Crosses(q) && q.readyAt <= t.now
    ensures Flushed(q, Attempt(q, t).0)
  {
    hide NothingLost, Serial, Clips, PastesRight, Faithful, NoDirect, History, Spaced;
    if q.pending[0].toPaste != 0 {
      PastedKeepsOk(q, t.now);
      DirectLess(q.log, Clip(q.pending[0].toPaste, t.now));
    } else {
      PoppedKeepsOk(q, t.now);
      DirectLess(q.log, Submit(q.pending[0].report, t.now));
      WaitingKeepsOk(q, Blocked(q, t.now).blockedAt, t.now + RETRY_DELAY);
      WaitingKeepsOk(q, Blocked(q, t.now).blockedAt, q.readyAt);
    }
  }

  lemma DirectLess(log: seq<Action>, a: Action)
    requires !a.Direct?
    ensures NoDirect(log) ==> NoDirect(log + [a])
  {
    LogGrows(log, a);
  }

  lemma {:induction false} CompletionsDirectLess(log: seq<Action>, completed: seq<nat>)
    ensures NoDirect(log) ==> NoDirect(log + Completions(completed))
    decreases |completed|
  {
    if completed == [] {
      assert log + Completions(completed) == log;
    } else {
      var n := |completed| - 1;
      CompletionsDirectLess(log, completed[..n]);
      DirectLess(log + Completions(completed[..n]), Complete(completed[n]));
      assert log + Completions(completed) == log + Completions(completed[..n]) + [Complete(completed[n])];
    }
  }

  /** Waiting longer changes nothing else. */
  lemma WaitingKeepsOk(q: Queue, blockedAt: nat, readyAt: nat)
    requires Ok(q) && q.readyAt <= readyAt
    ensures var p := q.(blockedAt := blockedAt, readyAt := readyAt); Ok(p) && History(p) == History(q)
  {
    hide Kept, Clips, PastesRight, Faithful, NoDirect, Sent, Outgoing, InFlight, Finished, DelaysKept, LastSubmit;
  }

  /** One iteration of flush_reports keeps everything. */
  lemma IterateFlushes(q: Queue, t: Turn)
    requires Ok(q) && q.pending != []
    ensures Flushed(q, Iterate(q, t).0)
  {
    hide Ok, NoDirect, History, Attempt;
    var p := Completed(q, t.completed);
    CompletedKeepsOk(q, t.completed);
    CompletionsDirectLess(q.log, t.completed);
    if !(t.now < p.readyAt) && !Stalled(p.blockedAt, t.now) {
      if !Crosses(p) {
        AttemptFlushes(p, t);
      } else {
        WaitingKeepsOk(p, Blocked(p, t.now).blockedAt, p.readyAt);
        CrossedKeepsOk(p);
        DirectLess(p.log, Ready(p.inflight));
        AttemptFlushes(Crossed(p), t);
      }
    }
  }

  lemma FlushedTwice(q: Queue, p: Queue, r: Queue)
    requires Flushed(q, p) && Flushed(p, r)
    ensures Flushed(q, r)
  {
    hide Ok, History, NoDirect;
  }

  lemma FlushedNothing(q: Queue)
    requires Ok(q) && Primed(q)
    ensures Flushed(q, q)
  {
    hide Ok, History, NoDirect;
  }

  lemma {:induction false} DrainFlushes(q: Queue, turns: nat -> Turn, k: nat)
    requires Ok(q) && q.pending != []
    ensures Flushed(q, Drain(q, turns, k).0)
    decreases |q.pending|
  {
    hide Iterate, Ok, History, NoDirect;
    var (p, verdict) := Iterate(q, turns(k));
    IterateFlushes(q, turns(k));
    if verdict.Continue? {
      if p.pending == [] { FlushedNothing(p); } else { DrainFlushes(p, turns, k + 1); }
      FlushedTwice(q, p, Drain(p, turns, k + 1).0);
    }
  }

  // ------------------------------------------------ when a flush fails

  /** The iteration cannot go on: the queue has been blocked for too long, the other endpoint is in error, the
      clipboard refuses, or the write fails for good. */
  predicate Troubled(q: Queue, t: Turn)
    requires q.pending != []
  {
    && q.readyAt <= t.now
    && (|| Stalled(q.blockedAt, t.now)
        || (if Crosses(q) && !t.poll.PollReady? then t.poll.PollError?
            else if q.pending[0].toPaste != 0 then !t.clip
            else t.write.Failed?))
  }

  lemma IterateFailsIff(q: Queue, t: Turn)
    requires q.pending != []
    ensures Iterate(q, t).1 == Stop(false) <==> Troubled(Completed(q, t.completed), t)
  {
  }

  /** The queue a flush that began in turn k holds before turn j. */
  function StateAt(q: Queue, turns: nat -> Turn, k: nat, j: nat): Queue
    requires k <= j
    decreases j - k
  {
    if k == j || q.pending == [] then q else StateAt(Iterate(q, turns(k)).0, turns, k + 1, j)
  }

  /** The flush meets trouble in the last turn it takes. */
  predicate EndsInTrouble(q: Queue, turns: nat -> Turn, k: nat) {
    var last := Drain(q, turns, k).1 - 1;
    k <= last && var s := StateAt(q, turns, k, last);
    s.pending != [] && Troubled(Completed(s, turns(last).completed), turns(last))
  }

  lemma {:induction false} DrainTakesTurns(q: Queue, turns: nat -> Turn, k: nat)
    ensures if q.pending == [] then Drain(q, turns, k).1 == k else Drain(q, turns, k).1 > k
    decreases |q.pending|
  {
    hide Iterate;
    if q.pending != [] {
      var (p, verdict) := Iterate(q, turns(k));
      if verdict.Continue? { DrainTakesTurns(p, turns, k + 1); }
    }
  }

  /** flush_reports fails if and only if the queue it holds meets trouble in the last turn it takes. */
  lemma {:induction false} DrainFailsIff(q: Queue, turns: nat -> Turn, k: nat)
    ensures !Drain(q, turns, k).2 <==> EndsInTrouble(q, turns, k)
    decreases |q.pending|
  {
    hide Iterate, Troubled;
    DrainTakesTurns(q, turns, k);
    if q.pending != [] {
      IterateFailsIff(q, turns(k));
      var (p, verdict) := Iterate(q, turns(k));
      if verdict.Continue? {
        DrainFailsIff(p, turns, k + 1);
        DrainTakesTurns(p, turns, k + 1);
      }
    }
  }

  /** A full queue that cannot let its head go in this turn. */
  predicate StaysFull(q: Queue, t: Turn) { |q.pending| == CAPACITY && Iterate(q, t).1.Stop? }

  lemma {:induction false} DrainShrinks(q: Queue, turns: nat -> Turn, k: nat)
    ensures |Drain(q, turns, k).0.pending| <= |q.pending|
    decreases |q.pending|
  {
    hide Iterate;
    if q.pending != [] {
      IterateKeepsLength(q, turns(k));
      var (p, verdict) := Iterate(q, turns(k));
      if verdict.Continue? { DrainShrinks(p, turns, k + 1); }
    }
  }

  lemma IterateKeepsLength(q: Queue, t: Turn)
    requires q.pending != []
    ensures Iterate(q, t).1.Stop? ==> |Iterate(q, t).0.pending| == |q.pending|
  {
  }

  lemma DrainStaysFullIff(q: Queue, turns: nat -> Turn, k: nat)
    requires |q.pending| == CAPACITY
    ensures |Drain(q, turns, k).0.pending| == CAPACITY <==> StaysFull(q, turns(k))
  {
    hide Iterate;
    IterateKeepsLength(q, turns(k));
    var (p, verdict) := Iterate(q, turns(k));
    if verdict.Continue? { DrainShrinks(p, turns, k + 1); }
  }

  /** queue_report cannot take the report, or the flush behind it meets trouble. */
  predicate Refuses(q: Queue, r: Report, turns: nat -> Turn, k: nat) {
    if Coalesces(q, r) then EndsInTrouble(Replaced(q, r), turns, k)
    else if |q.pending| != CAPACITY then EndsInTrouble(Appended(q, r), turns, k)
    else StaysFull(q, turns(k)) || var (p, j, _) := Drain(q, turns, k); EndsInTrouble(Appended(p, r), turns, j)
  }

  /** queue_report returns false if and only if the queue is full and its head cannot go, or the flush of the
      queue with the report in it ends in trouble. */
  lemma EnqueueFailsIff(q: Queue, r: Report, turns: nat -> Turn, k: nat)
    ensures var (p, j, ok, accepted) := Enqueue(q, r, turns, k);
            && (!ok <==> Refuses(q, r, turns, k))
            && (!accepted <==> !Coalesces(q, r) && StaysFull(q, turns(k)))
  {
    hide Drain, Replaced, Appended, EndsInTrouble, Iterate;
    if Coalesces(q, r) {
      DrainFailsIff(Replaced(q, r), turns, k);
    } else if |q.pending| == CAPACITY {
      DrainStaysFullIff(q, turns, k);
      var (p, j, _) := Drain(q, turns, k);
      DrainFailsIff(Appended(p, r), turns, j);
    } else {
      DrainFailsIff(Appended(q, r), turns, k);
    }
  }

  // ------------------------------------------------ several reports

  /** Reports queued one after the other until one is refused; the flag says that none was. */
  function PutAll(q: Queue, rs: seq<Report>, turns: nat -> Turn, k: nat): (Queue, nat, bool)
    decreases |rs|
  {
    if rs == [] then (q, k, true)
    else
      var n := |rs| - 1;
      var (p, j, ok) := PutAll(q, rs[..n], turns, k);
      if !ok then (p, j, false)
      else
        var (s, l, taken, _) := Enqueue(p, rs[n], turns, j);
        (s, l, taken)
  }

  lemma {:induction false} PutAllAppend(q: Queue, a: seq<Report>, b: seq<Report>, turns: nat -> Turn, k: nat)
    ensures var (p, j, ok) := PutAll(q, a, turns, k);
            PutAll(q, a + b, turns, k) == if ok then PutAll(p, b, turns, j) else (p, j, false)
    decreases |b|
  {
    hide Enqueue;
    if b == [] {
      assert a + b == a;
    } else {
      var n := |b| - 1;
      PutAllAppend(q, a, b[..n], turns, k);
      assert (a + b)[..|a| + n] == a + b[..n] && (a + b)[|a| + n] == b[n];
    }
  }

  lemma PutOne(q: Queue, r: Report, turns: nat -> Turn, k: nat)
    ensures var (p, j, ok, _) := Enqueue(q, r, turns, k); PutAll(q, [r], turns, k) == (p, j, ok)
  {
    hide Enqueue;
    assert [r][..0] == [];
    assert PutAll(q, [], turns, k) == (q, k, true);
  }

  /** Whether the queue q takes these reports from turn k on, and if it does the queue and the turn it comes to. */
  predicate Took(q: Queue, k: nat, turns: nat -> Turn, rs: seq<Report>, ok: bool, after: Queue, next: nat) {
    var (p, j, taken) := PutAll(q, rs, turns, k);
    ok == taken && (ok ==> after == p && next == j)
  }

  lemma TookNothing(q: Queue, k: nat, turns: nat -> Turn)
    ensures Took(q, k, turns, [], true, q, k)
  {
  }

  lemma TookOne(q: Queue, k: nat, turns: nat -> Turn, r: Report)
    ensures var (p, j, ok, _) := Enqueue(q, r, turns, k); Took(q, k, turns, [r], ok, p, j)
  {
    hide Enqueue;
    PutOne(q, r, turns, k);
  }

  lemma TookMore(q: Queue, k: nat, turns: nat -> Turn, a: seq<Report>, p: Queue, j: nat, b: seq<Report>, ok: bool,
                 after: Queue, next: nat)
    requires Took(q, k, turns, a, true, p, j) && Took(p, j, turns, b, ok, after, next)
    ensures Took(q, k, turns, a + b, ok, after, next)
  {
    hide PutAll;
    PutAllAppend(q, a, b, turns, k);
  }

  /** What refuses some of the reports refuses them with more behind. */
  lemma RefusedStays(q: Queue, k: nat, turns: nat -> Turn, a: seq<Report>, b: seq<Report>, p: Queue, j: nat)
    requires Took(q, k, turns, a, false, p, j)
    ensures !PutAll(q, a + b, turns, k).2
            && forall after: Queue, next: nat :: Took(q, k, turns, a + b, false, after, next)
  {
    hide PutAll;
    PutAllAppend(q, a, b, turns, k);
  }

  /** The queue refuses report i, having taken those before it. */
  ghost predicate RefusesAt(q: Queue, rs: seq<Report>, turns: nat -> Turn, k: nat, i: nat)
    requires i < |rs|
  {
    var (p, j, ok) := PutAll(q, rs[..i], turns, k);
    ok && Refuses(p, rs[i], turns, j)
  }

  /** Queueing several reports fails if and only if the queue, as it then stands, refuses one of them. */
  lemma {:induction false} PutAllFailsIff(q: Queue, rs: seq<Report>, turns: nat -> Turn, k: nat)
    ensures !PutAll(q, rs, turns, k).2 <==> exists i :: 0 <= i < |rs| && RefusesAt(q, rs, turns, k, i)
    decreases |rs|
  {
    hide Enqueue, Refuses;
    if rs != [] {
      var n := |rs| - 1;
      var init := rs[..n];
      PutAllFailsIff(q, init, turns, k);
      var (p, j, ok) := PutAll(q, init, turns, k);
      EnqueueFailsIff(p, rs[n], turns, j);
      forall i | 0 <= i < n ensures RefusesAt(q, rs, turns, k, i) == RefusesAt(q, init, turns, k, i) {
        assert rs[..i] == init[..i] && rs[i] == init[i];
      }
      if !ok {
        var i :| 0 <= i < n && RefusesAt(q, init, turns, k, i);
        assert RefusesAt(q, rs, turns, k, i);
      }
      assert ok ==> RefusesAt(q, rs, turns, k, n) == Refuses(p, rs[n], turns, j);
      if i :| 0 <= i < |rs| && RefusesAt(q, rs, turns, k, i) {
        if i < n { assert RefusesAt(q, init, turns, k, i); }
      }
    }
  }

  // ------------------------------------------------ runs

  /** A report is queued; the flush loop makes one iteration; everything is cancelled, and a first report of
      the release follows at once; a motion report is offered for a direct write. */
  datatype Op = Put(report: Report) | Flush(turn: Turn) | Release(report: Report) | Offer(report: Report, now: nat)

  predicate OpOk(op: Op) {
    match op
    case Put(r) => Queueable(r)
    case Release(r) => Queueable(r)
    case _ => true
  }

  function Next(q: Queue, op: Op): Queue {
    match op
    case Put(r) => if Coalesces(q, r) then Replaced(q, r) else if |q.pending| < CAPACITY then Appended(q, r) else q
    case Flush(t) => if q.pending == [] then q else Iterate(q, t).0
    case Release(r) => Appended(Cancelled(q), r)
    case Offer(r, now) => if q.pending == [] && q.inflight == 0 then Bypassed(q, r, now) else q
  }

  function After(ops: seq<Op>): Queue {
    if ops == [] then FRESH else Next(After(ops[..|ops| - 1]), ops[|ops| - 1])
  }

  lemma NextKeepsOk(q: Queue, op: Op)
    requires Ok(q) && OpOk(op)
    ensures Ok(Next(q, op))
    ensures Primed(q) || op.Release? ==> Primed(Next(q, op))
    ensures Primed(q) && NoDirect(q.log) ==> NoDirect(Next(q, op).log)
  {
    hide Ok, NoDirect, Iterate, History;
    match op
    case Put(r) =>
      if Coalesces(q, r) { ReplacedKeepsOk(q, r); } else if |q.pending| < CAPACITY { AppendedKeepsOk(q, r); }
    case Flush(t) => if q.pending != [] { IterateFlushes(q, t); }
    case Release(r) =>
      CancelledIsOk(q);
      AppendedKeepsOk(Cancelled(q), r);
      DirectLess(q.log, Cancel);
    case Offer(r, now) => if q.pending == [] { BypassedKeepsOk(q, r, now); }
  }

  lemma {:induction false} RunIsOk(ops: seq<Op>)
    requires forall i :: 0 <= i < |ops| ==> OpOk(ops[i])
    ensures Ok(After(ops))
  {
    hide Ok, Next;
    if ops == [] {
      FreshIsOk();
    } else {
      RunIsOk(ops[..|ops| - 1]);
      NextKeepsOk(After(ops[..|ops| - 1]), ops[|ops| - 1]);
    }
  }

  lemma FreshIsOk()
    ensures Ok(FRESH) && NoDirect(FRESH.log)
  {
  }

  /** After the release at start-up an empty queue remembers an endpoint, so no report is ever written past
      the queue. */
  lemma {:induction false} NeverBypassed(ops: seq<Op>)
    requires (forall i :: 0 <= i < |ops| ==> OpOk(ops[i])) && ops != [] && ops[0].Release?
    ensures Primed(After(ops)) && NoDirect(After(ops).log)
    decreases |ops|
  {
    hide Ok, Next, NoDirect;
    var n := |ops| - 1;
    RunIsOk(ops[..n]);
    NextKeepsOk(After(ops[..n]), ops[n]);
    if n > 0 { NeverBypassed(ops[..n]); } else {
      FreshIsOk();
      assert ops[..n] == [];
      ReleaseDirectLess(ops[0]);
    }
  }

  lemma ReleaseDirectLess(op: Op)
    requires op.Release?
    ensures NoDirect(Next(FRESH, op).log)
  {
    DirectLess([], Cancel);
  }

  /** In every run from the start-up release on, with a driver that keeps its promise: of the reports queued
      since the last release at most one transfer is under way, and they complete in the order in which they
      were submitted, whichever endpoints they are for. */
  lemma CompletesInOrder(ops: seq<Op>)
    requires (forall i :: 0 <= i < |ops| ==> OpOk(ops[i])) && ops != [] && ops[0].Release?
    requires Faithful(After(ops).log)
    ensures var log := After(ops).log; Finished(log) + InFlight(log) == Sent(log) && |InFlight(log)| <= 1
  {
    hide After, NothingLost, PasteReady, Faithful, NoDirect;
    RunIsOk(ops);
    NeverBypassed(ops);
  }

  /** The reports that are not motion. */
  function Still(rs: seq<Report>): seq<Report> {
    if rs == [] then [] else Still(rs[..|rs| - 1]) + if rs[|rs| - 1].motion then [] else [rs[|rs| - 1]]
  }

  lemma {:induction false} KeptStill(queued: seq<Report>, keep: seq<bool>)
    requires |keep| == |queued| && forall i :: 0 <= i < |keep| && !keep[i] ==> queued[i].motion
    ensures Still(Kept(queued, keep)) == Still(queued)
    decreases |queued|
  {
    if queued != [] {
      var n := |queued| - 1;
      KeptStill(queued[..n], keep[..n]);
      var kept := Kept(queued[..n], keep[..n]);
      assert (kept + [queued[n]])[..|kept|] == kept;
      assert kept + [] == kept && Still(kept) + [] == Still(kept);
    }
  }

  /** In every run: key and button transitions queued since the last release were submitted or are waiting,
      each once and in order; and of the motion only what a newer position of the same endpoint and
      buttons directly followed is missing. */
  lemma NoTransitionIsLost(ops: seq<Op>)
    requires forall i :: 0 <= i < |ops| ==> OpOk(ops[i])
    ensures var q := After(ops);
            && NothingLost(q)
            && Still(Sent(q.log) + Reports(q.pending)) == Still(q.queued)
  {
    hide After, Sent, PasteReady, Serial, Kept, Still, Shaped;
    RunIsOk(ops);
    var q := After(ops);
    assert NothingLost(q);
    forall i | 0 <= i < |q.keep| && !q.keep[i] ensures q.queued[i].motion { assert LeftOutAt(q.queued, q.keep, i); }
    KeptStill(q.queued, q.keep);
  }

  lemma {:induction false} KeptIsPart(queued: seq<Report>, keep: seq<bool>)
    requires |keep| == |queued|
    ensures multiset(Kept(queued, keep)) <= multiset(queued)
    decreases |queued|
  {
    if queued != [] {
      var n := |queued| - 1;
      KeptIsPart(queued[..n], keep[..n]);
      assert queued == queued[..n] + [queued[n]];
    }
  }

  /** The reports taken since the last release, with the one that begins it. */
  function QueuedSince(ops: seq<Op>): seq<Report> {
    if ops == [] then []
    else
      var n := |ops| - 1;
      match ops[n]
      case Release(r) => [r]
      case Put(r) => QueuedSince(ops[..n]) + if Takes(After(ops[..n]), r) then [r] else []
      case _ => QueuedSince(ops[..n])
  }

  predicate Takes(q: Queue, r: Report) { Coalesces(q, r) || |q.pending| < CAPACITY }

  lemma {:induction false} QueuedIsSince(ops: seq<Op>)
    requires forall k :: 0 <= k < |ops| ==> OpOk(ops[k])
    ensures After(ops).queued == QueuedSince(ops)
  {
    hide Iterate, Coalesces, Ok;
    if ops != [] {
      var n := |ops| - 1;
      QueuedIsSince(ops[..n]);
      RunIsOk(ops[..n]);
      var q := After(ops[..n]);
      if ops[n].Flush? && q.pending != [] { IterateFlushes(q, ops[n].turn); }
      if ops[n].Release? { assert [] + [ops[n].report] == [ops[n].report]; }
    }
  }

  /** In every run: what is submitted since the last release or waits was taken since it, each report once; so
      nothing that was queued before comes out again. */
  lemma CancelledStaysCancelled(ops: seq<Op>)
    requires forall k :: 0 <= k < |ops| ==> OpOk(ops[k])
    ensures var q := After(ops); multiset(Sent(q.log) + Reports(q.pending)) <= multiset(QueuedSince(ops))
  {
    hide After, Sent, PasteReady, Serial, Kept, QueuedSince, Spaced, Shaped, LeftOutRight;
    RunIsOk(ops);
    assert NothingLost(After(ops));
    PartOfQueued(After(ops));
    QueuedIsSince(ops);
  }

  lemma PartOfQueued(q: Queue)
    requires NothingLost(q)
    ensures multiset(Sent(q.log) + Reports(q.pending)) <= multiset(q.queued)
  {
    hide Sent, Kept;
    KeptIsPart(q.queued, q.keep);
  }

  lemma {:induction false} DelayKeptAt(log: seq<Action>, j: nat)
    requires DelaysKept(log) && j < |log| && log[j].Submit?
    ensures DelayOver(LastSubmit(log[..j]), log[j].at)
    decreases |log|
  {
    hide LastSubmit, DelayOver;
    var n := |log| - 1;
    if j < n {
      DelayKeptAt(log[..n], j);
      assert log[..n][..j] == log[..j];
    }
  }

  lemma {:induction false} LastSubmitIs(log: seq<Action>, i: nat)
    requires i < |log| && log[i].Submit? && forall k :: i < k < |log| ==> !Barrier(log[k])
    ensures LastSubmit(log) == Some(log[i])
    decreases |log|
  {
    var n := |log| - 1;
    if i < n {
      assert !Barrier(log[n]);
      LastSubmitIs(log[..n], i);
    }
  }

  /** In every run: of two reports submitted one after the other, with no release between them, the second
      waits for the delay of the first. */
  lemma ReportsAreSpaced(ops: seq<Op>, i: nat, j: nat)
    requires (forall k :: 0 <= k < |ops| ==> OpOk(ops[k])) && i < j < |After(ops).log|
    requires After(ops).log[i].Submit? && After(ops).log[j].Submit?
    requires forall k :: i < k < j ==> !Barrier(After(ops).log[k])
    ensures var log := After(ops).log; log[i].at + log[i].report.delay <= log[j].at
  {
    hide After, NothingLost, Serial, PasteReady, DelaysKept, LastSubmit;
    RunIsOk(ops);
    var log := After(ops).log;
    DelayKeptAt(log, j);
    LastSubmitIs(log[..j], i);
  }

  // ------------------------------------------------ clipboard writes, read off the log

  predicate Barrier(a: Action) { a.Submit? || a.Cancel? }

  /** Clipboard write j has had no report or cancellation after it. */
  predicate LiveClip(log: seq<Action>, j: nat) {
    j < |log| && log[j].Clip? && forall k :: j < k < |log| ==> !Barrier(log[k])
  }

  lemma {:induction false} ClipsAreLive(log: seq<Action>)
    ensures Clips(log) == [] ==> forall j: nat :: !LiveClip(log, j)
    ensures |Clips(log)| == 1 ==>
            exists j: nat :: LiveClip(log, j) && log[j] == Clips(log)[0] && forall k: nat :: LiveClip(log, k) ==> k == j
  {
    if log != [] {
      var n := |log| - 1;
      ClipsAreLive(log[..n]);
      forall j: nat | j < n ensures LiveClip(log, j) <==> LiveClip(log[..n], j) && !Barrier(log[n]) {
        LiveGoesOn(log, j);
      }
      if |Clips(log)| == 1 {
        if log[n].Clip? {
          assert LiveClip(log, n);
        } else {
          var j: nat :| LiveClip(log[..n], j) && log[..n][j] == Clips(log[..n])[0]
              && forall k: nat :: LiveClip(log[..n], k) ==> k == j;
          assert LiveClip(log, j);
        }
      }
    }
  }

  lemma LiveGoesOn(log: seq<Action>, j: nat)
    requires log != [] && j < |log| - 1
    ensures var n := |log| - 1; LiveClip(log, j) <==> LiveClip(log[..n], j) && !Barrier(log[n])
  {
    var n := |log| - 1;
    if LiveClip(log[..n], j) && !Barrier(log[n]) {
      forall k | j < k < |log| ensures !Barrier(log[k]) { if k < n { assert log[..n][k] == log[k]; } }
    }
    if LiveClip(log, j) {
      forall k | j < k < n ensures !Barrier(log[..n][k]) { assert log[..n][k] == log[k]; }
    }
  }

  lemma {:induction false} PastesRightAt(log: seq<Action>, i: nat)
    requires PastesRight(log) && i < |log| && log[i].Submit?
    ensures var r := log[i].report;
            if r.paste == 0 then Clips(log[..i]) == [] else Clipped(Clips(log[..i]), r.paste, log[i].at)
    decreases |log|
  {
    hide Clips, Clipped;
    var n := |log| - 1;
    if i < n {
      PastesRightAt(log[..n], i);
      assert log[..n][..i] == log[..i];
    }
  }

  /** In every run: a report queued with a character to paste is submitted right after exactly one
      clipboard write, of that character, at least 30 ms before. */
  lemma PasteFollowsItsClip(ops: seq<Op>, i: nat)
    requires (forall k :: 0 <= k < |ops| ==> OpOk(ops[k])) && i < |After(ops).log|
    requires After(ops).log[i].Submit? && After(ops).log[i].report.paste != 0
    ensures var log := After(ops).log;
            exists j: nat ::
              && LiveClip(log[..i], j) && log[j].code == log[i].report.paste && log[j].at + PASTE_DELAY <= log[i].at
              && forall k: nat :: LiveClip(log[..i], k) ==> k == j
  {
    hide After, NothingLost, Serial, Clips, PastesRight;
    RunIsOk(ops);
    assert PasteReady(After(ops));
    var log := After(ops).log;
    PastesRightAt(log, i);
    ClipsAreLive(log[..i]);
  }
}

module HidQueue {
  import opened Machine
  import opened HidQueueSpec

  function Wrap(n: nat): (m: nat)
    requires n < 2 * CAPACITY
    ensures m < CAPACITY && m == n % CAPACITY
  {
    if n < CAPACITY then n else n - CAPACITY
  }

  /** The slots from `head` on, round the end. */
  function Ring(slots: seq<Slot>, head: nat, count: nat): (r: seq<Slot>)
    requires |slots| == CAPACITY && head < CAPACITY && count <= CAPACITY
    ensures |r| == count && forall i :: 0 <= i < count ==> r[i] == slots[Wrap(head + i)]
  {
    seq(count, i requires 0 <= i < count => slots[Wrap(head + i)])
  }

  lemma RingUpdate(slots: seq<Slot>, head: nat, count: nat, k: nat, s: Slot)
    requires |slots| == CAPACITY && head < CAPACITY && k < count <= CAPACITY
    ensures Ring(slots[Wrap(head + k) := s], head, count) == Ring(slots, head, count)[k := s]
  {
  }

  lemma RingEnd(slots: seq<Slot>, head: nat, count: nat)
    requires |slots| == CAPACITY && head < CAPACITY && 0 < count <= CAPACITY
    ensures Ring(slots, head, count)[count - 1] == slots[Wrap(head + count - 1)]
  {
  }

  lemma RingGrows(slots: seq<Slot>, head: nat, count: nat, s: Slot)
    requires |slots| == CAPACITY && head < CAPACITY && count < CAPACITY
    ensures Ring(slots[Wrap(head + count) := s], head, count + 1) == Ring(slots, head, count) + [s]
  {
  }

  lemma RingShrinks(slots: seq<Slot>, head: nat, count: nat)
    requires |slots| == CAPACITY && head < CAPACITY && 0 < count <= CAPACITY
    ensures Ring(slots, head, count)[0] == slots[head]
    ensures Ring(slots, Wrap(head + 1), count - 1) == Ring(slots, head, count)[1..]
  {
    var rest := Ring(slots, head, count)[1..];
    forall i | 0 <= i < count - 1 ensures Ring(slots, Wrap(head + 1), count - 1)[i] == rest[i] {
      assert rest[i] == Ring(slots, head, count)[i + 1];
    }
  }

  /** The last report for an endpoint. */
  function LastOn(history: seq<Report>, endpoint: nat): Option<Report> {
    if history == [] then None
    else
      var n := |history| - 1;
      if history[n].endpoint == endpoint then Some(history[n]) else LastOn(history[..n], endpoint)
  }

  /** Report r came last, and nothing changed for the other endpoints. */
  ghost predicate CameLast(before: seq<Report>, after: seq<Report>, r: Report) {
    forall e: nat :: LastOn(after, e) == if e == r.endpoint then Some(r) else LastOn(before, e)
  }

  lemma AddedCameLast(h: seq<Report>, r: Report)
    ensures CameLast(h, h + [r], r)
  {
    assert (h + [r])[..|h|] == h;
  }

  lemma ReplacedCameLast(h: seq<Report>, r: Report)
    requires h != [] && h[|h| - 1].endpoint == r.endpoint
    ensures CameLast(h, h[..|h| - 1] + [r], r)
  {
    var n := |h| - 1;
    assert (h[..n] + [r])[..n] == h[..n];
  }

  class ReportQueue {
    const turns: nat -> Turn
    var tick: nat
    const reports: array<Slot>
    var head: nat
    var count: nat
    var readyAt: nat
    var blockedAt: nat
    var inflight: nat
    ghost var log: seq<Action>
    ghost var queued: seq<Report>
    ghost var keep: seq<bool>

    predicate Valid()
      reads this`head, this`count
    {
      reports.Length == CAPACITY && head < CAPACITY && count <= CAPACITY
    }

    function Contents(): (slots: seq<Slot>)
      requires Valid()
      reads this`head, this`count, reports
      ensures |slots| == count && (count > 0 ==> slots[0] == reports[head])
    {
      Ring(reports[..], head, count)
    }

    ghost function Model(): Queue
      requires Valid()
      reads this`head, this`count, this`readyAt, this`blockedAt, this`inflight, this`log, this`queued, this`keep,
          reports
    {
      Queue(Contents(), readyAt, blockedAt, inflight, log, queued, keep)
    }

    ghost predicate Good()
      reads this`head, this`count, this`readyAt, this`blockedAt, this`inflight, this`log, this`queued, this`keep,
          reports
    {
      Valid() && Ok(Model())
    }

    /** Since it was q, in turn k, the queue was given these reports: whether it took them all, and how it then
        stands. */
    ghost predicate Given(q: Queue, k: nat, rs: seq<Report>, ok: bool)
      requires Valid()
      reads this`tick, this`head, this`count, this`readyAt, this`blockedAt, this`inflight, this`log, this`queued,
          this`keep, reports
    {
      Took(q, k, turns, rs, ok, Model(), tick)
    }

    constructor (outside: nat -> Turn)
      ensures Good() && Model() == HidQueueSpec.FRESH && turns == outside && fresh(reports)
    {
      turns, tick := outside, 0;
      reports := new Slot[CAPACITY](_ => Slot(Report(0, 0, [], false, 0, 0), 0));
      head, count, readyAt, blockedAt, inflight, log, queued, keep := 0, 0, 0, 0, 0, [], [], [];
      FreshIsOk();
    }

    method Pop(now: nat)
      requires Valid() && count > 0
      modifies this`head, this`count, this`readyAt, this`blockedAt, this`inflight, this`log
      ensures Valid() && Model() == Popped(old(Model()), now)
    {
      hide Ring;
      RingShrinks(reports[..], head, count);
      var r := reports[head].report;
      log := log + [Submit(r, now)];
      blockedAt, inflight, readyAt := 0, r.endpoint, now + r.delay;
      head, count := Wrap(head + 1), count - 1;
    }

    method Paste(now: nat)
      requires Valid() && count > 0
      modifies this`readyAt, this`log, reports
      ensures Valid() && Model() == Pasted(old(Model()), now)
    {
      hide Ring;
      var s := reports[head].(toPaste := 0);
      ghost var slots := reports[..];
      RingShrinks(slots, head, count);
      RingUpdate(slots, head, count, 0, s);
      ghost var pending := Contents();
      assert pending[0 := s] == [s] + pending[1..];
      log := log + [Clip(reports[head].toPaste, now)];
      readyAt := now + PASTE_DELAY;
      reports[head] := s;
      assert reports[..] == slots[head := s];
    }

    method Block(now: nat)
      requires Valid()
      modifies this`blockedAt
      ensures Model() == Blocked(old(Model()), now)
    {
      if blockedAt == 0 { blockedAt := now; }
    }

    method TryHead(t: Turn) returns (verdict: Verdict)
      requires Valid() && count > 0
      modifies this`head, this`count, this`readyAt, this`blockedAt, this`inflight, this`log, reports
      ensures Valid() && (Model(), verdict) == Attempt(old(Model()), t)
    {
      if reports[head].toPaste != 0 {
        if !t.clip { return Stop(false); }
        Paste(t.now);
        return Stop(true);
      }
      match t.write {
        case Done =>
          Pop(t.now);
          verdict := Continue;
        case Again =>
          Block(t.now);
          verdict := Stop(true);
        case Failed =>
          Block(t.now);
          readyAt := t.now + RETRY_DELAY;
          verdict := Stop(false);
      }
    }

    /** The body of the loop in flush_reports. */
    method Iteration() returns (verdict: Verdict)
      requires Valid() && count > 0
      modifies this`tick, this`head, this`count, this`readyAt, this`blockedAt, this`inflight, this`log, reports
      ensures Valid() && (Model(), verdict) == Iterate(old(Model()), turns(old(tick))) && tick == old(tick) + 1
    {
      hide Attempt;
      var t := turns(tick);
      tick := tick + 1;
      log := log + Completions(t.completed);
      if t.now < readyAt { return Stop(true); }
      if blockedAt != 0 && (t.now < blockedAt || t.now - blockedAt >= STALL_TIMEOUT) { return Stop(false); }
      if inflight != 0 && inflight != reports[head].report.endpoint {
        match t.poll {
          case PollWaiting =>
            Block(t.now);
            return Stop(true);
          case PollError => return Stop(false);
          case PollReady =>
            log := log + [Ready(inflight)];
            inflight := 0;
        }
      }
      verdict := TryHead(t);
    }

    /** flush_reports. */
    method Flush() returns (ok: bool)
      requires Good()
      modifies this`tick, this`head, this`count, this`readyAt, this`blockedAt, this`inflight, this`log, reports
      ensures Good() && (Model(), tick, ok) == Drain(old(Model()), turns, old(tick))
      ensures if old(count) == 0 then Model() == old(Model()) else Flushed(old(Model()), Model())
    {
      hide Ok, Iterate, History, NoDirect, Flushed, Drain, Ring;
      ghost var q, k := Model(), tick;
      if count > 0 { DrainFlushes(q, turns, k); }
      while count > 0
        invariant Valid() && Drain(Model(), turns, tick) == Drain(q, turns, k)
        invariant old(count) == 0 ==> Model() == q && tick == k
        decreases count
      {
        DrainStep(Model(), turns, tick);
        var verdict := Iteration();
        assert |Model().pending| == count;
        if verdict.Stop? {
          GoodAfter(q, k);
          return verdict.ok;
        }
      }
      DrainEnd(Model(), turns, tick);
      ok := true;
      GoodAfter(q, k);
    }

    lemma GoodAfter(q: Queue, k: nat)
      requires Valid() && Model() == Drain(q, turns, k).0 && Ok(q)
      requires q.pending != [] ==> Flushed(q, Drain(q, turns, k).0)
      ensures Good()
    {
    }

    /** The newer position over the last one. */
    method Overwrite(r: Report)
      requires Valid() && count > 0
      modifies this`queued, this`keep, reports
      ensures Valid() && Model() == Replaced(old(Model()), r)
    {
      hide Ring, Renewed, Overtaken;
      var last := Wrap(head + count - 1);
      var s := Renewed(reports[last], r);
      ghost var slots := reports[..];
      RingEnd(slots, head, count);
      RingUpdate(slots, head, count, count - 1, s);
      reports[last] := s;
      assert reports[..] == slots[last := s];
      queued, keep := queued + [r], Overtaken(keep);
    }

    method Append(r: Report)
      requires Valid() && count < CAPACITY
      modifies this`queued, this`keep, this`count, reports
      ensures Valid() && Model() == Appended(old(Model()), r)
    {
      hide Ring;
      var slot := Wrap(head + count);
      ghost var slots := reports[..];
      RingGrows(slots, head, count, Slot(r, r.paste));
      reports[slot] := Slot(r, r.paste);
      assert reports[..] == slots[slot := Slot(r, r.paste)];
      count := count + 1;
      queued, keep := queued + [r], keep + [true];
    }

    /** A queueing attempt: refused only by a full queue, which leaves it as flushing does; otherwise r is the
        last report for its endpoint. */
    ghost predicate PutOn(q: Queue, r: Report, accepted: bool)
      reads this`head, this`count, this`readyAt, this`blockedAt, this`inflight, this`log, this`queued, this`keep,
          reports
    {
      && Good() && Primed(Model()) && (NoDirect(q.log) ==> NoDirect(log))
      && (|q.pending| < CAPACITY ==> accepted) && count <= |q.pending| + 1
      && (if accepted then queued == q.queued + [r] && CameLast(History(q), History(Model()), r)
          else queued == q.queued && History(Model()) == History(q))
    }

    method Merge(r: Report) returns (ok: bool)
      requires Good() && Queueable(r) && Coalesces(Model(), r)
      modifies this, reports
      ensures PutOn(old(Model()), r, true) && (Model(), tick, ok) == Drain(Replaced(old(Model()), r), turns, old(tick))
    {
      hide Ok, History, NoDirect, CameLast, Drain, Replaced;
      ghost var q := Model();
      ReplacedKeepsOk(q, r);
      ReplacedShape(q, r);
      ReplacedCameLast(History(q), r);
      Overwrite(r);
      ok := Flush();
    }

    method Add(r: Report) returns (ok: bool)
      requires Good() && Queueable(r) && count < CAPACITY
      modifies this, reports
      ensures PutOn(old(Model()), r, true) && (Model(), tick, ok) == Drain(Appended(old(Model()), r), turns, old(tick))
    {
      hide Ok, History, NoDirect, CameLast, Drain;
      AppendedKeepsOk(Model(), r);
      AddedCameLast(History(Model()), r);
      Append(r);
      ok := Flush();
    }

    /** queue_report. */
    method Put(r: Report) returns (ok: bool, ghost accepted: bool)
      requires Good() && Queueable(r)
      modifies this, reports
      ensures PutOn(old(Model()), r, accepted) && (ok ==> accepted)
      ensures (Model(), tick, ok, accepted) == Enqueue(old(Model()), r, turns, old(tick))
      ensures Given(old(Model()), old(tick), [r], ok)
    {
      hide Ok, History, NoDirect, CameLast, Enqueue, Took;
      TookOne(Model(), tick, turns, r);
      ok, accepted := Enter(r);
    }

    method Enter(r: Report) returns (ok: bool, ghost accepted: bool)
      requires Good() && Queueable(r)
      modifies this, reports
      ensures PutOn(old(Model()), r, accepted) && (ok ==> accepted)
      ensures (Model(), tick, ok, accepted) == Enqueue(old(Model()), r, turns, old(tick))
    {
      hide Ok, History, NoDirect, CameLast, Drain, Replaced, Appended;
      if r.motion && count > 0 {
        var last := reports[Wrap(head + count - 1)].report;
        RingEnd(reports[..], head, count);
        if last.motion && last.endpoint == r.endpoint && last.state == r.state {
          ok := Merge(r);
          return ok, true;
        }
      }
      if count == CAPACITY {
        var _ := Flush();
        if count == CAPACITY { return false, false; }
      }
      ok := Add(r);
      accepted := true;
    }

    lemma ReplacedShape(q: Queue, r: Report)
      requires q.pending != []
      ensures var p := Replaced(q, r);
              |p.pending| == |q.pending| && p.log == q.log && p.queued == q.queued + [r]
    {
    }

    /** The queue's share of hid_release_all. */
    method Drop()
      requires Good()
      modifies this
      ensures Good() && Model() == Cancelled(old(Model()))
    {
      CancelledIsOk(Model());
      head, count, readyAt, blockedAt, inflight := 0, 0, 0, 0, 0;
      log, queued, keep := log + [Cancel], [], [];
    }

    /** write_absolute_now. */
    method WriteNow(r: Report) returns (wrote: bool)
      requires Good()
      modifies this`tick, this`log
      ensures Good() && (old(Primed(Model())) ==> !wrote)
      ensures if wrote then CameLast(old(History(Model())), History(Model()), r) else Model() == old(Model())
      ensures old(Primed(Model())) ==> tick == old(tick)
    {
      hide Ok, History;
      wrote := false;
      if count == 0 && inflight == 0 {
        var t := turns(tick);
        tick := tick + 1;
        if t.write.Done? {
          ghost var q := Model();
          BypassedKeepsOk(q, r, t.now);
          AddedCameLast(History(q), r);
          log := log + [Direct(r, t.now)];
          wrote := true;
        }
      }
    }
  }
}
