/** The tracked keyboard and pointer state (src/hid.c) and the agent's steps on it (src/agent.c). */
module HidSpec {
  import opened Machine
  import opened HidQueueSpec
  import opened HidQueue

  const KEYBOARD := 1
  const MOUSE := 2
  const TOUCH := 3
  const USAGES := 256
  const COMMAND: bv8 := 0x08
  const V_KEY := 0x19

  // ------------------------------------------------ what a report says

  /** The held usages below n, lowest first. */
  function Held(usages: seq<bool>, n: nat): seq<byte>
    requires n <= |usages| == USAGES
  {
    if n == 0 then [] else Held(usages, n - 1) + if usages[n - 1] then [n - 1] else []
  }

  lemma {:induction false} HeldMeaning(usages: seq<bool>, n: nat)
    requires n <= |usages| == USAGES
    ensures forall u :: u in Held(usages, n) <==> 0 <= u < n && usages[u]
    ensures forall i, j :: 0 <= i < j < |Held(usages, n)| ==> Held(usages, n)[i] < Held(usages, n)[j]
  {
    if n > 0 {
      HeldMeaning(usages, n - 1);
      var front := Held(usages, n - 1);
      forall i | 0 <= i < |front| ensures front[i] < n - 1 { assert front[i] in front; }
    }
  }

  lemma {:induction false} HeldGrows(usages: seq<bool>, n: nat, m: nat)
    requires n <= m <= |usages| == USAGES
    ensures Held(usages, n) <= Held(usages, m)
    decreases m
  {
    if n < m { HeldGrows(usages, n, m - 1); }
  }

  function Zeros(n: nat): (z: seq<byte>)
    ensures |z| == n && forall i :: 0 <= i < n ==> z[i] == 0
  {
    seq(n, _ => 0)
  }

  /** A keyboard report after its first byte: a zero, and the six lowest held usages. */
  function KeyboardRest(usages: seq<bool>): seq<byte>
    requires |usages| == USAGES
  {
    var held := Held(usages, USAGES);
    [0] + if |held| >= 6 then held[..6] else held + Zeros(6 - |held|)
  }

  function Low(v: u16): byte { v % 0x100 }

  function High(v: u16): byte { v / 0x100 }

  function KeysReport(modifiers: bv8, usages: seq<bool>, delay: nat, paste: u32): Report
    requires |usages| == USAGES
  {
    Report(KEYBOARD, modifiers, KeyboardRest(usages), false, delay, paste)
  }

  function MouseReport(buttons: bv8, dx: byte, dy: byte, turn: byte): Report {
    Report(MOUSE, buttons & 0x07, [dx, dy, turn], false, 0, 0)
  }

  /** A touch report; the horizontal wheel has a byte only in the longer form. */
  function TouchReport(buttons: bv8, x: u16, y: u16, wheel: byte, pan: byte, length: nat, motion: bool): Report {
    Report(TOUCH, buttons & 0x18, [Low(x), High(x), Low(y), High(y), wheel] + (if length == 7 then [pan] else []),
           motion, 0, 0)
  }

  predicate SaysKeys(r: Option<Report>, modifiers: bv8, usages: seq<bool>)
    requires |usages| == USAGES
  {
    r.Some? && r.value.state == modifiers && r.value.rest == KeyboardRest(usages)
  }

  predicate SaysMouse(r: Option<Report>, buttons: bv8) { r.Some? && r.value.state == buttons & 0x07 }

  predicate SaysTouch(r: Option<Report>, buttons: bv8) { r.Some? && r.value.state == buttons & 0x18 }

  // ------------------------------------------------ flags and tables

  function Press(buttons: bv8, flags: bv16, flag: bv16, button: bv8): bv8 {
    if flags & flag == 0 then buttons else if flags & 0x8000 != 0 then buttons | button else buttons & !button
  }

  /** hid_pointer_buttons. */
  function PointerButtons(buttons: bv8, flags: bv16): bv8 {
    var three := Press(Press(Press(buttons, flags, 0x1000, 0x01), flags, 0x2000, 0x02), flags, 0x4000, 0x04);
    Press(Press(three, flags, 0x0001, 0x08), flags, 0x0002, 0x10)
  }

  /** The first three buttons belong to the mouse, the last two to the touch device. */
  predicate MouseChanged(a: bv8, b: bv8) { (a ^ b) & 0x07 != 0 }

  predicate TouchChanged(a: bv8, b: bv8) { (a ^ b) & 0x18 != 0 }

  function FiveButtons(buttons: bv8): bv8 { buttons & 0x1f }

  predicate NoButtonFlag(flags: bv16) { flags & 0x7003 == 0 }

  /** Pure motion leaves the buttons alone, so a position that overtakes it hides no transition. */
  lemma MotionKeepsButtons(buttons: bv8, flags: bv16)
    ensures NoButtonFlag(flags) ==> PointerButtons(buttons, flags) == buttons
  {
    if NoButtonFlag(flags) {
      assert flags & 0x1000 == 0 && flags & 0x2000 == 0 && flags & 0x4000 == 0 && flags & 0x0001 == 0
          && flags & 0x0002 == 0;
    }
  }

  function ToByte(d: int): byte
    requires -128 <= d < 128
  {
    if d >= 0 then d else d + 0x100
  }

  function Clamp(d: int): (c: int)
    ensures -127 <= c <= 127 && (d >= 0 ==> 0 <= c <= d) && (d <= 0 ==> d <= c <= 0) && (d != 0 ==> c != 0)
  {
    if d > 127 then 127 else if d < -127 then -127 else d
  }

  datatype Key = Key(usage: byte, modifier: bv8)

  /** How a character is entered: as keys, which may end in one that has none, or over the clipboard. */
  datatype Plan = Taps(keys: seq<Key>, complete: bool) | Clipboard

  /** The key tables. */
  datatype Tables = Tables(translate: (byte, bool) -> Option<Key>, ascii: byte -> Option<Key>, plan: nat -> Plan)

  // ------------------------------------------------ what keys and text come to

  /** The key is already where the event would put it. */
  predicate Redundant(modifiers: bv8, usages: seq<bool>, key: Key, release: bool)
    requires |usages| == USAGES
  {
    (if key.modifier != 0 then modifiers & key.modifier != 0 else usages[key.usage]) == !release
  }

  function Toggled(modifiers: bv8, modifier: bv8, release: bool): bv8 {
    if release then modifiers & !modifier else modifiers | modifier
  }

  function ModifiersAfter(modifiers: bv8, key: Key, release: bool): bv8 {
    if key.modifier == 0 then modifiers else Toggled(modifiers, key.modifier, release)
  }

  function UsagesAfter(usages: seq<bool>, key: Key, release: bool): (after: seq<bool>)
    requires |usages| == USAGES
    ensures |after| == USAGES
  {
    if key.modifier == 0 then usages[key.usage := !release] else usages
  }

  function Blank(): (usages: seq<bool>)
    ensures |usages| == USAGES && forall i :: 0 <= i < USAGES ==> !usages[i]
  {
    seq(USAGES, _ => false)
  }

  /** A key goes down on top of what is held, and up again. */
  function TapReports(modifiers: bv8, usages: seq<bool>, key: Key, delay: nat): seq<Report>
    requires |usages| == USAGES
  {
    [KeysReport(Toggled(modifiers, key.modifier, false), usages[key.usage := true], delay, 0),
     KeysReport(modifiers, usages, delay, 0)]
  }

  function TapsReports(modifiers: bv8, usages: seq<bool>, keys: seq<Key>, delay: nat): seq<Report>
    requires |usages| == USAGES
  {
    if keys == [] then []
    else
      var n := |keys| - 1;
      TapsReports(modifiers, usages, keys[..n], delay) + TapReports(modifiers, usages, keys[n], delay)
  }

  /** Command and V, waiting for the character to be on the clipboard, and up again. */
  function PasteReports(modifiers: bv8, code: u32, delay: nat): seq<Report> {
    [KeysReport(COMMAND, Blank()[V_KEY := true], delay, code), KeysReport(modifiers, Blank(), delay, 0)]
  }

  function CharReports(tables: Tables, c: nat, delay: nat): seq<Report> {
    match tables.plan(c)
    case Taps(keys, _) => TapsReports(0, Blank(), keys, delay)
    case Clipboard => PasteReports(0, if c < TWO32 then c else 0, delay)
  }

  function TextReports(tables: Tables, cs: seq<nat>, delay: nat): seq<Report> {
    if cs == [] then [] else TextReports(tables, cs[..|cs| - 1], delay) + CharReports(tables, cs[|cs| - 1], delay)
  }

  /** The reports of a text: everything is let go of, then its characters. */
  function TypedReports(tables: Tables, cs: seq<nat>, delay: nat): seq<Report> {
    [KeysReport(0, Blank(), delay, 0)] + TextReports(tables, cs, delay)
  }

  lemma {:induction false} TextReportsAppend(tables: Tables, a: seq<nat>, b: seq<nat>, delay: nat)
    ensures TextReports(tables, a + b, delay) == TextReports(tables, a, delay) + TextReports(tables, b, delay)
    decreases |b|
  {
    hide CharReports;
    if b == [] {
      assert a + b == a;
    } else {
      var n := |b| - 1;
      TextReportsAppend(tables, a, b[..n], delay);
      assert (a + b)[..|a| + n] == a + b[..n] && (a + b)[|a| + n] == b[n];
    }
  }

  lemma TypedReportsAppend(tables: Tables, a: seq<nat>, b: seq<nat>, delay: nat)
    ensures TypedReports(tables, a + b, delay) == TypedReports(tables, a, delay) + TextReports(tables, b, delay)
  {
    hide TextReports, KeysReport;
    TextReportsAppend(tables, a, b, delay);
    Regroup([KeysReport(0, Blank(), delay, 0)], TextReports(tables, a, delay), TextReports(tables, b, delay));
  }

  /** How many of the characters go over the clipboard. */
  function Pastes(tables: Tables, cs: seq<nat>): nat {
    if cs == [] then 0 else Pastes(tables, cs[..|cs| - 1]) + if tables.plan(cs[|cs| - 1]).Clipboard? then 1 else 0
  }

  /** There are keys for the character, or the clipboard is open for it at this call. */
  predicate Enterable(tables: Tables, open: nat -> bool, c: nat, call: nat) {
    match tables.plan(c)
    case Taps(_, complete) => complete
    case Clipboard => open(call)
  }

  /** Every character can be entered when its turn comes, from this call of the clipboard on. */
  ghost predicate AllEnterable(tables: Tables, open: nat -> bool, cs: seq<nat>, call: nat) {
    forall i :: 0 <= i < |cs| ==> EnterableAt(tables, open, cs, call, i)
  }

  predicate EnterableAt(tables: Tables, open: nat -> bool, cs: seq<nat>, call: nat, i: nat)
    requires i < |cs|
  {
    Enterable(tables, open, cs[i], call + Pastes(tables, cs[..i]))
  }

  lemma EnterableMore(tables: Tables, open: nat -> bool, cs: seq<nat>, c: nat, call: nat)
    requires AllEnterable(tables, open, cs, call) && Enterable(tables, open, c, call + Pastes(tables, cs))
    ensures AllEnterable(tables, open, cs + [c], call)
    ensures Pastes(tables, cs + [c]) == Pastes(tables, cs) + if tables.plan(c).Clipboard? then 1 else 0
  {
    hide Enterable, Pastes;
    var more := cs + [c];
    assert more[..|cs|] == cs;
    PastesMore(tables, cs, c);
    forall i | 0 <= i < |more| ensures EnterableAt(tables, open, more, call, i) {
      if i < |cs| { assert EnterableAt(tables, open, cs, call, i) && more[..i] == cs[..i]; }
    }
  }

  lemma PastesMore(tables: Tables, cs: seq<nat>, c: nat)
    ensures Pastes(tables, cs + [c]) == Pastes(tables, cs) + if tables.plan(c).Clipboard? then 1 else 0
  {
    assert (cs + [c])[..|cs|] == cs;
  }

  lemma NotEnterable(tables: Tables, open: nat -> bool, cs: seq<nat>, c: nat, rest: seq<nat>, call: nat)
    requires !Enterable(tables, open, c, call + Pastes(tables, cs))
    ensures !AllEnterable(tables, open, cs + [c] + rest, call)
  {
    hide Enterable, Pastes;
    var all := cs + [c] + rest;
    assert all[..|cs|] == cs && all[|cs|] == c;
    assert !EnterableAt(tables, open, all, call, |cs|);
  }

  // ------------------------------------------------ what movement comes to

  ghost predicate StepsFit(steps: seq<(int, int)>) {
    forall i :: 0 <= i < |steps| ==> -127 <= steps[i].0 <= 127 && -127 <= steps[i].1 <= 127
  }

  function Total(steps: seq<(int, int)>): (int, int) {
    if steps == [] then (0, 0)
    else
      var (x, y) := Total(steps[1..]);
      (steps[0].0 + x, steps[0].1 + y)
  }

  /** A movement in steps of at most 127. */
  function Steps(x: int, y: int): (steps: seq<(int, int)>)
    ensures StepsFit(steps)
    decreases (if x < 0 then -x else x) + (if y < 0 then -y else y)
  {
    if x == 0 == y then [] else [(Clamp(x), Clamp(y))] + Steps(x - Clamp(x), y - Clamp(y))
  }

  /** The steps add up to the movement. */
  lemma {:induction false} StepsAddUp(x: int, y: int)
    ensures Total(Steps(x, y)) == (x, y)
    decreases (if x < 0 then -x else x) + (if y < 0 then -y else y)
  {
    if x != 0 || y != 0 {
      StepsAddUp(x - Clamp(x), y - Clamp(y));
      assert Steps(x, y)[1..] == Steps(x - Clamp(x), y - Clamp(y));
    }
  }

  ghost function Moves(steps: seq<(int, int)>, buttons: bv8): (rs: seq<Report>)
    requires StepsFit(steps)
    ensures |rs| == |steps|
  {
    seq(|steps|, i requires 0 <= i < |steps| => MouseReport(buttons, ToByte(steps[i].0), ToByte(steps[i].1), 0))
  }

  /** hid_absolute: the position, and the first three buttons if one of them changed. */
  function AbsoluteReports(was: bv8, buttons: bv8, touch: Report): seq<Report> {
    [touch] + if MouseChanged(was, buttons) then [MouseReport(buttons, 0, 0, 0)] else []
  }

  /** hid_relative: the last two buttons if one of them changed, then the movement, or the first three
      buttons if only they changed. */
  ghost function RelativeReports(was: bv8, buttons: bv8, touch: Report, x: int, y: int): seq<Report> {
    (if TouchChanged(was, buttons) then [touch] else [])
    + if x == 0 == y then if MouseChanged(was, buttons) then [MouseReport(buttons, 0, 0, 0)] else []
      else Moves(Steps(x, y), buttons)
  }
}

module Hid {
  import opened Machine
  import opened HidQueueSpec
  import opened HidQueue
  import opened HidSpec
  import Utf8

  const TEXT_DELAY := 20
  const KEEPALIVE_INTERVAL := 300000

  /** The last report for an endpoint, submitted or still to be. */
  ghost function Last(q: ReportQueue, endpoint: nat): Option<Report>
    requires q.Valid()
    reads q, q.reports
  {
    LastOn(History(q.Model()), endpoint)
  }

  lemma CameLastIs(before: seq<Report>, after: seq<Report>, r: Report, e: nat)
    requires CameLast(before, after, r)
    ensures LastOn(after, e) == if e == r.endpoint then Some(r) else LastOn(before, e)
  {
  }

  class Hid {
    const tables: Tables
    const pasteOpen: nat -> bool
    var pasteCalls: nat
    var modifiers: bv8
    const usages: array<bool>
    const keyboard: ReportQueue
    const pointer: ReportQueue
    var keyboardDelay: nat
    var keyboardPaste: u32
    var lastX: u16
    var lastY: u16
    var buttons: bv8
    var wheel: byte
    var pan: byte
    const absoluteLength: nat
    var keepaliveAt: nat
    var keepaliveRight: bool

    ghost predicate Valid()
      reads keyboard, keyboard.reports, pointer, pointer.reports
    {
      && keyboard != pointer && keyboard.reports != pointer.reports && usages.Length == USAGES
      && keyboard.Good() && pointer.Good()
    }

    ghost predicate KeysSettled()
      requires Valid()
      reads this`modifiers, usages, keyboard, keyboard.reports, pointer, pointer.reports
    {
      SaysKeys(Last(keyboard, KEYBOARD), modifiers, usages[..])
    }

    ghost predicate PointerSettled()
      requires Valid()
      reads this`buttons, keyboard, keyboard.reports, pointer, pointer.reports
    {
      SaysMouse(Last(pointer, MOUSE), buttons) && SaysTouch(Last(pointer, TOUCH), buttons)
    }

    /** No report has been or can be written past the pointer queue. */
    ghost predicate Started()
      requires Valid()
      reads keyboard, keyboard.reports, pointer, pointer.reports
    {
      Primed(pointer.Model()) && NoDirect(pointer.log)
    }

    /** hid_init. */
    constructor (keys: Tables, clipboard: nat -> bool, outside: nat -> Turn, other: nat -> Turn, now: nat, length: nat)
      ensures Valid() && NoDirect(pointer.log) && fresh(keyboard) && fresh(pointer) && fresh(keyboard.reports)
              && fresh(pointer.reports) && fresh(usages)
      ensures keyboard.count == 0 == pointer.count
    {
      hide Ok, NoDirect, Ring;
      tables, pasteOpen, pasteCalls, modifiers := keys, clipboard, 0, 0;
      usages := new bool[USAGES](_ => false);
      var k := new ReportQueue(outside);
      var p := new ReportQueue(other);
      keyboard, pointer := k, p;
      keyboardDelay, keyboardPaste, lastX, lastY, buttons, wheel, pan := 0, 0, 0x3fff, 0x3fff, 0, 0, 0;
      absoluteLength, keepaliveAt, keepaliveRight := length, now + KEEPALIVE_INTERVAL, true;
      new;
      FreshIsOk();
    }

    // ---------------------------------------------- keyboard

    method KeyboardBytes() returns (rest: seq<byte>)
      requires usages.Length == USAGES
      ensures rest == KeyboardRest(usages[..])
    {
      var keys: seq<byte>, usage := [], 0;
      while usage < USAGES && |keys| < 6
        invariant 0 <= usage <= USAGES && |keys| <= 6 && keys == Held(usages[..], usage)
      {
        if usages[usage] { keys := keys + [usage]; }
        usage := usage + 1;
      }
      HeldGrows(usages[..], usage, USAGES);
      rest := [0] + (keys + Zeros(6 - |keys|));
      assert keys + Zeros(0) == keys;
    }

    /** send_keyboard. */
    method SendKeyboard() returns (ok: bool)
      requires Valid()
      modifies keyboard, keyboard.reports
      ensures Valid()
      ensures keyboard.Given(old(keyboard.Model()), old(keyboard.tick),
                             [KeysReport(modifiers, usages[..], keyboardDelay, keyboardPaste)], ok)
      ensures ok || old(keyboard.count) < CAPACITY ==>
                && KeysSettled()
                && keyboard.queued == old(keyboard.queued)
                    + [KeysReport(modifiers, usages[..], keyboardDelay, keyboardPaste)]
    {
      hide Ok, History, KeyboardRest, CameLast, NoDirect, LastOn, Enqueue, Took;
      var rest := KeyboardBytes();
      var r := Report(KEYBOARD, modifiers, rest, false, keyboardDelay, keyboardPaste);
      ghost var q, accepted := keyboard.Model(), false;
      ok, accepted := keyboard.Put(r);
      if accepted { CameLastIs(History(q), History(keyboard.Model()), r, KEYBOARD); }
    }

    /** reset_keyboard_state. */
    method ClearKeys()
      requires usages.Length == USAGES
      modifies this`modifiers, usages
      ensures modifiers == 0 && usages[..] == Blank()
    {
      forall i | 0 <= i < USAGES { usages[i] := false; }
      modifiers := 0;
    }

    /** The key is where the event would put it, or the queue takes the report of the change. */
    ghost predicate Presses(code: byte, extended: bool, release: bool)
      requires Valid()
      reads this, usages, keyboard, keyboard.reports, pointer, pointer.reports
    {
      var key := tables.translate(code, extended);
      || key.None? || Redundant(modifiers, usages[..], key.value, release)
      || var r := KeysReport(ModifiersAfter(modifiers, key.value, release), UsagesAfter(usages[..], key.value, release),
                             keyboardDelay, keyboardPaste);
         PutAll(keyboard.Model(), [r], keyboard.turns, keyboard.tick).2
    }

    /** hid_scancode. */
    method Scancode(code: byte, extended: bool, release: bool) returns (ok: bool)
      requires Valid() && KeysSettled()
      modifies this`modifiers, usages, keyboard, keyboard.reports
      ensures Valid() && (ok ==> KeysSettled()) && (ok <==> old(Presses(code, extended, release)))
      ensures var key := tables.translate(code, extended);
              if key.None? || Redundant(old(modifiers), old(usages[..]), key.value, release) then
                ok && modifiers == old(modifiers) && usages[..] == old(usages[..])
                    && keyboard.queued == old(keyboard.queued)
              else
                && modifiers == ModifiersAfter(old(modifiers), key.value, release)
                && usages[..] == UsagesAfter(old(usages[..]), key.value, release)
                && keyboard.Given(old(keyboard.Model()), old(keyboard.tick),
                                  [KeysReport(modifiers, usages[..], keyboardDelay, keyboardPaste)], ok)
                && (ok ==>
                      keyboard.queued ==
                        old(keyboard.queued) + [KeysReport(modifiers, usages[..], keyboardDelay, keyboardPaste)])
    {
      hide Ok, History, KeysReport, SaysKeys, LastOn, Redundant, ModifiersAfter, UsagesAfter, PutAll;
      var key := tables.translate(code, extended);
      if key.None? || Redundant(modifiers, usages[..], key.value, release) { return true; }
      SetKey(key.value, release);
      ok := SendKeyboard();
    }

    method SetKey(key: Key, release: bool)
      requires usages.Length == USAGES
      modifies this`modifiers, usages
      ensures modifiers == ModifiersAfter(old(modifiers), key, release)
              && usages[..] == UsagesAfter(old(usages[..]), key, release)
    {
      hide Toggled;
      ghost var held := usages[..];
      if key.modifier != 0 {
        modifiers := Toggled(modifiers, key.modifier, release);
      } else {
        usages[key.usage] := !release;
        assert usages[..] == held[key.usage := !release];
      }
    }

    /** tap_text_key. */
    method Tap(key: Key) returns (ok: bool)
      requires Valid() && keyboardPaste == 0
      modifies this`modifiers, usages, keyboard, keyboard.reports
      ensures Valid()
      ensures keyboard.Given(old(keyboard.Model()), old(keyboard.tick),
                             TapReports(old(modifiers), old(usages[..]), key, keyboardDelay), ok)
      ensures ok ==>
                && KeysSettled() && modifiers == old(modifiers) && usages[..] == old(usages[..])
                && keyboard.queued == old(keyboard.queued) + TapReports(modifiers, usages[..], key, keyboardDelay)
    {
      hide Ok, History, KeysReport, SaysKeys, LastOn, Took, Toggled;
      ghost var held := usages[..];
      ghost var down := KeysReport(Toggled(modifiers, key.modifier, false), held[key.usage := true], keyboardDelay, 0);
      ghost var up := KeysReport(modifiers, held, keyboardDelay, 0);
      TapIs(modifiers, held, key, keyboardDelay);
      hide TapReports;
      var savedModifiers, savedUsage := modifiers, usages[key.usage];
      modifiers := Toggled(savedModifiers, key.modifier, false);
      usages[key.usage] := true;
      assert usages[..] == held[key.usage := true];
      ok := SendKeyboard();
      if !ok {
        RefusedStays(old(keyboard.Model()), old(keyboard.tick), keyboard.turns, [down], [up], keyboard.Model(),
                     keyboard.tick);
        return false;
      }
      ghost var p, j := keyboard.Model(), keyboard.tick;
      modifiers := savedModifiers;
      usages[key.usage] := savedUsage;
      assert usages[..] == held;
      ok := SendKeyboard();
      TookMore(old(keyboard.Model()), old(keyboard.tick), keyboard.turns, [down], p, j, [up], ok, keyboard.Model(),
               keyboard.tick);
      Regroup(old(keyboard.queued), [down], [up]);
    }

    /** type_ascii_sequence. */
    method TapAll(keys: seq<Key>, complete: bool) returns (ok: bool, ghost told: bool)
      requires Valid() && KeysSettled() && keyboardPaste == 0
      modifies this`modifiers, usages, keyboard, keyboard.reports
      ensures Valid() && (ok <==> complete && told)
      ensures keyboard.Given(old(keyboard.Model()), old(keyboard.tick),
                             TapsReports(old(modifiers), old(usages[..]), keys, keyboardDelay), told)
      ensures ok ==>
                && KeysSettled() && modifiers == old(modifiers) && usages[..] == old(usages[..])
                && keyboard.queued == old(keyboard.queued) + TapsReports(modifiers, usages[..], keys, keyboardDelay)
    {
      hide Ok, History, KeyboardRest, SaysKeys, LastOn, TapReports, TapsReports, Took;
      ghost var queued, held, q, k := keyboard.queued, usages[..], keyboard.Model(), keyboard.tick;
      NoTaps(queued, modifiers, held, keys, keyboardDelay);
      TookNothing(q, k, keyboard.turns);
      var i := 0;
      while i < |keys|
        invariant 0 <= i <= |keys| && Valid() && KeysSettled() && modifiers == old(modifiers) && usages[..] == held
        invariant keyboard.queued == queued + TapsReports(modifiers, held, keys[..i], keyboardDelay)
        invariant keyboard.Given(q, k, TapsReports(modifiers, held, keys[..i], keyboardDelay), true)
      {
        ghost var done := TapsReports(modifiers, held, keys[..i], keyboardDelay);
        ghost var tap := TapReports(modifiers, held, keys[i], keyboardDelay);
        ghost var p, j := keyboard.Model(), keyboard.tick;
        TapsGrow(modifiers, held, keys, i, keyboardDelay);
        ok := Tap(keys[i]);
        TookMore(q, k, keyboard.turns, done, p, j, tap, ok, keyboard.Model(), keyboard.tick);
        if !ok {
          ghost var rest := TapsSplit(old(modifiers), held, keys, i + 1, keyboardDelay);
          RefusedStays(q, k, keyboard.turns, done + tap, rest, keyboard.Model(), keyboard.tick);
          return false, false;
        }
        Regroup(queued, done, tap);
        i := i + 1;
      }
      assert keys[..i] == keys;
      ok, told := complete, true;
    }

    /** paste_codepoint. */
    method PasteCode(code: u32) returns (ok: bool)
      requires Valid() && keyboardPaste == 0
      modifies this`modifiers, this`keyboardPaste, this`pasteCalls, usages, keyboard, keyboard.reports
      ensures Valid() && keyboardPaste == 0 && pasteCalls == old(pasteCalls) + 1
      ensures if pasteOpen(old(pasteCalls)) then
                keyboard.Given(old(keyboard.Model()), old(keyboard.tick),
                               PasteReports(old(modifiers), code, keyboardDelay), ok)
              else !ok
      ensures ok ==>
                && KeysSettled() && modifiers == old(modifiers) && usages[..] == Blank()
                && keyboard.queued == old(keyboard.queued) + PasteReports(modifiers, code, keyboardDelay)
    {
      hide Ok, History, KeyboardRest, SaysKeys, LastOn, Took;
      var open := pasteOpen(pasteCalls);
      pasteCalls := pasteCalls + 1;
      if !open { return false; }
      ghost var queued, q, k := keyboard.queued, keyboard.Model(), keyboard.tick;
      ghost var two := PasteReports(modifiers, code, keyboardDelay);
      Pair(queued, two);
      var saved := modifiers;
      ClearKeys();
      modifiers := COMMAND;
      usages[V_KEY] := true;
      assert usages[..] == Blank()[V_KEY := true];
      keyboardPaste := code;
      var sent := SendKeyboard();
      keyboardPaste := 0;
      if !sent {
        RefusedStays(q, k, keyboard.turns, [two[0]], [two[1]], keyboard.Model(), keyboard.tick);
        return false;
      }
      ghost var p, j := keyboard.Model(), keyboard.tick;
      usages[V_KEY] := false;
      assert usages[..] == Blank();
      modifiers := saved;
      ok := SendKeyboard();
      TookMore(q, k, keyboard.turns, [two[0]], p, j, [two[1]], ok, keyboard.Model(), keyboard.tick);
    }

    /** One character of hid_type_utf8. */
    method TypeCharacter(c: nat) returns (ok: bool)
      requires Valid() && KeysSettled() && keyboardPaste == 0 && modifiers == 0 && usages[..] == Blank() && c < TWO32
      modifies this`modifiers, this`keyboardPaste, this`pasteCalls, usages, keyboard, keyboard.reports
      ensures Valid() && keyboardPaste == 0
      ensures pasteCalls == old(pasteCalls) + if tables.plan(c).Clipboard? then 1 else 0
      ensures if Enterable(tables, pasteOpen, c, old(pasteCalls)) then
                keyboard.Given(old(keyboard.Model()), old(keyboard.tick), CharReports(tables, c, keyboardDelay), ok)
              else !ok
      ensures ok ==>
                && KeysSettled() && modifiers == 0 && usages[..] == Blank()
                && keyboard.queued == old(keyboard.queued) + CharReports(tables, c, keyboardDelay)
    {
      hide Ok, History, KeyboardRest, SaysKeys, LastOn, TapsReports, PasteReports, Took;
      match tables.plan(c) {
        case Taps(keys, complete) =>
          ghost var told;
          ok, told := TapAll(keys, complete);
        case Clipboard => ok := PasteCode(c);
      }
    }

    /** The loop of hid_type_utf8: the characters of the longest well-formed front of the text, after a report
        that lets go of everything. It succeeds if that is the whole text, every character can be entered and
        the queue takes all the reports. */
    method TypeCharacters(text: seq<byte>) returns (ok: bool, ghost told: bool)
      requires Valid() && keyboardPaste == 0
      modifies this`modifiers, this`keyboardPaste, this`pasteCalls, usages, keyboard, keyboard.reports
      ensures Valid() && keyboardPaste == 0
      ensures var (cs, end) := Utf8.Front(text, 0);
              if AllEnterable(tables, pasteOpen, cs, old(pasteCalls)) then
                && keyboard.Given(old(keyboard.Model()), old(keyboard.tick), TypedReports(tables, cs, keyboardDelay),
                                  told)
                && (ok <==> told && end == |text|)
              else !ok
      ensures ok ==>
                && KeysSettled() && modifiers == 0 && usages[..] == Blank()
                && keyboard.queued == old(keyboard.queued) + TypedReports(tables, Utf8.Front(text, 0).0, keyboardDelay)
    {
      hide Ok, History, KeyboardRest, SaysKeys, LastOn, CharReports, Utf8.Decode, Utf8.Front, Took, TypedReports;
      hide TextReports;
      hide AllEnterable, Enterable, Pastes, Utf8.ReadUpTo;
      ghost var queued, q, k, all := keyboard.queued, keyboard.Model(), keyboard.tick, Utf8.Front(text, 0).0;
      ClearKeys();
      ok := SendKeyboard();
      TypedNothing(tables, keyboardDelay, pasteOpen, pasteCalls);
      if !ok {
        TypedReportsAppend(tables, [], all, keyboardDelay);
        assert [] + all == all;
        RefusedStays(q, k, keyboard.turns, TypedReports(tables, [], keyboardDelay),
                     TextReports(tables, all, keyboardDelay),
                     keyboard.Model(), keyboard.tick);
        return false, false;
      }
      var offset := 0;
      ghost var cs: seq<nat> := [];
      Utf8.NothingRead(text);
      while offset < |text|
        invariant Valid() && KeysSettled() && keyboardPaste == 0 && modifiers == 0 && usages[..] == Blank()
        invariant 0 <= offset <= |text| && Utf8.ReadUpTo(text, cs, offset)
        invariant keyboard.queued == queued + TypedReports(tables, cs, keyboardDelay)
        invariant keyboard.Given(q, k, TypedReports(tables, cs, keyboardDelay), true)
        invariant AllEnterable(tables, pasteOpen, cs, old(pasteCalls))
                  && pasteCalls == old(pasteCalls) + Pastes(tables, cs)
        decreases |text| - offset
      {
        Utf8.ReadOn(text, cs, offset);
        var decoded := Utf8.Decode(text, offset);
        if decoded.Bad? { return false, true; }
        ghost var c, p, j := decoded.codepoint, keyboard.Model(), keyboard.tick;
        ok := TypeCharacter(decoded.codepoint);
        if !ok {
          ghost var rest := Utf8.Front(text, decoded.next).0;
          ReadRest(text, cs + [c], decoded.next);
          if Enterable(tables, pasteOpen, c, old(pasteCalls) + Pastes(tables, cs)) {
            CharRefused(q, k, p, j, cs, c, rest, keyboard.Model(), keyboard.tick);
          } else {
            NotEnterable(tables, pasteOpen, cs, c, rest, old(pasteCalls));
          }
          return false, false;
        }
        EnterableMore(tables, pasteOpen, cs, c, old(pasteCalls));
        CharTyped(queued, cs, c);
        TookMore(q, k, keyboard.turns, TypedReports(tables, cs, keyboardDelay), p, j,
                 CharReports(tables, c, keyboardDelay), true,
                 keyboard.Model(), keyboard.tick);
        cs := cs + [c];
        offset := decoded.next;
      }
      ReadRest(text, cs, offset);
      Utf8.NothingLeft(text);
      assert cs + [] == cs;
      ok, told := true, true;
    }

    lemma CharTyped(queued: seq<Report>, cs: seq<nat>, c: nat)
      ensures TypedReports(tables, cs + [c], keyboardDelay)
           == TypedReports(tables, cs, keyboardDelay) + CharReports(tables, c, keyboardDelay)
      ensures queued + TypedReports(tables, cs, keyboardDelay) + CharReports(tables, c, keyboardDelay)
           == queued + TypedReports(tables, cs + [c], keyboardDelay)
    {
      hide CharReports;
      assert (cs + [c])[..|cs|] == cs;
    }

    lemma CharRefused(q: Queue, k: nat, p: Queue, j: nat, cs: seq<nat>, c: nat, rest: seq<nat>, after: Queue, next: nat)
      requires Took(q, k, keyboard.turns, TypedReports(tables, cs, keyboardDelay), true, p, j)
      requires Took(p, j, keyboard.turns, CharReports(tables, c, keyboardDelay), false, after, next)
      ensures Took(q, k, keyboard.turns, TypedReports(tables, cs + [c] + rest, keyboardDelay), false, after, next)
    {
      hide Took, TypedReports, CharReports;
      TookMore(q, k, keyboard.turns, TypedReports(tables, cs, keyboardDelay), p, j,
               CharReports(tables, c, keyboardDelay), false, after, next);
      CharTyped([], cs, c);
      TypedReportsAppend(tables, cs + [c], rest, keyboardDelay);
      RefusedStays(q, k, keyboard.turns, TypedReports(tables, cs + [c], keyboardDelay),
                   TextReports(tables, rest, keyboardDelay), after, next);
    }

    /** One ASCII key is a shortcut while modifiers are held. */
    predicate Shortcut(text: seq<byte>)
      reads this`modifiers
    {
      |text| == 1 && modifiers != 0 && tables.ascii(text[0]).Some?
    }

    /** What hid_type_utf8 needs: keys for every character of a well-formed text, or an open clipboard, and a queue
        that takes all their reports. */
    ghost predicate Types(text: seq<byte>)
      requires Valid()
      reads this, usages, keyboard, keyboard.reports, pointer, pointer.reports
    {
      if Shortcut(text) then
        PutAll(keyboard.Model(), TapReports(modifiers, usages[..], tables.ascii(text[0]).value, TEXT_DELAY),
               keyboard.turns, keyboard.tick).2
      else
        var cs := Utf8.DecodeAll(text);
        && cs.Some? && AllEnterable(tables, pasteOpen, cs.value, pasteCalls)
        && PutAll(keyboard.Model(), TypedReports(tables, cs.value, TEXT_DELAY), keyboard.turns, keyboard.tick).2
    }

    /** hid_type_utf8. */
    method TypeText(text: seq<byte>) returns (ok: bool)
      requires Valid() && PointerSettled() && keyboardPaste == 0
      modifies this, usages, keyboard, keyboard.reports, pointer, pointer.reports
      ensures Valid() && (old(Started()) ==> Started())
      ensures text == [] ==> !ok && unchanged(this)
      ensures text != [] ==> (ok <==> old(Types(text)))
      ensures text != [] ==> KeysSettled() && PointerSettled() && keyboardDelay == 0 == keyboardPaste
      ensures text != [] && !ok ==> AllReleased()
      ensures ok && old(Shortcut(text)) ==>
                && modifiers == old(modifiers) && usages[..] == old(usages[..]) && buttons == old(buttons)
                && keyboard.queued == old(keyboard.queued)
                    + TapReports(modifiers, usages[..], tables.ascii(text[0]).value, TEXT_DELAY)
      ensures ok && !old(Shortcut(text)) ==>
                var cs := Utf8.DecodeAll(text);
                && modifiers == 0 && usages[..] == Blank() && buttons == old(buttons) && cs.Some?
                && keyboard.queued == old(keyboard.queued) + TypedReports(tables, cs.value, TEXT_DELAY)
    {
      hide Ok, History, KeyboardRest, SaysKeys, SaysMouse, SaysTouch, LastOn, Primed, NoDirect, TypedReports;
      hide TapReports, Utf8.Front;
      hide AllEnterable, PutAll;
      if text == [] { return false; }
      keyboardDelay := TEXT_DELAY;
      var shortcut := tables.ascii(text[0]);
      if |text| == 1 && modifiers != 0 && shortcut.Some? {
        ok := Tap(shortcut.value);
      } else {
        ghost var told;
        ok, told := TypeCharacters(text);
      }
      keyboardDelay := 0;
      if !ok { ReleaseAll(); }
    }

    // ---------------------------------------------- pointer

    /** A report for one of the pointer's two endpoints is queued. */
    method PutPointer(r: Report, ghost other: nat) returns (ok: bool)
      requires Valid() && Queueable(r) && other != r.endpoint
      modifies pointer, pointer.reports
      ensures Valid() && Primed(pointer.Model()) && pointer.count <= old(pointer.count) + 1
      ensures (old(NoDirect(pointer.log)) ==> NoDirect(pointer.log))
              && pointer.Given(old(pointer.Model()), old(pointer.tick), [r], ok)
      ensures Last(pointer, other) == old(Last(pointer, other))
      ensures ok || old(pointer.count) < CAPACITY ==>
                Last(pointer, r.endpoint) == Some(r) && pointer.queued == old(pointer.queued) + [r]
    {
      hide Ok, History, NoDirect, LastOn, Primed, Enqueue, CameLast, Took;
      ghost var q, accepted := pointer.Model(), false;
      ok, accepted := pointer.Put(r);
      if accepted {
        CameLastIs(History(q), History(pointer.Model()), r, r.endpoint);
        CameLastIs(History(q), History(pointer.Model()), r, other);
      }
    }

    /** send_relative. */
    method SendRelative(dx: byte, dy: byte, turn: byte) returns (ok: bool)
      requires Valid()
      modifies pointer, pointer.reports
      ensures Valid() && Last(pointer, TOUCH) == old(Last(pointer, TOUCH)) && Primed(pointer.Model())
      ensures (old(NoDirect(pointer.log)) ==> NoDirect(pointer.log)) && pointer.count <= old(pointer.count) + 1
      ensures pointer.Given(old(pointer.Model()), old(pointer.tick), [MouseReport(buttons, dx, dy, turn)], ok)
      ensures ok || old(pointer.count) < CAPACITY ==>
                SaysMouse(Last(pointer, MOUSE), buttons)
                    && pointer.queued == old(pointer.queued) + [MouseReport(buttons, dx, dy, turn)]
    {
      hide Ok, History, NoDirect, LastOn, Primed, Took;
      ok := PutPointer(MouseReport(buttons, dx, dy, turn), TOUCH);
    }

    /** write_absolute_now. */
    method TryTouch(r: Report) returns (wrote: bool)
      requires Valid() && r.endpoint == TOUCH
      modifies pointer
      ensures Valid() && (old(Started()) ==> !wrote)
      ensures if wrote then Last(pointer, TOUCH) == Some(r) && Last(pointer, MOUSE) == old(Last(pointer, MOUSE))
              else pointer.Model() == old(pointer.Model())
      ensures pointer.count == old(pointer.count) && pointer.queued == old(pointer.queued)
      ensures old(Started()) ==> pointer.tick == old(pointer.tick)
    {
      hide Ok, History, NoDirect, LastOn, Primed, CameLast;
      ghost var q := pointer.Model();
      wrote := pointer.WriteNow(r);
      if wrote {
        CameLastIs(History(q), History(pointer.Model()), r, TOUCH);
        CameLastIs(History(q), History(pointer.Model()), r, MOUSE);
      }
    }

    /** The tracked position, buttons and wheels; motion only if it carries nothing else. */
    function Touch(motion: bool): Report
      reads this`buttons, this`lastX, this`lastY, this`wheel, this`pan
    {
      TouchReport(buttons, lastX, lastY, wheel, pan, absoluteLength, motion && wheel == 0 == pan)
    }

    /** send_absolute. */
    method SendAbsolute(motion: bool) returns (ok: bool)
      requires Valid()
      modifies this`wheel, this`pan, pointer, pointer.reports
      ensures Valid() && Last(pointer, MOUSE) == old(Last(pointer, MOUSE)) && (old(Started()) ==> Started())
      ensures pointer.count <= old(pointer.count) + 1
      ensures ok || old(pointer.count) < CAPACITY ==> SaysTouch(Last(pointer, TOUCH), buttons)
      ensures !motion ==> Primed(pointer.Model()) && (old(NoDirect(pointer.log)) ==> NoDirect(pointer.log))
      ensures !motion || old(Started()) ==>
                && wheel == 0 == pan
                && pointer.Given(old(pointer.Model()), old(pointer.tick), [old(Touch(motion))], ok)
                && (ok || old(pointer.count) < CAPACITY ==>
                    pointer.queued == old(pointer.queued) + [old(Touch(motion))])
    {
      hide Ok, History, NoDirect, LastOn, Primed, Took;
      var pure := motion && wheel == 0 && pan == 0;
      var r := Touch(motion);
      TouchSays(buttons, lastX, lastY, wheel, pan, absoluteLength, pure);
      hide TouchReport, SaysTouch, Queueable;
      if pure {
        var wrote := TryTouch(r);
        if wrote { return true; }
      }
      ok := PutPointer(r, MOUSE);
      wheel, pan := 0, 0;
    }

    /** hid_absolute, for a position already scaled: a touch report, and a mouse report if one of the first
        three buttons changed. */
    method Absolute(x: u16, y: u16, flags: bv16) returns (ok: bool)
      requires Valid() && PointerSettled()
      modifies this`buttons, this`lastX, this`lastY, this`wheel, this`pan, pointer, pointer.reports
      ensures Valid() && (ok ==> PointerSettled()) && (old(Started()) ==> Started())
      ensures buttons == PointerButtons(old(buttons), flags) && lastX == x && lastY == y
      ensures old(Started()) ==>
                var touch := TouchReport(buttons, x, y, old(wheel), old(pan), absoluteLength,
                                         NoButtonFlag(flags) && old(wheel) == 0 == old(pan));
                && pointer.Given(old(pointer.Model()), old(pointer.tick), AbsoluteReports(old(buttons), buttons, touch),
                                 ok)
                && (ok ==> pointer.queued == old(pointer.queued) + AbsoluteReports(old(buttons), buttons, touch))
    {
      hide Ok, History, NoDirect, LastOn, PointerButtons, TouchReport, MouseReport, Primed, SaysMouse, SaysTouch;
      hide MouseChanged, NoButtonFlag, Took;
      var previous := buttons;
      buttons := PointerButtons(buttons, flags);
      lastX, lastY := x, y;
      ok := Place(previous, NoButtonFlag(flags));
    }

    /** The reports of hid_absolute. */
    method Place(previous: bv8, motion: bool) returns (ok: bool)
      requires Valid() && SaysMouse(Last(pointer, MOUSE), previous)
      modifies this`wheel, this`pan, pointer, pointer.reports
      ensures Valid() && (ok ==> PointerSettled()) && (old(Started()) ==> Started())
      ensures old(Started()) ==>
                var rs := AbsoluteReports(previous, buttons, old(Touch(motion)));
                && pointer.Given(old(pointer.Model()), old(pointer.tick), rs, ok)
                && (ok ==> pointer.queued == old(pointer.queued) + rs)
    {
      hide Ok, History, NoDirect, LastOn, TouchReport, MouseReport, Primed, SaysMouse, SaysTouch, MouseChanged, Took;
      ghost var touch, q, k := Touch(motion), pointer.Model(), pointer.tick;
      ghost var mouse := if MouseChanged(previous, buttons) then [MouseReport(buttons, 0, 0, 0)] else [];
      ok := SendAbsolute(motion);
      if !ok {
        if old(Started()) { RefusedStays(q, k, pointer.turns, [touch], mouse, pointer.Model(), pointer.tick); }
        return false;
      }
      ghost var p, j := pointer.Model(), pointer.tick;
      ok := TellButtons(previous);
      if old(Started()) { TookMore(q, k, pointer.turns, [touch], p, j, mouse, ok, pointer.Model(), pointer.tick); }
    }

    /** The mouse is told of its buttons if one of them changed. */
    method TellButtons(previous: bv8) returns (ok: bool)
      requires Valid() && SaysMouse(Last(pointer, MOUSE), previous)
      modifies pointer, pointer.reports
      ensures Valid() && Last(pointer, TOUCH) == old(Last(pointer, TOUCH)) && (old(Started()) ==> Started())
      ensures var rs := if MouseChanged(previous, buttons) then [MouseReport(buttons, 0, 0, 0)] else [];
              && pointer.Given(old(pointer.Model()), old(pointer.tick), rs, ok)
              && (ok ==> SaysMouse(Last(pointer, MOUSE), buttons) && pointer.queued == old(pointer.queued) + rs)
    {
      hide Ok, History, NoDirect, LastOn, Primed, MouseReport, SaysMouse, MouseChanged, Took;
      TookNothing(pointer.Model(), pointer.tick, pointer.turns);
      SaysSame(Last(pointer, MOUSE), previous, buttons);
      ok := true;
      if MouseChanged(previous, buttons) { ok := SendRelative(0, 0, 0); }
    }

    /** hid_relative: a touch report if one of the last two buttons changed, then the movement, or a mouse
        report if only the buttons did. */
    method Relative(x: int, y: int, held: bv8) returns (ok: bool)
      requires Valid() && PointerSettled()
      modifies this`buttons, this`wheel, this`pan, pointer, pointer.reports
      ensures Valid() && (ok ==> PointerSettled()) && (old(Started()) ==> Started())
      ensures buttons == FiveButtons(held)
      ensures var touch := TouchReport(buttons, lastX, lastY, old(wheel), old(pan), absoluteLength, false);
              var rs := RelativeReports(old(buttons), buttons, touch, x, y);
              && pointer.Given(old(pointer.Model()), old(pointer.tick), rs, ok)
              && (ok ==> pointer.queued == old(pointer.queued) + rs)
    {
      hide Ok, History, NoDirect, LastOn, Primed, TouchReport, MouseReport, Steps, Moves, SaysMouse, SaysTouch;
      hide MouseChanged, TouchChanged, FiveButtons, Took;
      ghost var q, k := pointer.Model(), pointer.tick;
      ghost var touch := TouchReport(FiveButtons(held), lastX, lastY, wheel, pan, absoluteLength, false);
      var next, previous := FiveButtons(held), buttons;
      ghost var grip := if TouchChanged(previous, next) then [touch] else [];
      ok := Regrip(next);
      ghost var rest := if x == 0 == y then if MouseChanged(previous, next) then [MouseReport(next, 0, 0, 0)] else []
                        else Moves(Steps(x, y), next);
      if !ok {
        RefusedStays(q, k, pointer.turns, grip, rest, pointer.Model(), pointer.tick);
        return;
      }
      ghost var p, j := pointer.Model(), pointer.tick;
      if x == 0 && y == 0 {
        ok := TellButtons(previous);
      } else {
        ok := MoveBy(x, y);
      }
      TookMore(q, k, pointer.turns, grip, p, j, rest, ok, pointer.Model(), pointer.tick);
      Regroup(old(pointer.queued), grip, rest);
    }

    /** The buttons change, and the touch device is told of its own. */
    method Regrip(next: bv8) returns (ok: bool)
      requires Valid() && SaysTouch(Last(pointer, TOUCH), buttons)
      modifies this`buttons, this`wheel, this`pan, pointer, pointer.reports
      ensures Valid() && buttons == next && Last(pointer, MOUSE) == old(Last(pointer, MOUSE))
              && (old(Started()) ==> Started())
      ensures var touch := TouchReport(next, lastX, lastY, old(wheel), old(pan), absoluteLength, false);
              var rs := if TouchChanged(old(buttons), next) then [touch] else [];
              && pointer.Given(old(pointer.Model()), old(pointer.tick), rs, ok)
              && (ok ==> SaysTouch(Last(pointer, TOUCH), next) && pointer.queued == old(pointer.queued) + rs)
    {
      hide Ok, History, NoDirect, LastOn, Primed, TouchReport, SaysTouch, TouchChanged, Took;
      TookNothing(pointer.Model(), pointer.tick, pointer.turns);
      var changed := TouchChanged(buttons, next);
      SaysSame(Last(pointer, TOUCH), buttons, next);
      buttons, ok := next, true;
      if changed { ok := SendAbsolute(false); }
    }

    /** The loop of hid_relative: the movement goes out in steps of at most 127, and the steps add up to it. */
    method MoveBy(x: int, y: int) returns (ok: bool)
      requires Valid() && SaysTouch(Last(pointer, TOUCH), buttons) && (x != 0 || y != 0)
      modifies pointer, pointer.reports
      ensures Valid() && (ok ==> PointerSettled()) && (old(Started()) ==> Started())
      ensures pointer.Given(old(pointer.Model()), old(pointer.tick), Moves(Steps(x, y), buttons), ok)
      ensures ok ==> pointer.queued == old(pointer.queued) + Moves(Steps(x, y), buttons)
    {
      hide Ok, History, NoDirect, LastOn, Primed, SaysMouse, SaysTouch, Moves, Steps, ToByte, Clamp, MouseReport, Took;
      var dx, dy := x, y;
      ghost var q, k, steps: seq<(int, int)> := pointer.Model(), pointer.tick, [];
      ok := true;
      NoMoves(pointer.queued, buttons);
      TookNothing(q, k, pointer.turns);
      assert steps + Steps(x, y) == Steps(x, y);
      while dx != 0 || dy != 0
        invariant Valid() && SaysTouch(Last(pointer, TOUCH), buttons) && (old(Started()) ==> Started())
        invariant if steps == [] then dx == x && dy == y else SaysMouse(Last(pointer, MOUSE), buttons)
        invariant StepsFit(steps) && steps + Steps(dx, dy) == Steps(x, y)
        invariant pointer.queued == old(pointer.queued) + Moves(steps, buttons)
                  && pointer.Given(q, k, Moves(steps, buttons), true)
        decreases (if dx < 0 then -dx else dx) + (if dy < 0 then -dy else dy)
      {
        ghost var step, done, p, j := (Clamp(dx), Clamp(dy)), Moves(steps, buttons), pointer.Model(), pointer.tick;
        NextStep(x, y, steps, dx, dy);
        MovesGrow(old(pointer.queued), steps, step, buttons);
        ok := SendRelative(ToByte(Clamp(dx)), ToByte(Clamp(dy)), 0);
        ghost var one := [MouseReport(buttons, ToByte(step.0), ToByte(step.1), 0)];
        TookMore(q, k, pointer.turns, done, p, j, one, ok, pointer.Model(), pointer.tick);
        dx, dy := dx - Clamp(dx), dy - Clamp(dy);
        steps := steps + [step];
        if !ok {
          StepRefused(q, k, pointer.turns, steps, Steps(dx, dy), buttons, pointer.Model(), pointer.tick);
          return;
        }
      }
      LastStep(steps);
      ok := true;
    }

    function WheelReports(vertical: bool, horizontal: bool, detents: byte): seq<Report>
      reads this
    {
      if vertical then [MouseReport(buttons, 0, 0, detents)]
      else if horizontal && absoluteLength == 7 then [TouchReport(buttons, lastX, lastY, wheel, detents, 7, false)]
      else []
    }

    /** hid_wheel, for detents already worked out: up and down on the mouse, sideways on the touch device if
        its reports have room for it. */
    method Wheel(vertical: bool, horizontal: bool, detents: byte) returns (ok: bool)
      requires Valid() && PointerSettled()
      modifies this`wheel, this`pan, pointer, pointer.reports
      ensures Valid() && (ok ==> PointerSettled()) && (old(Started()) ==> Started())
      ensures var rs := old(WheelReports(vertical, horizontal, detents));
              pointer.Given(old(pointer.Model()), old(pointer.tick), rs, ok)
                  && (ok ==> pointer.queued == old(pointer.queued) + rs)
    {
      hide Ok, History, NoDirect, LastOn, Primed, TouchReport, MouseReport, Took;
      TookNothing(pointer.Model(), pointer.tick, pointer.turns);
      if !vertical && !horizontal { return true; }
      if horizontal && !vertical {
        if absoluteLength != 7 { return true; }
        pan := detents;
        ok := SendAbsolute(false);
      } else {
        ok := SendRelative(0, 0, detents);
      }
    }

    /** Nothing is held, and it is time. */
    ghost predicate Idle(now: nat)
      reads this, usages
    {
      now >= keepaliveAt && buttons == 0 == modifiers && forall i :: 0 <= i < usages.Length ==> !usages[i]
    }

    /** Nothing is held or waiting, and it is time. */
    ghost predicate KeepaliveDue(now: nat)
      reads this, usages, keyboard, pointer
    {
      Idle(now) && keyboard.count == 0 == pointer.count
    }

    function Nudge(): Report
      reads this`keepaliveRight
    {
      MouseReport(0, if keepaliveRight then 1 else 0xff, 0, 0)
    }

    /** hid_keepalive: one unit to the side when due, back the next time; else nothing. */
    method Keepalive(now: nat) returns (ok: bool)
      requires Valid() && PointerSettled()
      modifies this`keepaliveAt, this`keepaliveRight, pointer, pointer.reports
      ensures Valid() && (ok ==> PointerSettled()) && (old(Started()) ==> Started())
      ensures if old(KeepaliveDue(now)) then
                && keepaliveAt == now + KEEPALIVE_INTERVAL && keepaliveRight == (old(keepaliveRight) != ok)
                && pointer.Given(old(pointer.Model()), old(pointer.tick), [old(Nudge())], ok)
                && pointer.queued == old(pointer.queued) + [old(Nudge())]
              else ok && unchanged(this) && unchanged(pointer)
    {
      hide Ok, History, NoDirect, LastOn, Primed, MouseReport, Took;
      if now < keepaliveAt || keyboard.count != 0 || pointer.count != 0 { return true; }
      if buttons != 0 || modifiers != 0 { return true; }
      var usage := 0;
      while usage < USAGES
        invariant 0 <= usage <= USAGES && forall i :: 0 <= i < usage ==> !usages[i]
      {
        if usages[usage] { return true; }
        usage := usage + 1;
      }
      keepaliveAt := now + KEEPALIVE_INTERVAL;
      ok := SendRelative(ToByte(if keepaliveRight then 1 else -1), 0, 0);
      if ok { keepaliveRight := !keepaliveRight; }
    }

    // ---------------------------------------------- both

    ghost predicate AllReleased()
      reads this, usages
    {
      modifiers == 0 == buttons && usages[..] == Blank()
    }

    /** Both queues take the release. */
    ghost predicate Synchronizes()
      requires Valid()
      reads this, usages, keyboard, keyboard.reports, pointer, pointer.reports
    {
      && PutAll(keyboard.Model(), [KeysReport(0, Blank(), 0, 0)], keyboard.turns, keyboard.tick).2
      && PutAll(pointer.Model(), [MouseReport(0, 0, 0, 0), TouchReport(0, lastX, lastY, 0, 0, absoluteLength, false)],
                pointer.turns, pointer.tick).2
    }

    /** hid_synchronize. With room in the queues the released state is the last word for every endpoint,
        whatever USB makes of it. */
    method Synchronize() returns (ok: bool)
      requires Valid()
      modifies this, usages, keyboard, keyboard.reports, pointer, pointer.reports
      ensures Valid() && AllReleased() && keyboardDelay == 0 == keyboardPaste
              && (old(NoDirect(pointer.log)) ==> Started())
      ensures ok || old(keyboard.count == 0 == pointer.count) ==>
                && KeysSettled() && PointerSettled()
                && keyboard.queued == old(keyboard.queued) + [KeysReport(0, Blank(), 0, 0)]
                && pointer.queued == old(pointer.queued)
                    + [MouseReport(0, 0, 0, 0), TouchReport(0, lastX, lastY, 0, 0, absoluteLength, false)]
      ensures lastX == old(lastX) && lastY == old(lastY) && pasteCalls == old(pasteCalls)
      ensures ok <==> old(Synchronizes())
    {
      hide Ok, History, NoDirect, LastOn, Primed, KeysReport, SaysKeys, SaysMouse, SaysTouch, TouchReport, MouseReport;
      hide Blank;
      hide PutAll;
      LetGo();
      var keyboardOk := SendKeyboard();
      assert AllReleased();
      ghost var settled := KeysSettled();
      var pointerOk := ReleaseButtons();
      assert AllReleased() && KeysSettled() == settled;
      ok := keyboardOk && pointerOk;
    }

    method LetGo()
      requires usages.Length == USAGES
      modifies this`keyboardDelay, this`keyboardPaste, this`modifiers, this`buttons, this`wheel, this`pan, usages
      ensures AllReleased() && keyboardDelay == 0 == keyboardPaste && wheel == 0 == pan
    {
      keyboardDelay, keyboardPaste, buttons, wheel, pan := 0, 0, 0, 0, 0;
      ClearKeys();
    }

    method ReleaseButtons() returns (ok: bool)
      requires Valid() && wheel == 0 == pan && buttons == 0
      modifies this`wheel, this`pan, pointer, pointer.reports
      ensures Valid() && wheel == 0 == pan && (old(NoDirect(pointer.log)) ==> Started())
      ensures ok <==> PutAll(old(pointer.Model()),
                             [MouseReport(0, 0, 0, 0), TouchReport(0, lastX, lastY, 0, 0, absoluteLength, false)],
                             pointer.turns, old(pointer.tick)).2
      ensures ok || old(pointer.count) == 0 ==>
                && PointerSettled()
                && pointer.queued == old(pointer.queued)
                    + [MouseReport(0, 0, 0, 0), TouchReport(0, lastX, lastY, 0, 0, absoluteLength, false)]
    {
      hide Ok, History, NoDirect, LastOn, Primed, TouchReport, MouseReport, PutAll;
      ghost var queued, q, k := pointer.queued, pointer.Model(), pointer.tick;
      ghost var two := [MouseReport(0, 0, 0, 0), TouchReport(0, lastX, lastY, 0, 0, absoluteLength, false)];
      Pair(queued, two);
      var mouseOk := SendRelative(0, 0, 0);
      ghost var p, j := pointer.Model(), pointer.tick;
      var touchOk := SendAbsolute(false);
      ok := mouseOk && touchOk;
      if mouseOk {
        TookMore(q, k, pointer.turns, [two[0]], p, j, [two[1]], touchOk, pointer.Model(), pointer.tick);
      } else {
        RefusedStays(q, k, pointer.turns, [two[0]], [two[1]], p, j);
      }
    }

    /** hid_flush, without the LED feedback. */
    method FlushAll() returns (ok: bool)
      requires Valid()
      modifies keyboard, keyboard.reports, pointer, pointer.reports
      ensures Valid() && (old(Started()) ==> Started())
      ensures forall e: nat :: Last(keyboard, e) == old(Last(keyboard, e)) && Last(pointer, e) == old(Last(pointer, e))
      ensures var k := Drain(old(keyboard.Model()), keyboard.turns, old(keyboard.tick));
              var p := Drain(old(pointer.Model()), pointer.turns, old(pointer.tick));
              && keyboard.Model() == k.0 && keyboard.tick == k.1 && pointer.Model() == p.0 && pointer.tick == p.1
              && (ok <==> k.2 && p.2)
    {
      hide Ok, History, NoDirect, LastOn, Primed, Drain;
      var keyboardOk := keyboard.Flush();
      var pointerOk := pointer.Flush();
      ok := keyboardOk && pointerOk;
    }

    /** hid_release_all: nothing queued before is sent any more, and the release follows. */
    method ReleaseAll()
      requires Valid()
      modifies this, usages, keyboard, keyboard.reports, pointer, pointer.reports
      ensures Valid() && AllReleased() && keyboardDelay == 0 == keyboardPaste
              && (old(NoDirect(pointer.log)) ==> Started())
      ensures KeysSettled() && PointerSettled()
      ensures pasteCalls == old(pasteCalls)
      ensures keyboard.queued == [KeysReport(0, Blank(), 0, 0)]
      ensures pointer.queued == [MouseReport(0, 0, 0, 0), TouchReport(0, lastX, lastY, 0, 0, absoluteLength, false)]
    {
      hide Ok, History, LastOn, Primed, KeysReport, SaysKeys, SaysMouse, SaysTouch, NoDirect, TouchReport, MouseReport;
      hide Blank;
      DirectLess(pointer.log, Cancel);
      keyboard.Drop();
      pointer.Drop();
      var _ := Synchronize();
    }
  }

  lemma TouchSays(buttons: bv8, x: u16, y: u16, wheel: byte, pan: byte, length: nat, motion: bool)
    ensures var r := TouchReport(buttons, x, y, wheel, pan, length, motion);
            Queueable(r) && r.endpoint == TOUCH && SaysTouch(Some(r), buttons)
  {
  }

  lemma Pair(queued: seq<Report>, two: seq<Report>)
    requires |two| == 2
    ensures queued + [two[0]] + [two[1]] == queued + two && [two[0]] + [two[1]] == two
  {
  }

  lemma TapIs(modifiers: bv8, usages: seq<bool>, key: Key, delay: nat)
    requires |usages| == USAGES
    ensures TapReports(modifiers, usages, key, delay)
         == [KeysReport(Toggled(modifiers, key.modifier, false), usages[key.usage := true], delay, 0)]
             + [KeysReport(modifiers, usages, delay, 0)]
  {
    hide KeysReport;
  }

  lemma NoTaps(queued: seq<Report>, modifiers: bv8, usages: seq<bool>, keys: seq<Key>, delay: nat)
    requires |usages| == USAGES
    ensures TapsReports(modifiers, usages, keys[..0], delay) == [] && queued + [] == queued
  {
  }

  lemma TapsGrow(modifiers: bv8, usages: seq<bool>, keys: seq<Key>, i: nat, delay: nat)
    requires |usages| == USAGES && i < |keys|
    ensures TapsReports(modifiers, usages, keys[..i + 1], delay)
         == TapsReports(modifiers, usages, keys[..i], delay) + TapReports(modifiers, usages, keys[i], delay)
  {
    hide TapReports;
    assert keys[..i + 1][..i] == keys[..i];
  }

  lemma {:induction false} TapsSplit(modifiers: bv8, usages: seq<bool>, keys: seq<Key>, i: nat, delay: nat)
    returns (rest: seq<Report>)
    requires |usages| == USAGES && i <= |keys|
    ensures TapsReports(modifiers, usages, keys, delay) == TapsReports(modifiers, usages, keys[..i], delay) + rest
    decreases |keys| - i
  {
    hide TapReports, TapsReports;
    if i == |keys| {
      assert keys[..i] == keys;
      rest := [];
    } else {
      TapsGrow(modifiers, usages, keys, i, delay);
      var more := TapsSplit(modifiers, usages, keys, i + 1, delay);
      rest := TapReports(modifiers, usages, keys[i], delay) + more;
    }
  }

  lemma TypedNothing(tables: Tables, delay: nat, open: nat -> bool, call: nat)
    ensures TypedReports(tables, [], delay) == [KeysReport(0, Blank(), delay, 0)]
    ensures AllEnterable(tables, open, [], call) && Pastes(tables, []) == 0
  {
    hide KeysReport;
  }

  lemma ReadRest(text: seq<byte>, cs: seq<nat>, offset: nat)
    requires Utf8.ReadUpTo(text, cs, offset)
    ensures Utf8.Front(text, 0).0 == cs + Utf8.Front(text, offset).0
            && Utf8.Front(text, 0).1 == Utf8.Front(text, offset).1
  {
    hide Utf8.Front;
  }

  lemma NoMoves(queued: seq<Report>, buttons: bv8)
    ensures queued + Moves([], buttons) == queued && Moves([], buttons) == []
  {
  }

  lemma MovesGrow(queued: seq<Report>, steps: seq<(int, int)>, step: (int, int), buttons: bv8)
    requires StepsFit(steps) && -127 <= step.0 <= 127 && -127 <= step.1 <= 127
    ensures StepsFit(steps + [step])
    ensures queued + Moves(steps + [step], buttons)
         == queued + Moves(steps, buttons) + [MouseReport(buttons, ToByte(step.0), ToByte(step.1), 0)]
    ensures Moves(steps + [step], buttons) == Moves(steps, buttons)
            + [MouseReport(buttons, ToByte(step.0), ToByte(step.1), 0)]
  {
  }

  lemma MovesSplit(a: seq<(int, int)>, b: seq<(int, int)>, buttons: bv8)
    requires StepsFit(a) && StepsFit(b)
    ensures StepsFit(a + b) && Moves(a + b, buttons) == Moves(a, buttons) + Moves(b, buttons)
  {
  }

  lemma StepRefused(q: Queue, k: nat, turns: nat -> Turn, a: seq<(int, int)>, b: seq<(int, int)>, buttons: bv8,
                    after: Queue, next: nat)
    requires StepsFit(a) && StepsFit(b) && Took(q, k, turns, Moves(a, buttons), false, after, next)
    ensures StepsFit(a + b) && Took(q, k, turns, Moves(a + b, buttons), false, after, next)
  {
    hide Took, Moves;
    MovesSplit(a, b, buttons);
    RefusedStays(q, k, turns, Moves(a, buttons), Moves(b, buttons), after, next);
  }

  lemma NextStep(x: int, y: int, steps: seq<(int, int)>, dx: int, dy: int)
    requires steps + Steps(dx, dy) == Steps(x, y) && (dx != 0 || dy != 0)
    ensures (steps + [(Clamp(dx), Clamp(dy))]) + Steps(dx - Clamp(dx), dy - Clamp(dy)) == Steps(x, y)
  {
  }

  lemma LastStep(steps: seq<(int, int)>)
    ensures steps + Steps(0, 0) == steps
  {
  }

  /** A report that told the state still tells it if none of its buttons changed. */
  lemma SaysSame(r: Option<Report>, a: bv8, b: bv8)
    ensures !MouseChanged(a, b) && SaysMouse(r, a) ==> SaysMouse(r, b)
    ensures !TouchChanged(a, b) && SaysTouch(r, a) ==> SaysTouch(r, b)
  {
    assert (a ^ b) & 0x07 == 0 ==> a & 0x07 == b & 0x07;
    assert (a ^ b) & 0x18 == 0 ==> a & 0x18 == b & 0x18;
  }

  /** Once a queue has drained, what it says last has been submitted. */
  lemma DrainedIsSubmitted(q: Queue, endpoint: nat)
    requires q.pending == []
    ensures LastOn(History(q), endpoint) == LastOn(Outgoing(q.log), endpoint)
  {
    assert Outgoing(q.log) + [] == Outgoing(q.log);
  }
}

module Agent {
  import opened Machine
  import opened HidQueueSpec
  import opened HidQueue
  import opened HidSpec
  import opened Hid

  /** What moves the agent: a control message, a pass of its main loop, the loss of the gateway. */
  datatype Step =
    | PressKey(code: byte, extended: bool, release: bool)
    | Text(bytes: seq<byte>)
    | MoveTo(x: u16, y: u16, flags: bv16)
    | MoveBy(dx: int, dy: int, buttons: bv8)
    | Turn(vertical: bool, horizontal: bool, detents: byte)
    | Release
    | Synchronize
    | StopStream
    | Disconnect
    | Pump(now: nat)
    | Other

  /** What is held: modifiers, usages, buttons. */
  datatype Tracked = Tracked(modifiers: bv8, usages: seq<bool>, buttons: bv8)

  const NOTHING: Tracked := Tracked(0, Blank(), 0)

  /** What is to be held after a step that is carried out. */
  function Expected(tables: Tables, t: Tracked, step: Step): Tracked
    requires |t.usages| == USAGES
  {
    match step
    case PressKey(code, extended, release) =>
      var key := tables.translate(code, extended);
      if key.None? || Redundant(t.modifiers, t.usages, key.value, release) then t
      else t.(modifiers := ModifiersAfter(t.modifiers, key.value, release),
              usages := UsagesAfter(t.usages, key.value, release))
    case Text(bytes) =>
      if bytes == [] || (|bytes| == 1 && t.modifiers != 0 && tables.ascii(bytes[0]).Some?) then t
      else Tracked(0, Blank(), t.buttons)
    case MoveTo(_, _, flags) => t.(buttons := PointerButtons(t.buttons, flags))
    case MoveBy(_, _, buttons) => t.(buttons := FiveButtons(buttons))
    case Release => NOTHING
    case Synchronize => NOTHING
    case StopStream => NOTHING
    case Disconnect => NOTHING
    case _ => t
  }

  /** What is held after these steps, given which of them were carried out: a step that was not lets go of
      everything. */
  function HeldAfter(tables: Tables, t: Tracked, steps: seq<Step>, done: seq<bool>): (held: Tracked)
    requires |t.usages| == USAGES && |done| == |steps|
    ensures |held.usages| == USAGES
  {
    if steps == [] then t
    else
      var n := |steps| - 1;
      if done[n] then Expected(tables, HeldAfter(tables, t, steps[..n], done[..n]), steps[n]) else NOTHING
  }

  lemma HeldAfterStep(tables: Tables, t: Tracked, steps: seq<Step>, i: nat, done: seq<bool>, ok: bool)
    requires |t.usages| == USAGES && |done| == i < |steps|
    ensures HeldAfter(tables, t, steps[..i + 1], done + [ok]) ==
              if ok then Expected(tables, HeldAfter(tables, t, steps[..i], done), steps[i]) else NOTHING
  {
    hide Expected;
    assert steps[..i + 1][..i] == steps[..i] && (done + [ok])[..i] == done;
  }

  lemma NoSteps(tables: Tables, t: Tracked, steps: seq<Step>)
    requires |t.usages| == USAGES
    ensures HeldAfter(tables, t, steps[..0], []) == t
  {
  }

  /** Steps that are always carried out. */
  predicate Unfailing(step: Step) { step.Release? || step.StopStream? || step.Disconnect? || step.Other? }

  class Agent {
    const hid: Hid

    ghost function Held(): Tracked
      reads hid, hid.usages
    {
      Tracked(hid.modifiers, hid.usages[..], hid.buttons)
    }

    /** For every endpoint the last report, submitted or still to be, says what is held; and no report has
        gone past the pointer queue. */
    ghost predicate Settled()
      reads hid, hid.usages, hid.keyboard, hid.keyboard.reports, hid.pointer, hid.pointer.reports
    {
      hid.Valid() && hid.KeysSettled() && hid.PointerSettled() && hid.Started()
          && hid.keyboardDelay == 0 == hid.keyboardPaste
    }

    /** The start-up of the agent. */
    constructor (keys: Tables, clipboard: nat -> bool, outside: nat -> HidQueueSpec.Turn,
                 other: nat -> HidQueueSpec.Turn, now: nat, length: nat)
      ensures Settled()
      ensures fresh(hid) && fresh(hid.usages) && fresh(hid.keyboard) && fresh(hid.keyboard.reports)
              && fresh(hid.pointer) && fresh(hid.pointer.reports)
    {
      hid := new Hid(keys, clipboard, outside, other, now, length);
      new;
      hid.ReleaseAll();
    }

    /** Both queues can be flushed; and if it is then time for a movement to keep the host awake, the pointer queue
        takes it. */
    ghost predicate Pumps(now: nat)
      requires hid.Valid()
      reads hid, hid.usages, hid.keyboard, hid.keyboard.reports, hid.pointer, hid.pointer.reports
    {
      var k := Drain(hid.keyboard.Model(), hid.keyboard.turns, hid.keyboard.tick);
      var p := Drain(hid.pointer.Model(), hid.pointer.turns, hid.pointer.tick);
      && k.2 && p.2
      && (hid.Idle(now) && k.0.pending == [] == p.0.pending ==> PutAll(p.0, [hid.Nudge()], hid.pointer.turns, p.1).2)
    }

    /** The queue of the pointer takes all of these. */
    ghost predicate PointerTakes(rs: seq<Report>)
      requires hid.Valid()
      reads hid, hid.keyboard, hid.keyboard.reports, hid.pointer, hid.pointer.reports
    {
      PutAll(hid.pointer.Model(), rs, hid.pointer.turns, hid.pointer.tick).2
    }

    /** The reports of a pointer message. */
    ghost function PointerReports(step: Step): seq<Report>
      requires step.MoveTo? || step.MoveBy? || step.Turn?
      reads hid
    {
      match step
      case MoveTo(x, y, flags) =>
        var next := PointerButtons(hid.buttons, flags);
        var motion := NoButtonFlag(flags) && hid.wheel == 0 == hid.pan;
        AbsoluteReports(hid.buttons, next, TouchReport(next, x, y, hid.wheel, hid.pan, hid.absoluteLength, motion))
      case MoveBy(dx, dy, buttons) =>
        var next := FiveButtons(buttons);
        var touch := TouchReport(next, hid.lastX, hid.lastY, hid.wheel, hid.pan, hid.absoluteLength, false);
        RelativeReports(hid.buttons, next, touch, dx, dy)
      case Turn(vertical, horizontal, detents) => hid.WheelReports(vertical, horizontal, detents)
    }

    /** Whether the step can be carried out: the queues take the reports it calls for, and a text can be entered.
        It depends only on what is held, on what waits in the queues and on what USB and the clipboard will answer. */
    ghost predicate Feasible(step: Step)
      requires hid.Valid()
      reads hid, hid.usages, hid.keyboard, hid.keyboard.reports, hid.pointer, hid.pointer.reports
    {
      match step
      case PressKey(code, extended, release) => hid.Presses(code, extended, release)
      case Text(bytes) => bytes == [] || hid.Types(bytes)
      case Synchronize => hid.Synchronizes()
      case Pump(now) => Pumps(now)
      case MoveTo(_, _, _) => PointerTakes(PointerReports(step))
      case MoveBy(_, _, _) => PointerTakes(PointerReports(step))
      case Turn(_, _, _) => PointerTakes(PointerReports(step))
      case _ => true
    }

    /** The pointer messages of handle_control. */
    method DispatchPointer(step: Step) returns (ok: bool)
      requires Settled() && (step.MoveTo? || step.MoveBy? || step.Turn?)
      modifies hid, hid.pointer, hid.pointer.reports
      ensures hid.Valid() && hid.Started() && (ok <==> old(PointerTakes(PointerReports(step))))
      ensures ok ==> Settled() && Held() == Expected(hid.tables, old(Held()), step)
    {
      hide Ok, History, LastOn, Primed, NoDirect, SaysKeys, SaysMouse, SaysTouch, TouchReport, MouseReport;
      hide PointerButtons, Moves, Steps;
      hide MouseChanged, TouchChanged, FiveButtons, NoButtonFlag, AbsoluteReports, RelativeReports, PutAll;
      match step {
        case MoveTo(x, y, flags) => ok := hid.Absolute(x, y, flags);
        case MoveBy(dx, dy, buttons) => ok := hid.Relative(dx, dy, buttons);
        case Turn(vertical, horizontal, detents) => ok := hid.Wheel(vertical, horizontal, detents);
      }
    }

    method DispatchText(bytes: seq<byte>) returns (ok: bool)
      requires Settled()
      modifies hid, hid.usages, hid.keyboard, hid.keyboard.reports, hid.pointer, hid.pointer.reports
      ensures hid.Valid() && hid.Started() && (ok <==> bytes == [] || old(hid.Types(bytes)))
      ensures ok ==> Settled() && Held() == Expected(hid.tables, old(Held()), Text(bytes))
    {
      hide Ok, History, LastOn, Primed, NoDirect, SaysKeys, SaysMouse, SaysTouch, KeysReport, TypedReports, TapReports;
      hide Blank;
      hide PutAll, AllEnterable;
      if bytes == [] { return true; }
      ok := hid.TypeText(bytes);
    }

    /** The flush and the keepalive of the main loop. */
    method PumpReports(now: nat) returns (ok: bool)
      requires Settled()
      modifies hid, hid.keyboard, hid.keyboard.reports, hid.pointer, hid.pointer.reports
      ensures hid.Valid() && hid.Started() && (ok <==> old(Pumps(now)))
      ensures ok ==> Settled() && Held() == old(Held())
    {
      hide Ok, History, LastOn, Primed, NoDirect, SaysKeys, SaysMouse, SaysTouch, MouseReport, Drain, PutAll;
      ok := hid.FlushAll();
      if ok { ok := hid.Keepalive(now); }
    }

    /** handle_control and the flush of the main loop, up to the recovery: false asks for one. */
    method Dispatch(step: Step) returns (ok: bool)
      requires Settled()
      modifies hid, hid.usages, hid.keyboard, hid.keyboard.reports, hid.pointer, hid.pointer.reports
      ensures hid.Valid() && hid.Started() && (ok <==> old(Feasible(step)))
      ensures ok ==> Settled() && Held() == Expected(hid.tables, old(Held()), step)
    {
      hide Ok, History, LastOn, Primed, NoDirect, SaysKeys, SaysMouse, SaysTouch, TouchReport, MouseReport, KeysReport;
      hide TypedReports, TapReports;
      hide Redundant, ModifiersAfter, UsagesAfter, Blank, PointerButtons, FiveButtons, Drain, PutAll;
      ok := true;
      match step {
        case PressKey(code, extended, release) => ok := hid.Scancode(code, extended, release);
        case Text(bytes) => ok := DispatchText(bytes);
        case Synchronize => ok := hid.Synchronize();
        case Pump(now) => ok := PumpReports(now);
        case Release => hid.ReleaseAll();
        case StopStream => hid.ReleaseAll();
        case Disconnect => hid.ReleaseAll();
        case Other =>
        case _ => ok := DispatchPointer(step);
      }
    }

    /** One step of the agent with its recovery: it is carried out, or everything is released. */
    method Handle(step: Step) returns (ok: bool)
      requires Settled()
      modifies hid, hid.usages, hid.keyboard, hid.keyboard.reports, hid.pointer, hid.pointer.reports
      ensures Settled() && Held() == if ok then Expected(hid.tables, old(Held()), step) else NOTHING
      ensures ok <==> old(Feasible(step))
      ensures !ok ==> hid.keyboard.queued == [KeysReport(0, Blank(), 0, 0)] && |hid.pointer.queued| == 2
    {
      hide Ok, History, LastOn, Primed, NoDirect, SaysKeys, SaysMouse, SaysTouch, Expected, KeysReport, Drain;
      ok := Dispatch(step);
      if !ok { hid.ReleaseAll(); }
    }

    lemma AlwaysFeasible(step: Step)
      requires hid.Valid()
      ensures Unfailing(step) ==> Feasible(step)
    {
    }

    /** Any number of steps: what is held is what those of them that were carried out asked for, since the last that was
        not; and once the queues have drained, what USB was last told is what is held. */
    method Serve(steps: seq<Step>) returns (done: seq<bool>)
      requires Settled()
      modifies hid, hid.usages, hid.keyboard, hid.keyboard.reports, hid.pointer, hid.pointer.reports
      ensures Settled() && |done| == |steps| && Held() == HeldAfter(hid.tables, old(Held()), steps, done)
      ensures steps != [] ==> (done[0] <==> old(Feasible(steps[0])))
      ensures forall i :: 0 <= i < |steps| && Unfailing(steps[i]) ==> done[i]
      ensures hid.keyboard.count == 0 ==>
                SaysKeys(LastOn(Outgoing(hid.keyboard.log), KEYBOARD), hid.modifiers, hid.usages[..])
      ensures hid.pointer.count == 0 ==>
                && SaysMouse(LastOn(Outgoing(hid.pointer.log), MOUSE), hid.buttons)
                && SaysTouch(LastOn(Outgoing(hid.pointer.log), TOUCH), hid.buttons)
      ensures NothingLost(hid.keyboard.Model()) && NothingLost(hid.pointer.Model())
      ensures PastesRight(hid.keyboard.log) && DelaysKept(hid.keyboard.log)
      ensures Faithful(hid.pointer.log) ==> Serial(hid.pointer.Model())
    {
      hide Ok, History, LastOn, Primed, NoDirect, SaysKeys, SaysMouse, SaysTouch, Expected, HeldAfter, Feasible;
      hide KeysReport;
      done := [];
      NoSteps(hid.tables, Held(), steps);
      var i := 0;
      while i < |steps|
        invariant Settled() && i == |done| <= |steps|
        invariant Held() == HeldAfter(hid.tables, old(Held()), steps[..i], done)
        invariant if i == 0 then steps != [] ==> Feasible(steps[0]) == old(Feasible(steps[0]))
                  else done[0] <==> old(Feasible(steps[0]))
        invariant forall j :: 0 <= j < i && Unfailing(steps[j]) ==> done[j]
      {
        AlwaysFeasible(steps[i]);
        var ok := Handle(steps[i]);
        HeldAfterStep(hid.tables, old(Held()), steps, i, done, ok);
        done := done + [ok];
        i := i + 1;
      }
      assert steps[..i] == steps;
      OkMeans(hid.keyboard.Model());
      OkMeans(hid.pointer.Model());
      if hid.keyboard.count == 0 { DrainedIsSubmitted(hid.keyboard.Model(), KEYBOARD); }
      if hid.pointer.count == 0 {
        DrainedIsSubmitted(hid.pointer.Model(), MOUSE);
        DrainedIsSubmitted(hid.pointer.Model(), TOUCH);
      }
    }
  }
}
