/** UTF-8 in the agent (src/hid.c) and in the gateway's input router (src/input_router.c). */
module Utf8 {
  import opened Machine

  /** A Unicode scalar value: not a surrogate, at most U+10FFFF. */
  predicate IsScalar(c: int) { 0 <= c <= 0x10FFFF && !(0xD800 <= c <= 0xDFFF) }

  predicate IsContinuation(b: byte) { b / 0x40 == 2 }

  datatype Decoded = Ok(codepoint: nat, next: nat) | Bad

  /** utf8_decode at `offset`; masks and shifts are written as quotients and remainders. */
  function Decode(text: seq<byte>, offset: nat): Decoded {
    if offset >= |text| then Bad
    else
      var first := text[offset] as int;
      var at := offset + 1;
      if first < 0x80 then Ok(first, at)
      else if 0xC2 <= first <= 0xDF then
        if at >= |text| || !IsContinuation(text[at]) then Bad
        else Ok(first % 0x20 * 0x40 + text[at] % 0x40, at + 1)
      else if 0xE0 <= first <= 0xEF then
        if at + 1 >= |text| || !IsContinuation(text[at]) || !IsContinuation(text[at + 1])
           || (first == 0xE0 && text[at] < 0xA0) || (first == 0xED && text[at] > 0x9F) then Bad
        else Ok((first % 0x10 * 0x40 + text[at] % 0x40) * 0x40 + text[at + 1] % 0x40, at + 2)
      else if 0xF0 <= first <= 0xF4 then
        if at + 2 >= |text| || !IsContinuation(text[at]) || !IsContinuation(text[at + 1])
            || !IsContinuation(text[at + 2])
           || (first == 0xF0 && text[at] < 0x90) || (first == 0xF4 && text[at] > 0x8F) then Bad
        else Ok(((first % 0x08 * 0x40 + text[at] % 0x40) * 0x40 + text[at + 1] % 0x40) * 0x40 + text[at + 2] % 0x40,
                at + 3)
      else Bad
  }

  /** utf8_encode; no encoding for surrogates and values beyond U+10FFFF. */
  function Encode(c: nat): (r: Option<seq<byte>>)
    ensures r.Some? <==> IsScalar(c)
  {
    if !IsScalar(c) then None
    else if c <= 0x7F then Some([c])
    else if c <= 0x7FF then Some([0xC0 + c / 0x40, 0x80 + c % 0x40])
    else if c <= 0xFFFF then Some([0xE0 + c / 0x40 / 0x40, 0x80 + c / 0x40 % 0x40, 0x80 + c % 0x40])
    else Some([0xF0 + c / 0x40 / 0x40 / 0x40, 0x80 + c / 0x40 / 0x40 % 0x40, 0x80 + c / 0x40 % 0x40, 0x80 + c % 0x40])
  }

  function EncodeAll(cs: seq<nat>): seq<byte>
    requires forall c :: c in cs ==> IsScalar(c)
  {
    if cs == [] then [] else Encode(cs[0]).value + EncodeAll(cs[1..])
  }

  // ------------------------------ the grammar of section 4 of RFC 3629

  predicate Tail(b: byte) { 0x80 <= b <= 0xBF }

  predicate Utf8Two(s: seq<byte>) { |s| == 2 && 0xC2 <= s[0] <= 0xDF && Tail(s[1]) }

  predicate Utf8Three(s: seq<byte>) {
    |s| == 3 && Tail(s[2]) &&
    (|| (s[0] == 0xE0 && 0xA0 <= s[1] <= 0xBF)
     || (0xE1 <= s[0] <= 0xEC && Tail(s[1]))
     || (s[0] == 0xED && 0x80 <= s[1] <= 0x9F)
     || (0xEE <= s[0] <= 0xEF && Tail(s[1])))
  }

  predicate Utf8Four(s: seq<byte>) {
    |s| == 4 && Tail(s[2]) && Tail(s[3]) &&
    (|| (s[0] == 0xF0 && 0x90 <= s[1] <= 0xBF)
     || (0xF1 <= s[0] <= 0xF3 && Tail(s[1]))
     || (s[0] == 0xF4 && 0x80 <= s[1] <= 0x8F))
  }

  predicate Utf8Char(s: seq<byte>) {
    (|s| == 1 && s[0] <= 0x7F) || Utf8Two(s) || Utf8Three(s) || Utf8Four(s)
  }

  /** Octets of the character starting at `offset`, if any starts there. */
  ghost predicate CharAt(text: seq<byte>, offset: nat, next: nat) {
    offset < next <= |text| && Utf8Char(text[offset..next])
  }

  /** The decoder accepts exactly the characters of the grammar, and stops right behind them. */
  lemma DecodeFollowsGrammar(text: seq<byte>, offset: nat)
    ensures Decode(text, offset).Ok? ==> CharAt(text, offset, Decode(text, offset).next)
    ensures Decode(text, offset) == Bad ==> forall next :: !CharAt(text, offset, next)
  {
    if Decode(text, offset) == Bad {
      forall next | CharAt(text, offset, next) ensures false {
        CharDecodes(text, offset, next);
      }
    } else {
      var s := text[offset..Decode(text, offset).next];
      assert forall i :: 0 <= i < |s| ==> s[i] == text[offset + i];
    }
  }

  lemma CharDecodes(text: seq<byte>, offset: nat, next: nat)
    requires CharAt(text, offset, next)
    ensures Decode(text, offset).Ok? && Decode(text, offset).next == next
  {
    var s := text[offset..next];
    assert forall i :: 0 <= i < |s| ==> s[i] == text[offset + i];
  }

  /** Six more bits at the end come off again. */
  lemma Sextet(hi: int, lo: int)
    requires hi >= 0 && 0 <= lo < 0x40
    ensures (hi * 0x40 + lo) / 0x40 == hi && (hi * 0x40 + lo) % 0x40 == lo
  {
  }

  lemma JoinTwo(a: int, b: int)
    requires 0xC2 <= a <= 0xDF && 0x80 <= b <= 0xBF
    ensures var c := a % 0x20 * 0x40 + b % 0x40;
            0x80 <= c <= 0x7FF && 0xC0 + c / 0x40 == a && 0x80 + c % 0x40 == b
  {
    assert a % 0x20 == a - 0xC0 && b % 0x40 == b - 0x80;
    Sextet(a - 0xC0, b - 0x80);
  }

  lemma JoinThree(a: int, b: int, d: int)
    requires 0xE0 <= a <= 0xEF && 0x80 <= b <= 0xBF && 0x80 <= d <= 0xBF && (a == 0xE0 ==> b >= 0xA0)
             && (a == 0xED ==> b <= 0x9F)
    ensures var c := (a % 0x10 * 0x40 + b % 0x40) * 0x40 + d % 0x40;
            && 0x800 <= c <= 0xFFFF && IsScalar(c)
            && 0xE0 + c / 0x40 / 0x40 == a && 0x80 + c / 0x40 % 0x40 == b && 0x80 + c % 0x40 == d
  {
    assert a % 0x10 == a - 0xE0 && b % 0x40 == b - 0x80 && d % 0x40 == d - 0x80;
    Sextet(a - 0xE0, b - 0x80);
    Sextet((a - 0xE0) * 0x40 + (b - 0x80), d - 0x80);
  }

  lemma JoinFour(a: int, b: int, d: int, e: int)
    requires 0xF0 <= a <= 0xF4 && 0x80 <= b <= 0xBF && 0x80 <= d <= 0xBF && 0x80 <= e <= 0xBF
    requires (a == 0xF0 ==> b >= 0x90) && (a == 0xF4 ==> b <= 0x8F)
    ensures var c := ((a % 0x08 * 0x40 + b % 0x40) * 0x40 + d % 0x40) * 0x40 + e % 0x40;
            && 0x10000 <= c <= 0x10FFFF
            && 0xF0 + c / 0x40 / 0x40 / 0x40 == a && 0x80 + c / 0x40 / 0x40 % 0x40 == b
            && 0x80 + c / 0x40 % 0x40 == d && 0x80 + c % 0x40 == e
  {
    assert a % 0x08 == a - 0xF0 && b % 0x40 == b - 0x80 && d % 0x40 == d - 0x80 && e % 0x40 == e - 0x80;
    var top := (a - 0xF0) * 0x40 + (b - 0x80);
    Sextet(a - 0xF0, b - 0x80);
    Sextet(top, d - 0x80);
    Sextet(top * 0x40 + (d - 0x80), e - 0x80);
  }

  ghost predicate Reencodes(text: seq<byte>, offset: nat) {
    var d := Decode(text, offset);
    d.Ok? && offset < d.next <= |text| && IsScalar(d.codepoint) && Encode(d.codepoint) == Some(text[offset..d.next])
  }

  lemma ReencodesOne(text: seq<byte>, offset: nat)
    requires Decode(text, offset).Ok? && text[offset] < 0x80
    ensures Reencodes(text, offset)
  {
    assert text[offset..offset + 1][0] == text[offset];
    assert text[offset..offset + 1] == [text[offset]];
  }

  lemma ReencodesTwo(text: seq<byte>, offset: nat)
    requires Decode(text, offset).Ok? && 0xC2 <= text[offset] <= 0xDF
    ensures Reencodes(text, offset)
  {
    JoinTwo(text[offset], text[offset + 1]);
    assert text[offset..offset + 2] == [text[offset], text[offset + 1]];
  }

  lemma ReencodesThree(text: seq<byte>, offset: nat)
    requires Decode(text, offset).Ok? && 0xE0 <= text[offset] <= 0xEF
    ensures Reencodes(text, offset)
  {
    JoinThree(text[offset], text[offset + 1], text[offset + 2]);
    assert text[offset..offset + 3] == [text[offset], text[offset + 1], text[offset + 2]];
  }

  lemma ReencodesFour(text: seq<byte>, offset: nat)
    requires Decode(text, offset).Ok? && 0xF0 <= text[offset] <= 0xF4
    ensures Reencodes(text, offset)
  {
    JoinFour(text[offset], text[offset + 1], text[offset + 2], text[offset + 3]);
    assert text[offset..offset + 4] == [text[offset], text[offset + 1], text[offset + 2], text[offset + 3]];
  }

  lemma LeadByte(text: seq<byte>, offset: nat)
    requires Decode(text, offset).Ok?
    ensures offset < |text| && (text[offset] < 0x80 || 0xC2 <= text[offset] <= 0xF4)
  {
  }

  /** What the decoder returns is a scalar value, and encoding it gives back the octets read. */
  lemma ReencodesTheSame(text: seq<byte>, offset: nat)
    requires Decode(text, offset).Ok?
    ensures var d := Decode(text, offset);
            offset < d.next <= |text| && IsScalar(d.codepoint) && Encode(d.codepoint) == Some(text[offset..d.next])
  {
    hide Encode, Decode;
    LeadByte(text, offset);
    var first := text[offset];
    if first < 0x80 {
      ReencodesOne(text, offset);
    } else if first <= 0xDF {
      ReencodesTwo(text, offset);
    } else if first <= 0xEF {
      ReencodesThree(text, offset);
    } else {
      ReencodesFour(text, offset);
    }
  }

  lemma SplitTwo(c: nat)
    requires 0x80 <= c <= 0x7FF
    ensures Encode(c).Some? && Utf8Two(Encode(c).value)
  {
  }

  lemma SplitThree(c: nat)
    requires 0x800 <= c <= 0xFFFF && IsScalar(c)
    ensures Encode(c).Some? && Utf8Three(Encode(c).value)
  {
    var hi := c / 0x40;
    assert c == hi * 0x40 + c % 0x40;
    assert hi == hi / 0x40 * 0x40 + hi % 0x40;
  }

  lemma SplitFour(c: nat)
    requires 0x10000 <= c <= 0x10FFFF
    ensures Encode(c).Some? && Utf8Four(Encode(c).value)
  {
    var hi := c / 0x40;
    var top := hi / 0x40;
    assert c == hi * 0x40 + c % 0x40 && hi == top * 0x40 + hi % 0x40 && top == top / 0x40 * 0x40 + top % 0x40;
  }

  lemma EncodeFollowsGrammar(c: nat)
    ensures Encode(c).Some? <==> IsScalar(c)
    ensures IsScalar(c) ==> Utf8Char(Encode(c).value)
  {
    if IsScalar(c) && c > 0x7F {
      if c <= 0x7FF { SplitTwo(c); } else if c <= 0xFFFF { SplitThree(c); } else { SplitFour(c); }
    }
  }

  /** Distinct scalar values have distinct encodings. */
  lemma EncodeInjective(a: nat, b: nat)
    requires IsScalar(a) && IsScalar(b) && Encode(a) == Encode(b)
    ensures a == b
  {
    hide Utf8Char;
    var s := Encode(a).value;
    if |s| == 4 {
      assert a / 0x40 / 0x40 / 0x40 == b / 0x40 / 0x40 / 0x40;
      assert a / 0x40 / 0x40 == b / 0x40 / 0x40;
    }
    if |s| >= 3 { assert a / 0x40 / 0x40 == b / 0x40 / 0x40; }
    if |s| >= 2 { assert a / 0x40 == b / 0x40; }
  }

  /** Decoding the encoding of a scalar value, wherever it stands, gives that value. */
  lemma DecodeEncoded(c: nat, before: seq<byte>, after: seq<byte>)
    requires IsScalar(c)
    ensures Decode(before + Encode(c).value + after, |before|) == Ok(c, |before| + |Encode(c).value|)
  {
    hide Decode, Encode, Utf8Char;
    var s := Encode(c).value;
    var text := before + s + after;
    EncodeFollowsGrammar(c);
    assert text[|before|..|before| + |s|] == s;
    EncodedNonEmpty(c);
    CharDecodes(text, |before|, |before| + |s|);
    ReencodesTheSame(text, |before|);
    EncodeInjective(c, Decode(text, |before|).codepoint);
  }

  lemma EncodedNonEmpty(c: nat)
    requires IsScalar(c)
    ensures 1 <= |Encode(c).value| <= 4
  {
  }

  /** The characters of a text from `offset` up to the first malformed one, and where that is. */
  function Front(text: seq<byte>, offset: nat): (r: (seq<nat>, nat))
    requires offset <= |text|
    ensures offset <= r.1 <= |text|
    decreases |text| - offset
  {
    match Decode(text, offset)
    case Bad => ([], offset)
    case Ok(c, next) =>
      assert offset < next <= |text| by { ReencodesTheSame(text, offset); }
      var (rest, end) := Front(text, next);
      ([c] + rest, end)
  }

  /** All characters of a text, or None if one is malformed. */
  function DecodeAll(text: seq<byte>): Option<seq<nat>> {
    var (cs, end) := Front(text, 0);
    if end == |text| then Some(cs) else None
  }

  lemma FrontStep(c: nat, before: seq<byte>, after: seq<byte>)
    requires IsScalar(c)
    ensures var head := Encode(c).value;
            var (rest, end) := Front(before + head + after, |before + head|);
            Front(before + head + after, |before|) == ([c] + rest, end)
  {
    hide Decode, Encode;
    DecodeEncoded(c, before, after);
    EncodedNonEmpty(c);
  }

  lemma NothingLeft(text: seq<byte>)
    ensures Front(text, |text|) == ([], |text|)
  {
  }

  lemma {:induction false} EncodedIsFront(cs: seq<nat>, before: seq<byte>)
    requires forall c :: c in cs ==> IsScalar(c)
    ensures Front(before + EncodeAll(cs), |before|) == (cs, |before + EncodeAll(cs)|)
  {
    hide Decode, Encode, Front;
    if cs == [] {
      assert before + EncodeAll(cs) == before;
      NothingLeft(before);
    } else {
      var c, rest := cs[0], cs[1..];
      var head, tail := Encode(c).value, EncodeAll(rest);
      assert before + (head + tail) == before + head + tail;
      FrontStep(c, before, tail);
      EncodedIsFront(rest, before + head);
      assert cs == [c] + rest;
    }
  }

  /** Any sequence of scalar values survives being encoded, concatenated and decoded. */
  lemma RoundTrip(cs: seq<nat>)
    requires forall c :: c in cs ==> IsScalar(c)
    ensures DecodeAll(EncodeAll(cs)) == Some(cs)
  {
    EncodedIsFront(cs, []);
    assert [] + EncodeAll(cs) == EncodeAll(cs);
  }

  /** What is decoded is scalar values, whose encodings are the bytes read; and decoding stops only at the end
      or at a malformed character. */
  lemma {:induction false} FrontMeaning(text: seq<byte>, offset: nat)
    requires offset <= |text|
    ensures var (cs, end) := Front(text, offset);
            && (forall c :: c in cs ==> IsScalar(c)) && EncodeAll(cs) == text[offset..end] && Decode(text, end) == Bad
    decreases |text| - offset
  {
    hide Decode, Encode;
    var d := Decode(text, offset);
    if d.Ok? {
      ReencodesTheSame(text, offset);
      FrontMeaning(text, d.next);
      var (rest, end) := Front(text, d.next);
      assert ([d.codepoint] + rest)[1..] == rest;
      assert text[offset..end] == text[offset..d.next] + text[d.next..end];
    }
  }

  /** No longer front of the text is well formed. */
  lemma {:induction false} FrontIsLongest(before: seq<byte>, cs: seq<nat>, after: seq<byte>)
    requires forall c :: c in cs ==> IsScalar(c)
    ensures cs <= Front(before + EncodeAll(cs) + after, |before|).0
    decreases |cs|
  {
    hide Decode, Encode, Front;
    if cs != [] {
      var c, rest := cs[0], cs[1..];
      var head, tail := Encode(c).value, EncodeAll(rest);
      assert before + (head + tail) + after == before + head + (tail + after) == before + head + tail + after;
      FrontStep(c, before, tail + after);
      FrontIsLongest(before + head, rest, after);
      assert cs == [c] + rest;
    }
  }

  /** Reading on from what has been read. */
  predicate ReadUpTo(text: seq<byte>, cs: seq<nat>, offset: nat) {
    offset <= |text| && var (rest, end) := Front(text, offset); Front(text, 0) == (cs + rest, end)
  }

  lemma NothingRead(text: seq<byte>)
    ensures ReadUpTo(text, [], 0)
  {
    hide Front;
    assert [] + Front(text, 0).0 == Front(text, 0).0;
  }

  lemma ReadOn(text: seq<byte>, cs: seq<nat>, offset: nat)
    requires ReadUpTo(text, cs, offset)
    ensures match Decode(text, offset)
            case Bad => Front(text, 0) == (cs, offset)
            case Ok(c, next) => offset < next <= |text| && c < TWO32 && ReadUpTo(text, cs + [c], next)
  {
    hide Decode, Encode;
    var d := Decode(text, offset);
    if d.Ok? {
      ReencodesTheSame(text, offset);
      var rest := Front(text, d.next).0;
      assert cs + ([d.codepoint] + rest) == (cs + [d.codepoint]) + rest;
    } else {
      assert cs + [] == cs;
    }
  }

  // ------------------------------------------------------ the input router

  /** input_router_unicode: the text message for one UTF-16 code unit; None when it is refused,
      and an empty text for a key release. */
  function RouterUnicode(code: u16, release: bool): Option<seq<byte>> {
    if release then Some([])
    else if code == 0 || 0xD800 <= code <= 0xDFFF then None
    else if code <= 0x7F then Some([code])
    else if code <= 0x7FF then Some([0xC0 + code / 0x40, 0x80 + code % 0x40])
    else Some([0xE0 + code / 0x40 / 0x40, 0x80 + code / 0x40 % 0x40, 0x80 + code % 0x40])
  }

  /** The gateway encodes every code unit it accepts as the agent's own encoder would, so the agent
      decodes the message back to that one character. */
  lemma RouterAgreesWithAgent(code: u16)
    ensures RouterUnicode(code, false).Some? <==> code != 0 && IsScalar(code)
    ensures RouterUnicode(code, false).Some? ==>
              && RouterUnicode(code, false) == Encode(code)
              && DecodeAll(RouterUnicode(code, false).value) == Some([code])
  {
    hide Decode;
    if code != 0 && IsScalar(code) {
      var cs: seq<nat> := [code];
      RoundTrip(cs);
      assert cs[1..] == [];
      assert EncodeAll(cs) == Encode(code).value;
    }
  }
}
