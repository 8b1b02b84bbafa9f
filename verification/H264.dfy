/** What the modules share about H.264: NAL types, and NALs that can stand between start codes. */
module AnnexB {
  import opened Machine

  const SLICE_P: nat := 1
  const IDR: nat := 5
  const SPS: nat := 7
  const PPS: nat := 8

  predicate FreeOfStartCodes(nal: seq<byte>) {
    forall i :: 0 <= i && i + 2 < |nal| ==> !(nal[i] == 0 && nal[i + 1] == 0 && nal[i + 2] == 1)
  }
}

/** NAL units in Annex-B byte streams, and the parameter-set cache (src/h264.c). */
module H264Spec {
  import opened Machine
  import opened AnnexB

  const SIZE_MAX: nat := TWO64 - 1

  /** nal_start: the length of the start code at i, or 0; a NAL byte must follow it. */
  function StartLen(d: seq<byte>, i: nat): (n: nat)
    ensures n > 0 ==> i + n < |d|
  {
    if i + 3 >= |d| || d[i] != 0 || d[i + 1] != 0 then 0
    else if d[i + 2] == 1 then 3
    else if i + 4 < |d| && d[i + 2] == 0 && d[i + 3] == 1 then 4
    else 0
  }

  /** A NAL of type t starts at i. */
  predicate StartsType(d: seq<byte>, i: nat, t: nat) {
    StartLen(d, i) > 0 && d[i + StartLen(d, i)] % 32 == t
  }

  ghost predicate HasType(d: seq<byte>, t: nat) { exists i :: 0 <= i < |d| && StartsType(d, i, t) }

  /** The first start of a NAL of type t at or after i, or the end. */
  function FirstOfType(d: seq<byte>, t: nat, i: nat): (r: nat)
    requires i <= |d|
    ensures i <= r <= |d|
    ensures r < |d| ==> StartsType(d, r, t)
    ensures forall k :: i <= k < r ==> !StartsType(d, k, t)
    decreases |d| - i
  {
    if i == |d| || StartsType(d, i, t) then i else FirstOfType(d, t, i + 1)
  }

  /** The next start of any NAL at or after i, or the end. */
  function NextStart(d: seq<byte>, i: nat): (r: nat)
    requires i <= |d|
    ensures i <= r <= |d|
    ensures r < |d| ==> StartLen(d, r) > 0
    ensures forall k :: i <= k < r ==> StartLen(d, k) == 0
    decreases |d| - i
  {
    if i == |d| || StartLen(d, i) > 0 then i else NextStart(d, i + 1)
  }

  /** find_nal: the first NAL of type t with its start code, up to the next start code. */
  function FindNal(d: seq<byte>, t: nat): (r: Option<(nat, nat)>)
    ensures r.Some? ==> r.value.0 < r.value.1 <= |d| && StartsType(d, r.value.0, t)
  {
    var start := FirstOfType(d, t, 0);
    if start == |d| then None else Some((start, NextStart(d, start + StartLen(d, start) + 1)))
  }

  lemma FoundIffPresent(d: seq<byte>, t: nat)
    ensures FindNal(d, t).Some? <==> HasType(d, t)
  {
    var r := FirstOfType(d, t, 0);
    if r < |d| { assert StartsType(d, r, t); }
  }

  predicate HasStartCode(d: seq<byte>) {
    |d| >= 3 && d[0] == 0 && d[1] == 0 && (d[2] == 1 || (|d| >= 4 && d[2] == 0 && d[3] == 1))
  }

  function Annexb(d: seq<byte>): seq<byte> {
    if d == [] || HasStartCode(d) then d else [0, 0, 0, 1] + d
  }

  // ------------------------------------------------ the cache

  datatype Sets = Sets(sps: seq<byte>, pps: seq<byte>)

  const NO_SETS: Sets := Sets([], [])

  function CopyNal(kept: seq<byte>, au: seq<byte>, t: nat): seq<byte> {
    match FindNal(au, t)
    case None => kept
    case Some((start, end)) => au[start..end]
  }

  function Update(c: Sets, au: seq<byte>, mask: set<nat>): Sets {
    Sets(if SPS in mask then CopyNal(c.sps, au, SPS) else c.sps,
         if PPS in mask then CopyNal(c.pps, au, PPS) else c.pps)
  }

  function Prefix(c: Sets, mask: set<nat>): seq<byte> {
    (if SPS in mask then [] else Annexb(c.sps)) + (if PPS in mask then [] else Annexb(c.pps))
  }

  /** h264_parameter_sets_prepare_idr; None when the length would not fit size_t. */
  function PrepareIdr(c: Sets, au: seq<byte>, mask: set<nat>): Option<seq<byte>> {
    if |Prefix(c, mask)| + |au| > SIZE_MAX then None else Some(Prefix(c, mask) + au)
  }

  /** The cache after a run of units, each with its own mask. */
  function Cache(units: seq<seq<byte>>): Sets {
    if units == [] then NO_SETS
    else
      var last := units[|units| - 1];
      Update(Cache(units[..|units| - 1]), last, Mask(last))
  }

  function Mask(d: seq<byte>): set<nat> { set i | 0 <= i < |d| && StartLen(d, i) > 0 :: d[i + StartLen(d, i)] % 32 }

  /** The two scanners of the file agree: a type has its mask bit exactly when it can be found. */
  lemma MaskMeaning(d: seq<byte>, t: nat)
    ensures t in Mask(d) <==> HasType(d, t)
    ensures t in Mask(d) <==> FindNal(d, t).Some?
  {
    FoundIffPresent(d, t);
    if t in Mask(d) {
      var i :| 0 <= i < |d| && StartLen(d, i) > 0 && d[i + StartLen(d, i)] % 32 == t;
      assert StartsType(d, i, t);
    }
    if HasType(d, t) {
      var i :| 0 <= i < |d| && StartsType(d, i, t);
    }
  }

  /** A cached set: empty, or one NAL of its type behind its start code. */
  ghost predicate Cached(s: seq<byte>, t: nat) { s == [] || StartsType(s, 0, t) }

  lemma SliceKeepsStart(d: seq<byte>, start: nat, end: nat, t: nat)
    requires StartsType(d, start, t) && start + StartLen(d, start) + 1 <= end <= |d|
    ensures StartsType(d[start..end], 0, t)
  {
    var s := d[start..end];
    assert forall k :: 0 <= k < |s| ==> s[k] == d[start + k];
  }

  lemma CopiedIsCached(kept: seq<byte>, au: seq<byte>, t: nat)
    requires Cached(kept, t)
    ensures Cached(CopyNal(kept, au, t), t)
    ensures HasType(au, t) ==> CopyNal(kept, au, t) != []
  {
    FoundIffPresent(au, t);
    if FindNal(au, t).Some? {
      var (start, end) := FindNal(au, t).value;
      SliceKeepsStart(au, start, end, t);
    }
  }

  ghost predicate SeenIn(units: seq<seq<byte>>, t: nat) { exists i :: 0 <= i < |units| && HasType(units[i], t) }

  lemma SeenInStep(units: seq<seq<byte>>, t: nat)
    requires units != []
    ensures SeenIn(units, t) <==> SeenIn(units[..|units| - 1], t) || HasType(units[|units| - 1], t)
  {
    hide HasType;
    var n := |units| - 1;
    if SeenIn(units, t) {
      var i :| 0 <= i < |units| && HasType(units[i], t);
      if i < n { assert units[..n][i] == units[i]; }
    }
    if SeenIn(units[..n], t) {
      var i :| 0 <= i < n && HasType(units[..n][i], t);
      assert units[i] == units[..n][i];
    }
  }

  lemma {:induction false} CacheHoldsSeenSets(units: seq<seq<byte>>)
    ensures Cached(Cache(units).sps, SPS) && Cached(Cache(units).pps, PPS)
    ensures SeenIn(units, SPS) <==> Cache(units).sps != []
    ensures SeenIn(units, PPS) <==> Cache(units).pps != []
  {
    hide Cached, CopyNal, Mask, HasType;
    if units == [] {
      EmptyIsCached();
    } else {
      var n := |units| - 1;
      var c, last := Cache(units[..n]), units[n];
      CacheHoldsSeenSets(units[..n]);
      SeenInStep(units, SPS);
      SeenInStep(units, PPS);
      MaskMeaning(last, SPS);
      MaskMeaning(last, PPS);
      CopiedIsCached(c.sps, last, SPS);
      CopiedIsCached(c.pps, last, PPS);
    }
  }

  lemma EmptyIsCached()
    ensures Cached([], SPS) && Cached([], PPS)
  {
  }

  lemma CachedIsAnnexb(s: seq<byte>, t: nat)
    requires Cached(s, t)
    ensures Annexb(s) == s
  {
  }

  /** Putting bytes in front moves every NAL start along, and bytes behind leave it alone. */
  lemma StartInContext(a: seq<byte>, d: seq<byte>, b: seq<byte>, i: nat, t: nat)
    requires StartsType(d, i, t)
    ensures StartsType(a + d + b, |a| + i, t)
  {
    var s := a + d + b;
    assert forall k :: 0 <= k < |d| ==> s[|a| + k] == d[k];
  }

  lemma TypeInContext(a: seq<byte>, d: seq<byte>, b: seq<byte>, t: nat)
    requires HasType(d, t)
    ensures HasType(a + d + b, t)
  {
    hide StartsType;
    var i :| 0 <= i < |d| && StartsType(d, i, t);
    StartInContext(a, d, b, i, t);
  }

  lemma PrefixSupplies(c: Sets, au: seq<byte>, t: nat)
    requires t == SPS || t == PPS
    requires Cached(c.sps, SPS) && Cached(c.pps, PPS)
    requires if t == SPS then c.sps != [] else c.pps != []
    ensures HasType(Prefix(c, Mask(au)) + au, t)
  {
    hide Mask, StartsType;
    CachedIsAnnexb(c.sps, SPS);
    CachedIsAnnexb(c.pps, PPS);
    var mask := Mask(au);
    var s := if SPS in mask then [] else c.sps;
    var p := if PPS in mask then [] else c.pps;
    assert Prefix(c, mask) + au == s + p + au;
    if t in mask {
      MaskMeaning(au, t);
      assert s + p + au == (s + p) + au + [];
      TypeInContext(s + p, au, [], t);
    } else if t == SPS {
      assert s + p + au == [] + s + (p + au);
      assert HasType(s, SPS);
      TypeInContext([], s, p + au, SPS);
    } else {
      assert HasType(p, PPS);
      TypeInContext(s, p, au, PPS);
    }
  }

  /** Once some unit carried an SPS and some unit a PPS, every prepared IDR contains both, and ends
      with the original unit unchanged. */
  lemma PreparedIdrIsComplete(units: seq<seq<byte>>, au: seq<byte>)
    requires SeenIn(units, SPS) && SeenIn(units, PPS)
    requires PrepareIdr(Cache(units), au, Mask(au)).Some?
    ensures var out := PrepareIdr(Cache(units), au, Mask(au)).value;
            && SPS in Mask(out) && PPS in Mask(out)
            && |out| >= |au| && out[|out| - |au|..] == au
  {
    hide Mask, Cached, HasType, SeenIn;
    CacheHoldsSeenSets(units);
    var c := Cache(units);
    PrefixSupplies(c, au, SPS);
    PrefixSupplies(c, au, PPS);
    var front := Prefix(c, Mask(au));
    var out := front + au;
    assert PrepareIdr(c, au, Mask(au)) == Some(out);
    assert out[|front|..] == au;
    MaskMeaning(out, SPS);
    MaskMeaning(out, PPS);
  }

  /** A unit that already carries both sets is sent as it is. */
  lemma CompleteIdrIsUntouched(c: Sets, au: seq<byte>, mask: set<nat>)
    requires SPS in mask && PPS in mask && |au| <= SIZE_MAX
    ensures PrepareIdr(c, au, mask) == Some(au)
  {
    assert Prefix(c, mask) == [] && [] + au == au;
  }

  // ------------------------------------------------ well-formed units

  /** One NAL behind a start code of three or four bytes. */
  datatype Item = Item(long: bool, nal: seq<byte>)

  /** Not empty, no start code inside, no trailing zero byte. */
  predicate WellFormed(it: Item) {
    it.nal != [] && FreeOfStartCodes(it.nal) && it.nal[|it.nal| - 1] != 0
  }

  function CodeLen(it: Item): nat { if it.long then 4 else 3 }

  function Bytes(it: Item): seq<byte> { (if it.long then [0, 0, 0, 1] else [0, 0, 1]) + it.nal }

  function Unit(items: seq<Item>): seq<byte> {
    if items == [] then [] else Bytes(items[0]) + Unit(items[1..])
  }

  function TypeOf(it: Item): nat { if it.nal == [] then 0 else it.nal[0] % 32 }

  ghost predicate AllWellFormed(items: seq<Item>) { forall i :: 0 <= i < |items| ==> WellFormed(items[i]) }

  lemma StartOfItem(it: Item, rest: seq<byte>)
    requires WellFormed(it)
    ensures StartLen(Bytes(it) + rest, 0) == CodeLen(it) && (Bytes(it) + rest)[CodeLen(it)] % 32 == TypeOf(it)
  {
    var d := Bytes(it) + rest;
    assert d[CodeLen(it)] == it.nal[0];
  }

  lemma NoStartInsideItem(it: Item, rest: seq<byte>, p: nat)
    requires WellFormed(it) && 0 < p < |Bytes(it)|
    ensures StartLen(Bytes(it) + rest, p) == 0 || (it.long && p == 1 && StartLen(Bytes(it) + rest, p) == 3)
  {
    var b := Bytes(it);
    var d := b + rest;
    assert forall k :: 0 <= k < |b| ==> d[k] == b[k];
    if p >= CodeLen(it) {
      var q := p - CodeLen(it);
      assert forall k :: 0 <= k < |it.nal| ==> b[CodeLen(it) + k] == it.nal[k];
      if q + 2 < |it.nal| {
        assert !(it.nal[q] == 0 && it.nal[q + 1] == 0 && it.nal[q + 2] == 1);
        if q + 3 < |it.nal| { assert !(it.nal[q + 1] == 0 && it.nal[q + 2] == 0 && it.nal[q + 3] == 1); }
      }
    }
  }

  lemma StartBeyondItem(b: seq<byte>, rest: seq<byte>, p: nat)
    ensures StartLen(b + rest, |b| + p) == StartLen(rest, p)
  {
    var d := b + rest;
    assert forall k :: 0 <= k < |rest| ==> d[|b| + k] == rest[k];
  }

  lemma TypeBeyondItem(b: seq<byte>, rest: seq<byte>, q: nat, t: nat)
    requires q >= |b|
    ensures StartsType(b + rest, q, t) == StartsType(rest, q - |b|, t)
  {
    StartBeyondItem(b, rest, q - |b|);
  }

  lemma NextStartBeyond(b: seq<byte>, rest: seq<byte>, p: nat)
    requires p <= |rest|
    ensures NextStart(b + rest, |b| + p) == |b| + NextStart(rest, p)
  {
    hide StartLen;
    var r := NextStart(rest, p);
    var s := NextStart(b + rest, |b| + p);
    if s - |b| < r {
      StartBeyondItem(b, rest, s - |b|);
      assert false;
    }
    if r < s - |b| {
      StartBeyondItem(b, rest, r);
      assert false;
    }
  }

  lemma NextStartAfterItem(it: Item, rest: seq<byte>)
    requires WellFormed(it) && (rest == [] || StartLen(rest, 0) > 0)
    ensures NextStart(Bytes(it) + rest, CodeLen(it) + 1) == |Bytes(it)|
  {
    hide StartLen;
    var d := Bytes(it) + rest;
    var s := NextStart(d, CodeLen(it) + 1);
    StartBeyondItem(Bytes(it), rest, 0);
    if s < |Bytes(it)| {
      NoStartInsideItem(it, rest, s);
      assert false;
    }
  }

  lemma UnitStarts(items: seq<Item>)
    requires AllWellFormed(items)
    ensures Unit(items) == [] || StartLen(Unit(items), 0) > 0
  {
    if items != [] {
      StartOfItem(items[0], Unit(items[1..]));
    }
  }

  lemma FirstOfTypeBeyond(it: Item, rest: seq<byte>, t: nat)
    requires WellFormed(it) && TypeOf(it) != t
    ensures FirstOfType(Bytes(it) + rest, t, 0) == |Bytes(it)| + FirstOfType(rest, t, 0)
  {
    var b := Bytes(it);
    var d := b + rest;
    forall p | 0 <= p < |b| ensures !StartsType(d, p, t) {
      StartOfItem(it, rest);
      if p > 0 { NoStartInsideItem(it, rest, p); }
      assert it.long ==> d[4] == it.nal[0];
    }
    hide StartLen, StartsType;
    var r, s := FirstOfType(rest, t, 0), FirstOfType(d, t, 0);
    assert s >= |b|;
    if s < |b| + r {
      TypeBeyondItem(b, rest, s, t);
      assert false;
    }
    if |b| + r < s {
      TypeBeyondItem(b, rest, |b| + r, t);
      assert false;
    }
  }

  /** Item k is the first of its type. */
  predicate FirstItem(items: seq<Item>, t: nat, k: nat) {
    && k <= |items| && (forall i :: 0 <= i < k ==> TypeOf(items[i]) != t)
    && (k < |items| ==> TypeOf(items[k]) == t)
  }

  lemma {:induction false} ItemSlice(items: seq<Item>, k: nat)
    requires k < |items|
    ensures var at := |Unit(items[..k])|;
            at + |Bytes(items[k])| <= |Unit(items)| && Unit(items)[at..at + |Bytes(items[k])|] == Bytes(items[k])
  {
    hide Bytes;
    var b, rest := Bytes(items[0]), Unit(items[1..]);
    if k == 0 {
      assert items[..0] == [];
    } else {
      ItemSlice(items[1..], k - 1);
      assert items[..k][0] == items[0] && items[..k][1..] == items[1..][..k - 1];
      var at := |Unit(items[1..][..k - 1])|;
      var n := |Bytes(items[k])|;
      assert (b + rest)[|b| + at..|b| + at + n] == rest[at..at + n];
    }
  }

  /** In a unit of well-formed NALs, find_nal returns exactly the first NAL of the type, with its own
      start code and nothing else. */
  lemma {:induction false} FindsExactlyOneNal(items: seq<Item>, t: nat, k: nat)
    requires AllWellFormed(items) && FirstItem(items, t, k)
    ensures FindNal(Unit(items), t) ==
              if k == |items| then None else Some((|Unit(items[..k])|, |Unit(items[..k])| + |Bytes(items[k])|))
  {
    hide StartLen, StartsType, WellFormed, Bytes, TypeOf;
    if items == [] {
      EmptyHasNoNal(t);
    } else {
      var it, rest := items[0], Unit(items[1..]);
      if k == 0 {
        UnitStarts(items[1..]);
        StartOfItem(it, rest);
        FirstItemFound(it, rest);
        NextStartAfterItem(it, rest);
        assert items[..0] == [];
      } else {
        FindsExactlyOneNal(items[1..], t, k - 1);
        FoundBeyond(it, rest, t);
        assert items[..k][0] == it && items[..k][1..] == items[1..][..k - 1];
      }
    }
  }

  lemma EmptyHasNoNal(t: nat)
    ensures FindNal([], t) == None
  {
  }

  lemma FirstItemFound(it: Item, rest: seq<byte>)
    requires WellFormed(it)
    ensures FirstOfType(Bytes(it) + rest, TypeOf(it), 0) == 0
  {
    StartOfItem(it, rest);
  }

  lemma FoundBeyond(it: Item, rest: seq<byte>, t: nat)
    requires WellFormed(it) && TypeOf(it) != t
    ensures FindNal(Bytes(it) + rest, t) ==
              match FindNal(rest, t) case None => None case Some((s, e)) => Some((|Bytes(it)| + s, |Bytes(it)| + e))
  {
    hide StartsType, Bytes, StartLen, WellFormed;
    var b := Bytes(it);
    FirstOfTypeBeyond(it, rest, t);
    var start := FirstOfType(rest, t, 0);
    if start < |rest| {
      StartBeyondItem(b, rest, start);
      TypeBeyondItem(b, rest, |b| + start, t);
      StartIsInside(rest, start, t);
      NextStartBeyond(b, rest, start + StartLen(rest, start) + 1);
    }
  }

  lemma StartIsInside(d: seq<byte>, i: nat, t: nat)
    requires StartsType(d, i, t)
    ensures i + StartLen(d, i) < |d|
  {
  }

  /** So a cached parameter set is that one NAL, never a neighbour sharing its unit. */
  lemma CachesExactlyOneNal(kept: seq<byte>, items: seq<Item>, t: nat, k: nat)
    requires AllWellFormed(items) && FirstItem(items, t, k)
    ensures CopyNal(kept, Unit(items), t) == if k == |items| then kept else Bytes(items[k])
  {
    hide FindNal, Bytes, AllWellFormed, TypeOf, Unit;
    FindsExactlyOneNal(items, t, k);
    if k < |items| { ItemSlice(items, k); }
  }
}

/** The scanners and the cache as the C code runs them. */
module H264 {
  import opened Machine
  import opened AnnexB
  import opened H264Spec

  /** h264_nal_type_mask; the mask is the set of its bit numbers. */
  method NalTypeMask(data: seq<byte>) returns (mask: set<nat>)
    ensures mask == Mask(data)
    ensures forall t: nat :: t in mask <==> HasType(data, t)
  {
    mask := {};
    var index := 0;
    while index + 3 < |data|
      invariant 0 <= index <= |data|
      invariant mask == set i | 0 <= i < index && StartLen(data, i) > 0 :: data[i + StartLen(data, i)] % 32
    {
      var startLength := 0;
      if data[index] == 0 && data[index + 1] == 0 && data[index + 2] == 1 {
        startLength := 3;
      } else if index + 4 < |data| && data[index] == 0 && data[index + 1] == 0 && data[index + 2] == 0
          && data[index + 3] == 1 {
        startLength := 4;
      }
      assert startLength == StartLen(data, index);
      if startLength != 0 && index + startLength < |data| {
        mask := mask + {data[index + startLength] % 32};
      }
      index := index + 1;
    }
    assert forall i :: index <= i < |data| ==> StartLen(data, i) == 0;
    assert mask == Mask(data);
    forall t: nat ensures t in mask <==> HasType(data, t) { MaskMeaning(data, t); }
  }

  method NalStart(data: seq<byte>, index: nat) returns (length: nat)
    ensures length == StartLen(data, index)
  {
    if index + 3 >= |data| || data[index] != 0 || data[index + 1] != 0 { return 0; }
    if data[index + 2] == 1 { return 3; }
    if index + 4 < |data| && data[index + 2] == 0 && data[index + 3] == 1 { return 4; }
    return 0;
  }

  /** The inner loop of find_nal. */
  method NalEnd(data: seq<byte>, from: nat) returns (end: nat)
    requires from <= |data|
    ensures end == NextStart(data, from)
  {
    end := from;
    while end + 2 < |data|
      invariant from <= end <= |data|
      invariant NextStart(data, from) == NextStart(data, end)
    {
      var ignored := NalStart(data, end);
      if ignored > 0 { return end; }
      end := end + 1;
    }
    ghost var rest := NextStart(data, end);
    assert rest == |data|;
    end := |data|;
  }

  method SearchNal(data: seq<byte>, t: nat) returns (found: Option<(nat, nat)>)
    ensures found == FindNal(data, t)
  {
    hide StartLen;
    var index := 0;
    while index + 3 < |data|
      invariant 0 <= index <= |data|
      invariant FirstOfType(data, t, 0) == FirstOfType(data, t, index)
    {
      var startLength := NalStart(data, index);
      if startLength > 0 && data[index + startLength] % 32 == t {
        var end := NalEnd(data, index + startLength + 1);
        return Some((index, end));
      }
      index := index + 1;
    }
    NoLateStart(data, index, t);
    return None;
  }

  lemma NoLateStart(data: seq<byte>, index: nat, t: nat)
    requires index <= |data| && index + 3 >= |data|
    ensures FirstOfType(data, t, index) == |data|
  {
    var r := FirstOfType(data, t, index);
    if r < |data| { assert false; }
  }

  class ParameterSets {
    var sps: seq<byte>
    var pps: seq<byte>

    ghost function Model(): Sets
      reads this
    {
      Sets(sps, pps)
    }

    constructor ()
      ensures Model() == NO_SETS
    {
      sps, pps := [], [];
    }

    method UpdateFrom(au: seq<byte>, mask: set<nat>)
      modifies this
      ensures Model() == Update(old(Model()), au, mask)
    {
      hide FindNal;
      if SPS in mask {
        var found := SearchNal(au, SPS);
        if found.Some? { sps := au[found.value.0..found.value.1]; }
      }
      if PPS in mask {
        var found := SearchNal(au, PPS);
        if found.Some? { pps := au[found.value.0..found.value.1]; }
      }
    }

    method Prepare(au: seq<byte>, mask: set<nat>) returns (out: Option<seq<byte>>)
      ensures out == PrepareIdr(Model(), au, mask)
    {
      var front := if SPS in mask then [] else Annexb(sps);
      var back := if PPS in mask then [] else Annexb(pps);
      if |front| + |back| + |au| > SIZE_MAX { return None; }
      if |front| == 0 && |back| == 0 {
        assert [] + [] + au == au;
        return Some(au);
      }
      return Some(front + back + au);
    }
  }
}
