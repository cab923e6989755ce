/** The index filter of nefilter.c (copied verbatim into neutil.c): a
    comma-separated list of indices, used as a whitelist or a blacklist of
    the RIFFs embedded in a WSP or BNK. */
module NeFilter {
  import opened Bytes
  import opened Wrappers

  datatype FilterType = White | Black

  predicate IsDigit(c: char) {
    '0' <= c <= '9'
  }

  predicate IsOctal(c: char) {
    '0' <= c <= '7'
  }

  predicate IsHex(c: char) {
    IsDigit(c) || 'a' <= c <= 'f' || 'A' <= c <= 'F'
  }

  function HexValue(c: char): (d: nat)
    requires IsHex(c)
    ensures d < 16
  {
    if IsDigit(c) then c as int - '0' as int
    else if 'a' <= c <= 'f' then c as int - 'a' as int + 10
    else c as int - 'A' as int + 10
  }

  /** The number spelled by `s` in base `base`, most significant digit
      first. */
  function Value(s: string, base: nat): nat
    requires forall i :: 0 <= i < |s| ==> IsHex(s[i])
  {
    if s == [] then 0 else Value(s[..|s| - 1], base) * base + HexValue(s[|s| - 1])
  }

  /** strtoull with base 0 applied to a segment that starts with a decimal
      digit: "0x"/"0X" and a hex digit select hexadecimal, another leading 0
      octal, anything else decimal. The number is accepted only when its
      digits run to the end of the segment. */
  function ParseNumber(seg: string): (r: Option<nat>)
    requires |seg| > 0 && IsDigit(seg[0])
    ensures r.Some? ==> forall i :: 0 <= i < |seg| && i != 1 ==> IsHex(seg[i])
    ensures (forall i :: 0 <= i < |seg| ==> IsOctal(seg[i])) ==> r.Some?
    ensures |seg| == 1 ==> r == Some(HexValue(seg[0]))
  {
    if |seg| >= 3 && seg[0] == '0' && (seg[1] == 'x' || seg[1] == 'X') && IsHex(seg[2]) then
      if forall i :: 2 <= i < |seg| ==> IsHex(seg[i]) then Some(Value(seg[2..], 16)) else None
    else if seg[0] == '0' then
      if forall i :: 0 <= i < |seg| ==> IsOctal(seg[i]) then
        assert |seg| == 1 ==> seg[..0] == [] && Value(seg, 8) == HexValue(seg[0]);
        Some(Value(seg, 8))
      else None
    else
      if forall i :: 0 <= i < |seg| ==> IsDigit(seg[i]) then
        assert |seg| == 1 ==> seg[..0] == [] && Value(seg, 10) == HexValue(seg[0]);
        Some(Value(seg, 10))
      else None
  }

  /** strtoull saturates at ULLONG_MAX; the filter keeps 32-bit indices. */
  function ToIndex(v: nat): (i: nat)
    ensures i < U32
  {
    (if v < U64 then v else U64 - 1) % U32
  }

  /** The index of the first comma at or after `i`, or |arg|. */
  function NextComma(arg: string, i: nat): (r: nat)
    requires i <= |arg|
    ensures i <= r <= |arg|
    ensures forall k :: i <= k < r ==> arg[k] != ','
    ensures r < |arg| ==> arg[r] == ','
    decreases |arg| - i
  {
    if i == |arg| || arg[i] == ',' then i else NextComma(arg, i + 1)
  }

  /** The index of the first decimal digit in arg[i..end], or end. */
  function FirstDigit(arg: string, i: nat, end: nat): (r: nat)
    requires i <= end <= |arg|
    ensures i <= r <= end
    ensures forall k :: i <= k < r ==> !IsDigit(arg[k])
    ensures r < end ==> IsDigit(arg[r])
    decreases end - i
  {
    if i == end || IsDigit(arg[i]) then i else FirstDigit(arg, i + 1, end)
  }

  /** The index a segment arg[offset..comma] contributes, if any: leading
      non-digits are skipped and the rest must parse completely. */
  function SegmentValue(arg: string, offset: nat, comma: nat): (r: Option<nat>)
    requires offset <= comma <= |arg|
    ensures r.Some? ==> r.value < U32
  {
    if comma == offset then None
    else
      var digit := FirstDigit(arg, offset, comma);
      if digit == comma then None
      else match ParseNumber(arg[digit..comma])
        case None => None
        case Some(v) => Some(ToIndex(v))
  }

  /** What each segment from `offset` on contributes, in order: an index,
      or nothing for an empty or unparsable segment. */
  function Segments(arg: string, offset: nat): (segs: seq<Option<nat>>)
    ensures forall k :: 0 <= k < |segs| && segs[k].Some? ==> segs[k].value < U32
    decreases |arg| - offset
  {
    if offset >= |arg| then []
    else
      var comma := NextComma(arg, offset);
      [SegmentValue(arg, offset, comma)] + Segments(arg, comma + 1)
  }

  /** The values among some segment results. */
  function Somes(segs: seq<Option<nat>>): (vs: seq<nat>)
    ensures forall x :: x in vs ==> Some(x) in segs
    decreases |segs|
  {
    if segs == [] then []
    else match segs[0]
      case None => Somes(segs[1..])
      case Some(v) => [v] + Somes(segs[1..])
  }

  /** The indices of the segments from `offset` on, in order, repeats
      included. */
  function ValuesFrom(arg: string, offset: nat): seq<nat> {
    Somes(Segments(arg, offset))
  }

  /** Every index the argument gives is a 32-bit value. */
  lemma ValuesBound(arg: string, offset: nat)
    ensures forall x :: x in ValuesFrom(arg, offset) ==> x < U32
  {
    var segs := Segments(arg, offset);
    forall x | x in ValuesFrom(arg, offset)
      ensures x < U32
    {
      var k :| 0 <= k < |segs| && segs[k] == Some(x);
    }
  }

  /** `acc` extended with each value of `vs` not already present. */
  function DedupOnto(acc: seq<nat>, vs: seq<nat>): seq<nat>
    decreases |vs|
  {
    if vs == [] then acc
    else DedupOnto(if vs[0] in acc then acc else acc + [vs[0]], vs[1..])
  }

  /** The list after a segment that gave `v`. */
  function Absorb(acc: seq<nat>, v: Option<nat>): seq<nat> {
    match v
    case None => acc
    case Some(x) => if x in acc then acc else acc + [x]
  }

  /** The list after absorbing each segment result in turn. */
  function AbsorbAll(acc: seq<nat>, segs: seq<Option<nat>>): seq<nat>
    decreases |segs|
  {
    if segs == [] then acc else AbsorbAll(Absorb(acc, segs[0]), segs[1..])
  }

  /** The list the segment loop of nefilter_init builds from `offset` on,
      with `acc` the list built so far. */
  function ParseFrom(arg: string, offset: nat, acc: seq<nat>): seq<nat> {
    AbsorbAll(acc, Segments(arg, offset))
  }

  /** One pass of the segment loop absorbs the segment at `offset`. */
  lemma SegmentStep(arg: string, offset: nat, acc: seq<nat>)
    requires offset < |arg|
    ensures var comma := NextComma(arg, offset);
      ParseFrom(arg, offset, acc) == ParseFrom(arg, comma + 1, Absorb(acc, SegmentValue(arg, offset, comma)))
  {
    var comma := NextComma(arg, offset);
    assert Segments(arg, offset)[1..] == Segments(arg, comma + 1);
  }

  /** The list the filter ends up holding for argument `arg`. */
  function Indices(arg: string): seq<nat> {
    ParseFrom(arg, 0, [])
  }

  predicate NoDuplicates(s: seq<nat>) {
    forall i, j :: 0 <= i < j < |s| ==> s[i] != s[j]
  }

  lemma {:induction false} DedupOntoProperties(acc: seq<nat>, vs: seq<nat>)
    requires NoDuplicates(acc)
    ensures NoDuplicates(DedupOnto(acc, vs))
    ensures forall x :: x in DedupOnto(acc, vs) <==> x in acc || x in vs
    ensures |DedupOnto(acc, vs)| >= |acc| && DedupOnto(acc, vs)[..|acc|] == acc
    decreases |vs|
  {
    if vs != [] {
      var acc' := if vs[0] in acc then acc else acc + [vs[0]];
      DedupOntoProperties(acc', vs[1..]);
      assert vs == [vs[0]] + vs[1..];
      assert acc'[..|acc|] == acc;
    }
  }

  /** The filter's list holds each accepted index exactly once, all of them
      32-bit, and nothing else. */
  lemma IndicesSpec(arg: string)
    ensures NoDuplicates(Indices(arg))
    ensures forall x :: x in Indices(arg) <==> x in ValuesFrom(arg, 0)
    ensures forall x :: x in Indices(arg) ==> x < U32
  {
    AbsorbAllDedups([], Segments(arg, 0));
    DedupOntoProperties([], ValuesFrom(arg, 0));
    ValuesBound(arg, 0);
  }

  /** The decimal spelling of n, without leading zeros. */
  function Decimal(n: nat): (s: string)
    ensures |s| > 0 && forall i :: 0 <= i < |s| ==> IsDigit(s[i])
  {
    if n < 10 then [('0' as int + n) as char]
    else Decimal(n / 10) + [('0' as int + n % 10) as char]
  }

  lemma {:induction false} DecimalValue(n: nat)
    ensures Value(Decimal(n), 10) == n
    ensures n > 0 ==> Decimal(n)[0] != '0'
  {
    if n >= 10 {
      DecimalValue(n / 10);
      var s := Decimal(n);
      assert s[..|s| - 1] == Decimal(n / 10);
    }
  }

  /** A decimal index written without leading zeros parses back to itself,
      and so does 0. */
  lemma DecimalRoundTrip(n: nat)
    ensures ParseNumber(Decimal(n)) == Some(n)
  {
    DecimalValue(n);
    var s := Decimal(n);
    if n == 0 {
      assert s == "0";
      assert s[..0] == [];
      assert Value(s, 8) == 0;
    }
  }

  /** An argument of digits alone is a single segment, which gives the
      index it spells. */
  lemma {:induction false} DigitsOnly(arg: string, v: nat)
    requires |arg| > 0 && forall k :: 0 <= k < |arg| ==> IsDigit(arg[k])
    requires ParseNumber(arg) == Some(v) && v < U32
    ensures Indices(arg) == [v]
  {
    var c := NextComma(arg, 0);
    assert c == |arg|;
    assert FirstDigit(arg, 0, |arg|) == 0;
    assert arg[0..|arg|] == arg;
    assert SegmentValue(arg, 0, |arg|) == Some(v);
    assert Segments(arg, |arg| + 1) == [];
    assert Segments(arg, 0) == [Some(v)];
    assert [Some(v)][1..] == [];
    assert Absorb([], Some(v)) == [v];
    assert AbsorbAll([], [Some(v)]) == AbsorbAll(Absorb([], Some(v)), []);
    assert Indices(arg) == AbsorbAll([], [Some(v)]);
  }

  /** A whole argument made of one decimal index gives that index. */
  lemma SingleIndex(n: nat)
    requires n < U32
    ensures Indices(Decimal(n)) == [n]
  {
    DecimalRoundTrip(n);
    DigitsOnly(Decimal(n), n);
  }

  /** nefilter_t. */
  class Filter {
    var list: seq<nat>
    var filterType: FilterType

    constructor ()
      ensures list == [] && filterType == White
    {
      list, filterType := [], White;
    }

    /** nefilter_clear. */
    method Clear()
      modifies this
      ensures list == [] && filterType == White
    {
      list, filterType := [], White;
    }
  }

  /** The membership loop of nefilter_contains over a list. */
  method ListContains(list: seq<nat>, index: nat) returns (found: bool)
    ensures found <==> index in list
  {
    var i := 0;
    while i < |list|
      invariant 0 <= i <= |list|
      invariant index !in list[..i]
    {
      if list[i] == index {
        return true;
      }
      assert list[..i + 1] == list[..i] + [list[i]];
      i := i + 1;
    }
    assert list[..i] == list;
    return false;
  }

  /** nefilter_contains: a missing filter contains nothing; the index is
      truncated to 32 bits. */
  method Contains(filter: Filter?, index: nat) returns (found: bool)
    ensures found <==> filter != null && index % U32 in filter.list
  {
    if filter == null {
      return false;
    }
    found := ListContains(filter.list, index % U32);
  }

  /** nefilter_init: parse `arg` into a fresh list and install it (the type
      returns to white); an empty argument leaves the filter as it was, a
      missing filter answers -1. */
  method Init(filter: Filter?, arg: string) returns (code: int)
    modifies filter
    ensures filter == null ==> code == -1
    ensures filter != null ==> code == 0
    ensures filter != null && arg == [] ==> filter.list == old(filter.list) && filter.filterType == old(filter.filterType)
    ensures filter != null && arg != [] ==> filter.list == Indices(arg) && filter.filterType == White
  {
    if filter == null {
      return -1;
    }
    if |arg| == 0 {
      return 0;
    }
    var list := Parse(arg);
    filter.list, filter.filterType := list, White;
    code := 0;
  }

  /** The segment loop of nefilter_init, building the list in a local. */
  method Parse(arg: string) returns (list: seq<nat>)
    ensures list == Indices(arg)
  {
    list := [];
    var offset := 0;
    while offset < |arg|
      invariant ParseFrom(arg, offset, list) == Indices(arg)
      decreases |arg| - offset
    {
      list, offset := ParseOne(arg, offset, list);
    }
  }

  /** One pass of the segment loop: the segment at `offset` is parsed and
      its index, if any, added to `list`. */
  method ParseOne(arg: string, offset: nat, list: seq<nat>) returns (list': seq<nat>, next: nat)
    requires offset < |arg|
    ensures offset < next
    ensures ParseFrom(arg, next, list') == ParseFrom(arg, offset, list)
  {
    var comma := FindComma(arg, offset);
    var parsed := ParseSegment(arg, offset, comma);
    list' := AddSegment(list, parsed);
    next := comma + 1;
    SegmentStep(arg, offset, list);
  }

  /** The scan for the comma that ends the segment at `offset`. */
  method FindComma(arg: string, offset: nat) returns (comma: nat)
    requires offset <= |arg|
    ensures comma == NextComma(arg, offset)
  {
    comma := offset;
    while comma < |arg| && arg[comma] != ','
      invariant offset <= comma <= |arg|
      invariant NextComma(arg, comma) == NextComma(arg, offset)
    {
      comma := comma + 1;
    }
  }

  /** The skip to the first digit of a segment and the strtoull call on
      the rest of it. */
  method ParseSegment(arg: string, offset: nat, comma: nat) returns (r: Option<nat>)
    requires offset <= comma <= |arg|
    ensures r == SegmentValue(arg, offset, comma)
  {
    if comma == offset {
      return None;
    }
    var digit := offset;
    while digit < comma && !IsDigit(arg[digit])
      invariant offset <= digit <= comma
      invariant FirstDigit(arg, digit, comma) == FirstDigit(arg, offset, comma)
    {
      digit := digit + 1;
    }
    if digit == comma {
      return None;
    }
    var parsed := ParseNumber(arg[digit..comma]);
    r := if parsed.Some? then Some(ToIndex(parsed.value)) else None;
  }

  /** The append of a parsed index unless the list has it already. */
  method AddSegment(list: seq<nat>, v: Option<nat>) returns (r: seq<nat>)
    ensures r == Absorb(list, v)
  {
    r := list;
    if v.Some? {
      var seen := ListContains(list, v.value);
      if !seen {
        r := list + [v.value];
      }
    }
  }

  /** Absorbing segment results one at a time builds the list of the
      distinct indices, in the order of their first appearance. */
  lemma {:induction false} AbsorbAllDedups(acc: seq<nat>, segs: seq<Option<nat>>)
    ensures AbsorbAll(acc, segs) == DedupOnto(acc, Somes(segs))
    decreases |segs|
  {
    if segs != [] {
      AbsorbAllDedups(Absorb(acc, segs[0]), segs[1..]);
      AbsorbFirst(acc, segs[0], Somes(segs[1..]), Somes(segs));
    }
  }

  /** Absorbing a segment's value and then the rest is deduplicating the
      values of the segment and the rest together. */
  lemma AbsorbFirst(acc: seq<nat>, v: Option<nat>, rest: seq<nat>, vs: seq<nat>)
    requires vs == match v case None => rest case Some(x) => [x] + rest
    ensures DedupOnto(acc, vs) == DedupOnto(Absorb(acc, v), rest)
  {
    if v.Some? {
      assert vs[1..] == rest;
    }
  }
}
