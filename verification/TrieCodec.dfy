/**
 The compact integers of the byte-serialized trie: values (one to five bytes, lead byte 0x20..0xff, bit 0 says
 whether the value is final) and jump deltas (one to five bytes). Positions are indices into the trie's bytes.
 */
module TrieCodec {
  import opened Machine

  const MIN_LINEAR_MATCH := 0x10
  const MAX_LINEAR_MATCH_LENGTH := 0x10
  const MAX_BRANCH_LINEAR_SUB_NODE_LENGTH := 5

  const MIN_VALUE_LEAD := MIN_LINEAR_MATCH + MAX_LINEAR_MATCH_LENGTH
  const MIN_ONE_BYTE_VALUE_LEAD := MIN_VALUE_LEAD / 2
  const MAX_ONE_BYTE_VALUE := 0x40
  const MIN_TWO_BYTE_VALUE_LEAD := MIN_ONE_BYTE_VALUE_LEAD + MAX_ONE_BYTE_VALUE + 1
  const MAX_TWO_BYTE_VALUE := 0x1aff
  const MIN_THREE_BYTE_VALUE_LEAD := MIN_TWO_BYTE_VALUE_LEAD + MAX_TWO_BYTE_VALUE / 0x100 + 1
  const FOUR_BYTE_VALUE_LEAD := 0x7e
  const MAX_THREE_BYTE_VALUE := (FOUR_BYTE_VALUE_LEAD - MIN_THREE_BYTE_VALUE_LEAD) * 0x1_0000 - 1
  const FIVE_BYTE_VALUE_LEAD := 0x7f

  const MAX_ONE_BYTE_DELTA := 0xbf
  const MIN_TWO_BYTE_DELTA_LEAD := MAX_ONE_BYTE_DELTA + 1
  const MIN_THREE_BYTE_DELTA_LEAD := 0xf0
  const FOUR_BYTE_DELTA_LEAD := 0xfe
  const FIVE_BYTE_DELTA_LEAD := 0xff
  const MAX_TWO_BYTE_DELTA := (MIN_THREE_BYTE_DELTA_LEAD - MIN_TWO_BYTE_DELTA_LEAD) * 0x100 - 1
  const MAX_THREE_BYTE_DELTA := (FOUR_BYTE_DELTA_LEAD - MIN_THREE_BYTE_DELTA_LEAD) * 0x1_0000 - 1

  // ---------- values ----------

  /** Moves past the bytes that follow a value's lead byte; `pos` is already after the lead byte. */
  function SkipValue(pos: nat, leadByte: byte): nat {
    if leadByte >= MIN_TWO_BYTE_VALUE_LEAD * 2 then
      if leadByte < MIN_THREE_BYTE_VALUE_LEAD * 2 then pos + 1
      else if leadByte < FOUR_BYTE_VALUE_LEAD * 2 then pos + 2
      else pos + 3 + leadByte / 2 % 2
    else pos
  }

  /** Two's complement reading of a 32-bit pattern. */
  function Signed(u: int): int32
    requires 0 <= u < 0x1_0000_0000
  {
    if u < 0x8000_0000 then u else u - 0x1_0000_0000
  }

  function Unsigned(v: int32): int {
    if v < 0 then v + 0x1_0000_0000 else v
  }

  /** One more byte at the low end of a number: `hi << 8 | lo`. */
  function Join(hi: int, lo: byte): int {
    hi * 0x100 + lo as int
  }

  /** Reads a value; `pos` is after the lead byte, and `lead` is the lead byte shifted right by one. */
  function ReadValue(b: seq<byte>, pos: nat, lead: int): int32
    requires MIN_ONE_BYTE_VALUE_LEAD <= lead <= FIVE_BYTE_VALUE_LEAD
    requires SkipValue(pos, 2 * lead) <= |b|
  {
    if lead < MIN_TWO_BYTE_VALUE_LEAD then lead - MIN_ONE_BYTE_VALUE_LEAD
    else if lead < MIN_THREE_BYTE_VALUE_LEAD then Join(lead - MIN_TWO_BYTE_VALUE_LEAD, b[pos])
    else if lead < FOUR_BYTE_VALUE_LEAD then Join(Join(lead - MIN_THREE_BYTE_VALUE_LEAD, b[pos]), b[pos + 1])
    else if lead == FOUR_BYTE_VALUE_LEAD then Join(Join(b[pos], b[pos + 1]), b[pos + 2])
    else Signed(Join(Join(Join(b[pos], b[pos + 1]), b[pos + 2]), b[pos + 3]))
  }

  /** There is a complete value at `pos`. */
  predicate ValueAt(b: seq<byte>, pos: nat) {
    pos < |b| && b[pos] >= MIN_VALUE_LEAD && SkipValue(pos + 1, b[pos]) <= |b|
  }

  predicate IsFinalAt(b: seq<byte>, pos: nat)
    requires ValueAt(b, pos)
  {
    b[pos] % 2 == 1
  }

  function ValueOf(b: seq<byte>, pos: nat): int32
    requires ValueAt(b, pos)
  {
    ReadValue(b, pos + 1, b[pos] / 2)
  }

  function AfterValue(b: seq<byte>, pos: nat): nat
    requires ValueAt(b, pos)
  {
    SkipValue(pos + 1, b[pos])
  }

  /** A lead byte: the seven bits `half` above the bit that says whether the value is final. */
  function Lead(half: int, isFinal: bool): (lead: byte)
    requires MIN_ONE_BYTE_VALUE_LEAD <= half <= FIVE_BYTE_VALUE_LEAD
    ensures lead / 2 == half && (lead % 2 == 1) == isFinal
  {
    2 * half + if isFinal then 1 else 0
  }

  /** The shortest of the five forms that holds `v`. */
  function EncodeValue(v: int32, isFinal: bool): seq<byte> {
    if 0 <= v <= MAX_ONE_BYTE_VALUE then [Lead(MIN_ONE_BYTE_VALUE_LEAD + v, isFinal)]
    else if 0 <= v <= MAX_TWO_BYTE_VALUE then [Lead(MIN_TWO_BYTE_VALUE_LEAD + v / 0x100, isFinal), v % 0x100]
    else if 0 <= v <= MAX_THREE_BYTE_VALUE then
      [Lead(MIN_THREE_BYTE_VALUE_LEAD + v / 0x100 / 0x100, isFinal)] + Low2(v)
    else if 0 <= v <= 0xff_ffff then [Lead(FOUR_BYTE_VALUE_LEAD, isFinal), v / 0x100 / 0x100] + Low2(v)
    else [Lead(FIVE_BYTE_VALUE_LEAD, isFinal)] + Low4(Unsigned(v))
  }

  /** The two low bytes of `u`, and the four bytes of a 32-bit pattern, high byte first. */
  function Low2(u: nat): seq<byte> {
    [u / 0x100 % 0x100, u % 0x100]
  }

  function Low4(u: nat): seq<byte>
    requires u < 0x1_0000_0000
  {
    [u / 0x100 / 0x100 / 0x100, u / 0x100 / 0x100 % 0x100] + Low2(u)
  }

  lemma Low2Joins(u: nat)
    ensures Join(Join(u / 0x100 / 0x100, Low2(u)[0]), Low2(u)[1]) == u
  {
  }

  lemma Low4Joins(u: nat)
    requires u < 0x1_0000_0000
    ensures var e := Low4(u); Join(Join(Join(e[0], e[1]), e[2]), e[3]) == u
  {
  }

  /** `b` holds `e` at `pos`. */
  predicate Holds(b: seq<byte>, pos: nat, e: seq<byte>) {
    pos + |e| <= |b| && forall i :: 0 <= i < |e| ==> b[pos + i] == e[i]
  }

  lemma EncodedValueEnds(v: int32, isFinal: bool, b: seq<byte>, pos: nat)
    requires Holds(b, pos, EncodeValue(v, isFinal))
    ensures ValueAt(b, pos)
    ensures IsFinalAt(b, pos) == isFinal
    ensures AfterValue(b, pos) == pos + |EncodeValue(v, isFinal)|
  {
    ValueLengths(v, isFinal);
    assert b[pos + 0] == EncodeValue(v, isFinal)[0];
  }

  /** Wherever an encoded value stands, the reader gets it back and skips exactly its bytes. */
  lemma ValueRoundTrip(v: int32, isFinal: bool, b: seq<byte>, pos: nat)
    requires Holds(b, pos, EncodeValue(v, isFinal))
    ensures ValueAt(b, pos)
    ensures ValueOf(b, pos) == v
    ensures IsFinalAt(b, pos) == isFinal
    ensures AfterValue(b, pos) == pos + |EncodeValue(v, isFinal)|
  {
    var e := EncodeValue(v, isFinal);
    EncodedValueEnds(v, isFinal, b, pos);
    ValueLengths(v, isFinal);
    assert b[pos + 0] == e[0];
    match ValueLength(v)
    case 1 =>
    case 2 =>
      assert b[pos + 1] == e[1];
    case 3 =>
      assert b[pos + 1] == e[1] && b[pos + 2] == e[2];
      Low2Joins(v);
    case 4 =>
      assert b[pos + 1] == e[1] && b[pos + 2] == e[2] && b[pos + 3] == e[3];
      Low2Joins(v);
    case _ =>
      assert b[pos + 1] == e[1] && b[pos + 2] == e[2] && b[pos + 3] == e[3] && b[pos + 4] == e[4];
      Low4Joins(Unsigned(v));
  }

  /** `b` ends with `tail`. */
  ghost predicate Ends(b: seq<byte>, tail: seq<byte>) {
    |tail| <= |b| && forall i :: 0 <= i < |tail| ==> tail[i] == b[|b| - |tail| + i]
  }

  lemma EndsTransitive(a: seq<byte>, b: seq<byte>, c: seq<byte>)
    requires Ends(a, b) && Ends(b, c)
    ensures Ends(a, c)
  {
  }

  /** A value does not depend on what stands before it. */
  lemma ValueShifts(b: seq<byte>, tail: seq<byte>, pos: nat)
    requires Ends(b, tail) && ValueAt(tail, pos)
    ensures var at := |b| - |tail| + pos;
      && ValueAt(b, at) && ValueOf(b, at) == ValueOf(tail, pos) && IsFinalAt(b, at) == IsFinalAt(tail, pos)
      && AfterValue(b, at) == |b| - |tail| + AfterValue(tail, pos)
  {
  }

  /** The number of bytes of an encoded value, from the documented maxima. */
  function ValueLength(v: int32): nat {
    if v < 0 then 5
    else if v <= 0x40 then 1
    else if v <= 0x1aff then 2
    else if v <= 0x11_ffff then 3
    else if v <= 0xff_ffff then 4
    else 5
  }

  predicate Leads(lead: byte, e: seq<byte>) {
    e != [] && e[0] == lead
  }

  ghost predicate IsValueLead(lead: byte, isFinal: bool) {
    exists x: int32 :: Leads(lead, EncodeValue(x, isFinal))
  }

  ghost predicate IsDeltaLead(lead: byte) {
    exists x: count :: Leads(lead, EncodeDelta(x))
  }

  /** The documented maxima of the forms, and the lead bytes, halved, that each form takes. */
  lemma ValueLengths(v: int32, isFinal: bool)
    ensures |EncodeValue(v, isFinal)| == ValueLength(v)
    ensures var half := EncodeValue(v, isFinal)[0] / 2;
      match ValueLength(v)
      case 1 => 0x10 <= half <= 0x50
      case 2 => 0x51 <= half <= 0x6b
      case 3 => 0x6c <= half <= 0x7d
      case 4 => half == 0x7e
      case _ => half == 0x7f
  {
  }

  /** Every lead byte 0x20..0xff is the lead byte of some value. */
  lemma ValueLeadsTile(lead: byte)
    requires lead >= 0x20
    ensures IsValueLead(lead, lead % 2 == 1)
  {
    var half, f := lead / 2, lead % 2 == 1;
    assert Lead(half, f) == lead;
    var x: int32 := -1;
    if half < 0x51 {
      x := half - 0x10;
      assert EncodeValue(x, f)[0] == Lead(half, f);
    } else if half < 0x6c {
      x := if half == 0x51 then 0x41 else (half - 0x51) * 0x100;
      assert EncodeValue(x, f)[0] == Lead(half, f);
    } else if half < 0x7e {
      x := if half == 0x6c then 0x1b00 else (half - 0x6c) * 0x1_0000;
      assert EncodeValue(x, f)[0] == Lead(half, f);
    } else if half == 0x7e {
      x := 0x12_0000;
    }
    assert Leads(lead, EncodeValue(x, f));
  }

  /** The bytes of a value are its digits, highest first; the lead byte, halved, holds the top ones above its base. */
  lemma ValueIsPositional(v: int32, isFinal: bool)
    ensures var e: seq<int> := EncodeValue(v, isFinal);
      && 1 <= |e| <= 5 && (e[0] % 2 == 1 <==> isFinal)
      && match |e|
         case 1 => v == e[0] / 2 - 0x10
         case 2 => v == (e[0] / 2 - 0x51) * 0x100 + e[1]
         case 3 => v == (e[0] / 2 - 0x6c) * 0x1_0000 + e[1] * 0x100 + e[2]
         case 4 => e[0] / 2 == 0x7e && v == e[1] * 0x1_0000 + e[2] * 0x100 + e[3]
         case _ =>
           e[0] / 2 == 0x7f && v + (if v < 0 then 0x1_0000_0000 else 0) ==
                               e[1] * 0x100_0000 + e[2] * 0x1_0000 + e[3] * 0x100 + e[4]
  {
    if v < 0 || v > 0xff_ffff {
      Low4Joins(Unsigned(v));
    } else {
      Low2Joins(v);
    }
  }

  // ---------- jump deltas ----------

  function SkipDelta(pos: nat, lead: byte): nat {
    if lead >= MIN_TWO_BYTE_DELTA_LEAD then
      if lead < MIN_THREE_BYTE_DELTA_LEAD then pos + 1
      else if lead < FOUR_BYTE_DELTA_LEAD then pos + 2
      else pos + 3 + lead % 2
    else pos
  }

  /** There is a complete delta at `pos`. */
  predicate DeltaAt(b: seq<byte>, pos: nat) {
    pos < |b| && SkipDelta(pos + 1, b[pos]) <= |b|
  }

  function AfterDelta(b: seq<byte>, pos: nat): nat
    requires DeltaAt(b, pos)
  {
    SkipDelta(pos + 1, b[pos])
  }

  function DeltaOf(b: seq<byte>, pos: nat): int32
    requires DeltaAt(b, pos)
  {
    var lead := b[pos];
    if lead < MIN_TWO_BYTE_DELTA_LEAD then lead
    else if lead < MIN_THREE_BYTE_DELTA_LEAD then Join(lead - MIN_TWO_BYTE_DELTA_LEAD, b[pos + 1])
    else if lead < FOUR_BYTE_DELTA_LEAD then
      Join(Join(lead - MIN_THREE_BYTE_DELTA_LEAD, b[pos + 1]), b[pos + 2])
    else if lead == FOUR_BYTE_DELTA_LEAD then Join(Join(b[pos + 1], b[pos + 2]), b[pos + 3])
    else Signed(Join(Join(Join(b[pos + 1], b[pos + 2]), b[pos + 3]), b[pos + 4]))
  }

  /** Reads a delta and jumps: the delta counts from the byte after its own encoding. */
  function JumpByDelta(b: seq<byte>, pos: nat): int
    requires DeltaAt(b, pos)
  {
    AfterDelta(b, pos) + DeltaOf(b, pos)
  }

  function EncodeDelta(d: count): seq<byte> {
    if d <= MAX_ONE_BYTE_DELTA then [d]
    else if d <= MAX_TWO_BYTE_DELTA then [MIN_TWO_BYTE_DELTA_LEAD + d / 0x100, d % 0x100]
    else if d <= MAX_THREE_BYTE_DELTA then [MIN_THREE_BYTE_DELTA_LEAD + d / 0x100 / 0x100] + Low2(d)
    else if d <= 0xff_ffff then [FOUR_BYTE_DELTA_LEAD, d / 0x100 / 0x100] + Low2(d)
    else [FIVE_BYTE_DELTA_LEAD] + Low4(d)
  }

  lemma DeltaRoundTrip(d: count, b: seq<byte>, pos: nat)
    requires Holds(b, pos, EncodeDelta(d))
    ensures DeltaAt(b, pos)
    ensures AfterDelta(b, pos) == pos + |EncodeDelta(d)|
    ensures JumpByDelta(b, pos) == pos + |EncodeDelta(d)| + d
  {
    var e := EncodeDelta(d);
    assert b[pos + 0] == e[0];
    if |e| >= 2 { assert b[pos + 1] == e[1]; }
    if |e| == 3 {
      assert b[pos + 2] == e[2];
      Low2Joins(d);
    } else if |e| == 4 {
      assert b[pos + 2] == e[2] && b[pos + 3] == e[3];
      Low2Joins(d);
    } else if |e| == 5 {
      assert b[pos + 2] == e[2] && b[pos + 3] == e[3] && b[pos + 4] == e[4];
      Low4Joins(d);
    }
  }

  lemma DeltaIsPositional(d: count)
    ensures var e: seq<int> := EncodeDelta(d);
      && 1 <= |e| <= 5
      && match |e|
         case 1 => d == e[0] <= 0xbf
         case 2 => d == (e[0] - 0xc0) * 0x100 + e[1]
         case 3 => d == (e[0] - 0xf0) * 0x1_0000 + e[1] * 0x100 + e[2]
         case 4 => e[0] == 0xfe && d == e[1] * 0x1_0000 + e[2] * 0x100 + e[3]
         case _ => e[0] == 0xff && d == e[1] * 0x100_0000 + e[2] * 0x1_0000 + e[3] * 0x100 + e[4]
  {
    if d > 0xff_ffff { Low4Joins(d); } else { Low2Joins(d); }
  }

  lemma DeltaShifts(b: seq<byte>, tail: seq<byte>, pos: nat)
    requires Ends(b, tail) && DeltaAt(tail, pos)
    ensures var at := |b| - |tail| + pos;
      && DeltaAt(b, at) && AfterDelta(b, at) == |b| - |tail| + AfterDelta(tail, pos)
      && JumpByDelta(b, at) == |b| - |tail| + JumpByDelta(tail, pos)
  {
  }

  /** The documented maxima of the one-, two- and three-byte forms, and the tiling of the 256 lead bytes. */
  lemma DeltaLengths(d: count, e: count, lead: byte)
    ensures |EncodeDelta(d)| == 1 <==> d <= 0xbf
    ensures |EncodeDelta(d)| <= 2 <==> d <= 0x2fff
    ensures |EncodeDelta(d)| <= 3 <==> d <= 0xd_ffff
    ensures |EncodeDelta(d)| <= 4 <==> d <= 0xff_ffff
    ensures |EncodeDelta(d)| < |EncodeDelta(e)| ==> EncodeDelta(d)[0] < EncodeDelta(e)[0]
    ensures IsDeltaLead(lead)
  {
    var x: count :=
      if lead <= 0xbf then lead
      else if lead == 0xc0 then 0xc0
      else if lead < 0xf0 then (lead - 0xc0) * 0x100
      else if lead == 0xf0 then 0x3000
      else if lead < 0xfe then (lead - 0xf0) * 0x1_0000
      else if lead == 0xfe then 0xe_0000
      else 0x100_0000;
    assert Leads(lead, EncodeDelta(x));
  }
}
