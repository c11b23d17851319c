/**
 The documented layout of trie bytes, read directly: each function looks at bytes only, with the thresholds as the
 layout comment gives them. It knows nothing of nodes, nor of the reader and the writer that are proved against it.
 */
module TrieLayout {
  import opened Machine

  /** The byte at a position; there is none outside the data. */
  function At(b: seq<byte>, pos: int): int {
    if 0 <= pos < |b| then b[pos] else -1
  }

  /** The number of `n` bytes from `pos` on, the first being the highest. */
  function BigEndian(b: seq<byte>, pos: int, n: nat): int {
    if n == 0 then 0 else 0x100 * BigEndian(b, pos, n - 1) + At(b, pos + n - 1)
  }

  /** A 32-bit pattern as a signed integer. */
  function TwosComplement(u: int): int {
    if u < 0x8000_0000 then u else u - 0x1_0000_0000
  }

  // ---------- compact integers ----------

  /** How many bytes follow a value's lead byte. */
  function ValueBytes(lead: int): nat {
    var half := lead / 2;
    if half <= 0x50 then 0 else if half <= 0x6b then 1 else if half <= 0x7d then 2 else if half == 0x7e then 3 else 4
  }

  function PastValue(b: seq<byte>, pos: int): (end: int)
    ensures end > pos
  {
    pos + 1 + ValueBytes(At(b, pos))
  }

  /** The top bits come from the lead byte, for the forms of up to three bytes. */
  function Value(b: seq<byte>, pos: int): int {
    var half, n := At(b, pos) / 2, ValueBytes(At(b, pos));
    var rest := BigEndian(b, pos + 1, n);
    if n == 0 then half - 0x10
    else if n == 1 then (half - 0x51) * 0x100 + rest
    else if n == 2 then (half - 0x6c) * 0x1_0000 + rest
    else TwosComplement(rest)
  }

  /** How many bytes follow the first byte of a jump delta. */
  function DeltaBytes(lead: int): nat {
    if lead <= 0xbf then 0 else if lead <= 0xef then 1 else if lead <= 0xfd then 2 else if lead == 0xfe then 3 else 4
  }

  function PastDelta(b: seq<byte>, pos: int): (end: int)
    ensures end > pos
  {
    pos + 1 + DeltaBytes(At(b, pos))
  }

  function Delta(b: seq<byte>, pos: int): int {
    var lead, n := At(b, pos), DeltaBytes(At(b, pos));
    var rest := BigEndian(b, pos + 1, n);
    if n == 0 then lead
    else if n == 1 then (lead - 0xc0) * 0x100 + rest
    else if n == 2 then (lead - 0xf0) * 0x1_0000 + rest
    else TwosComplement(rest)
  }

  // ---------- nodes ----------

  function BranchLength(b: seq<byte>, pos: int): int {
    if At(b, pos) == 0 then At(b, pos + 1) + 1 else At(b, pos) + 1
  }

  function PastBranchLength(b: seq<byte>, pos: int): int {
    if At(b, pos) == 0 then pos + 2 else pos + 1
  }

  /** Where reading is: at a node, or at the first of `pending` bytes that a linear-match node still has to match. */
  datatype Place = Place(pos: int, pending: nat)

  function Follow(b: seq<byte>, place: Place, inByte: int): Option<Place> {
    var lead := At(b, place.pos);
    if place.pending > 0 then
      if lead == inByte then Some(Place(place.pos + 1, place.pending - 1)) else None
    else if lead < 0x20 then FollowMatch(b, place.pos, inByte)
    else if lead % 2 == 1 then None
    else FollowMatch(b, PastValue(b, place.pos), inByte)
  }

  /** From a linear-match node (0x10..0x1f) or a branch node (0x00..0x0f). */
  function FollowMatch(b: seq<byte>, pos: int, inByte: int): Option<Place> {
    var lead := At(b, pos);
    if 0x10 <= lead < 0x20 then
      if At(b, pos + 1) == inByte then Some(Place(pos + 2, lead - 0x10)) else None
    else if 0 <= lead < 0x10 then
      FollowBranch(b, PastBranchLength(b, pos), BranchLength(b, pos), inByte)
    else None
  }

  /** More than five edges: a byte to compare with, and a jump to the lesser half. */
  function FollowBranch(b: seq<byte>, pos: int, length: int, inByte: int): Option<Place>
    decreases length
  {
    if length <= 5 then FollowList(b, pos, length, inByte)
    else if inByte < At(b, pos) then
      FollowBranch(b, PastDelta(b, pos + 1) + Delta(b, pos + 1), length / 2, inByte)
    else
      FollowBranch(b, PastDelta(b, pos + 1), length - length / 2, inByte)
  }

  /** Up to five edges: pairs of a key and a final value or jump, then one key that continues. */
  function FollowList(b: seq<byte>, pos: int, length: int, inByte: int): Option<Place>
    decreases length
  {
    if length <= 0 then None
    else if At(b, pos) == inByte then
      if length == 1 || At(b, pos + 1) % 2 == 1 then Some(Place(pos + 1, 0))
      else Some(Place(PastValue(b, pos + 1) + Value(b, pos + 1), 0))
    else if length == 1 then None
    else FollowList(b, PastValue(b, pos + 1), length - 1, inByte)
  }

  // ---------- whole strings ----------

  function FollowAll(b: seq<byte>, place: Option<Place>, key: seq<int>): Option<Place>
    decreases key
  {
    if place.None? || key == [] then place else FollowAll(b, Follow(b, place.value, key[0]), key[1..])
  }

  /** After a match there is a value for the bytes so far. */
  predicate HasValueAt(b: seq<byte>, place: Place) {
    place.pending == 0 && At(b, place.pos) >= 0x20
  }

  /** Another byte can continue the match: everywhere but at a final value. */
  predicate CanContinue(b: seq<byte>, place: Place) {
    place.pending > 0 || At(b, place.pos) < 0x20 || At(b, place.pos) % 2 == 0
  }
}
