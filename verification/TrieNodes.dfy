/**
 The trie's nodes, what they match, and the documented byte format that represents them.
 */
module TrieNodes {
  import opened Machine
  import opened TrieCodec

  datatype Node =
    | FinalValue(value: int32)
    | IntermediateValue(value: int32, next: Node)
    | LinearMatch(bytes: seq<byte>, next: Node)
    | Branch(edges: seq<Edge>)

  datatype Edge = Edge(key: byte, node: Node)

  /** The outcome of matching one more byte. */
  datatype TrieResult = NO_MATCH | NO_VALUE | FINAL_VALUE | INTERMEDIATE_VALUE

  // ---------- what a node matches ----------

  /** The edge for an input byte, among the edges lo..hi; inputs outside 0..0xff have none. */
  function FindEdge(edges: seq<Edge>, lo: nat, hi: nat, inByte: int): Option<Node>
    requires lo <= hi <= |edges|
    decreases hi - lo
  {
    if lo == hi then None
    else if edges[lo].key == inByte then Some(edges[lo].node)
    else FindEdge(edges, lo + 1, hi, inByte)
  }

  /** What is left to match after one input byte, if it continues a match. */
  function Step(n: Node, inByte: int): Option<Node> {
    match n
    case FinalValue(_) => None
    case IntermediateValue(_, next) => Step(next, inByte)
    case LinearMatch(bytes, next) =>
      if bytes == [] || bytes[0] != inByte then None
      else if |bytes| == 1 then Some(next)
      else Some(LinearMatch(bytes[1..], next))
    case Branch(edges) => FindEdge(edges, 0, |edges|, inByte)
  }

  function Run(n: Option<Node>, key: seq<int>): Option<Node>
    decreases key
  {
    if n.None? || key == [] then n else Run(Step(n.value, key[0]), key[1..])
  }

  predicate HasValue(n: Option<Node>) {
    n.Some? && (n.value.FinalValue? || n.value.IntermediateValue?)
  }

  function ResultOf(n: Option<Node>): TrieResult {
    match n
    case None => NO_MATCH
    case Some(FinalValue(_)) => FINAL_VALUE
    case Some(IntermediateValue(_, _)) => INTERMEDIATE_VALUE
    case Some(_) => NO_VALUE
  }

  // ---------- the byte format ----------

  ghost predicate Ascending(edges: seq<Edge>) {
    forall i, j :: 0 <= i < j < |edges| ==> edges[i].key < edges[j].key
  }

  /** The shape every node has: no two value nodes in a row, 1..16 bytes to match, 2..256 ascending branch bytes. */
  ghost predicate WellFormed(n: Node) {
    match n
    case FinalValue(_) => true
    case IntermediateValue(_, next) => (next.LinearMatch? || next.Branch?) && WellFormed(next)
    case LinearMatch(bytes, next) => 1 <= |bytes| <= MAX_LINEAR_MATCH_LENGTH && WellFormed(next)
    case Branch(edges) => 2 <= |edges| <= 0x100 && Ascending(edges) && WellFormedEdges(edges)
  }

  ghost predicate WellFormedEdges(edges: seq<Edge>) {
    forall i {:trigger edges[i].node} :: 0 <= i < |edges| ==>
      assert edges[i].node < edges[i];
      WellFormed(edges[i].node)
  }

  ghost predicate LinearMatchAt(b: seq<byte>, pos: nat, bytes: seq<byte>) {
    1 <= |bytes| <= MAX_LINEAR_MATCH_LENGTH && pos < |b| && b[pos] == MIN_LINEAR_MATCH + |bytes| - 1 &&
    Holds(b, pos + 1, bytes)
  }

  /** The branch's lead byte: its length minus 1, or zero and then one more byte. */
  ghost predicate BranchLengthAt(b: seq<byte>, pos: nat, length: nat) {
    pos < |b| && 2 <= length <= 0x100 && b[pos] < MIN_LINEAR_MATCH &&
    if b[pos] == 0 then pos + 1 < |b| && b[pos + 1] == length - 1 else b[pos] == length - 1
  }

  function AfterBranchLength(b: seq<byte>, pos: nat): nat
    requires pos < |b|
  {
    if b[pos] == 0 then pos + 2 else pos + 1
  }

  /**
   The bytes from `pos` represent node `n`, following jumps. Nothing says where the targets of jumps lie, so nodes
   may be written in any order, and shared.
   */
  ghost predicate Encodes(b: seq<byte>, pos: nat, n: Node)
    decreases n, 0
  {
    match n
    case FinalValue(v) => ValueAt(b, pos) && IsFinalAt(b, pos) && ValueOf(b, pos) == v
    case IntermediateValue(v, next) =>
      ValueAt(b, pos) && !IsFinalAt(b, pos) && ValueOf(b, pos) == v &&
      (next.LinearMatch? || next.Branch?) && Encodes(b, AfterValue(b, pos), next)
    case LinearMatch(bytes, next) => LinearMatchAt(b, pos, bytes) && Encodes(b, pos + 1 + |bytes|, next)
    case Branch(edges) =>
      BranchLengthAt(b, pos, |edges|) && Ascending(edges) &&
      EncodesBranch(b, AfterBranchLength(b, pos), edges, 0, |edges|)
  }

  /** A branch sub-node for the edges lo..hi: a split by halves, or a list. */
  ghost predicate EncodesBranch(b: seq<byte>, pos: nat, edges: seq<Edge>, lo: nat, hi: nat)
    requires lo < hi <= |edges|
    decreases edges, 1, hi - lo
  {
    if hi - lo > MAX_BRANCH_LINEAR_SUB_NODE_LENGTH then
      var mid := lo + (hi - lo) / 2;
      SplitAt(b, pos, edges[mid].key) &&
      EncodesBranch(b, JumpByDelta(b, pos + 1), edges, lo, mid) &&
      EncodesBranch(b, AfterDelta(b, pos + 1), edges, mid, hi)
    else EncodesList(b, pos, edges, lo, hi)
  }

  /** A comparison byte and a jump delta. */
  ghost predicate SplitAt(b: seq<byte>, pos: nat, key: byte) {
    pos < |b| && b[pos] == key && DeltaAt(b, pos + 1) && JumpByDelta(b, pos + 1) >= 0
  }

  /** A list of (byte, value or jump) pairs and one last byte, which continues with the next node. */
  ghost predicate EncodesList(b: seq<byte>, pos: nat, edges: seq<Edge>, lo: nat, hi: nat)
    requires lo < hi <= |edges|
    decreases edges, 0, hi - lo
  {
    assert edges[lo].node < edges[lo];
    pos < |b| && b[pos] == edges[lo].key &&
    if hi - lo == 1 then Encodes(b, pos + 1, edges[lo].node)
    else EncodesEntry(b, pos + 1, edges[lo].node) && EncodesList(b, AfterValue(b, pos + 1), edges, lo + 1, hi)
  }

  /** What a list entry leads to: a final value in place, or a node at a distance from the end of the entry. */
  ghost predicate EncodesEntry(b: seq<byte>, pos: nat, n: Node)
    decreases n, 1
  {
    ValueAt(b, pos) &&
    if IsFinalAt(b, pos) then n == FinalValue(ValueOf(b, pos))
    else 0 <= AfterValue(b, pos) + ValueOf(b, pos) && Encodes(b, AfterValue(b, pos) + ValueOf(b, pos), n)
  }

  // ---------- whatever is encoded is well-formed ----------

  lemma {:induction false} EncodedIsWellFormed(b: seq<byte>, pos: nat, n: Node)
    requires Encodes(b, pos, n)
    ensures WellFormed(n)
    decreases n, 0
  {
    match n
    case FinalValue(_) =>
    case IntermediateValue(_, next) => EncodedIsWellFormed(b, AfterValue(b, pos), next);
    case LinearMatch(bytes, next) => EncodedIsWellFormed(b, pos + 1 + |bytes|, next);
    case Branch(edges) => EncodedEdgesAreWellFormed(b, AfterBranchLength(b, pos), edges, 0, |edges|);
  }

  lemma {:induction false} EncodedEdgesAreWellFormed(b: seq<byte>, pos: nat, edges: seq<Edge>, lo: nat, hi: nat)
    requires lo < hi <= |edges| && EncodesBranch(b, pos, edges, lo, hi)
    ensures forall i {:trigger edges[i].node} :: lo <= i < hi ==> WellFormed(edges[i].node)
    decreases edges, 2, hi - lo
  {
    if hi - lo > MAX_BRANCH_LINEAR_SUB_NODE_LENGTH {
      EncodedEdgesAreWellFormed(b, JumpByDelta(b, pos + 1), edges, lo, lo + (hi - lo) / 2);
      EncodedEdgesAreWellFormed(b, AfterDelta(b, pos + 1), edges, lo + (hi - lo) / 2, hi);
    } else {
      EncodedListIsWellFormed(b, pos, edges, lo, hi);
    }
  }

  lemma {:induction false} EncodedListIsWellFormed(b: seq<byte>, pos: nat, edges: seq<Edge>, lo: nat, hi: nat)
    requires lo < hi <= |edges| && EncodesList(b, pos, edges, lo, hi)
    ensures forall i {:trigger edges[i].node} :: lo <= i < hi ==> WellFormed(edges[i].node)
    decreases edges, 1, hi - lo
  {
    assert edges[lo].node < edges[lo];
    if hi - lo == 1 {
      EncodedIsWellFormed(b, pos + 1, edges[lo].node);
    } else {
      if !IsFinalAt(b, pos + 1) {
        EncodedIsWellFormed(b, AfterValue(b, pos + 1) + ValueOf(b, pos + 1), edges[lo].node);
      }
      EncodedListIsWellFormed(b, AfterValue(b, pos + 1), edges, lo + 1, hi);
    }
  }

  // ---------- the format is unambiguous ----------

  /** Bytes represent at most one node. */
  lemma {:induction false} EncodingIsUnambiguous(b: seq<byte>, pos: nat, n: Node, m: Node)
    requires Encodes(b, pos, n) && Encodes(b, pos, m)
    ensures n == m
    decreases n, 0
  {
    match n
    case FinalValue(_) =>
    case IntermediateValue(_, next) =>
      EncodingIsUnambiguous(b, AfterValue(b, pos), next, m.next);
    case LinearMatch(bytes, next) =>
      assert bytes == m.bytes by {
        forall i | 0 <= i < |bytes| ensures bytes[i] == m.bytes[i] {
          assert b[pos + 1 + i] == bytes[i];
        }
      }
      EncodingIsUnambiguous(b, pos + 1 + |bytes|, next, m.next);
    case Branch(edges) =>
      BranchIsUnambiguous(b, AfterBranchLength(b, pos), edges, m.edges, 0, |edges|);
  }

  lemma {:induction false} BranchIsUnambiguous(
    b: seq<byte>, pos: nat, edges: seq<Edge>, others: seq<Edge>, lo: nat, hi: nat)
    requires lo < hi <= |edges| == |others|
    requires EncodesBranch(b, pos, edges, lo, hi) && EncodesBranch(b, pos, others, lo, hi)
    ensures forall i :: lo <= i < hi ==> edges[i] == others[i]
    decreases edges, 2, hi - lo
  {
    if hi - lo > MAX_BRANCH_LINEAR_SUB_NODE_LENGTH {
      var mid := lo + (hi - lo) / 2;
      BranchIsUnambiguous(b, JumpByDelta(b, pos + 1), edges, others, lo, mid);
      BranchIsUnambiguous(b, AfterDelta(b, pos + 1), edges, others, mid, hi);
    } else {
      ListIsUnambiguous(b, pos, edges, others, lo, hi);
    }
  }

  lemma {:induction false} ListIsUnambiguous(
    b: seq<byte>, pos: nat, edges: seq<Edge>, others: seq<Edge>, lo: nat, hi: nat)
    requires lo < hi <= |edges| == |others|
    requires EncodesList(b, pos, edges, lo, hi) && EncodesList(b, pos, others, lo, hi)
    ensures forall i :: lo <= i < hi ==> edges[i] == others[i]
    decreases edges, 1, hi - lo
  {
    assert edges[lo].node < edges[lo];
    if hi - lo == 1 {
      EncodingIsUnambiguous(b, pos + 1, edges[lo].node, others[lo].node);
    } else {
      if !IsFinalAt(b, pos + 1) {
        EncodingIsUnambiguous(b, AfterValue(b, pos + 1) + ValueOf(b, pos + 1), edges[lo].node, others[lo].node);
      }
      ListIsUnambiguous(b, AfterValue(b, pos + 1), edges, others, lo + 1, hi);
    }
  }

  // ---------- a binary search finds the edge ----------

  lemma {:induction false} FindEdgeSplits(edges: seq<Edge>, lo: nat, mid: nat, hi: nat, inByte: int)
    requires Ascending(edges) && lo < mid < hi <= |edges|
    ensures FindEdge(edges, lo, hi, inByte) ==
            if inByte < edges[mid].key then FindEdge(edges, lo, mid, inByte) else FindEdge(edges, mid, hi, inByte)
    decreases mid - lo
  {
    if lo + 1 < mid {
      FindEdgeSplits(edges, lo + 1, mid, hi, inByte);
    } else if inByte < edges[mid].key {
      NoEdgeBelow(edges, mid, hi, inByte);
    }
  }

  lemma {:induction false} NoEdgeBelow(edges: seq<Edge>, lo: nat, hi: nat, inByte: int)
    requires Ascending(edges) && lo < hi <= |edges| && inByte < edges[lo].key
    ensures FindEdge(edges, lo, hi, inByte) == None
    decreases hi - lo
  {
    if lo + 1 < hi {
      NoEdgeBelow(edges, lo + 1, hi, inByte);
    }
  }

  lemma {:induction false} FindKey(edges: seq<Edge>, lo: nat, at: nat)
    requires Ascending(edges) && lo <= at < |edges|
    ensures FindEdge(edges, lo, |edges|, edges[at].key) == Some(edges[at].node)
    decreases at - lo
  {
    if lo < at { FindKey(edges, lo + 1, at); }
  }

  lemma {:induction false} FindNothing(edges: seq<Edge>, lo: nat, k: int)
    requires lo <= |edges| && forall i :: 0 <= i < |edges| ==> edges[i].key != k
    ensures FindEdge(edges, lo, |edges|, k) == None
    decreases |edges| - lo
  {
    if lo < |edges| { FindNothing(edges, lo + 1, k); }
  }

  /** Only bytes match: an input outside 0..0xff leads nowhere. */
  lemma {:induction false} NoStepOutside(n: Node, k: int)
    requires k < 0 || k > 0xff
    ensures Step(n, k) == None
  {
    match n
    case FinalValue(_) =>
    case IntermediateValue(_, next) => NoStepOutside(next, k);
    case LinearMatch(_, _) =>
    case Branch(edges) => FindNothing(edges, 0, k);
  }

  // ---------- the format does not depend on what stands before it ----------

  lemma ByteShifts(b: seq<byte>, tail: seq<byte>, pos: nat)
    requires Ends(b, tail) && pos < |tail|
    ensures |b| - |tail| + pos < |b| && b[|b| - |tail| + pos] == tail[pos]
  {
  }

  lemma LinearMatchShifts(b: seq<byte>, tail: seq<byte>, pos: nat, bytes: seq<byte>)
    requires Ends(b, tail) && LinearMatchAt(tail, pos, bytes)
    ensures LinearMatchAt(b, |b| - |tail| + pos, bytes)
  {
  }

  lemma SplitShifts(b: seq<byte>, tail: seq<byte>, pos: nat, key: byte)
    requires Ends(b, tail) && SplitAt(tail, pos, key)
    ensures |tail| <= |b| && DeltaAt(tail, pos + 1) && JumpByDelta(tail, pos + 1) >= 0
    ensures SplitAt(b, |b| - |tail| + pos, key)
  {
  }

  lemma {:induction false} EncodesShifts(b: seq<byte>, tail: seq<byte>, pos: nat, n: Node)
    requires Ends(b, tail) && Encodes(tail, pos, n)
    ensures Encodes(b, |b| - |tail| + pos, n)
    decreases n, 0
  {
    match n
    case FinalValue(_) =>
      ValueShifts(b, tail, pos);
    case IntermediateValue(_, next) =>
      ValueShifts(b, tail, pos);
      EncodesShifts(b, tail, AfterValue(tail, pos), next);
    case LinearMatch(bytes, next) =>
      LinearMatchShifts(b, tail, pos, bytes);
      EncodesShifts(b, tail, pos + 1 + |bytes|, next);
    case Branch(edges) =>
      EncodesBranchShifts(b, tail, AfterBranchLength(tail, pos), edges, 0, |edges|);
  }

  lemma {:induction false} EncodesBranchShifts(
    b: seq<byte>, tail: seq<byte>, pos: nat, edges: seq<Edge>, lo: nat, hi: nat)
    requires lo < hi <= |edges| && Ends(b, tail) && EncodesBranch(tail, pos, edges, lo, hi)
    ensures EncodesBranch(b, |b| - |tail| + pos, edges, lo, hi)
    decreases edges, 1, hi - lo
  {
    hide Encodes, EncodesList, SplitAt, DeltaAt, JumpByDelta, AfterDelta, Ends;
    if hi - lo > MAX_BRANCH_LINEAR_SUB_NODE_LENGTH {
      var mid := lo + (hi - lo) / 2;
      SplitShifts(b, tail, pos, edges[mid].key);
      DeltaShifts(b, tail, pos + 1);
      EncodesBranchShifts(b, tail, JumpByDelta(tail, pos + 1), edges, lo, mid);
      EncodesBranchShifts(b, tail, AfterDelta(tail, pos + 1), edges, mid, hi);
    } else {
      EncodesListShifts(b, tail, pos, edges, lo, hi);
    }
  }

  lemma {:induction false} EncodesListShifts(
    b: seq<byte>, tail: seq<byte>, pos: nat, edges: seq<Edge>, lo: nat, hi: nat)
    requires lo < hi <= |edges| && Ends(b, tail) && EncodesList(tail, pos, edges, lo, hi)
    ensures EncodesList(b, |b| - |tail| + pos, edges, lo, hi)
    decreases edges, 0, hi - lo
  {
    hide Encodes, EncodesBranch, ValueAt, ValueOf, IsFinalAt, AfterValue, Ends;
    assert edges[lo].node < edges[lo];
    ByteShifts(b, tail, pos);
    if hi - lo == 1 {
      EncodesShifts(b, tail, pos + 1, edges[lo].node);
    } else {
      ValueShifts(b, tail, pos + 1);
      EncodesEntryShifts(b, tail, pos + 1, edges[lo].node);
      EncodesListShifts(b, tail, AfterValue(tail, pos + 1), edges, lo + 1, hi);
    }
  }

  lemma {:induction false} EncodesEntryShifts(b: seq<byte>, tail: seq<byte>, pos: nat, n: Node)
    requires Ends(b, tail) && EncodesEntry(tail, pos, n)
    ensures EncodesEntry(b, |b| - |tail| + pos, n)
    decreases n, 1
  {
    ValueShifts(b, tail, pos);
    if !IsFinalAt(tail, pos) {
      EncodesShifts(b, tail, AfterValue(tail, pos) + ValueOf(tail, pos), n);
    }
  }
}
