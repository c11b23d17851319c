/**
 Serializing nodes. The builder's buffer grows from the back, so every function here takes the bytes already
 written (`tail`) and puts more in front of them; the place of a node is its distance from the end of the buffer.
 */
module TrieWriter {
  import opened Machine
  import opened TrieCodec
  import opened TrieNodes

  /** A distance as the 32-bit integer the format stores; trie data of 2^31 bytes or more cannot be built. */
  function Distance(near: seq<byte>, far: seq<byte>): count {
    (|near| - |far|) % 0x8000_0000
  }

  function BranchLead(length: nat): seq<byte>
    requires 2 <= length <= 0x100
  {
    if length - 1 < MIN_LINEAR_MATCH then [length - 1] else [0, length - 1]
  }

  function Write(n: Node, tail: seq<byte>): (b: seq<byte>)
    requires WellFormed(n)
    decreases n, 0
  {
    match n
    case FinalValue(v) => EncodeValue(v, true) + tail
    case IntermediateValue(v, next) => EncodeValue(v, false) + Write(next, tail)
    case LinearMatch(bytes, next) => [MIN_LINEAR_MATCH + |bytes| - 1] + bytes + Write(next, tail)
    case Branch(edges) => BranchLead(|edges|) + WriteBranch(edges, 0, |edges|, tail)
  }

  /** The edges lo..hi. The less-than half is written first, so that the other stands right after the jump delta. */
  function WriteBranch(edges: seq<Edge>, lo: nat, hi: nat, tail: seq<byte>): (b: seq<byte>)
    requires lo < hi <= |edges| && WellFormedEdges(edges)
    decreases edges, 2, hi - lo
  {
    if hi - lo > MAX_BRANCH_LINEAR_SUB_NODE_LENGTH then
      var mid := lo + (hi - lo) / 2;
      var target := WriteBranch(edges, lo, mid, tail);
      var rest := WriteBranch(edges, mid, hi, target);
      [edges[mid].key] + EncodeDelta(Distance(rest, target)) + rest
    else
      WriteList(edges, lo, hi - 1, tail)
  }

  /** The jump targets, then the last edge, for which there is no jump, then the entries. */
  function WriteList(edges: seq<Edge>, lo: nat, last: nat, tail: seq<byte>): (b: seq<byte>)
    requires lo <= last < |edges| && WellFormedEdges(edges)
    decreases edges, 1
  {
    assert edges[last].node < edges[last];
    var node := Write(edges[last].node, WriteTargets(edges, lo, last, tail));
    WriteEntries(edges, lo, last, tail, [edges[last].key] + node)
  }

  /** The nodes that entries jump to, in reverse order; final values are stored in the entries themselves. */
  function WriteTargets(edges: seq<Edge>, lo: nat, last: nat, tail: seq<byte>): (b: seq<byte>)
    requires lo <= last < |edges| && WellFormedEdges(edges)
    decreases edges, 0, last - lo
  {
    if lo == last then tail
    else
      assert edges[lo].node < edges[lo];
      var b := WriteTargets(edges, lo + 1, last, tail);
      if edges[lo].node.FinalValue? then b else Write(edges[lo].node, b)
  }

  /** One (byte, value or jump) pair for each of lo..last, in front of the last edge's own bytes. */
  function WriteEntries(edges: seq<Edge>, lo: nat, last: nat, tail: seq<byte>, base: seq<byte>): (b: seq<byte>)
    requires lo <= last < |edges| && WellFormedEdges(edges)
    decreases edges, 1, last - lo
  {
    if lo == last then base
    else
      var rest := WriteEntries(edges, lo + 1, last, tail, base);
      var node := edges[lo].node;
      var v := if node.FinalValue? then node.value else Distance(rest, WriteTargets(edges, lo, last, tail));
      [edges[lo].key] + EncodeValue(v, node.FinalValue?) + rest
  }

  /** The first key written is that of the first edge for up to five edges, and of the middle one for more. */
  lemma FirstKeyWritten(edges: seq<Edge>, tail: seq<byte>)
    requires 2 <= |edges| && WellFormedEdges(edges)
    ensures WriteBranch(edges, 0, |edges|, tail) != []
    ensures WriteBranch(edges, 0, |edges|, tail)[0] == edges[if |edges| <= 5 then 0 else |edges| / 2].key
  {
    if |edges| <= 5 {
      var last := |edges| - 1;
      assert edges[last].node < edges[last];
      var base := [edges[last].key] + Write(edges[last].node, WriteTargets(edges, 0, last, tail));
      assert WriteBranch(edges, 0, |edges|, tail) == WriteEntries(edges, 0, last, tail, base);
      FirstEntryWritten(edges, 0, last, tail, base);
    }
  }

  lemma FirstEntryWritten(edges: seq<Edge>, lo: nat, last: nat, tail: seq<byte>, base: seq<byte>)
    requires lo < last < |edges| && WellFormedEdges(edges)
    ensures WriteEntries(edges, lo, last, tail, base) != []
    ensures WriteEntries(edges, lo, last, tail, base)[0] == edges[lo].key
  {
  }

  // ---------- what is written is in the documented format ----------

  /** `b` is `front` and then `rest`. */
  ghost predicate Joined(b: seq<byte>, front: seq<byte>, rest: seq<byte>) {
    |b| == |front| + |rest| && Holds(b, 0, front) && Ends(b, rest)
  }

  ghost predicate Small(b: seq<byte>) {
    |b| < 0x8000_0000
  }

  lemma JoinedHere(front: seq<byte>, rest: seq<byte>, tail: seq<byte>)
    ensures Joined(front + rest, front, rest)
    ensures Ends(rest, tail) ==> Ends(front + rest, tail)
  {
  }

  lemma EndsItself(b: seq<byte>)
    ensures Ends(b, b)
  {
  }

  lemma EndsIsShorter(b: seq<byte>, tail: seq<byte>)
    requires Ends(b, tail) && Small(b)
    ensures Distance(b, tail) == |b| - |tail|
  {
  }

  lemma PutFinalValue(v: int32, tail: seq<byte>)
    ensures Ends(EncodeValue(v, true) + tail, tail)
    ensures Encodes(EncodeValue(v, true) + tail, 0, FinalValue(v))
  {
    ValueRoundTrip(v, true, EncodeValue(v, true) + tail, 0);
  }

  lemma PutIntermediateValue(v: int32, next: Node, rest: seq<byte>, b: seq<byte>)
    requires Joined(b, EncodeValue(v, false), rest)
    requires (next.LinearMatch? || next.Branch?) && Encodes(rest, 0, next)
    ensures Encodes(b, 0, IntermediateValue(v, next))
  {
    ValueRoundTrip(v, false, b, 0);
    EncodesShifts(b, rest, 0, next);
  }

  lemma PutLinearMatch(bytes: seq<byte>, next: Node, rest: seq<byte>, b: seq<byte>)
    requires 1 <= |bytes| <= MAX_LINEAR_MATCH_LENGTH && Encodes(rest, 0, next)
    requires Joined(b, [MIN_LINEAR_MATCH + |bytes| - 1] + bytes, rest)
    ensures Encodes(b, 0, LinearMatch(bytes, next))
  {
    var front := [MIN_LINEAR_MATCH + |bytes| - 1] + bytes;
    assert b[0 + 0] == front[0];
    forall i | 0 <= i < |bytes| ensures b[0 + 1 + i] == bytes[i] {
      assert b[0 + (1 + i)] == front[1 + i];
    }
    EncodesShifts(b, rest, 0, next);
  }

  lemma PutBranch(edges: seq<Edge>, rest: seq<byte>, b: seq<byte>)
    requires 2 <= |edges| <= 0x100 && Ascending(edges) && EncodesBranch(rest, 0, edges, 0, |edges|)
    requires Joined(b, BranchLead(|edges|), rest)
    ensures Encodes(b, 0, Branch(edges))
  {
    var front := BranchLead(|edges|);
    assert b[0 + 0] == front[0];
    assert |front| == 2 ==> b[0 + 1] == front[1];
    EncodesBranchShifts(b, rest, 0, edges, 0, |edges|);
  }

  lemma PutDelta(key: byte, rest: seq<byte>, d: count, b: seq<byte>)
    requires b == [key] + EncodeDelta(d) + rest
    ensures Ends(b, rest) && SplitAt(b, 0, key)
    ensures AfterDelta(b, 1) == |b| - |rest| && JumpByDelta(b, 1) == |b| - |rest| + d
  {
    DeltaRoundTrip(d, b, 1);
  }

  /** The two halves, the less-than one at the end of the other, behind a comparison byte and a jump. */
  lemma PutSplit(edges: seq<Edge>, lo: nat, hi: nat, target: seq<byte>, rest: seq<byte>, b: seq<byte>)
    requires lo + MAX_BRANCH_LINEAR_SUB_NODE_LENGTH < hi <= |edges| && Ends(rest, target) && Ends(b, rest)
    requires SplitAt(b, 0, edges[lo + (hi - lo) / 2].key)
    requires AfterDelta(b, 1) == |b| - |rest| && JumpByDelta(b, 1) == |b| - |target|
    requires EncodesBranch(target, 0, edges, lo, lo + (hi - lo) / 2)
    requires EncodesBranch(rest, 0, edges, lo + (hi - lo) / 2, hi)
    ensures EncodesBranch(b, 0, edges, lo, hi)
  {
    PutHalves(edges, lo, lo + (hi - lo) / 2, hi, target, rest, b);
  }

  lemma PutHalves(edges: seq<Edge>, lo: nat, mid: nat, hi: nat, target: seq<byte>, rest: seq<byte>, b: seq<byte>)
    requires lo < mid < hi <= |edges| && Ends(rest, target) && Ends(b, rest)
    requires EncodesBranch(target, 0, edges, lo, mid) && EncodesBranch(rest, 0, edges, mid, hi)
    ensures EncodesBranch(b, |b| - |target|, edges, lo, mid) && EncodesBranch(b, |b| - |rest|, edges, mid, hi)
  {
    hide EncodesBranch;
    EndsTransitive(b, rest, target);
    EncodesBranchShifts(b, rest, 0, edges, mid, hi);
    EncodesBranchShifts(b, target, 0, edges, lo, mid);
  }

  lemma PutLast(edges: seq<Edge>, last: nat, rest: seq<byte>, b: seq<byte>)
    requires last < |edges| && Encodes(rest, 0, edges[last].node) && b == [edges[last].key] + rest
    ensures Ends(b, rest) && EncodesList(b, 0, edges, last, last + 1)
  {
    hide Encodes, EncodesEntry, Ends;
    JoinedHere([edges[last].key], rest, rest);
    EndsItself(rest);
    EncodesShifts(b, rest, 0, edges[last].node);
  }

  lemma PutValue(key: byte, v: int32, isFinal: bool, rest: seq<byte>, b: seq<byte>)
    requires b == [key] + EncodeValue(v, isFinal) + rest
    ensures Ends(b, rest) && b[0] == key && |b| > |rest|
    ensures ValueAt(b, 1) && ValueOf(b, 1) == v && IsFinalAt(b, 1) == isFinal && AfterValue(b, 1) == |b| - |rest|
  {
    ValueRoundTrip(v, isFinal, b, 1);
  }

  lemma PutTarget(n: Node, targets: seq<byte>, rest: seq<byte>, b: seq<byte>)
    requires Ends(b, rest) && ValueAt(b, 1) && AfterValue(b, 1) == |b| - |rest|
    requires IsFinalAt(b, 1) == n.FinalValue?
    requires n.FinalValue? ==> ValueOf(b, 1) == n.value
    requires !n.FinalValue? ==> Ends(rest, targets) && ValueOf(b, 1) == |rest| - |targets| && Encodes(targets, 0, n)
    ensures EncodesEntry(b, 1, n)
  {
    if !n.FinalValue? {
      EndsTransitive(b, rest, targets);
      EncodesShifts(b, targets, 0, n);
    }
  }

  lemma PutEntry(edges: seq<Edge>, lo: nat, hi: nat, v: int32, targets: seq<byte>, rest: seq<byte>, b: seq<byte>)
    requires lo + 1 < hi <= |edges| && EncodesList(rest, 0, edges, lo + 1, hi)
    requires b == [edges[lo].key] + EncodeValue(v, edges[lo].node.FinalValue?) + rest
    requires edges[lo].node.FinalValue? ==> v == edges[lo].node.value
    requires !edges[lo].node.FinalValue? ==>
               Ends(rest, targets) && v == |rest| - |targets| && Encodes(targets, 0, edges[lo].node)
    ensures EncodesList(b, 0, edges, lo, hi)
  {
    hide EncodesList, Encodes, EncodesEntry, EncodeValue, ValueAt, ValueOf, IsFinalAt, AfterValue, Ends;
    PutValue(edges[lo].key, v, edges[lo].node.FinalValue?, rest, b);
    PutTarget(edges[lo].node, targets, rest, b);
    ListFrom(edges, lo, hi, rest, b);
  }

  lemma ListFrom(edges: seq<Edge>, lo: nat, hi: nat, rest: seq<byte>, b: seq<byte>)
    requires lo + 1 < hi <= |edges| && EncodesList(rest, 0, edges, lo + 1, hi) && Ends(b, rest)
    requires b != [] && b[0] == edges[lo].key && ValueAt(b, 1) && AfterValue(b, 1) == |b| - |rest|
    requires EncodesEntry(b, 1, edges[lo].node)
    ensures EncodesList(b, 0, edges, lo, hi)
  {
    EncodesListShifts(b, rest, 0, edges, lo + 1, hi);
  }

  lemma {:induction false} WriteEncodes(n: Node, tail: seq<byte>)
    requires WellFormed(n)
    ensures Ends(Write(n, tail), tail)
    ensures Small(Write(n, tail)) ==> Encodes(Write(n, tail), 0, n)
    decreases n, 0
  {
    hide Encodes, EncodesBranch, EncodeValue, Ends, Joined;
    var b := Write(n, tail);
    match n
    case FinalValue(v) =>
      PutFinalValue(v, tail);
    case IntermediateValue(v, next) =>
      WriteEncodes(next, tail);
      JoinedHere(EncodeValue(v, false), Write(next, tail), tail);
      if Small(b) { PutIntermediateValue(v, next, Write(next, tail), b); }
    case LinearMatch(bytes, next) =>
      WriteEncodes(next, tail);
      JoinedHere([MIN_LINEAR_MATCH + |bytes| - 1] + bytes, Write(next, tail), tail);
      if Small(b) { PutLinearMatch(bytes, next, Write(next, tail), b); }
    case Branch(edges) =>
      WriteBranchEncodes(edges, 0, |edges|, tail);
      JoinedHere(BranchLead(|edges|), WriteBranch(edges, 0, |edges|, tail), tail);
      if Small(b) { PutBranch(edges, WriteBranch(edges, 0, |edges|, tail), b); }
  }

  lemma {:induction false} WriteBranchEncodes(edges: seq<Edge>, lo: nat, hi: nat, tail: seq<byte>)
    requires lo < hi <= |edges| && WellFormedEdges(edges)
    ensures Ends(WriteBranch(edges, lo, hi, tail), tail)
    ensures Small(WriteBranch(edges, lo, hi, tail)) ==>
              EncodesBranch(WriteBranch(edges, lo, hi, tail), 0, edges, lo, hi)
    decreases edges, 2, hi - lo
  {
    hide EncodesBranch, EncodesList, Encodes, SplitAt, AfterDelta, JumpByDelta, EncodeDelta, WriteList, WellFormed;
    if hi - lo > MAX_BRANCH_LINEAR_SUB_NODE_LENGTH {
      var mid := lo + (hi - lo) / 2;
      var target := WriteBranch(edges, lo, mid, tail);
      var rest := WriteBranch(edges, mid, hi, target);
      WriteBranchEncodes(edges, mid, hi, target);
      WriteBranchEncodes(edges, lo, mid, tail);
      var b := WriteBranch(edges, lo, hi, tail);
      PutDelta(edges[mid].key, rest, Distance(rest, target), b);
      EndsTransitive(rest, target, tail);
      EndsTransitive(b, rest, tail);
      if Small(b) { PutSplit(edges, lo, hi, target, rest, b); }
    } else {
      WriteListEncodes(edges, lo, hi - 1, tail);
      if Small(WriteList(edges, lo, hi - 1, tail)) { ListIsBranch(WriteList(edges, lo, hi - 1, tail), edges, lo, hi); }
    }
  }

  lemma ListIsBranch(b: seq<byte>, edges: seq<Edge>, lo: nat, hi: nat)
    requires lo < hi <= |edges| && hi - lo <= MAX_BRANCH_LINEAR_SUB_NODE_LENGTH && EncodesList(b, 0, edges, lo, hi)
    ensures EncodesBranch(b, 0, edges, lo, hi)
  {
  }

  lemma {:induction false} WriteListEncodes(edges: seq<Edge>, lo: nat, last: nat, tail: seq<byte>)
    requires lo <= last < |edges| && WellFormedEdges(edges)
    ensures Ends(WriteList(edges, lo, last, tail), tail)
    ensures Small(WriteList(edges, lo, last, tail)) ==>
              EncodesList(WriteList(edges, lo, last, tail), 0, edges, lo, last + 1)
    decreases edges, 1, |edges|
  {
    hide EncodesList, Encodes;
    assert edges[last].node < edges[last];
    var targets := WriteTargets(edges, lo, last, tail);
    var node := Write(edges[last].node, targets);
    var base := [edges[last].key] + node;
    WriteEncodes(edges[last].node, targets);
    EndsTransitive(base, node, targets);
    if Small(base) { PutLast(edges, last, node, base); }
    WriteEntriesEncodes(edges, lo, last, tail, base);
    WriteTargetsEnds(edges, lo, last, tail);
    EndsTransitive(base, targets, tail);
    EndsTransitive(WriteList(edges, lo, last, tail), base, tail);
  }

  lemma {:induction false} WriteTargetsEnds(edges: seq<Edge>, lo: nat, last: nat, tail: seq<byte>)
    requires lo <= last < |edges| && WellFormedEdges(edges)
    ensures Ends(WriteTargets(edges, lo, last, tail), tail)
    decreases edges, 0, last - lo
  {
    if lo < last {
      assert edges[lo].node < edges[lo];
      WriteTargetsEnds(edges, lo + 1, last, tail);
      if !edges[lo].node.FinalValue? {
        var b := WriteTargets(edges, lo + 1, last, tail);
        WriteEncodes(edges[lo].node, b);
        EndsTransitive(Write(edges[lo].node, b), b, tail);
      }
    }
  }

  lemma {:induction false} WriteEntriesEncodes(
    edges: seq<Edge>, lo: nat, last: nat, tail: seq<byte>, base: seq<byte>)
    requires lo <= last < |edges| && WellFormedEdges(edges)
    requires Ends(base, WriteTargets(edges, lo, last, tail))
    requires Small(base) ==> EncodesList(base, 0, edges, last, last + 1)
    ensures Ends(WriteEntries(edges, lo, last, tail, base), base)
    ensures Small(WriteEntries(edges, lo, last, tail, base)) ==>
              EncodesList(WriteEntries(edges, lo, last, tail, base), 0, edges, lo, last + 1)
    decreases edges, 1, last - lo
  {
    hide EncodesList, Encodes, EncodeValue, Ends, Write, WellFormed;
    EndsItself(base);
    if lo < last {
      assert edges[lo].node < edges[lo];
      var node := edges[lo].node;
      var targets, before := WriteTargets(edges, lo, last, tail), WriteTargets(edges, lo + 1, last, tail);
      if !node.FinalValue? { WriteEncodes(node, before); }
      EndsTransitive(base, targets, before);
      var rest := WriteEntries(edges, lo + 1, last, tail, base);
      WriteEntriesEncodes(edges, lo + 1, last, tail, base);
      EndsTransitive(rest, base, targets);
      var b := WriteEntries(edges, lo, last, tail, base);
      var v := if node.FinalValue? then node.value else Distance(rest, targets);
      JoinedHere([edges[lo].key] + EncodeValue(v, node.FinalValue?), rest, base);
      if Small(b) {
        EndsIsShorter(rest, targets);
        PutEntry(edges, lo, last + 1, v, targets, rest, b);
      }
    }
  }
}
