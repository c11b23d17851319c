/** The codec and the format of nodes agree with the documented layout. */
module TrieDocumented {
  import opened Machine
  import L = TrieLayout
  import opened TrieCodec
  import opened TrieNodes

  // ---------- compact integers ----------

  lemma BigEndianOf(b: seq<byte>, pos: int)
    ensures L.BigEndian(b, pos, 0) == 0 && L.BigEndian(b, pos, 1) == L.At(b, pos)
    ensures L.BigEndian(b, pos, 2) == 0x100 * L.At(b, pos) + L.At(b, pos + 1)
    ensures L.BigEndian(b, pos, 3) == 0x1_0000 * L.At(b, pos) + 0x100 * L.At(b, pos + 1) + L.At(b, pos + 2)
    ensures L.BigEndian(b, pos, 4) ==
            0x100_0000 * L.At(b, pos) + 0x1_0000 * L.At(b, pos + 1) + 0x100 * L.At(b, pos + 2) + L.At(b, pos + 3)
  {
    assert L.BigEndian(b, pos, 2) == 0x100 * L.BigEndian(b, pos, 1) + L.At(b, pos + 1);
    assert L.BigEndian(b, pos, 3) == 0x100 * L.BigEndian(b, pos, 2) + L.At(b, pos + 2);
    assert L.BigEndian(b, pos, 4) == 0x100 * L.BigEndian(b, pos, 3) + L.At(b, pos + 3);
  }

  lemma ValueEndsAsDocumented(b: seq<byte>, pos: nat)
    ensures ValueAt(b, pos) <==> L.At(b, pos) >= 0x20 && L.PastValue(b, pos) <= |b|
    ensures ValueAt(b, pos) ==>
              AfterValue(b, pos) == L.PastValue(b, pos) && (IsFinalAt(b, pos) <==> L.At(b, pos) % 2 == 1)
  {
  }

  /** Any value bytes, the shortest form or not, are read as the layout says. */
  lemma ValueIsDocumented(b: seq<byte>, pos: nat)
    ensures ValueAt(b, pos) <==> L.At(b, pos) >= 0x20 && L.PastValue(b, pos) <= |b|
    ensures ValueAt(b, pos) ==>
              && ValueOf(b, pos) == L.Value(b, pos) && AfterValue(b, pos) == L.PastValue(b, pos)
              && (IsFinalAt(b, pos) <==> L.At(b, pos) % 2 == 1)
  {
    ValueEndsAsDocumented(b, pos);
    BigEndianOf(b, pos + 1);
    hide L.BigEndian, L.PastValue, IsFinalAt, AfterValue;
  }

  lemma DeltaIsDocumented(b: seq<byte>, pos: nat)
    ensures DeltaAt(b, pos) <==> L.At(b, pos) >= 0 && L.PastDelta(b, pos) <= |b|
    ensures DeltaAt(b, pos) ==>
              && AfterDelta(b, pos) == L.PastDelta(b, pos)
              && JumpByDelta(b, pos) == L.PastDelta(b, pos) + L.Delta(b, pos)
  {
    BigEndianOf(b, pos + 1);
  }

  /** What the encoder writes is, by the layout, the value with its final bit, and nothing more. */
  lemma EncodedValueIsDocumented(v: int32, isFinal: bool)
    ensures var e := EncodeValue(v, isFinal);
      L.Value(e, 0) == v && (L.At(e, 0) % 2 == 1 <==> isFinal) && L.PastValue(e, 0) == |e| && L.At(e, 0) >= 0x20
  {
    ValueRoundTrip(v, isFinal, EncodeValue(v, isFinal), 0);
    ValueIsDocumented(EncodeValue(v, isFinal), 0);
  }

  lemma EncodedDeltaIsDocumented(d: count)
    ensures var e := EncodeDelta(d); L.Delta(e, 0) == d && L.PastDelta(e, 0) == |e|
  {
    DeltaRoundTrip(d, EncodeDelta(d), 0);
    DeltaIsDocumented(EncodeDelta(d), 0);
  }

  // ---------- nodes ----------

  /** Each kind of node is encoded exactly by the bytes that the layout gives it. */
  lemma EncodesAsDocumented(b: seq<byte>, pos: nat, n: Node)
    ensures n.FinalValue? ==>
              (Encodes(b, pos, n) <==>
               L.At(b, pos) >= 0x20 && L.At(b, pos) % 2 == 1 && L.PastValue(b, pos) <= |b| &&
               L.Value(b, pos) == n.value)
    ensures n.IntermediateValue? ==>
              (Encodes(b, pos, n) <==>
               L.At(b, pos) >= 0x20 && L.At(b, pos) % 2 == 0 && L.PastValue(b, pos) <= |b| &&
               L.Value(b, pos) == n.value && (n.next.LinearMatch? || n.next.Branch?) &&
               Encodes(b, L.PastValue(b, pos), n.next))
    ensures n.LinearMatch? ==>
              (Encodes(b, pos, n) <==>
               1 <= |n.bytes| <= 16 && L.At(b, pos) == 0x0f + |n.bytes| && pos + 1 + |n.bytes| <= |b| &&
               b[pos + 1..pos + 1 + |n.bytes|] == n.bytes && Encodes(b, pos + 1 + |n.bytes|, n.next))
    ensures n.Branch? ==>
              (Encodes(b, pos, n) <==>
               2 <= |n.edges| <= 256 && Ascending(n.edges) && 0 <= L.At(b, pos) <= 0x0f &&
               L.BranchLength(b, pos) == |n.edges| &&
               EncodesBranch(b, L.PastBranchLength(b, pos), n.edges, 0, |n.edges|))
  {
    ValueIsDocumented(b, pos);
    if n.LinearMatch? { MatchBytes(b, pos + 1, n.bytes); }
  }

  lemma MatchBytes(b: seq<byte>, pos: nat, bytes: seq<byte>)
    ensures Holds(b, pos, bytes) <==> pos + |bytes| <= |b| && b[pos..pos + |bytes|] == bytes
  {
    if pos + |bytes| <= |b| && b[pos..pos + |bytes|] == bytes {
      forall i | 0 <= i < |bytes| ensures b[pos + i] == bytes[i] {
        assert b[pos..pos + |bytes|][i] == bytes[i];
      }
    }
  }

  /** A branch sub-node of up to five edges is a list; a longer one is split at the middle edge. */
  lemma EncodesBranchAsDocumented(b: seq<byte>, pos: nat, edges: seq<Edge>, lo: nat, hi: nat)
    requires lo < hi <= |edges|
    ensures hi - lo <= 5 ==> (EncodesBranch(b, pos, edges, lo, hi) <==> EncodesList(b, pos, edges, lo, hi))
    ensures hi - lo > 5 ==>
              var mid := lo + (hi - lo) / 2;
              (EncodesBranch(b, pos, edges, lo, hi) <==>
               && L.At(b, pos) == edges[mid].key && L.At(b, pos + 1) >= 0 && L.PastDelta(b, pos + 1) <= |b|
               && var target := L.PastDelta(b, pos + 1) + L.Delta(b, pos + 1);
               && target >= 0 && EncodesBranch(b, target, edges, lo, mid)
               && EncodesBranch(b, L.PastDelta(b, pos + 1), edges, mid, hi))
  {
    DeltaIsDocumented(b, pos + 1);
  }

  /** A list is a key and a value or jump for each edge but the last, which continues right after its key. */
  lemma EncodesListAsDocumented(b: seq<byte>, pos: nat, edges: seq<Edge>, lo: nat, hi: nat)
    requires lo < hi <= |edges|
    ensures hi - lo == 1 ==>
              (EncodesList(b, pos, edges, lo, hi) <==>
               L.At(b, pos) == edges[lo].key && Encodes(b, pos + 1, edges[lo].node))
    ensures hi - lo > 1 ==>
              (EncodesList(b, pos, edges, lo, hi) <==>
               && L.At(b, pos) == edges[lo].key && L.At(b, pos + 1) >= 0x20 && L.PastValue(b, pos + 1) <= |b|
               && (if L.At(b, pos + 1) % 2 == 1 then
                     edges[lo].node.FinalValue? && edges[lo].node.value == L.Value(b, pos + 1)
                   else
                     var target := L.PastValue(b, pos + 1) + L.Value(b, pos + 1);
                     target >= 0 && Encodes(b, target, edges[lo].node))
               && EncodesList(b, L.PastValue(b, pos + 1), edges, lo + 1, hi))
  {
    ValueIsDocumented(b, pos + 1);
  }

  // ---------- following a byte in the layout is a step in the nodes ----------

  /** `place` is where reading of what is left of `node` goes on. */
  ghost predicate Stands(b: seq<byte>, place: Option<L.Place>, node: Option<Node>) {
    match node
    case None => place.None?
    case Some(n) =>
      place.Some? && place.value.pos >= 0 &&
      var pos, pending := place.value.pos, place.value.pending;
      if pending == 0 then Encodes(b, pos, n)
      else n.LinearMatch? && |n.bytes| == pending && Holds(b, pos, n.bytes) && Encodes(b, pos + pending, n.next)
  }

  lemma {:induction false} ListIsFollowed(b: seq<byte>, pos: nat, edges: seq<Edge>, lo: nat, hi: nat, k: int)
    requires lo < hi <= |edges| && EncodesList(b, pos, edges, lo, hi)
    ensures Stands(b, L.FollowList(b, pos, hi - lo, k), FindEdge(edges, lo, hi, k))
    decreases hi - lo
  {
    hide Encodes, L.Value, L.PastValue, EncodesEntry;
    EncodesListAsDocumented(b, pos, edges, lo, hi);
    if edges[lo].key == k {
      if hi - lo > 1 && L.At(b, pos + 1) % 2 == 1 { EncodesAsDocumented(b, pos + 1, edges[lo].node); }
    } else if hi - lo > 1 {
      ListIsFollowed(b, L.PastValue(b, pos + 1), edges, lo + 1, hi, k);
    } else {
      assert FindEdge(edges, hi, hi, k) == None;
    }
  }

  lemma {:induction false} BranchIsFollowed(b: seq<byte>, pos: nat, edges: seq<Edge>, lo: nat, hi: nat, k: int)
    requires lo < hi <= |edges| && Ascending(edges) && EncodesBranch(b, pos, edges, lo, hi)
    ensures Stands(b, L.FollowBranch(b, pos, hi - lo, k), FindEdge(edges, lo, hi, k))
    decreases hi - lo
  {
    hide Encodes, EncodesList, EncodesBranch, FindEdge, Stands, L.FollowList, L.Delta, L.PastDelta;
    EncodesBranchAsDocumented(b, pos, edges, lo, hi);
    if hi - lo <= 5 {
      ListIsFollowed(b, pos, edges, lo, hi, k);
    } else {
      var mid := lo + (hi - lo) / 2;
      FindEdgeSplits(edges, lo, mid, hi, k);
      if k < edges[mid].key {
        BranchIsFollowed(b, L.PastDelta(b, pos + 1) + L.Delta(b, pos + 1), edges, lo, mid, k);
      } else {
        BranchIsFollowed(b, L.PastDelta(b, pos + 1), edges, mid, hi, k);
      }
    }
  }

  lemma MatchIsFollowed(b: seq<byte>, pos: nat, n: Node, k: int)
    requires (n.LinearMatch? || n.Branch?) && Encodes(b, pos, n)
    ensures Stands(b, L.FollowMatch(b, pos, k), Step(n, k))
  {
    EncodesAsDocumented(b, pos, n);
    hide Encodes, EncodesBranch, FindEdge, L.FollowBranch;
    if n.Branch? {
      BranchIsFollowed(b, L.PastBranchLength(b, pos), n.edges, 0, |n.edges|, k);
    } else {
      MatchBytes(b, pos + 1, n.bytes);
      assert b[pos + 1 + 0] == n.bytes[0];
      RestIsHeld(b, pos + 1, n.bytes);
    }
  }

  lemma RestIsHeld(b: seq<byte>, pos: nat, bytes: seq<byte>)
    requires Holds(b, pos, bytes) && bytes != []
    ensures b[pos] == bytes[0] && Holds(b, pos + 1, bytes[1..])
  {
    assert b[pos + 0] == bytes[0];
    forall i | 0 <= i < |bytes[1..]| ensures b[pos + 1 + i] == bytes[1..][i] {
      assert b[pos + (i + 1)] == bytes[i + 1];
    }
  }

  /** The documented reading of one more byte is the step that the reader is proved to take. */
  lemma FollowIsStep(b: seq<byte>, place: L.Place, n: Node, k: int)
    requires Stands(b, Some(place), Some(n))
    ensures Stands(b, L.Follow(b, place, k), Step(n, k))
  {
    if place.pending > 0 {
      RestIsHeld(b, place.pos, n.bytes);
    } else {
      EncodesAsDocumented(b, place.pos, n);
      hide Encodes, L.FollowMatch, L.PastValue, L.Value;
      match n
      case FinalValue(_) =>
      case IntermediateValue(_, next) => MatchIsFollowed(b, L.PastValue(b, place.pos), next, k);
      case LinearMatch(_, _) => MatchIsFollowed(b, place.pos, n, k);
      case Branch(_) => MatchIsFollowed(b, place.pos, n, k);
    }
  }

  lemma {:induction false} FollowAllIsRun(b: seq<byte>, place: Option<L.Place>, node: Option<Node>, key: seq<int>)
    requires Stands(b, place, node)
    ensures Stands(b, L.FollowAll(b, place, key), Run(node, key))
    decreases key
  {
    if node.Some? && key != [] {
      FollowIsStep(b, place.value, node.value, key[0]);
      FollowAllIsRun(b, L.Follow(b, place.value, key[0]), Step(node.value, key[0]), key[1..]);
    }
  }

  lemma PlaceOfNode(b: seq<byte>, place: L.Place, n: Node)
    requires Stands(b, Some(place), Some(n))
    ensures L.HasValueAt(b, place) <==> HasValue(Some(n))
    ensures L.CanContinue(b, place) <==> !n.FinalValue?
    ensures HasValue(Some(n)) ==> L.Value(b, place.pos) == n.value
  {
    if place.pending == 0 { EncodesAsDocumented(b, place.pos, n); }
  }
}
