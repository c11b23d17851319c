/** The trie reader: a position in the bytes, updated in place as input is matched. */
module TrieReader {
  import opened Machine
  import opened TrieCodec
  import opened TrieNodes
  import opened TrieWriter
  import opened TrieValues
  import opened TrieBuilder
  import opened TrieDocumented
  import L = TrieLayout

  /**
   What a reader's fields stand for: nothing can match any more (`pos` is NULL), or what is left to match is `node`,
   which starts at `pos`, or of which `remaining` + 1 match bytes are pending.
   */
  ghost predicate Represents(b: seq<byte>, pos: Option<nat>, remaining: int, node: Option<Node>) {
    match node
    case None => pos.None?
    case Some(n) =>
      pos.Some? &&
      if remaining < 0 then remaining == -1 && Encodes(b, pos.value, n)
      else
        n.LinearMatch? && |n.bytes| == remaining + 1 <= MAX_LINEAR_MATCH_LENGTH && Holds(b, pos.value, n.bytes) &&
        Encodes(b, pos.value + remaining + 1, n.next)
  }

  /** Signed bytes are treated like unsigned ones; other inputs never match. */
  function InputByte(inByte: int): int {
    if inByte < 0 then inByte + 0x100 else inByte
  }

  /** The characters are these bytes, each as a signed or an unsigned number. */
  ghost predicate SameBytes(chars: seq<int>, key: seq<byte>) {
    |chars| == |key| && forall i :: 0 <= i < |key| ==> chars[i] == key[i] || chars[i] + 0x100 == key[i]
  }

  lemma RunOne(n: Node, k: int)
    ensures Run(Some(n), [k]) == Step(n, k)
  {
    assert [k][1..] == [];
    assert Run(Step(n, k), []) == Step(n, k);
  }

  lemma StepOnInput(n: Node, inByte: int)
    ensures 0 <= inByte <= 0xff ==> Step(n, InputByte(inByte)) == Step(n, inByte)
    ensures -0x100 <= inByte < 0 ==> Step(n, InputByte(inByte)) == Step(n, inByte + 0x100)
    ensures inByte < -0x100 || inByte > 0xff ==> Step(n, InputByte(inByte)) == None
  {
    if inByte < -0x100 || inByte > 0xff { NoStepOutside(n, InputByte(inByte)); }
  }

  predicate HasNext(r: TrieResult) {
    r == NO_VALUE || r == INTERMEDIATE_VALUE
  }

  function ValueResult(node: byte): TrieResult {
    if node % 2 == 1 then FINAL_VALUE else INTERMEDIATE_VALUE
  }

  function ResultAt(node: byte): TrieResult {
    if node >= MIN_VALUE_LEAD then ValueResult(node) else NO_VALUE
  }

  lemma ResultAtNode(b: seq<byte>, pos: nat, n: Node)
    requires Encodes(b, pos, n)
    ensures pos < |b| && ResultAt(b[pos]) == ResultOf(Some(n))
  {
  }

  lemma BranchHalves(b: seq<byte>, pos: nat, edges: seq<Edge>, lo: nat, length: nat)
    requires MAX_BRANCH_LINEAR_SUB_NODE_LENGTH < length && lo + length <= |edges|
    requires EncodesBranch(b, pos, edges, lo, lo + length)
    ensures SplitAt(b, pos, edges[lo + length / 2].key)
    ensures EncodesBranch(b, JumpByDelta(b, pos + 1), edges, lo, lo + length / 2)
    ensures EncodesBranch(b, AfterDelta(b, pos + 1), edges, lo + length / 2, lo + length)
  {
  }

  lemma BranchIsList(b: seq<byte>, pos: nat, edges: seq<Edge>, lo: nat, length: nat)
    requires 0 < length <= MAX_BRANCH_LINEAR_SUB_NODE_LENGTH && lo + length <= |edges|
    requires EncodesBranch(b, pos, edges, lo, lo + length)
    ensures EncodesList(b, pos, edges, lo, lo + length)
  {
  }

  /** A saved reader state; an empty one has no bytes. */
  class State {
    var bytes: array?<byte>
    var pos: Option<nat>
    var remaining: int
    ghost var node: Option<Node>

    ghost predicate Valid()
      reads this, bytes
    {
      bytes != null ==> Represents(bytes[..], pos, remaining, node)
    }

    constructor ()
      ensures bytes == null
    {
      bytes := null;
    }
  }

  class BytesTrie {
    const bytes: array<byte>
    var pos: Option<nat>
    var remaining: int
    ghost const root: Node
    ghost var node: Option<Node>  // what is left to match

    ghost predicate Valid()
      reads this, bytes
    {
      Encodes(bytes[..], 0, root) && Represents(bytes[..], pos, remaining, node)
    }

    constructor (bytes: array<byte>, ghost root: Node)
      requires Encodes(bytes[..], 0, root)
      ensures this.bytes == bytes && this.root == root
      ensures Valid() && node == Some(root)
    {
      this.bytes, this.root := bytes, root;
      pos, remaining := Some(0), -1;
      node := Some(root);
    }

    method Reset()
      requires Valid()
      modifies this
      ensures Valid() && node == Some(root)
    {
      pos, remaining := Some(0), -1;
      node := Some(root);
    }

    method SaveState(state: State)
      requires Valid()
      modifies state
      ensures state.Valid() && state.bytes == bytes && state.node == node
      ensures state.pos == pos && state.remaining == remaining
    {
      state.bytes, state.pos, state.remaining := bytes, pos, remaining;
      state.node := node;
    }

    /** Goes back to a state saved from a reader of the same bytes; any other state changes nothing. */
    method ResetToState(state: State)
      requires Valid() && state.Valid()
      modifies this
      ensures Valid()
      ensures state.bytes == bytes ==> node == state.node && pos == state.pos && remaining == state.remaining
      ensures state.bytes != bytes ==> node == old(node) && pos == old(pos) && remaining == old(remaining)
    {
      if bytes == state.bytes {
        pos, remaining := state.pos, state.remaining;
        node := state.node;
      }
    }

    method Current() returns (r: TrieResult)
      requires Valid()
      ensures r == ResultOf(node)
    {
      if pos.None? {
        r := NO_MATCH;
      } else if remaining < 0 {
        ResultAtNode(bytes[..], pos.value, node.value);
        r := ResultAt(bytes[pos.value]);
      } else {
        r := NO_VALUE;
      }
    }

    method Stop()
      modifies this
      ensures pos == None && node == None && remaining == old(remaining)
    {
      pos := None;
      node := None;
    }

    method First(inByte: int) returns (r: TrieResult)
      requires Valid()
      modifies this
      ensures Valid() && r == ResultOf(node)
      ensures 0 <= inByte <= 0xff ==> node == Step(root, inByte)
      ensures -0x100 <= inByte < 0 ==> node == Step(root, inByte + 0x100)
      ensures inByte < -0x100 || inByte > 0xff ==> node == None && r == NO_MATCH
    {
      StepOnInput(root, inByte);
      remaining := -1;
      r := NextImpl(0, InputByte(inByte), root);
    }

    method Next(inByte: int) returns (r: TrieResult)
      requires Valid()
      modifies this
      ensures Valid() && r == ResultOf(node) && (old(node).None? ==> node == None)
      ensures old(node).Some? && 0 <= inByte <= 0xff ==> node == Step(old(node).value, inByte)
      ensures old(node).Some? && -0x100 <= inByte < 0 ==> node == Step(old(node).value, inByte + 0x100)
      ensures inByte < -0x100 || inByte > 0xff ==> node == None && r == NO_MATCH
      ensures node == Run(old(node), [InputByte(inByte)])
    {
      if pos.None? {
        return NO_MATCH;
      }
      ghost var n := node.value;
      RunOne(n, InputByte(inByte));
      StepOnInput(n, inByte);
      if remaining >= 0 {
        assert bytes[..][pos.value + 0] == n.bytes[0];
        if InputByte(inByte) == bytes[pos.value] {
          r := Matched(pos.value + 1, remaining - 1, n.bytes, n.next);
        } else {
          Stop();
          r := NO_MATCH;
        }
      } else {
        r := NextImpl(pos.value, InputByte(inByte), n);
      }
    }

    /** One byte of a linear match was consumed, the first of `matching`; `left` is what remains of it, minus 1. */
    method Matched(p: nat, left: int, ghost matching: seq<byte>, ghost next: Node) returns (r: TrieResult)
      requires MAX_LINEAR_MATCH_LENGTH >= |matching| == left + 2 > 0 && p > 0 && Encodes(bytes[..], 0, root)
      requires Holds(bytes[..], p - 1, matching) && Encodes(bytes[..], p + left + 1, next)
      modifies this
      ensures Valid() && r == ResultOf(node)
      ensures node == Some(if left < 0 then next else LinearMatch(matching[1..], next))
    {
      remaining := left;
      pos := Some(p);
      if left < 0 {
        node := Some(next);
        ResultAtNode(bytes[..], p, next);
        r := ResultAt(bytes[p]);
      } else {
        node := Some(LinearMatch(matching[1..], next));
        assert Holds(bytes[..], p, matching[1..]) by {
          forall i | 0 <= i < |matching[1..]| ensures bytes[..][p + i] == matching[1..][i] {
            assert bytes[..][p - 1 + (i + 1)] == matching[i + 1];
          }
        }
        r := NO_VALUE;
      }
    }

    /** Matches one byte from a node lead byte at `p`, skipping intermediate values. */
    method NextImpl(p: nat, inByte: int, ghost n: Node) returns (r: TrieResult)
      requires remaining == -1 && Encodes(bytes[..], 0, root) && Encodes(bytes[..], p, n)
      modifies this
      ensures Valid() && node == Step(n, inByte) && r == ResultOf(node)
    {
      var at := p;
      ghost var here := n;
      while true
        invariant remaining == -1 && Encodes(bytes[..], at, here) && Step(here, inByte) == Step(n, inByte)
        decreases here
      {
        var lead := bytes[at];
        if lead < MIN_LINEAR_MATCH {
          var length := if lead == 0 then bytes[at + 1] + 1 else lead + 1;
          r := BranchNext(AfterBranchLength(bytes[..], at), length, inByte, here.edges);
          return;
        } else if lead < MIN_VALUE_LEAD {
          assert bytes[..][at + 1 + 0] == here.bytes[0];
          if inByte == bytes[at + 1] {
            r := Matched(at + 2, lead - MIN_LINEAR_MATCH - 1, here.bytes, here.next);
            return;
          }
          break;
        } else if lead % 2 == 1 {
          break;
        }
        at := AfterValue(bytes[..], at);
        here := here.next;
      }
      Stop();
      r := NO_MATCH;
    }

    /** Follows a branch of `length` edges: a binary search, then a list. */
    method BranchNext(p: nat, length: nat, inByte: int, ghost edges: seq<Edge>) returns (r: TrieResult)
      requires remaining == -1 && Encodes(bytes[..], 0, root)
      requires length == |edges| > 0 && Ascending(edges) && EncodesBranch(bytes[..], p, edges, 0, length)
      modifies this
      ensures Valid() && node == FindEdge(edges, 0, |edges|, inByte) && r == ResultOf(node)
    {
      hide Encodes, EncodesList, EncodesBranch, FindEdge;
      var at: nat, left: nat := p, length;
      ghost var lo: nat := 0;
      while left > MAX_BRANCH_LINEAR_SUB_NODE_LENGTH
        invariant 0 < left && lo + left <= |edges| && EncodesBranch(bytes[..], at, edges, lo, lo + left)
        invariant FindEdge(edges, lo, lo + left, inByte) == FindEdge(edges, 0, |edges|, inByte)
        invariant remaining == -1
        decreases left
      {
        BranchHalves(bytes[..], at, edges, lo, left);
        FindEdgeSplits(edges, lo, lo + left / 2, lo + left, inByte);
        if inByte < bytes[at] {
          at := JumpByDelta(bytes[..], at + 1);
          left := left / 2;
        } else {
          at := AfterDelta(bytes[..], at + 1);
          lo := lo + left / 2;
          left := left - left / 2;
        }
      }
      BranchIsList(bytes[..], at, edges, lo, left);
      r := ListNext(at, left, inByte, edges, lo);
    }

    /** The linear search through the last few edges. */
    method ListNext(p: nat, length: nat, inByte: int, ghost edges: seq<Edge>, ghost first: nat) returns (r: TrieResult)
      requires remaining == -1 && Encodes(bytes[..], 0, root)
      requires 0 < length && first + length <= |edges| && EncodesList(bytes[..], p, edges, first, first + length)
      modifies this
      ensures Valid() && node == FindEdge(edges, first, first + length, inByte) && r == ResultOf(node)
    {
      var at: nat, left: nat := p, length;
      ghost var lo: nat := first;
      while left > 1
        invariant 0 < left && lo + left == first + length && EncodesList(bytes[..], at, edges, lo, lo + left)
        invariant FindEdge(edges, lo, lo + left, inByte) == FindEdge(edges, first, first + length, inByte)
        invariant remaining == -1
      {
        if inByte == bytes[at] {
          at := at + 1;
          if !IsFinalAt(bytes[..], at) {
            at := AfterValue(bytes[..], at) + ValueOf(bytes[..], at);
          }
          r := Arrive(at, edges[lo].node);
          return;
        }
        left := left - 1;
        at := AfterValue(bytes[..], at + 1);
        lo := lo + 1;
      }
      if inByte == bytes[at] {
        r := Arrive(at + 1, edges[lo].node);
      } else {
        Stop();
        r := NO_MATCH;
      }
    }

    method Arrive(p: nat, ghost n: Node) returns (r: TrieResult)
      requires remaining == -1 && Encodes(bytes[..], 0, root) && Encodes(bytes[..], p, n)
      modifies this`pos, this`node
      ensures Valid() && node == Some(n) && r == ResultOf(node)
    {
      pos := Some(p);
      node := Some(n);
      ResultAtNode(bytes[..], p, n);
      r := ResultAt(bytes[p]);
    }

    /** Matches a whole string, stopping when it cannot go on. */
    method NextString(s: seq<int>) returns (r: TrieResult)
      requires Valid()
      modifies this
      ensures Valid() && node == Run(old(node), seq(|s|, i requires 0 <= i < |s| => InputByte(s[i])))
      ensures forall key: seq<byte> :: SameBytes(s, key) ==> node == Run(old(node), key)
      ensures r == ResultOf(node)
    {
      ghost var all := seq(|s|, i requires 0 <= i < |s| => InputByte(s[i]));
      forall key: seq<byte> | SameBytes(s, key) ensures key == all {
      }
      r := Current();
      var i := 0;
      while i < |s|
        invariant i <= |s| && Valid() && r == ResultOf(node)
        invariant Run(node, all[i..]) == Run(old(node), all)
      {
        assert all[i..][1..] == all[i + 1..];
        if !HasNext(r) {
          Stop();
          assert Run(None, all[i + 1..]) == None;
          return NO_MATCH;
        }
        assert [all[i]][1..] == [];
        r := Next(s[i]);
        i := i + 1;
      }
    }

    /** The value for the bytes matched so far; only to be called when there is one. */
    function GetValue(): (v: int32)
      requires Valid() && HasValue(node)
      reads this, bytes
      ensures v == node.value.value == L.Value(bytes[..], pos.value)
    {
      EncodesAsDocumented(bytes[..], pos.value, node.value);
      ValueOf(bytes[..], pos.value)
    }

    /** The one value that every continuation of the bytes matched so far leads to, if there is just one. */
    function HasUniqueValue(): (r: Option<int32>)
      requires Valid()
      reads this, bytes
      ensures node.None? ==> r == None
      ensures node.Some? ==> OneValue(node.value, r)
    {
      if pos.None? then None
      else
        // The search begins at the node that a pending match leads to.
        var r := FindUniqueValue(bytes[..], pos.value + remaining + 1, None,
                                 if remaining < 0 then node.value else node.value.next);
        assert Had(None) + Values(node.value) == Values(node.value);
        EncodedIsWellFormed(bytes[..], pos.value + remaining + 1,
                            if remaining < 0 then node.value else node.value.next);
        DecidedIsReached(node.value, r);
        r
    }
  }

  // ---------- the whole way: build, serialize, read ----------

  ghost function Serialize(m: Dict): seq<byte>
    requires m != map[]
  {
    BuildIsWellFormed(m);
    Write(Build(m), [])
  }

  /** Different maps have different serialized forms. */
  lemma SerializeIsInjective(m: Dict, other: Dict)
    requires m != map[] && other != map[] && Serialize(m) == Serialize(other) && |Serialize(m)| < 0x8000_0000
    ensures m == other
  {
    hide Build, WellFormed, Write, Encodes;
    BuildIsWellFormed(m);
    BuildIsWellFormed(other);
    WriteEncodes(Build(m), []);
    WriteEncodes(Build(other), []);
    EncodingIsUnambiguous(Serialize(m), 0, Build(m), Build(other));
    forall s: seq<byte> ensures s in m <==> s in other {
      KeysMatch(m, s);
      KeysMatch(other, s);
    }
    forall s: seq<byte> | s in m ensures m[s] == other[s] {
      KeysMatch(m, s);
      KeysMatch(other, s);
    }
  }

  lemma KeysMatch(m: Dict, s: seq<byte>)
    requires m != map[]
    ensures var n := Run(Some(Build(m)), s);
      (s in m <==> HasValue(n)) && (s in m ==> n.value.value == m[s])
  {
    hide Build;
    BuiltTrieMatchesMap(m, s);
    if s in m { assert StartsWith(s, s); }
    if IsKey(m, s) {
      var t :| t in m && StartsWith(t, s) && |t| == |s|;
      assert t == s;
    }
  }

  /**
   The serialized form of any map, read as the layout documents: a string matches exactly if some key begins with it;
   it has a value exactly if it is a key, its value in the map; and it can go on exactly if some key continues it.
   */
  lemma SerializedAsDocumented(m: Dict, key: seq<int>)
    requires m != map[] && |Serialize(m)| < 0x8000_0000
    ensures var b := Serialize(m);
      var place := L.FollowAll(b, Some(L.Place(0, 0)), key);
      && (place.Some? <==> IsKey(m, key) || Continues(m, key))
      && (place.Some? ==>
            && (L.HasValueAt(b, place.value) <==> IsKey(m, key))
            && (L.CanContinue(b, place.value) <==> Continues(m, key))
            && forall s :: s in m && StartsWith(s, key) && |s| == |key| ==> L.Value(b, place.value.pos) == m[s])
  {
    var b := Serialize(m);
    BuildIsWellFormed(m);
    WriteEncodes(Build(m), []);
    BuiltTrieMatchesMap(m, key);
    hide Build, Serialize, Write, Encodes, WellFormed, L.FollowAll, L.Value, L.HasValueAt, L.CanContinue, Run;
    FollowAllIsRun(b, Some(L.Place(0, 0)), Some(Build(m)), key);
    var place, node := L.FollowAll(b, Some(L.Place(0, 0)), key), Run(Some(Build(m)), key);
    if node.Some? { PlaceOfNode(b, place.value, node.value); }
  }

  lemma KeysAndPrefixes(m: Dict, key: seq<byte>)
    ensures IsKey(m, key) <==> key in m
    ensures Continues(m, key) <==> exists s :: s in m && key < s
  {
    if key in m { assert StartsWith(key, key); }
    if IsKey(m, key) {
      var s :| s in m && StartsWith(s, key) && |s| == |key|;
      assert s == key;
    }
    forall s: seq<byte> ensures StartsWith(s, key) && |s| > |key| <==> key < s {
      if StartsWith(s, key) { assert s[..|key|] == key; }
    }
  }

  /** Any string looked up in the serialized form of any map gives what the map says; characters may be signed. */
  method LookUp(bytes: array<byte>, ghost m: Dict, chars: seq<int>, ghost key: seq<byte>)
    returns (r: TrieResult, v: Option<int32>)
    requires m != map[] && bytes[..] == Serialize(m) && bytes.Length < 0x8000_0000 && SameBytes(chars, key)
    ensures r == ResultIn(m, key)
    ensures r == FINAL_VALUE || r == INTERMEDIATE_VALUE <==> key in m
    ensures r == NO_VALUE || r == INTERMEDIATE_VALUE <==> exists s :: s in m && key < s
    ensures v == if key in m then Some(m[key]) else None
  {
    hide Build, WellFormed, Write, Encodes;
    BuildIsWellFormed(m);
    WriteEncodes(Build(m), []);
    BuiltTrieMatchesMap(m, key);
    KeysMatch(m, key);
    KeysAndPrefixes(m, key);
    var trie := new BytesTrie(bytes, Build(m));
    r := trie.NextString(chars);
    v := if r == FINAL_VALUE || r == INTERMEDIATE_VALUE then Some(trie.GetValue()) else None;
  }
}
