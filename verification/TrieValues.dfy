/** The values below a node, and deciding from the bytes whether they are all the same. */
module TrieValues {
  import opened Machine
  import opened TrieCodec
  import opened TrieNodes

  ghost function Values(n: Node): set<int32>
    decreases n, 0
  {
    match n
    case FinalValue(v) => {v}
    case IntermediateValue(v, next) => {v} + Values(next)
    case LinearMatch(_, next) => Values(next)
    case Branch(edges) => EdgeValues(edges, 0, |edges|)
  }

  ghost function EdgeValues(edges: seq<Edge>, lo: nat, hi: nat): set<int32>
    requires lo <= hi <= |edges|
    decreases edges, 1, hi - lo
  {
    if lo == hi then {}
    else
      assert edges[lo].node < edges[lo];
      Values(edges[lo].node) + EdgeValues(edges, lo + 1, hi)
  }

  lemma {:induction false} EdgeValuesSplit(edges: seq<Edge>, lo: nat, mid: nat, hi: nat)
    requires lo <= mid <= hi <= |edges|
    ensures EdgeValues(edges, lo, hi) == EdgeValues(edges, lo, mid) + EdgeValues(edges, mid, hi)
    decreases mid - lo
  {
    if lo < mid { EdgeValuesSplit(edges, lo + 1, mid, hi); }
  }

  // ---------- these are the values that some input reaches ----------

  ghost predicate Reaches(n: Node, key: seq<int>, v: int32) {
    var r := Run(Some(n), key);
    HasValue(r) && r.value.value == v
  }

  lemma {:induction false} RunThroughMatch(bytes: seq<byte>, next: Node, key: seq<int>)
    requires bytes != []
    ensures Run(Some(LinearMatch(bytes, next)), bytes + key) == Run(Some(next), key)
  {
    assert (bytes + key)[1..] == bytes[1..] + key;
    if |bytes| == 1 {
      assert bytes[1..] + key == key;
    } else {
      RunThroughMatch(bytes[1..], next, key);
    }
  }

  lemma {:induction false} ValueIsReached(n: Node, v: int32) returns (key: seq<int>)
    requires WellFormed(n) && v in Values(n)
    ensures Reaches(n, key, v)
    decreases n, 0
  {
    match n
    case FinalValue(_) =>
      key := [];
    case IntermediateValue(w, next) =>
      if v == w {
        key := [];
      } else {
        key := ValueIsReached(next, v);
      }
    case LinearMatch(bytes, next) =>
      key := ValueIsReached(next, v);
      RunThroughMatch(bytes, next, key);
      key := bytes + key;
    case Branch(edges) =>
      key := EdgeValueIsReached(edges, 0, v);
  }

  lemma {:induction false} EdgeValueIsReached(edges: seq<Edge>, lo: nat, v: int32) returns (key: seq<int>)
    requires lo < |edges| && Ascending(edges) && WellFormedEdges(edges) && v in EdgeValues(edges, lo, |edges|)
    ensures Reaches(Branch(edges), key, v)
    decreases edges, 1, |edges| - lo
  {
    assert edges[lo].node < edges[lo];
    if v in Values(edges[lo].node) {
      key := ValueIsReached(edges[lo].node, v);
      FindKey(edges, 0, lo);
      assert ([edges[lo].key as int] + key)[1..] == key;
      key := [edges[lo].key as int] + key;
    } else {
      key := EdgeValueIsReached(edges, lo + 1, v);
    }
  }

  lemma {:induction false} FoundEdgeValues(edges: seq<Edge>, lo: nat, k: int)
    requires lo <= |edges|
    ensures var found := FindEdge(edges, lo, |edges|, k);
      found.Some? ==> Values(found.value) <= EdgeValues(edges, lo, |edges|)
    decreases |edges| - lo
  {
    if lo < |edges| { FoundEdgeValues(edges, lo + 1, k); }
  }

  lemma {:induction false} StepKeepsValues(n: Node, k: int)
    ensures Step(n, k).Some? ==> Values(Step(n, k).value) <= Values(n)
  {
    match n
    case FinalValue(_) =>
    case IntermediateValue(_, next) => StepKeepsValues(next, k);
    case LinearMatch(_, _) =>
    case Branch(edges) => FoundEdgeValues(edges, 0, k);
  }

  lemma {:induction false} ReachedIsValue(n: Node, key: seq<int>, v: int32)
    requires Reaches(n, key, v)
    ensures v in Values(n)
    decreases key
  {
    if key != [] {
      assert Run(None, key[1..]) == None;
      StepKeepsValues(n, key[0]);
      ReachedIsValue(Step(n, key[0]).value, key[1..], v);
    }
  }

  /** `Values` is exactly the set of values that inputs reach. */
  lemma ValuesAreReached(n: Node, v: int32)
    requires WellFormed(n)
    ensures v in Values(n) <==> exists key: seq<int> :: Reaches(n, key, v)
  {
    if v in Values(n) {
      var key := ValueIsReached(n, v);
    }
    if key: seq<int> :| Reaches(n, key, v) {
      ReachedIsValue(n, key, v);
    }
  }

  // ---------- one value or several, from the bytes ----------

  ghost function Had(have: Option<int32>): set<int32> {
    if have.Some? then {have.value} else {}
  }

  ghost predicate Decides(r: Option<int32>, values: set<int32>) {
    match r
    case Some(v) => values == {v}
    case None => exists x, y :: x in values && y in values && x != y
  }

  /** All inputs that have a value have value `r`, and there is one; or two inputs have different values. */
  ghost predicate OneValue(n: Node, r: Option<int32>) {
    match r
    case Some(v) =>
      (exists key: seq<int> :: Reaches(n, key, v)) &&
      forall key: seq<int>, w: int32 :: Reaches(n, key, w) ==> w == v
    case None =>
      exists key: seq<int>, v: int32, other: seq<int>, w: int32 ::
        Reaches(n, key, v) && Reaches(n, other, w) && v != w
  }

  lemma DecidedIsReached(n: Node, r: Option<int32>)
    requires WellFormed(n) && Decides(r, Values(n))
    ensures OneValue(n, r)
  {
    match r
    case Some(v) =>
      ValuesAreReached(n, v);
      forall key: seq<int>, w: int32 | Reaches(n, key, w) ensures w == v {
        ReachedIsValue(n, key, w);
      }
    case None =>
      var v, w :| v in Values(n) && w in Values(n) && v != w;
      var key := ValueIsReached(n, v);
      var other := ValueIsReached(n, w);
  }

  lemma DecidesMore(values: set<int32>, more: set<int32>)
    requires Decides(None, values) && values <= more
    ensures Decides(None, more)
  {
  }

  /** `have` is the value seen so far, if any; `None` means that there are at least two different values. */
  function AddValue(have: Option<int32>, v: int32): (r: Option<int32>)
    ensures Decides(r, Had(have) + {v})
  {
    if have.None? || have.value == v then Some(v)
    else
      assert have.value in Had(have) + {v} && v in Had(have) + {v};
      None
  }

  /** Decides whether all values below the node at `pos`, and `have`, are the same. */
  function FindUniqueValue(b: seq<byte>, pos: nat, have: Option<int32>, ghost n: Node): (r: Option<int32>)
    requires Encodes(b, pos, n)
    ensures Decides(r, Had(have) + Values(n))
    decreases n, 0
  {
    var node := b[pos];
    if node < MIN_LINEAR_MATCH then
      var length := if node == 0 then b[pos + 1] + 1 else node + 1;
      FindUniqueValueFromBranch(b, AfterBranchLength(b, pos), length, have, n.edges, 0)
    else if node < MIN_VALUE_LEAD then
      FindUniqueValue(b, pos + 1 + (node - MIN_LINEAR_MATCH + 1), have, n.next)
    else
      var r := AddValue(have, ValueOf(b, pos));
      if r.None? then
        DecidesMore(Had(have) + {ValueOf(b, pos)}, Had(have) + Values(n));
        None
      else if IsFinalAt(b, pos) then r
      else
        assert Had(r) + Values(n.next) == Had(have) + Values(n);
        FindUniqueValue(b, AfterValue(b, pos), r, n.next)
  }

  /** The same, for a branch sub-node of `length` edges. */
  function FindUniqueValueFromBranch(
    b: seq<byte>, pos: nat, length: nat, have: Option<int32>, ghost edges: seq<Edge>, ghost lo: nat): (r: Option<int32>)
    requires 0 < length && lo + length <= |edges| && EncodesBranch(b, pos, edges, lo, lo + length)
    ensures Decides(r, Had(have) + EdgeValues(edges, lo, lo + length))
    decreases edges, 1, length
  {
    assert EncodesBranch(b, pos, edges, lo, lo + length);
    hide Encodes, EncodesList, EdgeValues, Values;
    if length > MAX_BRANCH_LINEAR_SUB_NODE_LENGTH then
      var half := length / 2;
      EdgeValuesSplit(edges, lo, lo + half, lo + length);
      var r := FindUniqueValueFromBranch(b, JumpByDelta(b, pos + 1), half, have, edges, lo);
      if r.None? then
        DecidesMore(Had(have) + EdgeValues(edges, lo, lo + half), Had(have) + EdgeValues(edges, lo, lo + length));
        None
      else
        assert Had(r) + EdgeValues(edges, lo + half, lo + length) == Had(have) + EdgeValues(edges, lo, lo + length);
        FindUniqueValueFromBranch(b, AfterDelta(b, pos + 1), length - half, r, edges, lo + half)
    else
      FindUniqueValueInList(b, pos, length, have, edges, lo)
  }

  function FindUniqueValueInList(
    b: seq<byte>, pos: nat, length: nat, have: Option<int32>, ghost edges: seq<Edge>, ghost lo: nat): (r: Option<int32>)
    requires 0 < length && lo + length <= |edges| && EncodesList(b, pos, edges, lo, lo + length)
    ensures Decides(r, Had(have) + EdgeValues(edges, lo, lo + length))
    decreases edges, 0, length
  {
    assert edges[lo].node < edges[lo];
    hide Encodes, Values;
    assert EdgeValues(edges, lo, lo + length) == Values(edges[lo].node) + EdgeValues(edges, lo + 1, lo + length);
    if length == 1 then
      assert EdgeValues(edges, lo + 1, lo + length) == {};
      FindUniqueValue(b, pos + 1, have, edges[lo].node)
    else
      assert EncodesEntry(b, pos + 1, edges[lo].node);
      var v := ValueOf(b, pos + 1);
      var r :=
        if IsFinalAt(b, pos + 1) then AddValue(have, v)
        else FindUniqueValue(b, AfterValue(b, pos + 1) + v, have, edges[lo].node);
      if r.None? then
        DecidesMore(Had(have) + Values(edges[lo].node), Had(have) + EdgeValues(edges, lo, lo + length));
        None
      else
        assert Had(r) + EdgeValues(edges, lo + 1, lo + length) == Had(have) + EdgeValues(edges, lo, lo + length);
        FindUniqueValueInList(b, AfterValue(b, pos + 1), length - 1, r, edges, lo + 1)
  }
}
