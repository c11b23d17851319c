/**
 From a finite map of byte strings to the trie's nodes: the longest linear matches, broken into pieces of at most 16
 bytes of which only the first may be shorter, and branches where keys differ.
 */
module TrieBuilder {
  import opened Machine
  import opened TrieCodec
  import opened TrieNodes

  type Dict = map<seq<byte>, int32>

  // ---------- the map a match leaves behind ----------

  ghost predicate StartsWith(s: seq<byte>, prefix: seq<int>) {
    |prefix| <= |s| && forall i :: 0 <= i < |prefix| ==> s[i] == prefix[i]
  }

  ghost function Tails(keys: set<seq<byte>>, k: byte): set<seq<byte>> {
    set s | s in keys && StartsWith(s, [k]) :: s[1..]
  }

  /** The keys that begin with `k`, without it. */
  ghost function Strip(m: Dict, k: byte): (r: Dict) {
    map t | t in Tails(m.Keys, k) && [k] + t in m :: m[[k] + t]
  }

  lemma StripHas(m: Dict, k: byte, t: seq<byte>)
    ensures t in Strip(m, k) <==> [k] + t in m
    ensures t in Strip(m, k) ==> Strip(m, k)[t] == m[[k] + t]
  {
  }

  /** The length of the longest key. */
  ghost function Longest(keys: set<seq<byte>>): (r: nat)
    ensures forall s :: s in keys ==> |s| <= r
    ensures keys != {} ==> exists s :: s in keys && |s| == r
    ensures keys == {} ==> r == 0
  {
    if keys == {} then 0
    else
      var s :| s in keys;
      var r := Longest(keys - {s});
      assert keys == (keys - {s}) + {s};
      if |s| >= r then |s| else r
  }

  ghost predicate HasLongKey(m: Dict) {
    exists s :: s in m && s != []
  }

  lemma StripIsShorter(m: Dict, k: byte)
    requires HasLongKey(m)
    ensures Longest(Strip(m, k).Keys) < Longest(m.Keys)
  {
  }

  lemma LongKeys(m: Dict)
    requires m != map[] && m.Keys != {[]}
    ensures HasLongKey(m)
  {
  }

  /** The different first bytes of the keys, from `k` on, in ascending order. */
  ghost function FirstBytes(m: Dict, k: nat): (r: seq<byte>)
    requires k <= 0x100
    ensures |r| <= 0x100 - k
    ensures forall b :: b in r <==> k <= b < 0x100 && Strip(m, b) != map[]
    ensures forall i, j :: 0 <= i < j < |r| ==> r[i] < r[j]
    decreases 0x100 - k
  {
    if k == 0x100 then []
    else if Strip(m, k) == map[] then FirstBytes(m, k + 1)
    else
      var rest := FirstBytes(m, k + 1);
      assert forall i :: 0 <= i < |rest| ==> rest[i] in rest;
      assert forall b :: b in [k] + rest <==> b == k || b in rest;
      [k] + rest
  }

  /** Every first byte leads to a smaller map. */
  ghost predicate LeadsDown(m: Dict, keys: seq<byte>, longest: nat) {
    forall i :: 0 <= i < |keys| ==> Strip(m, keys[i]) != map[] && Longest(Strip(m, keys[i]).Keys) < longest
  }

  lemma FirstBytesLead(m: Dict)
    requires HasLongKey(m)
    ensures FirstBytes(m, 0) != [] && LeadsDown(m, FirstBytes(m, 0), Longest(m.Keys))
  {
    var keys := FirstBytes(m, 0);
    var s :| s in m && s != [];
    StripHas(m, s[0], s[1..]);
    assert [s[0]] + s[1..] == s;
    assert s[0] in keys;
    forall i | 0 <= i < |keys|
      ensures Strip(m, keys[i]) != map[] && Longest(Strip(m, keys[i]).Keys) < Longest(m.Keys)
    {
      assert keys[i] in keys;
      StripIsShorter(m, keys[i]);
    }
  }

  // ---------- building ----------

  function Prepend(b: byte, n: Node): Node {
    if n.LinearMatch? && |n.bytes| < MAX_LINEAR_MATCH_LENGTH then LinearMatch([b] + n.bytes, n.next)
    else LinearMatch([b], n)
  }

  ghost function Build(m: Dict): (n: Node)
    requires m != map[]
    decreases Longest(m.Keys), 2
  {
    if m.Keys == {[]} then FinalValue(m[[]])
    else
      LongKeys(m);
      if [] in m then IntermediateValue(m[[]], BuildMatch(m)) else BuildMatch(m)
  }

  ghost function BuildMatch(m: Dict): (n: Node)
    requires HasLongKey(m)
    decreases Longest(m.Keys), 1
  {
    var keys := FirstBytes(m, 0);
    FirstBytesLead(m);
    if |keys| == 1 then Prepend(keys[0], Build(Strip(m, keys[0])))
    else Branch(BuildEdges(m, keys, |keys|, Longest(m.Keys)))
  }

  ghost function BuildEdges(m: Dict, keys: seq<byte>, n: nat, longest: nat): (edges: seq<Edge>)
    requires LeadsDown(m, keys, longest) && n <= |keys|
    ensures |edges| == n
    ensures forall i :: 0 <= i < n ==> edges[i].key == keys[i] && edges[i].node == Build(Strip(m, keys[i]))
    decreases longest, 0, n
  {
    assert LeadsDown(m, keys, longest);
    hide Strip;
    if n == 0 then []
    else BuildEdges(m, keys, n - 1, longest) + [Edge(keys[n - 1], Build(Strip(m, keys[n - 1])))]
  }

  lemma {:induction false} BuildIsWellFormed(m: Dict)
    requires m != map[]
    ensures WellFormed(Build(m))
    decreases Longest(m.Keys), 1
  {
    if m.Keys != {[]} {
      LongKeys(m);
      BuildMatchIsWellFormed(m);
    }
  }

  lemma {:induction false} BuildMatchIsWellFormed(m: Dict)
    requires HasLongKey(m)
    ensures WellFormed(BuildMatch(m)) && (BuildMatch(m).LinearMatch? || BuildMatch(m).Branch?)
    decreases Longest(m.Keys), 0
  {
    hide Strip, Build, WellFormed, Prepend, FirstBytes, BuildEdges, Longest;
    var keys := FirstBytes(m, 0);
    FirstBytesLead(m);
    forall i | 0 <= i < |keys| ensures WellFormed(Build(Strip(m, keys[i]))) {
      BuildIsWellFormed(Strip(m, keys[i]));
    }
    if |keys| == 1 {
      PrependIsWellFormed(keys[0], Build(Strip(m, keys[0])));
    } else {
      BuiltBranchIsWellFormed(m, keys, BuildEdges(m, keys, |keys|, Longest(m.Keys)));
    }
  }

  lemma PrependIsWellFormed(b: byte, n: Node)
    requires WellFormed(n)
    ensures WellFormed(Prepend(b, n)) && Prepend(b, n).LinearMatch?
  {
  }

  lemma BuiltBranchIsWellFormed(m: Dict, keys: seq<byte>, edges: seq<Edge>)
    requires 2 <= |keys| == |edges| <= 0x100 && forall i, j :: 0 <= i < j < |keys| ==> keys[i] < keys[j]
    requires forall i :: 0 <= i < |keys| ==> edges[i].key == keys[i] && WellFormed(edges[i].node)
    ensures WellFormed(Branch(edges))
  {
  }

  // ---------- a step in the trie is a byte taken off the keys ----------

  ghost predicate IsFirstByte(m: Dict, k: int) {
    0 <= k < 0x100 && Strip(m, k) != map[]
  }

  /** Consuming a byte is the same as taking that byte off the keys before building. */
  lemma StepIsStrip(m: Dict, k: int)
    requires m != map[]
    ensures Step(Build(m), k) == if IsFirstByte(m, k) then Some(Build(Strip(m, k))) else None
  {
    if m.Keys == {[]} {
      if IsFirstByte(m, k) {
        var t :| t in Strip(m, k);
        StripHas(m, k, t);
        assert false;
      }
    } else {
      LongKeys(m);
      StepMatchIsStrip(m, k);
    }
  }

  lemma PrependSteps(b: byte, n: Node, k: int)
    requires WellFormed(n)
    ensures Step(Prepend(b, n), k) == if k == b then Some(n) else None
  {
  }

  lemma StepMatchIsStrip(m: Dict, k: int)
    requires HasLongKey(m)
    ensures Step(BuildMatch(m), k) == if IsFirstByte(m, k) then Some(Build(Strip(m, k))) else None
  {
    hide Strip, Build, WellFormed, Prepend, FirstBytes, BuildEdges, Longest;
    var keys := FirstBytes(m, 0);
    FirstBytesLead(m);
    assert forall i :: 0 <= i < |keys| ==> keys[i] in keys;
    if |keys| == 1 {
      BuildIsWellFormed(Strip(m, keys[0]));
      PrependSteps(keys[0], Build(Strip(m, keys[0])), k);
      assert IsFirstByte(m, k) <==> k == keys[0];
    } else {
      var edges := BuildEdges(m, keys, |keys|, Longest(m.Keys));
      if IsFirstByte(m, k) {
        assert k in keys;
        var i :| 0 <= i < |keys| && keys[i] == k;
        FindKey(edges, 0, i);
      } else {
        FindNothing(edges, 0, k);
      }
    }
  }

  // ---------- the nodes match exactly the map ----------

  ghost predicate IsKey(m: Dict, key: seq<int>) {
    exists s :: s in m && StartsWith(s, key) && |s| == |key|
  }

  /** Some longer key continues `key`. */
  ghost predicate Continues(m: Dict, key: seq<int>) {
    exists s :: s in m && StartsWith(s, key) && |s| > |key|
  }

  /** What a reader should say after `key`: has it a value, can another byte continue it? */
  ghost function ResultIn(m: Dict, key: seq<int>): TrieResult {
    if IsKey(m, key) then if Continues(m, key) then INTERMEDIATE_VALUE else FINAL_VALUE
    else if Continues(m, key) then NO_VALUE
    else NO_MATCH
  }

  lemma UnderStrip(m: Dict, key: seq<int>)
    requires key != [] && 0 <= key[0] < 0x100
    ensures IsKey(m, key) <==> IsKey(Strip(m, key[0]), key[1..])
    ensures Continues(m, key) <==> Continues(Strip(m, key[0]), key[1..])
    ensures forall s :: s in m && StartsWith(s, key) ==>
              s[1..] in Strip(m, key[0]) && StartsWith(s[1..], key[1..]) && Strip(m, key[0])[s[1..]] == m[s]
  {
    var k: byte := key[0];
    forall s | s in m && StartsWith(s, key)
      ensures s[1..] in Strip(m, k) && StartsWith(s[1..], key[1..]) && Strip(m, k)[s[1..]] == m[s]
    {
      assert s[0] == key[0] && [k] + s[1..] == s;
      StripHas(m, k, s[1..]);
    }
    forall t | t in Strip(m, k) && StartsWith(t, key[1..])
      ensures [k] + t in m && StartsWith([k] + t, key)
    {
      StripHas(m, k, t);
    }
  }

  lemma {:induction false} BuiltTrieMatchesMap(m: Dict, key: seq<int>)
    requires m != map[]
    ensures ResultOf(Run(Some(Build(m)), key)) == ResultIn(m, key)
    ensures forall s :: s in m && StartsWith(s, key) && |s| == |key| ==>
              HasValue(Run(Some(Build(m)), key)) && Run(Some(Build(m)), key).value.value == m[s]
    decreases key
  {
    if key == [] {
      BuiltRoot(m);
    } else {
      StepIsStrip(m, key[0]);
      if IsFirstByte(m, key[0]) {
        UnderStrip(m, key);
        BuiltTrieMatchesMap(Strip(m, key[0]), key[1..]);
      } else {
        forall s | s in m && StartsWith(s, key) ensures false {
          UnderStrip(m, key);
        }
      }
    }
  }

  lemma BuiltRoot(m: Dict)
    requires m != map[]
    ensures ResultOf(Some(Build(m))) == ResultIn(m, [])
    ensures [] in m ==> HasValue(Some(Build(m))) && Build(m).value == m[[]]
  {
  }
}
