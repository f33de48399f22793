/**
 The order in which the batched insertion writes nodes: all leaves first, then level by
 level the distinct parents of the level below, each once, in the order they are first seen.
 */
module WriteOrder {
  import opened Words
  import opened MerkleSpec

  datatype TreeLeaf = TreeLeaf(index: uint32, value: Word)

  datatype NodeWrite = NodeWrite(node: Node, word: Word)

  // ---------- leaf lists ----------

  /** The leaf map a list of leaf writes leaves behind: the last write of an index wins. */
  function LastWrites(leaves: seq<TreeLeaf>): Leaves {
    if leaves == [] then map[]
    else LastWrites(leaves[..|leaves| - 1])[leaves[|leaves| - 1].index := leaves[|leaves| - 1].value]
  }

  function Indices(leaves: seq<TreeLeaf>): (r: seq<nat>)
    ensures |r| == |leaves|
  {
    seq(|leaves|, k requires 0 <= k < |leaves| => leaves[k].index)
  }

  lemma {:induction false} LastWritesKeys(leaves: seq<TreeLeaf>)
    ensures LastWrites(leaves).Keys == set i | i in Indices(leaves)
  {
    if leaves != [] {
      var front := leaves[..|leaves| - 1];
      LastWritesKeys(front);
      assert Indices(leaves) == Indices(front) + [leaves[|leaves| - 1].index];
    }
  }

  lemma {:induction false} LastWritesConcat(a: seq<TreeLeaf>, b: seq<TreeLeaf>)
    ensures LastWrites(a + b) == LastWrites(a) + LastWrites(b)
  {
    if b == [] {
      assert a + b == a;
    } else {
      LastWritesConcat(a, b[..|b| - 1]);
      assert (a + b)[..|a + b| - 1] == a + b[..|b| - 1];
    }
  }

  // ---------- layers ----------

  /** The distinct parents of `s`, in first-seen order. */
  function Parents(s: seq<nat>): seq<nat> {
    if s == [] then []
    else
      var seen := Parents(s[..|s| - 1]);
      var q := s[|s| - 1] / 2;
      if q in seen then seen else seen + [q]
  }

  function Layer(s: seq<nat>, level: nat): seq<nat> {
    if level == 0 then s else Parents(Layer(s, level - 1))
  }

  ghost predicate Distinct<T(!new)>(s: seq<T>) {
    forall j, k :: 0 <= j < k < |s| ==> s[j] != s[k]
  }

  lemma {:induction false} ParentsSound(s: seq<nat>, q: nat)
    ensures q in Parents(s) <==> 2 * q in s || 2 * q + 1 in s
  {
    if s != [] {
      var front, last := s[..|s| - 1], s[|s| - 1];
      ParentsSound(front, q);
      assert s == front + [last];
      assert q == last / 2 <==> last == 2 * q || last == 2 * q + 1;
    }
  }

  lemma {:induction false} ParentsDistinct(s: seq<nat>)
    ensures Distinct(Parents(s)) && |Parents(s)| <= |s|
  {
    if s != [] {
      ParentsDistinct(s[..|s| - 1]);
    }
  }

  /** Every level visits exactly the nodes above the written leaves. */
  lemma {:induction false} LayerHit(s: seq<nat>, keys: set<nat>, level: nat, q: nat)
    requires forall i :: i in keys <==> i in s
    ensures q in Layer(s, level) <==> Hit(keys, level, q)
  {
    if level > 0 {
      LayerHit(s, keys, level - 1, 2 * q);
      LayerHit(s, keys, level - 1, 2 * q + 1);
      ParentsSound(Layer(s, level - 1), q);
    }
  }

  lemma {:induction false} LayerShrinks(s: seq<nat>, level: nat)
    ensures |Layer(s, level)| <= |s|
    ensures level > 0 ==> Distinct(Layer(s, level))
  {
    if level > 0 {
      LayerShrinks(s, level - 1);
      ParentsDistinct(Layer(s, level - 1));
    }
  }

  /** A list of distinct numbers below `n` has at most `n` members. */
  lemma {:induction false} DistinctBelow(s: seq<nat>, n: nat)
    requires Distinct(s) && forall k :: 0 <= k < |s| ==> s[k] < n
    ensures |s| <= n
    decreases n
  {
    if |s| > 0 {
      assert s[0] < n;
      if k :| 0 <= k < |s| && s[k] == n - 1 {
        DistinctBelow(s[..k] + s[k + 1..], n - 1);
      } else {
        DistinctBelow(s, n - 1);
      }
    }
  }

  lemma {:induction false} LayerBelow(s: seq<nat>, level: nat, depth: nat)
    requires level <= depth && forall k :: 0 <= k < |s| ==> s[k] < Pow2(depth)
    ensures forall k :: 0 <= k < |Layer(s, level)| ==> Layer(s, level)[k] < Pow2(depth - level)
  {
    if level > 0 {
      var below := Layer(s, level - 1);
      LayerBelow(s, level - 1, depth);
      assert Pow2(depth - (level - 1)) == 2 * Pow2(depth - level);
      forall k | 0 <= k < |Layer(s, level)| ensures Layer(s, level)[k] < Pow2(depth - level) {
        ParentsSound(below, Layer(s, level)[k]);
      }
    }
  }

  // ---------- the writes ----------

  /** What a sequence of writes leaves behind: the last write of a node wins. */
  function WrittenBy(writes: seq<NodeWrite>): Nodes {
    if writes == [] then map[]
    else WrittenBy(writes[..|writes| - 1])[writes[|writes| - 1].node := writes[|writes| - 1].word]
  }

  lemma {:induction false} WrittenByConcat(a: seq<NodeWrite>, b: seq<NodeWrite>)
    ensures WrittenBy(a + b) == WrittenBy(a) + WrittenBy(b)
  {
    if b == [] {
      assert a + b == a;
    } else {
      WrittenByConcat(a, b[..|b| - 1]);
      assert (a + b)[..|a + b| - 1] == a + b[..|b| - 1];
    }
  }

  function LeafWrites(leaves: seq<TreeLeaf>): seq<NodeWrite> {
    seq(|leaves|, k requires 0 <= k < |leaves| => NodeWrite(Node(0, leaves[k].index), leaves[k].value))
  }

  /** The hash of the children, at `level`, of the node with index `q` one level up. */
  function NodeHash(p: Params, m: Nodes, level: nat, q: nat): Word {
    p.hash(Read(p, m, Node(level, 2 * q)), Read(p, m, Node(level, 2 * q + 1)))
  }

  function HashWrites(p: Params, m: Nodes, level: nat, parents: seq<nat>): (r: seq<NodeWrite>)
    ensures |r| == |parents|
  {
    seq(|parents|, k requires 0 <= k < |parents| =>
      NodeWrite(Node(level + 1, parents[k]), NodeHash(p, m, level, parents[k])))
  }

  /** All the writes of a batched insertion over `m`, up to `level`. */
  function InsertWrites(p: Params, m: Nodes, leaves: seq<TreeLeaf>, level: nat): seq<NodeWrite> {
    if level == 0 then LeafWrites(leaves)
    else
      var below := InsertWrites(p, m, leaves, level - 1);
      below + HashWrites(p, m + WrittenBy(below), level - 1, Layer(Indices(leaves), level))
  }

  lemma {:induction false} LeafWritesLeave(leaves: seq<TreeLeaf>, n: Node)
    ensures n in WrittenBy(LeafWrites(leaves)) <==> n.level == 0 && n.index in LastWrites(leaves)
    ensures n in WrittenBy(LeafWrites(leaves)) ==> WrittenBy(LeafWrites(leaves))[n] == LastWrites(leaves)[n.index]
  {
    if leaves != [] {
      var front := leaves[..|leaves| - 1];
      LeafWritesLeave(front, n);
      assert LeafWrites(leaves)[..|leaves| - 1] == LeafWrites(front);
    }
  }

  lemma {:induction false} HashWritesLeave(p: Params, m: Nodes, level: nat, parents: seq<nat>, n: Node)
    ensures n in WrittenBy(HashWrites(p, m, level, parents)) <==> n.level == level + 1 && n.index in parents
    ensures n in WrittenBy(HashWrites(p, m, level, parents)) ==>
              WrittenBy(HashWrites(p, m, level, parents))[n] == NodeHash(p, m, level, n.index)
  {
    if parents != [] {
      var front := parents[..|parents| - 1];
      HashWritesLeave(p, m, level, front, n);
      assert HashWrites(p, m, level, parents)[..|parents| - 1] == HashWrites(p, m, level, front);
      assert parents == front + [parents[|parents| - 1]];
    }
  }

  /** The writes up to a level leave exactly the update of those levels. */
  lemma {:induction false} InsertWritesLeave(p: Params, m: Nodes, leaves: seq<TreeLeaf>, level: nat)
    ensures WrittenBy(InsertWrites(p, m, leaves, level)) == UpdatesUpTo(p, m, LastWrites(leaves), level)
  {
    var holds := (l: nat) => WrittenBy(InsertWrites(p, m, leaves, l)) == UpdatesUpTo(p, m, LastWrites(leaves), l);
    LeafWritesAre(p, m, leaves);
    forall l: nat | l < level && holds(l) ensures holds(l + 1) {
      LeavesNext(p, m, leaves, l + 1);
    }
    Climb(holds, level);
  }

  /** What holds at the leaves and goes up level by level holds at every level. */
  lemma {:induction false} Climb(holds: nat -> bool, level: nat)
    requires holds(0) && forall l: nat :: l < level && holds(l) ==> holds(l + 1)
    ensures holds(level)
  {
    if level > 0 {
      Climb(holds, level - 1);
    }
  }

  lemma {:induction false} LeavesNext(p: Params, m: Nodes, leaves: seq<TreeLeaf>, level: nat)
    requires level > 0
    requires WrittenBy(InsertWrites(p, m, leaves, level - 1)) == UpdatesUpTo(p, m, LastWrites(leaves), level - 1)
    ensures WrittenBy(InsertWrites(p, m, leaves, level)) == UpdatesUpTo(p, m, LastWrites(leaves), level)
  {
    var before := InsertWrites(p, m, leaves, level - 1);
    var writes := HashWrites(p, m + WrittenBy(before), level - 1, Layer(Indices(leaves), level));
    NextWrites(p, m, leaves, level, before, WrittenBy(before), writes);
  }

  lemma {:induction false} LeafWritesAre(p: Params, m: Nodes, leaves: seq<TreeLeaf>)
    ensures WrittenBy(LeafWrites(leaves)) == UpdatesUpTo(p, m, LastWrites(leaves), 0)
  {
    forall n: Node { LeafWritesLeave(leaves, n); }
  }

  lemma {:induction false} NextWrites(p: Params, m: Nodes, leaves: seq<TreeLeaf>, level: nat,
                                      before: seq<NodeWrite>, below: Nodes, writes: seq<NodeWrite>)
    requires level > 0 && below == WrittenBy(before) == UpdatesUpTo(p, m, LastWrites(leaves), level - 1)
    requires writes == HashWrites(p, m + below, level - 1, Layer(Indices(leaves), level))
    ensures WrittenBy(before + writes) == UpdatesUpTo(p, m, LastWrites(leaves), level)
  {
    WrittenByConcat(before, writes);
    LayerIs(leaves, level);
    LevelGrows(p, m, LastWrites(leaves), level, Layer(Indices(leaves), level), below, m + below, WrittenBy(writes),
               UpdatesUpTo(p, m, LastWrites(leaves), level));
  }

  lemma {:induction false} LayerIs(leaves: seq<TreeLeaf>, level: nat)
    ensures forall q: nat {:trigger q in Layer(Indices(leaves), level)} ::
              q in Layer(Indices(leaves), level) <==> Hit(LastWrites(leaves).Keys, level, q)
  {
    forall q: nat ensures q in Layer(Indices(leaves), level) <==> Hit(LastWrites(leaves).Keys, level, q) {
      LayerOf(leaves, level, q);
    }
  }

  lemma {:induction false} LevelGrows(p: Params, m: Nodes, last: Leaves, level: nat, layer: seq<nat>,
                                      below: Nodes, w: Nodes, top: Nodes, all: Nodes)
    requires level > 0 && forall q: nat {:trigger q in layer} :: q in layer <==> Hit(last.Keys, level, q)
    requires below == UpdatesUpTo(p, m, last, level - 1) && w == m + below
    requires top == WrittenBy(HashWrites(p, w, level - 1, layer)) && all == UpdatesUpTo(p, m, last, level)
    ensures below + top == all
  {
    forall n: Node
      ensures n in below || n in top <==> n in all
      ensures n in all ==> (below + top)[n] == all[n]
    {
      HashWritesLeave(p, w, level - 1, layer, n);
      NextLevel(p, m, last, level, layer, below, w, top, all, n);
    }
    SumIs(map[], below, top, all);
  }

  lemma {:induction false} NextLevel(p: Params, m: Nodes, last: Leaves, level: nat, layer: seq<nat>,
                                     below: Nodes, w: Nodes, top: Nodes, all: Nodes, n: Node)
    requires level > 0 && (n.index in layer <==> Hit(last.Keys, level, n.index))
    requires below == UpdatesUpTo(p, m, last, level - 1) && w == m + below && all == UpdatesUpTo(p, m, last, level)
    requires n in top <==> n.level == level && n.index in layer
    requires n in top ==> top[n] == NodeHash(p, w, level - 1, n.index)
    ensures n in below || n in top <==> n in all
    ensures n in all ==> (below + top)[n] == all[n]
  {
    if n in top {
      NextHash(p, m, last, w, level, n.index);
    }
  }

  lemma {:induction false} NextHash(p: Params, m: Nodes, last: Leaves, w: Nodes, level: nat, q: nat)
    requires level > 0 && w == m + UpdatesUpTo(p, m, last, level - 1) && Hit(last.Keys, level, q)
    ensures NodeHash(p, w, level - 1, q) == Rebuilt(p, m, last, level, q)
  {
    UpToReadsAs(p, m, last, w, level - 1);
    LevelHash(p, m, w, last, level, q);
  }

  lemma {:induction false} LevelHash(p: Params, m: Nodes, w: Nodes, last: Leaves, level: nat, q: nat)
    requires level > 0 && Hit(last.Keys, level, q) && ReadsAs(p, m, last, w, level - 1)
    ensures NodeHash(p, w, level - 1, q) == Rebuilt(p, m, last, level, q)
  {
  }

  // ---------- cost ----------

  function TotalParents(s: seq<nat>, level: nat): nat {
    if level == 0 then 0 else TotalParents(s, level - 1) + |Layer(s, level)|
  }

  /** One hash per distinct proper ancestor: each is written, and no node above the leaves is written twice ... */
  lemma {:induction false} AncestorsOnce(p: Params, m: Nodes, leaves: seq<TreeLeaf>, level: nat)
    ensures OnceAbove(InsertWrites(p, m, leaves, level), |leaves|, level)
    ensures forall n: Node :: WrittenFrom(InsertWrites(p, m, leaves, level), |leaves|, n)
                         <==> 1 <= n.level <= level && Hit(LastWrites(leaves).Keys, n.level, n.index)
    ensures |InsertWrites(p, m, leaves, level)| == |leaves| + TotalParents(Indices(leaves), level)
  {
    var writes, layers := (l: nat) => InsertWrites(p, m, leaves, l), (l: nat) => Layer(Indices(leaves), l);
    LevelByLevel(p, m, leaves, level, writes, layers);
    NoneTwice(writes, layers, |leaves|, level);
    CountWrites(p, m, leaves, level);
    forall n: Node
      ensures WrittenFrom(InsertWrites(p, m, leaves, level), |leaves|, n)
         <==> 1 <= n.level <= level && Hit(LastWrites(leaves).Keys, n.level, n.index)
    {
      LayerOf(leaves, n.level, n.index);
      LevelsWritten(writes, layers, |leaves|, level, n);
    }
  }

  /** What the next level adds: one write for each of its nodes. */
  lemma {:induction false} NextWritten(p: Params, m: Nodes, leaves: seq<TreeLeaf>, level: nat)
    returns (top: seq<NodeWrite>)
    requires level > 0
    ensures InsertWrites(p, m, leaves, level) == InsertWrites(p, m, leaves, level - 1) + top
    ensures WritesTo(top, level, Layer(Indices(leaves), level))
  {
    var below := InsertWrites(p, m, leaves, level - 1);
    top := HashWrites(p, m + WrittenBy(below), level - 1, Layer(Indices(leaves), level));
  }

  /** The writes go, in order, to these nodes of a level. */
  ghost predicate WritesTo(writes: seq<NodeWrite>, level: nat, layer: seq<nat>) {
    |writes| == |layer| && forall k :: 0 <= k < |writes| ==> writes[k].node == Node(level, layer[k])
  }

  /** Level `l + 1` adds one write for each of its nodes, which are distinct. */
  ghost predicate Grows(writes: nat -> seq<NodeWrite>, layers: nat -> seq<nat>, l: nat) {
    && writes(l) <= writes(l + 1) && Distinct(layers(l + 1))
    && WritesTo(writes(l + 1)[|writes(l)|..], l + 1, layers(l + 1))
  }

  lemma {:induction false} LevelByLevel(p: Params, m: Nodes, leaves: seq<TreeLeaf>, level: nat,
                                        writes: nat -> seq<NodeWrite>, layers: nat -> seq<nat>)
    requires forall l: nat :: writes(l) == InsertWrites(p, m, leaves, l)
    requires forall l: nat :: layers(l) == Layer(Indices(leaves), l)
    ensures |writes(0)| == |leaves| && forall l: nat :: l < level ==> Grows(writes, layers, l)
  {
    forall l: nat | l < level ensures Grows(writes, layers, l) {
      var top := NextWritten(p, m, leaves, l + 1);
      assert writes(l + 1) == writes(l) + top;
      LayerShrinks(Indices(leaves), l + 1);
    }
  }

  lemma {:induction false} CountWrites(p: Params, m: Nodes, leaves: seq<TreeLeaf>, level: nat)
    ensures |InsertWrites(p, m, leaves, level)| == |leaves| + TotalParents(Indices(leaves), level)
  {
    if level > 0 {
      CountWrites(p, m, leaves, level - 1);
    }
  }

  lemma {:induction false} NoneTwice(writes: nat -> seq<NodeWrite>, layers: nat -> seq<nat>, first: nat, level: nat)
    requires |writes(0)| == first && forall l: nat :: l < level ==> Grows(writes, layers, l)
    ensures |writes(level)| >= first && OnceAbove(writes(level), first, level)
  {
    if level > 0 {
      NoneTwice(writes, layers, first, level - 1);
      assert Grows(writes, layers, level - 1);
      var below, all := writes(level - 1), writes(level);
      OnceAboveNext(below, all[|below|..], layers(level), first, level);
      assert below + all[|below|..] == all;
    }
  }

  /** A node above the leaves is written by its own level, and by no other. */
  lemma {:induction false} LevelsWritten(writes: nat -> seq<NodeWrite>, layers: nat -> seq<nat>, first: nat, level: nat,
                                         n: Node)
    requires |writes(0)| == first && forall l: nat :: l < level ==> Grows(writes, layers, l)
    ensures |writes(level)| >= first
    ensures WrittenFrom(writes(level), first, n) <==> 1 <= n.level <= level && n.index in layers(n.level)
  {
    if level > 0 {
      LevelsWritten(writes, layers, first, level - 1, n);
      assert Grows(writes, layers, level - 1);
      var below, all := writes(level - 1), writes(level);
      LevelAdds(below, all[|below|..], layers(level), first, level, n, n.index in layers(n.level));
      assert below + all[|below|..] == all;
    }
  }

  lemma {:induction false} LevelAdds(below: seq<NodeWrite>, top: seq<NodeWrite>, layer: seq<nat>, first: nat,
                                     level: nat, n: Node, hit: bool)
    requires level > 0 && first <= |below| && WritesTo(top, level, layer)
    requires n.level == level ==> (hit <==> n.index in layer)
    requires WrittenFrom(below, first, n) <==> 1 <= n.level <= level - 1 && hit
    ensures WrittenFrom(below + top, first, n) <==> 1 <= n.level <= level && hit
  {
    WrittenFromNext(below, top, layer, first, level, n);
  }

  lemma {:induction false} LayerOf(leaves: seq<TreeLeaf>, level: nat, q: nat)
    ensures q in Layer(Indices(leaves), level) <==> Hit(LastWrites(leaves).Keys, level, q)
  {
    LastWritesKeys(leaves);
    LayerHit(Indices(leaves), LastWrites(leaves).Keys, level, q);
  }

  /** Some write from position `first` on goes to node `n`. */
  ghost predicate WrittenFrom(writes: seq<NodeWrite>, first: nat, n: Node) {
    exists k :: first <= k < |writes| && writes[k].node == n
  }

  lemma {:induction false} WrittenFromNext(below: seq<NodeWrite>, top: seq<NodeWrite>, layer: seq<nat>, first: nat,
                                           level: nat, n: Node)
    requires first <= |below| && WritesTo(top, level, layer)
    ensures WrittenFrom(below + top, first, n)
       <==> WrittenFrom(below, first, n) || (n.level == level && n.index in layer)
  {
    if k :| first <= k < |below| && below[k].node == n {
      assert (below + top)[k].node == n;
    }
    if k :| 0 <= k < |layer| && layer[k] == n.index && n.level == level {
      assert (below + top)[|below| + k].node == n;
    }
    if k :| first <= k < |below + top| && (below + top)[k].node == n {
      assert k < |below| ==> below[k].node == n;
      assert k >= |below| ==> top[k - |below|].node == n;
    }
  }

  /** From position `first` on, the writes go to different nodes of levels 1..level. */
  ghost predicate OnceAbove(writes: seq<NodeWrite>, first: nat, level: nat) {
    && (forall k :: first <= k < |writes| ==> 1 <= writes[k].node.level <= level)
    && (forall j, k :: first <= j < k < |writes| ==> writes[j].node != writes[k].node)
  }

  lemma {:induction false} OnceAboveNext(below: seq<NodeWrite>, top: seq<NodeWrite>, layer: seq<nat>, first: nat,
                                         level: nat)
    requires level > 0 && first <= |below| && OnceAbove(below, first, level - 1)
    requires Distinct(layer) && WritesTo(top, level, layer)
    ensures OnceAbove(below + top, first, level)
  {
  }

  /** ... and a level costs at most one hash per written leaf and per node of that level. */
  lemma {:induction false} LevelCost(s: seq<nat>, level: nat, depth: nat)
    requires 0 < level <= depth && forall k :: 0 <= k < |s| ==> s[k] < Pow2(depth)
    ensures |Layer(s, level)| <= |s| && |Layer(s, level)| <= Pow2(depth - level)
  {
    LayerShrinks(s, level);
    LayerBelow(s, level, depth);
    DistinctBelow(Layer(s, level), Pow2(depth - level));
  }
}
