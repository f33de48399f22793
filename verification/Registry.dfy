/** Committing registry operations, and what the stored tree and value index mean. */
module Registry {
  import opened Words
  import opened MerkleSpec
  import opened WriteOrder
  import opened LeafStorage
  import opened Simulation
  import opened SparseTree

  // ---------- what operations mean ----------

  /** The leaf words and the value -> index table after a log of operations. */
  datatype State = State(leaves: Leaves, index: map<Word, uint32>)

  const NOTHING: State := State(map[], map[])

  predicate Known(o: LeafOperation) {
    o.op == ADDITION || o.op == REVOCATION
  }

  function Apply(p: Params, s: State, o: LeafOperation): State {
    State(s.leaves[o.leaf.index := NewLeaf(p, o)],
          if o.op == ADDITION then s.index[o.leaf.value := o.leaf.index] else s.index - {o.leaf.value})
  }

  function ApplyAll(p: Params, s: State, ops: seq<LeafOperation>): State {
    if ops == [] then s else Apply(p, ApplyAll(p, s, ops[..|ops| - 1]), ops[|ops| - 1])
  }

  lemma {:induction false} ApplyAllConcat(p: Params, s: State, a: seq<LeafOperation>, b: seq<LeafOperation>)
    ensures ApplyAll(p, s, a + b) == ApplyAll(p, ApplyAll(p, s, a), b)
  {
    if b == [] {
      assert a + b == a;
    } else {
      ApplyAllConcat(p, s, a, b[..|b| - 1]);
      assert (a + b)[..|a + b| - 1] == a + b[..|b| - 1];
    }
  }

  // ---------- the commit batch ----------

  function LeafOf(p: Params, o: LeafOperation): TreeLeaf {
    TreeLeaf(o.leaf.index, NewLeaf(p, o))
  }

  function CommitLeaves(p: Params, ops: seq<LeafOperation>): (r: seq<TreeLeaf>)
    ensures |r| == |ops|
  {
    seq(|ops|, k requires 0 <= k < |ops| => LeafOf(p, ops[k]))
  }

  function IndexOp(o: LeafOperation): DbOp {
    if o.op == ADDITION then SetIndex(o.leaf.value, o.leaf.index) else DeleteIndex(o.leaf.value)
  }

  function IndexOps(ops: seq<LeafOperation>): (r: seq<DbOp>)
    ensures |r| == |ops|
  {
    seq(|ops|, k requires 0 <= k < |ops| => IndexOp(ops[k]))
  }

  /** Everything a commit writes, in order: the index changes, the leaves, then the nodes level by level. */
  function CommitBatch(p: Params, m: Nodes, ops: seq<LeafOperation>): seq<DbOp> {
    IndexOps(ops) + NodeOps(InsertWrites(p, m, CommitLeaves(p, ops), p.depth))
  }

  /** The commit batch is added in two parts. */
  lemma {:induction false} BatchInTwo(p: Params, m: Nodes, ops: seq<LeafOperation>, first: seq<DbOp>,
                                      middle: seq<DbOp>, last: seq<DbOp>)
    requires middle == first + IndexOps(ops)
    requires last == middle + NodeOps(InsertWrites(p, m, CommitLeaves(p, ops), p.depth))
    ensures last == first + CommitBatch(p, m, ops)
  {
  }

  /** The store after a commit of `ops` with progress `block`. */
  function Committed(p: Params, s: Store, ops: seq<LeafOperation>, block: uint64): Store {
    ApplyBatch(s, (if ops == [] then [] else CommitBatch(p, Live(s.nodes), ops)) + [SetProgress(block)])
  }

  lemma {:induction false} CommitLeavesLast(p: Params, s: State, ops: seq<LeafOperation>)
    ensures ApplyAll(p, s, ops).leaves == s.leaves + LastWrites(CommitLeaves(p, ops))
  {
    if ops == [] {
      assert s.leaves + map[] == s.leaves;
    } else {
      CommitLeavesLast(p, s, ops[..|ops| - 1]);
      assert CommitLeaves(p, ops)[..|ops| - 1] == CommitLeaves(p, ops[..|ops| - 1]);
    }
  }

  lemma {:induction false} ApplyIndexOps(p: Params, s: Store, st: State, ops: seq<LeafOperation>)
    requires s.index == st.index
    ensures ApplyBatch(s, IndexOps(ops)) == s.(index := ApplyAll(p, st, ops).index)
  {
    if ops != [] {
      ApplyIndexOps(p, s, st, ops[..|ops| - 1]);
      assert IndexOps(ops)[..|ops| - 1] == IndexOps(ops[..|ops| - 1]);
    }
  }

  /** What a commit batch does to any store: index entries folded in order, nodes updated once. */
  lemma {:induction false} CommitBatchDoes(p: Params, s: Store, ops: seq<LeafOperation>)
    ensures ApplyBatch(s, CommitBatch(p, Live(s.nodes), ops))
         == Store(s.nodes + Updates(p, Live(s.nodes), LastWrites(CommitLeaves(p, ops))),
                  ApplyAll(p, State(map[], s.index), ops).index, s.progress)
  {
    var writes := InsertWrites(p, Live(s.nodes), CommitLeaves(p, ops), p.depth);
    ApplyBatchConcat(s, IndexOps(ops), NodeOps(writes));
    ApplyIndexOps(p, s, State(map[], s.index), ops);
    ApplyNodeOps(ApplyBatch(s, IndexOps(ops)), writes);
    InsertWritesLeave(p, Live(s.nodes), CommitLeaves(p, ops), p.depth);
  }

  // ---------- the canonical store ----------

  /** The nodes of a store are exactly the update of an empty tree with the leaves of `st`. */
  ghost predicate Represents(p: Params, s: Store, st: State) {
    s.nodes == Updates(p, map[], st.leaves) && s.index == st.index
  }

  ghost predicate NonzeroHash(p: Params) {
    forall a, b :: p.hash(a, b) != 0
  }

  /** A word that survives storage as a leaf. */
  predicate Storable(p: Params, w: Word) {
    w != 0 || p.empty == 0
  }

  ghost predicate StorableOps(p: Params, ops: seq<LeafOperation>) {
    forall k :: 0 <= k < |ops| ==> Storable(p, ops[k].leaf.value)
  }

  ghost predicate StorableLeaves(p: Params, leaves: Leaves) {
    forall i :: i in leaves ==> Storable(p, leaves[i])
  }

  /** Every leaf holds what one of the operations writes to it. */
  ghost predicate MadeOf(p: Params, ops: seq<LeafOperation>, leaves: Leaves) {
    forall i :: i in leaves ==> LeftBy(p, ops, i, leaves[i])
  }

  ghost predicate LeftBy(p: Params, ops: seq<LeafOperation>, i: nat, w: Word) {
    exists o :: o in ops && o.leaf.index == i && NewLeaf(p, o) == w
  }

  lemma {:induction false} MadeOfKept(p: Params, all: seq<LeafOperation>, st: State, ops: seq<LeafOperation>)
    requires MadeOf(p, all, st.leaves) && forall o :: o in ops ==> o in all
    ensures MadeOf(p, all, ApplyAll(p, st, ops).leaves)
  {
    if ops != [] {
      MadeOfKept(p, all, st, ops[..|ops| - 1]);
    }
  }

  /** Every tree that some of the operations can make reads back. */
  ghost predicate AllReadBack(p: Params, ops: seq<LeafOperation>) {
    forall leaves: Leaves :: MadeOf(p, ops, leaves) ==> ReadsBack(p, Updates(p, map[], leaves))
  }

  lemma {:induction false} StorableMade(p: Params, ops: seq<LeafOperation>, leaves: Leaves)
    requires StorableOps(p, ops) && MadeOf(p, ops, leaves)
    ensures StorableLeaves(p, leaves)
  {
    forall i | i in leaves ensures Storable(p, leaves[i]) {
      assert LeftBy(p, ops, i, leaves[i]);
    }
  }

  lemma {:induction false} AllReadBackPrefix(p: Params, a: seq<LeafOperation>, b: seq<LeafOperation>)
    requires AllReadBack(p, a + b)
    ensures AllReadBack(p, a)
  {
    forall leaves: Leaves | MadeOf(p, a, leaves) ensures ReadsBack(p, Updates(p, map[], leaves)) {
      forall i | i in leaves ensures LeftBy(p, a + b, i, leaves[i]) {
        assert LeftBy(p, a, i, leaves[i]);
      }
      assert MadeOf(p, a + b, leaves);
    }
  }

  /** A hash that is never zero and storable words are enough for that. */
  lemma {:induction false} StorableReadBack(p: Params, ops: seq<LeafOperation>)
    requires NonzeroHash(p) && StorableOps(p, ops)
    ensures AllReadBack(p, ops)
  {
    forall leaves: Leaves | MadeOf(p, ops, leaves) ensures ReadsBack(p, Updates(p, map[], leaves)) {
      StorableMade(p, ops, leaves);
      UpdateReadsBackExactly(p, map[], leaves);
    }
  }

  lemma {:induction false} RebuiltHitHash(p: Params, m: Nodes, leaves: Leaves, level: nat, i: nat)
    requires NonzeroHash(p) && level > 0 && Hit(leaves.Keys, level, i)
    ensures Rebuilt(p, m, leaves, level, i) != 0
  {
  }

  /**
   Commits are exact and history-free: whatever batches the operations arrived in, the
   whole store, inner nodes included, is the one their in-order fold determines.
   */
  lemma {:induction false} CommitRepresents(p: Params, s: Store, st: State, ops: seq<LeafOperation>, block: uint64)
    requires Represents(p, s, st) && ReadsBack(p, s.nodes)
    ensures Represents(p, Committed(p, s, ops, block), ApplyAll(p, st, ops))
    ensures Committed(p, s, ops, block).progress == Some(block)
  {
    if ops == [] {
      ProgressLast(s, [], block);
    } else {
      ProgressLast(s, CommitBatch(p, Live(s.nodes), ops), block);
      CommitBatchDoes(p, s, ops);
      CommitNodes(p, s.nodes, st, ops);
      IndexFoldLocal(p, State(map[], s.index), st, ops);
    }
  }

  lemma {:induction false} ProgressLast(s: Store, batch: seq<DbOp>, block: uint64)
    ensures ApplyBatch(s, batch + [SetProgress(block)]) == ApplyBatch(s, batch).(progress := Some(block))
  {
    assert (batch + [SetProgress(block)])[..|batch|] == batch;
  }

  lemma {:induction false} CommitNodes(p: Params, nodes: Nodes, st: State, ops: seq<LeafOperation>)
    requires nodes == Updates(p, map[], st.leaves) && ReadsBack(p, nodes)
    ensures nodes + Updates(p, Live(nodes), LastWrites(CommitLeaves(p, ops)))
         == Updates(p, map[], ApplyAll(p, st, ops).leaves)
  {
    var last := LastWrites(CommitLeaves(p, ops));
    ReadsBackIsLive(p, nodes);
    UpdatesByReads(p, Live(nodes), nodes, last);
    var none: Nodes := map[];
    assert Written(p, none, st.leaves) == nodes;
    UpdatesCompose(p, none, st.leaves, last);
    CommitLeavesLast(p, st, ops);
  }

  /** The index fold never looks at the leaves. */
  lemma {:induction false} IndexFoldLocal(p: Params, a: State, b: State, ops: seq<LeafOperation>)
    requires a.index == b.index
    ensures ApplyAll(p, a, ops).index == ApplyAll(p, b, ops).index
  {
    if ops != [] {
      IndexFoldLocal(p, a, b, ops[..|ops| - 1]);
    }
  }

  lemma {:induction false} RepresentsReads(p: Params, s: Store, st: State)
    requires Represents(p, s, st) && ReadsBack(p, s.nodes)
    ensures Consistent(p, Live(s.nodes)) && HasLeaves(p, Live(s.nodes), st.leaves)
    ensures Root(p, Live(s.nodes)) == SpecNode(p, st.leaves, p.depth, 0)
  {
    var none: Nodes := map[];
    var base: Leaves := map[];
    assert Written(p, none, st.leaves) == s.nodes && base + st.leaves == st.leaves;
    EmptyTreeConsistent(p);
    WrittenConsistent(p, none, st.leaves);
    assert HasLeaves(p, none, base);
    WrittenLeaves(p, none, base, st.leaves);
    ReadsBackIsLive(p, s.nodes);
    forall l: nat, i: nat | l < p.depth ensures NodeOk(p, Live(s.nodes), l, i) {
      assert NodeOk(p, s.nodes, l, i);
    }
    ConsistentIsSpec(p, Live(s.nodes), st.leaves, p.depth, 0);
  }

  // ---------- what survives storage ----------

  /** What a word reads as once it is stored at a level. */
  function Kept(p: Params, level: nat, w: Word): Word {
    if w == 0 then EmptyAt(p, level) else w
  }

  /** The node (l + 1, i) is still the hash of its children once all three are stored. */
  ghost predicate SurvivesAt(p: Params, live: Nodes, leaves: Leaves, l: nat, i: nat) {
    Kept(p, l + 1, Rebuilt(p, live, leaves, l + 1, i))
    == p.hash(Kept(p, l, Rebuilt(p, live, leaves, l, 2 * i)), Kept(p, l, Rebuilt(p, live, leaves, l, 2 * i + 1)))
  }

  ghost predicate Survives(p: Params, live: Nodes, leaves: Leaves) {
    forall l: nat, i: nat :: l < p.depth && Hit(leaves.Keys, l + 1, i) ==> SurvivesAt(p, live, leaves, l, i)
  }

  /** `after` reads, up to the root, as the recomputed tree does once it is stored. */
  ghost predicate ReadsKept(p: Params, live: Nodes, leaves: Leaves, after: Nodes) {
    forall n: Node {:trigger Read(p, after, n)} :: n.level <= p.depth ==>
      Read(p, after, n) == Kept(p, n.level, Rebuilt(p, live, leaves, n.level, n.index))
  }

  lemma {:induction false} FlushReadsKept(p: Params, nodes: Nodes, leaves: Leaves, u: Nodes)
    requires u == Updates(p, Live(nodes), leaves)
    ensures ReadsKept(p, Live(nodes), leaves, Live(nodes + u))
  {
  }

  lemma {:induction false} NodeSurvives(p: Params, nodes: Nodes, leaves: Leaves, after: Nodes, l: nat, i: nat)
    requires ReadsKept(p, Live(nodes), leaves, after) && NodeOk(p, Live(nodes), l, i) && l < p.depth
    ensures NodeOk(p, after, l, i) <==> (Hit(leaves.Keys, l + 1, i) ==> SurvivesAt(p, Live(nodes), leaves, l, i))
  {
    assert Hit(leaves.Keys, l + 1, i) <==> Hit(leaves.Keys, l, 2 * i) || Hit(leaves.Keys, l, 2 * i + 1);
    if !Hit(leaves.Keys, l + 1, i) {
      UntouchedKept(p, nodes, leaves, l + 1, i);
      UntouchedKept(p, nodes, leaves, l, 2 * i);
      UntouchedKept(p, nodes, leaves, l, 2 * i + 1);
    }
  }

  lemma {:induction false} UntouchedKept(p: Params, nodes: Nodes, leaves: Leaves, level: nat, i: nat)
    requires !Hit(leaves.Keys, level, i)
    ensures Kept(p, level, Rebuilt(p, Live(nodes), leaves, level, i)) == Read(p, Live(nodes), Node(level, i))
  {
  }

  /**
   Of every hash: writing leaves out to a consistent database leaves it consistent exactly when
   every recomputed node, as it will read back, is the hash of its children as they will.
   */
  lemma {:induction false} FlushConsistentExactly(p: Params, nodes: Nodes, leaves: Leaves)
    requires Consistent(p, Live(nodes))
    ensures Consistent(p, Live(nodes + Updates(p, Live(nodes), leaves))) <==> Survives(p, Live(nodes), leaves)
  {
    var u := Updates(p, Live(nodes), leaves);
    FlushReadsKept(p, nodes, leaves, u);
    ConsistentIfSurvives(p, nodes, leaves, Live(nodes + u));
  }

  lemma {:induction false} ConsistentIfSurvives(p: Params, nodes: Nodes, leaves: Leaves, after: Nodes)
    requires Consistent(p, Live(nodes)) && ReadsKept(p, Live(nodes), leaves, after)
    ensures Consistent(p, after) <==> Survives(p, Live(nodes), leaves)
  {
    if Survives(p, Live(nodes), leaves) {
      forall l: nat, i: nat | l < p.depth ensures NodeOk(p, after, l, i) {
        assert NodeOk(p, Live(nodes), l, i);
        NodeSurvives(p, nodes, leaves, after, l, i);
      }
    }
    if Consistent(p, after) {
      forall l: nat, i: nat | l < p.depth && Hit(leaves.Keys, l + 1, i)
        ensures SurvivesAt(p, Live(nodes), leaves, l, i)
      {
        assert NodeOk(p, Live(nodes), l, i) && NodeOk(p, after, l, i);
        NodeSurvives(p, nodes, leaves, after, l, i);
      }
    }
  }

  /** An update whose words all read back survives. */
  lemma {:induction false} ReadsBackSurvives(p: Params, live: Nodes, leaves: Leaves)
    requires ReadsBack(p, Updates(p, live, leaves)) && ReadsBack(p, live)
    ensures Survives(p, live, leaves)
  {
    forall l: nat, i: nat | l < p.depth && Hit(leaves.Keys, l + 1, i) ensures SurvivesAt(p, live, leaves, l, i) {
      KeptIsSame(p, live, leaves, Node(l + 1, i));
      KeptIsSame(p, live, leaves, Node(l, 2 * i));
      KeptIsSame(p, live, leaves, Node(l, 2 * i + 1));
    }
  }

  lemma {:induction false} KeptIsSame(p: Params, live: Nodes, leaves: Leaves, n: Node)
    requires ReadsBack(p, Updates(p, live, leaves)) && ReadsBack(p, live) && n.level <= p.depth
    ensures var w := Rebuilt(p, live, leaves, n.level, n.index); Kept(p, n.level, w) == w
  {
    var u := Updates(p, live, leaves);
    assert n in u <==> Hit(leaves.Keys, n.level, n.index);
  }

  /** So, with a hash that is never zero, writing storable leaves out leaves a consistent database. */
  lemma {:induction false} FlushedConsistent(p: Params, nodes: Nodes, leaves: Leaves)
    requires NonzeroHash(p) && Consistent(p, Live(nodes)) && StorableLeaves(p, leaves)
    ensures Consistent(p, Live(nodes + Updates(p, Live(nodes), leaves)))
  {
    UpdateReadsBackExactly(p, Live(nodes), leaves);
    ReadsBackSurvives(p, Live(nodes), leaves);
    FlushConsistentExactly(p, nodes, leaves);
  }

  /** And operations on storable words survive. */
  lemma {:induction false} StorableSurvives(p: Params, nodes: Nodes, ops: seq<LeafOperation>)
    requires NonzeroHash(p) && StorableOps(p, ops)
    ensures Survives(p, Live(nodes), LastWrites(CommitLeaves(p, ops)))
  {
    var last := LastWrites(CommitLeaves(p, ops));
    CommitLeavesLast(p, NOTHING, ops);
    assert NOTHING.leaves + last == last;
    MadeOfKept(p, ops, NOTHING, ops);
    StorableMade(p, ops, last);
    UpdateReadsBackExactly(p, Live(nodes), last);
    ReadsBackSurvives(p, Live(nodes), last);
  }

  /** With such a hash only the pairs of leaf words matter. */
  lemma {:induction false} OnlyLeavesMatter(p: Params, nodes: Nodes, leaves: Leaves)
    requires NonzeroHash(p) && p.depth > 0
    ensures Survives(p, Live(nodes), leaves)
       <==> forall q: nat :: Hit(leaves.Keys, 1, q) ==> SurvivesAt(p, Live(nodes), leaves, 0, q)
  {
    var live := Live(nodes);
    forall l: nat, i: nat | l > 0 && Hit(leaves.Keys, l + 1, i) ensures SurvivesAt(p, live, leaves, l, i) {
      NonzeroKept(p, nodes, leaves, l + 1, i);
      NonzeroKept(p, nodes, leaves, l, 2 * i);
      NonzeroKept(p, nodes, leaves, l, 2 * i + 1);
    }
    if Survives(p, live, leaves) {
      forall q: nat | Hit(leaves.Keys, 1, q) ensures SurvivesAt(p, live, leaves, 0, q) {
        assert Hit(leaves.Keys, 0 + 1, q);
      }
    }
  }

  lemma {:induction false} NonzeroKept(p: Params, nodes: Nodes, leaves: Leaves, level: nat, i: nat)
    requires NonzeroHash(p) && level > 0
    ensures var w := Rebuilt(p, Live(nodes), leaves, level, i); Kept(p, level, w) == w
  {
    if Hit(leaves.Keys, level, i) {
      RebuiltHitHash(p, Live(nodes), leaves, level, i);
    }
  }

  /** The hash tells a zero leaf from an empty one, whatever stands beside it. */
  ghost predicate Separates(p: Params) {
    p.empty != 0 ==>
      && p.hash(0, 0) != p.hash(p.empty, p.empty)
      && forall w :: p.hash(0, w) != p.hash(p.empty, w) && p.hash(w, 0) != p.hash(w, p.empty)
  }

  /** There are such hashes. */
  lemma {:induction false} SeparatingHash(depth: nat, empty: Word) returns (p: Params)
    ensures p.depth == depth && p.empty == empty && NonzeroHash(p) && Separates(p)
  {
    p := Params(depth, empty,
                (a: Word, b: Word) => if a == 0 then (if b == 0 then 1 else 2) else if b == 0 then 3 else 4);
  }

  /** A pair of leaf words survives exactly when both are storable. */
  lemma {:induction false} PairSurvives(p: Params, nodes: Nodes, leaves: Leaves, q: nat)
    requires NonzeroHash(p) && Separates(p) && Hit(leaves.Keys, 1, q)
    ensures SurvivesAt(p, Live(nodes), leaves, 0, q)
       <==> forall i :: (i == 2 * q || i == 2 * q + 1) && i in leaves ==> Storable(p, leaves[i])
  {
    NonzeroKept(p, nodes, leaves, 1, q);
    LeafKept(p, nodes, leaves, 2 * q);
    LeafKept(p, nodes, leaves, 2 * q + 1);
  }

  lemma {:induction false} LeafKept(p: Params, nodes: Nodes, leaves: Leaves, i: nat)
    ensures var w := Rebuilt(p, Live(nodes), leaves, 0, i);
            && (i in leaves ==> w == leaves[i])
            && (i !in leaves ==> Kept(p, 0, w) == w)
            && Kept(p, 0, w) == if w == 0 then p.empty else w
  {
  }

  /**
   From a consistent database, a commit leaves a consistent database exactly when its recomputed
   nodes survive. With a hash that is never zero and tells a zero leaf from an empty one, that is
   exactly when the last word it writes to each leaf is storable.
   */
  lemma {:induction false} CommitConsistentExactly(p: Params, s: Store, ops: seq<LeafOperation>)
    requires Consistent(p, Live(s.nodes))
    ensures var after := ApplyBatch(s, CommitBatch(p, Live(s.nodes), ops));
            var last := LastWrites(CommitLeaves(p, ops));
            && (Consistent(p, Live(after.nodes)) <==> Survives(p, Live(s.nodes), last))
            && (NonzeroHash(p) && Separates(p) && p.depth > 0 ==>
                  (Consistent(p, Live(after.nodes)) <==> StorableLeaves(p, last)))
  {
    var last := LastWrites(CommitLeaves(p, ops));
    CommitBatchDoes(p, s, ops);
    FlushConsistentExactly(p, s.nodes, last);
    if NonzeroHash(p) && Separates(p) && p.depth > 0 {
      SurvivesExactly(p, s.nodes, last);
    }
  }

  lemma {:induction false} SurvivesExactly(p: Params, nodes: Nodes, leaves: Leaves)
    requires NonzeroHash(p) && Separates(p) && p.depth > 0
    ensures Survives(p, Live(nodes), leaves) <==> StorableLeaves(p, leaves)
  {
    OnlyLeavesMatter(p, nodes, leaves);
    forall q: nat | Hit(leaves.Keys, 1, q) { PairSurvives(p, nodes, leaves, q); }
    forall i | i in leaves ensures Hit(leaves.Keys, 1, i / 2) && (i == 2 * (i / 2) || i == 2 * (i / 2) + 1) {
      assert Hit(leaves.Keys, 0, i);
    }
  }

  /** So, with such a hash, a zero word committed where empty leaves are not zero leaves an inconsistent database. */
  lemma {:induction false} LostLeafTears(p: Params, s: Store, ops: seq<LeafOperation>, i: nat)
    requires Consistent(p, Live(s.nodes)) && NonzeroHash(p) && Separates(p) && p.depth > 0 && p.empty != 0
    requires var last := LastWrites(CommitLeaves(p, ops)); i in last && last[i] == 0
    ensures !Consistent(p, Live(ApplyBatch(s, CommitBatch(p, Live(s.nodes), ops)).nodes))
  {
    CommitConsistentExactly(p, s, ops);
    assert !Storable(p, LastWrites(CommitLeaves(p, ops))[i]);
  }

  // ---------- the value index ----------

  /** The table names a leaf for exactly the nonempty words that leaves hold. */
  ghost predicate Inverse(p: Params, st: State) {
    forall v: Word, i: uint32 :: Maps(st, v, i) <==> Holds(p, st, v, i)
  }

  predicate Maps(st: State, v: Word, i: uint32) {
    v in st.index && st.index[v] == i
  }

  predicate Holds(p: Params, st: State, v: Word, i: uint32) {
    v != p.empty && LeafAt(p, st.leaves, i) == v
  }

  /**
   An addition of a nonempty word that no other leaf holds, where the leaf is empty or already
   holds it; a revocation of a word where it sits, or of one no leaf holds where the leaf is empty.
   */
  ghost predicate Legal(p: Params, st: State, o: LeafOperation) {
    var v, i := o.leaf.value, o.leaf.index;
    if o.op == ADDITION then
      && v != p.empty
      && (LeafAt(p, st.leaves, i) == p.empty || LeafAt(p, st.leaves, i) == v)
      && forall j: uint32 :: j != i ==> !Holds(p, st, v, j)
    else
      || LeafAt(p, st.leaves, i) == v
      || (LeafAt(p, st.leaves, i) == p.empty && forall j: uint32 :: !Holds(p, st, v, j))
  }

  /** One operation keeps the table inverse to the leaves exactly when it is legal. */
  lemma {:induction false} InverseKeptExactly(p: Params, st: State, o: LeafOperation)
    requires Inverse(p, st) && Known(o)
    ensures Inverse(p, Apply(p, st, o)) <==> Legal(p, st, o)
  {
    var v, i, st' := o.leaf.value, o.leaf.index, Apply(p, st, o);
    var was := LeafAt(p, st.leaves, i);
    if Legal(p, st, o) {
      forall w: Word, j: uint32 ensures Maps(st', w, j) <==> Holds(p, st', w, j) {
        assert Maps(st, w, j) <==> Holds(p, st, w, j);
        assert Maps(st, v, j) <==> Holds(p, st, v, j);
        assert Maps(st, w, i) <==> Holds(p, st, w, i);
      }
    }
    if Inverse(p, st') {
      assert Maps(st', was, i) <==> Holds(p, st', was, i);
      assert Maps(st, was, i) <==> Holds(p, st, was, i);
      assert Maps(st', v, i) <==> Holds(p, st', v, i);
      forall j: uint32 | j != i && Holds(p, st, v, j) ensures o.op == REVOCATION && was == v {
        assert Maps(st', v, j) <==> Holds(p, st', v, j);
        assert Maps(st, v, j) && Maps(st, v, i) ==> i == j;
      }
    }
  }

  ghost predicate LegalLog(p: Params, st: State, ops: seq<LeafOperation>) {
    forall k: nat :: k < |ops| ==> Legal(p, ApplyAll(p, st, ops[..k]), ops[k])
  }

  /** Over a whole log, the table stays the inverse throughout exactly when every operation is legal where it comes. */
  lemma {:induction false} InverseOverLog(p: Params, st: State, ops: seq<LeafOperation>)
    requires Inverse(p, st) && forall k :: 0 <= k < |ops| ==> Known(ops[k])
    ensures LegalLog(p, st, ops) <==> forall k: nat :: k <= |ops| ==> Inverse(p, ApplyAll(p, st, ops[..k]))
  {
    if LegalLog(p, st, ops) {
      forall k: nat | k <= |ops| ensures Inverse(p, ApplyAll(p, st, ops[..k])) {
        InverseUpTo(p, st, ops, k);
      }
    }
    if forall k: nat :: k <= |ops| ==> Inverse(p, ApplyAll(p, st, ops[..k])) {
      forall k: nat | k < |ops| ensures Legal(p, ApplyAll(p, st, ops[..k]), ops[k]) {
        assert ops[..k + 1][..k] == ops[..k];
        assert Inverse(p, ApplyAll(p, st, ops[..k + 1]));
        InverseKeptExactly(p, ApplyAll(p, st, ops[..k]), ops[k]);
      }
    }
  }

  lemma {:induction false} InverseUpTo(p: Params, st: State, ops: seq<LeafOperation>, k: nat)
    requires Inverse(p, st) && LegalLog(p, st, ops) && k <= |ops| && forall j :: 0 <= j < |ops| ==> Known(ops[j])
    ensures Inverse(p, ApplyAll(p, st, ops[..k]))
  {
    if k > 0 {
      InverseUpTo(p, st, ops, k - 1);
      assert ops[..k][..k - 1] == ops[..k - 1];
      InverseKeptExactly(p, ApplyAll(p, st, ops[..k - 1]), ops[k - 1]);
    }
  }

  /**
   A certificate is found exactly when a leaf holds it, and then its proof carries that very
   word under the reference root of the leaves, and verifies if its index lies in the tree.
   */
  ghost predicate Answers(p: Params, s: Store, st: State, v: Word) {
    && (v in s.index <==> exists i: uint32 :: Holds(p, st, v, i))
    && (v in s.index ==>
          var proof := ProofOf(p, Live(s.nodes), s.index[v]);
          && proof.leaf == v && proof.root == SpecNode(p, st.leaves, p.depth, 0)
          && (s.index[v] < Pow2(p.depth) ==> Verifies(p, v, proof.index, proof.path, proof.root)))
  }

  lemma {:induction false} LookupProves(p: Params, s: Store, st: State, v: Word)
    requires Represents(p, s, st) && Inverse(p, st) && ReadsBack(p, s.nodes)
    ensures Answers(p, s, st, v)
  {
    if v in s.index {
      var i := s.index[v];
      assert Maps(st, v, i);
      assert Holds(p, st, v, i);
      RepresentsReads(p, s, st);
      ProofVerifies(p, Live(s.nodes), i);
    }
    if i: uint32 :| Holds(p, st, v, i) {
      assert Maps(st, v, i);
    }
  }

  // ---------- one by one, batched, simulated ----------

  /** The buffer after inserting the leaves one at a time. */
  ghost function OneByOne(p: Params, live: Nodes, start: Nodes, leaves: seq<TreeLeaf>): Nodes {
    if leaves == [] then start
    else
      var before := OneByOne(p, live, start, leaves[..|leaves| - 1]);
      before + Updates(p, live + before, map[leaves[|leaves| - 1].index := leaves[|leaves| - 1].value])
  }

  /**
   The batched insertion leaves the very buffer that inserting each leaf in order leaves,
   from any stored tree and any buffer, repeated indices included.
   */
  lemma {:induction false} BatchedIsOneByOne(p: Params, live: Nodes, start: Nodes, leaves: seq<TreeLeaf>)
    ensures OneByOne(p, live, start, leaves) == start + Updates(p, live + start, LastWrites(leaves))
  {
    if leaves == [] {
      UpdatesNone(p, live + start);
    } else {
      var front, last := leaves[..|leaves| - 1], leaves[|leaves| - 1];
      BatchedIsOneByOne(p, live, start, front);
      var one: Leaves := map[last.index as nat := last.value];
      assert LastWrites(leaves) == LastWrites(front) + one;
      OneMore(p, live, start, live + start, LastWrites(front), one);
    }
  }

  lemma {:induction false} OneMore(p: Params, live: Nodes, start: Nodes, m: Nodes, a: Leaves, b: Leaves)
    requires m == live + start
    ensures var before := start + Updates(p, m, a);
            before + Updates(p, live + before, b) == start + Updates(p, m, a + b)
  {
    var first, second := Updates(p, m, a), Updates(p, Written(p, m, a), b);
    UpdatesCompose(p, m, a, b);
    Layered(live, start, first);
    Layered(start, first, second);
  }

  /** The operations with the indices a simulation chose for them. */
  function Placed(p: Params, ops: seq<LeafOperation>, proofs: seq<BatchProof>): seq<LeafOperation>
    requires |proofs| == |ops| && forall k :: 0 <= k < |proofs| ==> proofs[k].index < 0x1_0000_0000
  {
    seq(|ops|, k requires 0 <= k < |ops| => ops[k].(leaf := ops[k].leaf.(index := proofs[k].index)))
  }

  lemma {:induction false} PlacedIsLast(p: Params, ops: seq<LeafOperation>, proofs: seq<BatchProof>)
    requires |proofs| == |ops| && forall k :: 0 <= k < |proofs| ==> proofs[k].index < 0x1_0000_0000
    ensures LastWrites(CommitLeaves(p, Placed(p, ops, proofs))) == PlacedLeaves(p, ops, proofs)
    decreases |ops|
  {
    if ops != [] {
      PlacedIsLast(p, ops[1..], proofs[1..]);
      var all, first := CommitLeaves(p, Placed(p, ops, proofs)), [TreeLeaf(proofs[0].index, NewLeaf(p, ops[0]))];
      assert all == first + CommitLeaves(p, Placed(p, ops[1..], proofs[1..]));
      LastWritesConcat(first, CommitLeaves(p, Placed(p, ops[1..], proofs[1..])));
      assert first[..0] == [];
    }
  }

  /** With a hash that is never zero, an update reads back exactly when its leaf words are storable. */
  lemma {:induction false} UpdateReadsBackExactly(p: Params, m: Nodes, leaves: Leaves)
    requires NonzeroHash(p)
    ensures ReadsBack(p, Updates(p, m, leaves)) <==> StorableLeaves(p, leaves)
  {
    var u := Updates(p, m, leaves);
    if StorableLeaves(p, leaves) {
      forall n | n in u && u[n] == 0 ensures EmptyAt(p, n.level) == 0 {
        if n.level > 0 {
          RebuiltHitHash(p, m, leaves, n.level, n.index);
        }
      }
    }
    if ReadsBack(p, u) {
      forall i | i in leaves ensures Storable(p, leaves[i]) {
        assert Node(0, i) in u && u[Node(0, i)] == leaves[i];
      }
    }
  }

  /**
   Committing the simulated operations at the indices the simulation chose makes the
   database read, at every node, as the simulation did, exactly when every word written
   reads back; the table of values is folded in the same order.
   */
  lemma {:induction false} SimulationAgreesWithCommit(p: Params, s: Store, ops: seq<LeafOperation>,
                                                      proofs: seq<BatchProof>)
    requires |proofs| == |ops| && forall k :: 0 <= k < |proofs| ==> proofs[k].index < 0x1_0000_0000
    ensures var live := Live(s.nodes);
            var after := ApplyBatch(s, CommitBatch(p, live, Placed(p, ops, proofs)));
            && (SameReads(p, Live(after.nodes), FinalNodes(p, live, ops, proofs))
                <==> ReadsBack(p, Updates(p, live, PlacedLeaves(p, ops, proofs))))
            && (NonzeroHash(p) ==>
                (SameReads(p, Live(after.nodes), FinalNodes(p, live, ops, proofs))
                 <==> StorableLeaves(p, PlacedLeaves(p, ops, proofs))))
            && after.index == ApplyAll(p, State(map[], s.index), Placed(p, ops, proofs)).index
  {
    var live := Live(s.nodes);
    CommitBatchDoes(p, s, Placed(p, ops, proofs));
    PlacedIsLast(p, ops, proofs);
    FinalIsOneUpdate(p, live, ops, proofs);
    FlushKeepsReads(p, s.nodes, Updates(p, live, PlacedLeaves(p, ops, proofs)));
    if NonzeroHash(p) {
      UpdateReadsBackExactly(p, live, PlacedLeaves(p, ops, proofs));
    }
  }

  // ---------- the registry and its indexing job ----------

  class OperationsBuffer {
    var buffer: seq<LeafOperation>

    constructor ()
      ensures buffer == []
    {
      buffer := [];
    }

    method AppendAddition(index: uint32, value: Word)
      modifies this
      ensures buffer == old(buffer) + [LeafOperation(TreeLeaf(index, value), 1)]
    {
      buffer := buffer + [LeafOperation(TreeLeaf(index, value), ADDITION)];
    }

    method AppendRevocation(index: uint32, value: Word)
      modifies this
      ensures buffer == old(buffer) + [LeafOperation(TreeLeaf(index, value), 2)]
    {
      buffer := buffer + [LeafOperation(TreeLeaf(index, value), REVOCATION)];
    }
  }

  class ZKCertificateRegistry {
    const tree: SparseMerkleTree

    constructor (tree: SparseMerkleTree)
      ensures this.tree == tree
    {
      this.tree := tree;
    }

    /** Adds a commit to the batch; an unknown operation is refused. */
    method CommitOperations(batch: DbBatch, ops: seq<LeafOperation>) returns (ok: bool)
      requires tree.Valid()
      modifies tree, batch
      ensures tree.Valid()
      ensures ok <==> forall k :: 0 <= k < |ops| ==> Known(ops[k])
      ensures ok ==> batch.ops == old(batch.ops) + CommitBatch(tree.p, Live(tree.storage.store.nodes), ops)
    {
      var leaves := new TreeLeaf[|ops|];
      ok := CollectLeaves(batch, ops, leaves);
      if ok {
        ghost var live, before := Live(tree.storage.store.nodes), batch.ops;
        InsertLeaves(batch, leaves);
        BatchInTwo(tree.p, live, ops, old(batch.ops), before, batch.ops);
      }
    }

    method InsertLeaves(batch: DbBatch, leaves: array<TreeLeaf>)
      requires tree.Valid()
      modifies tree, batch
      ensures tree.Valid()
      ensures batch.ops == old(batch.ops)
                           + NodeOps(InsertWrites(tree.p, Live(tree.storage.store.nodes), leaves[..], tree.p.depth))
    {
      var buffer := new NodeBatch.Commit(batch);
      ghost var live := Live(tree.storage.store.nodes);
      assert live + buffer.buffer == live;
      tree.InsertLeaves(buffer, leaves);
    }

    /** The index changes, in order, and the leaf that each operation writes. */
    method CollectLeaves(batch: DbBatch, ops: seq<LeafOperation>, leaves: array<TreeLeaf>) returns (ok: bool)
      requires leaves.Length == |ops|
      modifies batch, leaves
      ensures ok <==> forall k :: 0 <= k < |ops| ==> Known(ops[k])
      ensures ok ==> batch.ops == old(batch.ops) + IndexOps(ops) && leaves[..] == CommitLeaves(tree.p, ops)
    {
      ghost var sent: seq<DbOp> := [];
      for k := 0 to |ops|
        invariant forall j :: 0 <= j < k ==> Known(ops[j])
        invariant batch.ops == old(batch.ops) + sent
        invariant |sent| == k
        invariant forall j :: 0 <= j < k ==> sent[j] == IndexOp(ops[j]) && leaves[j] == LeafOf(tree.p, ops[j])
      {
        var o := ops[k];
        if o.op == ADDITION {
          batch.Add(SetIndex(o.leaf.value, o.leaf.index));
          leaves[k] := o.leaf;
        } else if o.op == REVOCATION {
          batch.Add(DeleteIndex(o.leaf.value));
          leaves[k] := TreeLeaf(o.leaf.index, tree.p.empty);
        } else {
          return false;
        }
        sent := sent + [IndexOp(o)];
      }
      assert sent == IndexOps(ops) && leaves[..] == CommitLeaves(tree.p, ops);
      ok := true;
    }

    /** The proof of a certificate, found through the value index. */
    method CreateProof(value: Word) returns (r: Option<MerkleProof>)
      requires tree.Valid()
      modifies tree`emptyBranchLevels
      ensures tree.Valid()
      ensures r.Some? <==> value in tree.storage.store.index
      ensures r.Some? ==> r.value == ProofOf(tree.p, Live(tree.storage.store.nodes), tree.storage.store.index[value])
    {
      var found := tree.storage.GetLeafIndex(value);
      match found
      case None => r := None;
      case Some(index) =>
        var proof := tree.CreateProof(index);
        r := Some(proof);
    }

    /** The proof of a leaf that was never written. */
    method GetRandomEmptyLeafProof(draws: nat -> uint64) returns (r: Option<MerkleProof>)
      requires tree.Valid()
      modifies tree`emptyBranchLevels
      ensures tree.Valid()
      ensures r.Some? ==>
                && r.value == ProofOf(tree.p, Live(tree.storage.store.nodes), r.value.index)
                && r.value.index < Pow2(tree.p.depth) && r.value.leaf == tree.p.empty
                && exists k: nat :: k < 10 && r.value.index == draws(k) % Pow2(tree.p.depth)
                     && NoWord(tree.storage.store.nodes, r.value.index)
                     && forall j: nat :: j < k ==> !NoWord(tree.storage.store.nodes, draws(j) % Pow2(tree.p.depth))
      ensures r.None? <==>
                forall k: nat :: k < 10 ==> !NoWord(tree.storage.store.nodes, draws(k) % Pow2(tree.p.depth))
    {
      var found := tree.GetRandomEmptyLeafIndex(draws);
      match found
      case None => r := None;
      case Some(index) =>
        var proof := tree.CreateProof(index);
        r := Some(proof);
    }
  }
}
