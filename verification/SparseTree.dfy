/** The tree engine: single and batched insertion, and proof generation. */
module SparseTree {
  import opened Words
  import opened MerkleSpec
  import opened WriteOrder
  import opened LeafStorage
  import opened Simulation

  /** Bitwise exclusive or, as defined on binary digits. */
  function Xor(a: nat, b: nat): nat {
    if a == 0 && b == 0 then 0 else (a % 2 + b % 2) % 2 + 2 * Xor(a / 2, b / 2)
  }

  lemma {:induction false} XorZero(a: nat)
    ensures Xor(a, 0) == a
  {
    if a > 0 {
      XorZero(a / 2);
    }
  }

  /** Flipping the lowest bit names the same node as stepping to the other child. */
  lemma {:induction false} XorOneIsSibling(i: nat)
    ensures Xor(i, 1) == Sibling(i)
  {
    XorZero(i / 2);
  }

  /** The database has no word for leaf `i`: it was never written, or a zero word was. */
  predicate NoWord(nodes: Nodes, i: nat) {
    Node(0, i) !in nodes || nodes[Node(0, i)] == 0
  }

  lemma {:induction false} EmptyTable(p: Params, levels: seq<Word>, l: nat)
    requires l < |levels| && levels[0] == p.empty
    requires forall k :: 1 <= k < |levels| ==> levels[k] == p.hash(levels[k - 1], levels[k - 1])
    ensures levels[l] == EmptyAt(p, l)
  {
    if l > 0 {
      EmptyTable(p, levels, l - 1);
    }
  }

  class SparseMerkleTree {
    const p: Params
    const storage: Database

    /** Empty branch hashes by level, computed on first use; empty until then. */
    var emptyBranchLevels: seq<Word>

    /** How many node hashes the insertions have computed. */
    ghost var hashes: nat

    ghost predicate Valid()
      reads this
    {
      && 1 <= p.depth <= 32
      && (emptyBranchLevels != [] ==>
            |emptyBranchLevels| == p.depth + 1
            && forall l :: 0 <= l <= p.depth ==> emptyBranchLevels[l] == EmptyAt(p, l))
    }

    /** What the tree reads through a batch. */
    ghost function Overlay(batch: NodeBatch): Nodes
      reads this, storage, batch
    {
      Live(storage.store.nodes) + batch.buffer
    }

    ghost predicate Reads(batch: NodeBatch) {
      batch.through == null || batch.through == storage
    }

    /** A batched insertion that began with `base` operations and `spent` hashes has reached `stage`. */
    ghost predicate Stands(batch: NodeBatch, base: seq<DbOp>, spent: nat, stage: LevelStep)
      reads this, batch, batch.sink
    {
      && batch.buffer == stage.buffer
      && hashes == spent + stage.cost
      && (batch.sink != null ==> batch.sink.ops == base + stage.ops)
    }

    constructor (p: Params, storage: Database)
      requires 1 <= p.depth <= 32
      ensures Valid() && this.p == p && this.storage == storage && hashes == 0
    {
      this.p, this.storage, emptyBranchLevels, hashes := p, storage, [], 0;
    }

    // ---------- reading ----------

    method CalculateEmptyBranchHashes() returns (levels: seq<Word>)
      requires Valid()
      ensures |levels| == p.depth + 1
      ensures forall l :: 0 <= l <= p.depth ==> levels[l] == EmptyAt(p, l)
    {
      var table := new Word[p.depth + 1];
      table[0] := p.empty;
      var i := 1;
      while i <= p.depth
        invariant 1 <= i <= p.depth + 1 && table[0] == p.empty
        invariant forall l :: 1 <= l < i ==> table[l] == p.hash(table[l - 1], table[l - 1])
      {
        table[i] := p.hash(table[i - 1], table[i - 1]);
        i := i + 1;
      }
      levels := table[..];
      forall l: nat | l <= p.depth ensures levels[l] == EmptyAt(p, l) {
        EmptyTable(p, levels, l);
      }
    }

    method GetEmptyBranchValue(level: uint8) returns (w: Word)
      requires Valid() && level <= p.depth
      modifies this`emptyBranchLevels
      ensures Valid() && w == EmptyAt(p, level)
    {
      if emptyBranchLevels == [] {
        emptyBranchLevels := CalculateEmptyBranchHashes();
      }
      w := emptyBranchLevels[level];
    }

    method GetLeafFromStorage(level: uint8, index: uint32) returns (w: Word)
      requires Valid() && level <= p.depth
      modifies this`emptyBranchLevels
      ensures Valid() && w == Read(p, Live(storage.store.nodes), Node(level, index))
    {
      var found := storage.GetLeaf(level, index);
      match found
      case Some(word) => w := word;
      case None => w := GetEmptyBranchValue(level);
    }

    method GetLeafFromBatchOrStorage(batch: NodeBatch, level: uint8, index: uint32) returns (w: Word)
      requires Valid() && Reads(batch) && level <= p.depth
      modifies this`emptyBranchLevels
      ensures Valid() && w == Read(p, Overlay(batch), Node(level, index))
    {
      var found := batch.GetLeaf(level, index);
      match found
      case Some(word) => w := word;
      case None => w := GetLeafFromStorage(level, index);
    }

    method GetRoot() returns (w: Word)
      requires Valid()
      modifies this`emptyBranchLevels
      ensures Valid() && w == Root(p, Live(storage.store.nodes))
    {
      w := GetLeafFromStorage(p.depth, 0);
    }

    // ---------- inserting ----------

    method CalculateHashForNode(batch: NodeBatch, level: uint8, index: uint32) returns (w: Word)
      requires Valid() && Reads(batch) && level < p.depth
      modifies this
      ensures Valid() && w == NodeHash(p, Overlay(batch), level, index / 2)
      ensures hashes == old(hashes) + 1
    {
      var left: uint32, right: uint32;
      if index % 2 != 0 {
        left, right := index - 1, index;
      } else {
        left, right := index, index + 1;
      }
      assert left == 2 * (index / 2) && right == 2 * (index / 2) + 1;
      var l := GetLeafFromBatchOrStorage(batch, level, left);
      var r := GetLeafFromBatchOrStorage(batch, level, right);
      hashes := hashes + 1;
      w := p.hash(l, r);
    }

    /** The step both insertions repeat: hash the pair that `index` belongs to and store it one level up. */
    method SetParent(batch: NodeBatch, level: uint8, index: uint32) returns (parent: uint32, nodeHash: Word)
      requires Valid() && Reads(batch) && level < p.depth
      modifies this, batch, batch.sink
      ensures Valid() && hashes == old(hashes) + 1
      ensures parent == index / 2 && nodeHash == NodeHash(p, old(Overlay(batch)), level, parent)
      ensures batch.buffer == old(batch.buffer)[Node(level + 1, parent) := nodeHash]
      ensures batch.sink != null ==>
                batch.sink.ops == old(batch.sink.ops) + [SetNode(NodeWrite(Node(level + 1, parent), nodeHash))]
    {
      nodeHash := CalculateHashForNode(batch, level, index);
      parent := index / 2;
      batch.SetLeaf(level + 1, parent, nodeHash);
    }

    /** Inserts one leaf and recomputes its path to the root: one hash per level. */
    method InsertLeaf(batch: NodeBatch, index: uint32, value: Word)
      requires Valid() && Reads(batch)
      modifies this, batch, batch.sink
      ensures Valid()
      ensures batch.buffer == old(batch.buffer) + Updates(p, old(Overlay(batch)), map[index := value])
      ensures batch.sink != null ==>
                batch.sink.ops == old(batch.sink.ops)
                                  + NodeOps(InsertWrites(p, old(Overlay(batch)), [TreeLeaf(index, value)], p.depth))
      ensures hashes == old(hashes) + p.depth
    {
      ghost var live, start, leaf := Live(storage.store.nodes), batch.buffer, TreeLeaf(index, value);
      ghost var base := if batch.sink == null then [] else batch.sink.ops;
      batch.SetLeaf(0, index, value);
      ghost var stages := ClimbPath(batch, index, base, old(hashes), FirstStage(start, leaf));
      LastStageOne(p, live, start, leaf, stages);
    }

    /** Hashes from `index` up to the root; `stages` records what each level left. */
    method ClimbPath(batch: NodeBatch, index: uint32, ghost base: seq<DbOp>, ghost spent: nat, ghost first: LevelStep)
      returns (ghost stages: seq<LevelStep>)
      requires Valid() && Reads(batch)
      requires first.parents == [index] && first.cost == 0 && Stands(batch, base, spent, first)
      modifies this, batch, batch.sink
      ensures Valid() && |stages| == p.depth + 1 && stages[0] == first && Chain(p, Live(storage.store.nodes), stages)
      ensures stages[p.depth].cost == p.depth && Stands(batch, base, spent, stages[p.depth])
    {
      ghost var live := Live(storage.store.nodes);
      stages := [first];
      var i := index;
      var level: uint8 := 0;
      while level < p.depth
        invariant level <= p.depth && Valid()
        invariant |stages| == level as int + 1 && stages[0] == first && Chain(p, live, stages)
        invariant stages[level].parents == [i] && stages[level].cost == level
        invariant Stands(batch, base, spent, stages[level])
      {
        ghost var steps := LevelPlan(p, live, level, [TreeLeaf(i, 0)], stages);
        assert Advances(p, live, level, i / 2, steps[0], steps[1]);
        var parent, nodeHash := SetParent(batch, level, i);
        i, stages, level := parent, stages + [steps[1]], level + 1;
      }
    }

    /**
     One level of the batched insertion. `src` holds the nodes of `level`; their distinct
     parents are appended to `dst`. From level 1 on `src` and `dst` are the same array: an
     entry is read before anything is written over it, because the write position never
     passes the read position, and the array never has to grow.
     */
    method HashLevel(batch: NodeBatch, level: uint8, src: array<TreeLeaf>, count: nat, dst: array<TreeLeaf>,
                     ghost base: seq<DbOp>, ghost spent: nat, ghost steps: seq<LevelStep>)
      returns (next: array<TreeLeaf>, k: nat)
      requires Valid() && Reads(batch) && level < p.depth && count <= src.Length
      requires |steps| == count + 1 && steps[0].parents == [] && Stands(batch, base, spent, steps[0])
      requires forall j :: 0 <= j < count ==>
                 Advances(p, Live(storage.store.nodes), level, src[j].index / 2, steps[j], steps[j + 1])
      modifies this, batch, batch.sink, dst
      ensures Valid()
      ensures next == dst || fresh(next)
      ensures src == dst ==> next == dst
      ensures k <= count && k <= next.Length && Indices(next[..k]) == steps[count].parents
      ensures Stands(batch, base, spent, steps[count])
    {
      ghost var items, live := src[..count], Live(storage.store.nodes);
      var seen: set<nat> := {};
      var j := 0;
      next, k := dst, 0;
      while j < count
        invariant Valid() && k <= j <= count && k <= next.Length
        invariant next == dst || fresh(next)
        invariant src == dst ==> next == src
        invariant forall i :: j <= i < count ==> src[i] == items[i]
        invariant k == |steps[j].parents| && forall i :: 0 <= i < k ==> next[i].index == steps[j].parents[i]
        invariant forall q :: q in seen <==> q in steps[j].parents
        invariant Stands(batch, base, spent, steps[j])
      {
        var leaf := src[j];
        assert Advances(p, live, level, items[j].index / 2, steps[j], steps[j + 1]);
        var index := leaf.index / 2;
        if index !in seen {
          var parent, nodeHash := SetParent(batch, level, leaf.index);
          next := Append(next, k, TreeLeaf(parent, nodeHash));
          k, seen := k + 1, seen + {index};
        }
        j := j + 1;
      }
    }

    method SetLeaves(batch: NodeBatch, leaves: array<TreeLeaf>)
      modifies batch, batch.sink
      ensures batch.buffer == old(batch.buffer) + WrittenBy(LeafWrites(leaves[..]))
      ensures batch.sink != null ==> batch.sink.ops == old(batch.sink.ops) + NodeOps(LeafWrites(leaves[..]))
    {
      ghost var start, writes := batch.buffer, LeafWrites(leaves[..]);
      ghost var base := if batch.sink == null then [] else batch.sink.ops;
      assert start + WrittenBy(writes[..0]) == start && base + NodeOps(writes[..0]) == base;
      for j := 0 to leaves.Length
        invariant batch.buffer == start + WrittenBy(writes[..j])
        invariant batch.sink != null ==> batch.sink.ops == base + NodeOps(writes[..j])
      {
        assert writes[j] == NodeWrite(Node(0, leaves[j].index), leaves[j].value);
        batch.SetLeaf(0, leaves[j].index, leaves[j].value);
        WritesNext(start, base, writes, j);
      }
      assert writes[..leaves.Length] == writes;
    }

    /**
     Inserts many leaves, hashing every touched node once. The caller's array is read at
     level 0 only and never written.
     */
    method InsertLeaves(batch: NodeBatch, leaves: array<TreeLeaf>)
      requires Valid() && Reads(batch)
      modifies this, batch, batch.sink
      ensures Valid()
      ensures batch.buffer == old(batch.buffer) + Updates(p, old(Overlay(batch)), LastWrites(leaves[..]))
      ensures batch.sink != null ==>
                batch.sink.ops == old(batch.sink.ops)
                                  + NodeOps(InsertWrites(p, old(Overlay(batch)), leaves[..], p.depth))
      ensures hashes == old(hashes) + TotalParents(Indices(leaves[..]), p.depth)
    {
      ghost var items, live, start := leaves[..], Live(storage.store.nodes), batch.buffer;
      ghost var base := if batch.sink == null then [] else batch.sink.ops;
      SetLeaves(batch, leaves);
      ghost var first := LevelStep(Indices(items), start + WrittenBy(LeafWrites(items)), NodeOps(LeafWrites(items)), 0);
      ghost var stages := HashLevels(batch, leaves, base, old(hashes), first);
      LastStage(p, live, start, live + start, items, stages);
    }

    /** Level by level, the parents of what the level below holds; `stages` records what each level left. */
    method HashLevels(batch: NodeBatch, leaves: array<TreeLeaf>, ghost base: seq<DbOp>, ghost spent: nat,
                      ghost first: LevelStep)
      returns (ghost stages: seq<LevelStep>)
      requires Valid() && Reads(batch)
      requires first.parents == Indices(leaves[..]) && Stands(batch, base, spent, first)
      modifies this, batch, batch.sink
      ensures Valid() && |stages| == p.depth + 1 && stages[0] == first
      ensures Chain(p, Live(storage.store.nodes), stages)
      ensures Stands(batch, base, spent, stages[p.depth])
    {
      var next := new TreeLeaf[0];
      var current, count: nat := leaves, leaves.Length;
      var level: uint8 := 0;
      ghost var live := Live(storage.store.nodes);
      stages := [first];
      while level < p.depth
        invariant level <= p.depth && Valid() && fresh(next)
        invariant current == if level == 0 then leaves else next
        invariant |stages| == level as int + 1 && stages[0] == first
        invariant Chain(p, live, stages)
        invariant count <= current.Length && Indices(current[..count]) == stages[level].parents
        invariant Stands(batch, base, spent, stages[level])
      {
        ghost var steps := LevelPlan(p, live, level, current[..count], stages);
        ghost var after := steps[count];
        next, count := HashLevel(batch, level, current, count, next, base, spent, steps);
        stages, current, level := stages + [after], next, level + 1;
      }
    }

    // ---------- proving ----------

    method CreateProof(index: uint32) returns (proof: MerkleProof)
      requires Valid()
      modifies this`emptyBranchLevels
      ensures Valid() && proof == ProofOf(p, Live(storage.store.nodes), index)
    {
      var path := new Word[p.depth];
      var leaf := GetLeafFromStorage(0, index);
      ghost var m := Live(storage.store.nodes);
      ghost var want := PathWanted(p, m, index);
      var i := index;
      var level: uint8 := 0;
      while level < p.depth
        invariant level <= p.depth && Valid() && i == Anc(index, level)
        invariant forall l: nat :: l < level ==> path[l] == want[l]
      {
        assert SiblingAt(p, m, index, want, level);
        var other: uint32 := if i % 2 == 0 then i + 1 else i - 1;
        var sibling := GetLeafFromStorage(level, other);
        path[level] := sibling;
        i, level := i / 2, level + 1;
      }
      var root := GetRoot();
      assert path[..] == want;
      WantedIsPath(p, m, index, want);
      proof := MerkleProof(leaf, path[..], index, root);
    }

    /** The same proof read through a batch, finding the sibling by flipping the lowest bit. */
    method CreateProofWithBatch(batch: NodeBatch, index: uint32) returns (proof: MerkleProof)
      requires Valid() && Reads(batch)
      modifies this`emptyBranchLevels
      ensures Valid() && proof == ProofOf(p, Overlay(batch), index)
    {
      var path := new Word[p.depth];
      var leaf := GetLeafFromBatchOrStorage(batch, 0, index);
      ghost var m := Overlay(batch);
      ghost var want := PathWanted(p, m, index);
      var i := index;
      var level: uint8 := 0;
      while level < p.depth
        invariant level <= p.depth && Valid() && i == Anc(index, level)
        invariant forall l: nat :: l < level ==> path[l] == want[l]
      {
        assert SiblingAt(p, m, index, want, level);
        XorOneIsSibling(i);
        var sibling := GetLeafFromBatchOrStorage(batch, level, Xor(i, 1));
        path[level] := sibling;
        i, level := i / 2, level + 1;
      }
      var root := GetLeafFromBatchOrStorage(batch, p.depth, 0);
      assert path[..] == want;
      WantedIsPath(p, m, index, want);
      proof := MerkleProof(leaf, path[..], index, root);
    }

    /** The first drawn index whose leaf was never written: a revoked leaf does not qualify. */
    method GetRandomEmptyLeafIndex(draws: nat -> uint64) returns (r: Option<uint32>)
      requires Valid()
      ensures r.Some? ==> exists k: nat :: k < 10 && r.value == draws(k) % Pow2(p.depth)
                            && NoWord(storage.store.nodes, r.value)
                            && forall j: nat :: j < k ==> !NoWord(storage.store.nodes, draws(j) % Pow2(p.depth))
      ensures r.None? <==> forall k: nat :: k < 10 ==> !NoWord(storage.store.nodes, draws(k) % Pow2(p.depth))
    {
      Pow2Bounds(p.depth);
      for k := 0 to MAX_DRAWS
        invariant forall j: nat :: j < k ==> !NoWord(storage.store.nodes, draws(j) % Pow2(p.depth))
      {
        var index := draws(k) % Pow2(p.depth);
        var found := storage.GetLeaf(0, index);
        if found == None {
          return Some(index);
        }
      }
      r := None;
    }

    // ---------- simulating ----------

    method FindEmptyLeafIndexInSimulation(batch: NodeBatch, rand: Draws, at: nat) returns (r: Option<uint32>)
      requires Valid() && Reads(batch)
      modifies this`emptyBranchLevels
      ensures Valid() && r == FirstVacant(p, Overlay(batch), rand, at, 0)
      ensures r.Some? ==> exists k: nat :: k < 10 && Lands(p, Overlay(batch), rand, at, k, r.value)
      ensures r.None? <==> NoRoom(p, Overlay(batch), rand, at)
    {
      Pow2Bounds(p.depth);
      FirstVacantLands(p, Overlay(batch), rand, at);
      ghost var m := Overlay(batch);
      for k := 0 to MAX_DRAWS
        invariant Valid() && Overlay(batch) == m
        invariant FirstVacant(p, m, rand, at, 0) == FirstVacant(p, m, rand, at, k)
      {
        var index := rand(at, k) % Pow2(p.depth);
        var leaf := GetLeafFromBatchOrStorage(batch, 0, index);
        if leaf == p.empty {
          return Some(index);
        }
      }
      r := None;
    }

    method FindLeafByValueInSimulation(batch: NodeBatch, value: Word) returns (r: Option<uint32>)
      requires Valid() && Reads(batch)
      modifies this`emptyBranchLevels
      ensures Valid() && r == LeastHolding(p, Overlay(batch), value, 0)
    {
      Pow2Bounds(p.depth);
      for i := 0 to Pow2(p.depth)
        invariant Valid() && LeastHolding(p, Overlay(batch), value, 0) == LeastHolding(p, Overlay(batch), value, i)
      {
        var leaf := GetLeafFromBatchOrStorage(batch, 0, i);
        if leaf == value {
          return Some(i);
        }
      }
      r := None;
    }

    /** The leaf an operation lands on, its proof, and its effect on the simulation. */
    method SimulateOperation(batch: NodeBatch, o: LeafOperation, rand: Draws, at: nat)
      returns (r: Result<BatchProof, SimError>)
      requires Valid() && Reads(batch) && batch.sink == null
      modifies this, batch
      ensures Valid()
      ensures match Pick(p, old(Overlay(batch)), o, rand, at)
              case Failure(e) => r == Failure(e)
              case Success(i) => r == Success(BatchProof(i, PathOf(p, old(Overlay(batch)), i)))
                                 && Overlay(batch) == After(p, old(Overlay(batch)), o, i)
    {
      var found: Option<uint32>;
      if o.op == ADDITION {
        found := FindEmptyLeafIndexInSimulation(batch, rand, at);
        if found == None {
          return Failure(NoEmptyLeaf(at));
        }
      } else if o.op == REVOCATION {
        found := FindLeafByValueInSimulation(batch, o.leaf.value);
        if found == None {
          return Failure(NoSuchLeaf(at));
        }
      } else {
        return Failure(UnknownOperation(at));
      }
      var index := found.value;
      var proof := CreateProofWithBatch(batch, index);
      if proof.leaf != OldLeaf(p, o) {
        assert false;  // neither "leaf is not empty" nor "leaf does not match" can be reported
      }
      ghost var live, start := Live(storage.store.nodes), batch.buffer;
      InsertLeaf(batch, index, NewLeaf(p, o));
      Layered(live, start, Updates(p, live + start, map[index as nat := NewLeaf(p, o)]));
      r := Success(BatchProof(index, proof.path));
    }

    /** Proofs for a whole batch, from a simulation that leaves the database alone. */
    method SimulateBatchOperations(ops: seq<LeafOperation>, rand: Draws)
      returns (r: Result<(Word, seq<BatchProof>), SimError>)
      requires Valid()
      modifies this
      ensures Valid()
      ensures match Simulate(p, Live(storage.store.nodes), ops, rand, 0)
              case Failure(e) => r == Failure(e)
              case Success(proofs) => r == Success((Root(p, Live(storage.store.nodes)), proofs))
      ensures r.Success? ==> |r.value.1| == |ops|
      ensures r.Success? ==>
                forall j: nat :: j < |ops| ==> PlacedAt(p, Live(storage.store.nodes), ops, rand, 0, r.value.1, j)
      ensures forall e :: r == Failure(e) <==> Blames(p, Live(storage.store.nodes), ops, rand, e)
    {
      var initialRoot := GetRoot();
      var proofs := SimulateAll(ops, rand);
      SimulationExplained(p, Live(storage.store.nodes), ops, rand);
      match proofs
      case Failure(e) => r := Failure(e);
      case Success(all) => r := Success((initialRoot, all));
    }

    /** The operations one after the other, up to the first that cannot be placed. */
    method SimulateAll(ops: seq<LeafOperation>, rand: Draws) returns (r: Result<seq<BatchProof>, SimError>)
      requires Valid()
      modifies this
      ensures Valid() && r == Simulate(p, Live(storage.store.nodes), ops, rand, 0)
    {
      var batch := new NodeBatch.Simulation(storage);
      ghost var live := Live(storage.store.nodes);
      ghost var m := live + map[];
      assert m == live;
      var proofs: seq<BatchProof> := [];
      SimulationStart(p, m, ops, rand);
      for at := 0 to |ops|
        invariant Valid() && fresh(batch) && Reads(batch) && batch.sink == null
        invariant m == Overlay(batch) && SimulatesTo(p, live, ops, rand, at, m, proofs)
      {
        SimulationStep(p, live, ops, rand, at, m, proofs);
        var one := SimulateOperation(batch, ops[at], rand, at);
        m := Overlay(batch);
        match one
        case Failure(e) => return Failure(e);
        case Success(proof) => proofs := proofs + [proof];
      }
      SimulationEnd(p, live, ops, rand, m, proofs);
      r := Success(proofs);
    }
  }

  lemma {:induction false} SimulationExplained(p: Params, m: Nodes, ops: seq<LeafOperation>, rand: Draws)
    ensures var r := Simulate(p, m, ops, rand, 0);
            && (r.Success? ==> |r.value| == |ops|)
            && (r.Success? ==> forall j: nat :: j < |ops| ==> PlacedAt(p, m, ops, rand, 0, r.value, j))
            && (forall e :: r == Failure(e) <==> Blames(p, m, ops, rand, e))
  {
    var r := Simulate(p, m, ops, rand, 0);
    SimulationPlaces(p, m, ops, rand, 0);
    forall e ensures r == Failure(e) <==> Blames(p, m, ops, rand, e) {
      FailureBlames(p, m, ops, rand, e);
    }
  }

  lemma {:induction false} PathWanted(p: Params, m: Nodes, index: nat) returns (want: seq<Word>)
    ensures |want| == p.depth
    ensures forall l: nat :: l < p.depth ==> SiblingAt(p, m, index, want, l)
  {
    want := PathOf(p, m, index);
  }

  lemma {:induction false} WantedIsPath(p: Params, m: Nodes, index: nat, want: seq<Word>)
    requires |want| == p.depth && forall l: nat :: l < p.depth ==> SiblingAt(p, m, index, want, l)
    ensures want == PathOf(p, m, index)
  {
    forall l: nat | l < p.depth ensures want[l] == PathOf(p, m, index)[l] {
      assert SiblingAt(p, m, index, want, l);
    }
  }

  /** Where one level of the batched insertion stands after some of its entries. */
  datatype LevelStep = LevelStep(parents: seq<nat>, buffer: Nodes, ops: seq<DbOp>, cost: nat)

  ghost predicate Advances(p: Params, live: Nodes, level: nat, q: nat, a: LevelStep, b: LevelStep) {
    if q in a.parents then b == a
    else
      var h := NodeHash(p, live + a.buffer, level, q);
      b == LevelStep(a.parents + [q], a.buffer[Node(level + 1, q) := h],
                     a.ops + [SetNode(NodeWrite(Node(level + 1, q), h))], a.cost + 1)
  }

  ghost function StepAt(p: Params, m: Nodes, level: nat, stage: LevelStep, parents: seq<nat>): LevelStep {
    StepWith(stage, parents, HashWrites(p, m, level, parents))
  }

  /** What one level leaves, given what the level below left. */
  ghost predicate NextStage(p: Params, live: Nodes, a: LevelStep, b: LevelStep, level: nat) {
    b == StepAt(p, live + a.buffer, level, a, Parents(a.parents))
  }

  lemma {:induction false} LevelTable(p: Params, live: Nodes, level: nat, items: seq<TreeLeaf>, stage: LevelStep)
    returns (steps: seq<LevelStep>)
    requires stage.parents == Indices(items)
    ensures |steps| == |items| + 1 && steps[0] == stage.(parents := [])
    ensures forall j :: 0 <= j < |items| ==> Advances(p, live, level, items[j].index / 2, steps[j], steps[j + 1])
    ensures NextStage(p, live, stage, steps[|items|], level)
  {
    var m := live + stage.buffer;
    steps := seq(|items| + 1, j requires 0 <= j <= |items| => StepAt(p, m, level, stage, Parents(Indices(items[..j]))));
    assert items[..|items|] == items;
    assert stage.buffer + map[] == stage.buffer;
    forall j | 0 <= j < |items| ensures Advances(p, live, level, items[j].index / 2, steps[j], steps[j + 1]) {
      ParentsSnoc(items, j);
      AdvancesAt(p, live, m, level, stage, Parents(Indices(items[..j])), items[j].index / 2);
    }
  }

  ghost function StageAt(p: Params, start: Nodes, m: Nodes, items: seq<TreeLeaf>, level: nat): LevelStep {
    var writes := InsertWrites(p, m, items, level);
    LevelStep(Layer(Indices(items), level), start + WrittenBy(writes), NodeOps(writes),
              TotalParents(Indices(items), level))
  }

  ghost predicate StageStep(p: Params, live: Nodes, stages: seq<LevelStep>, level: nat)
    requires level + 1 < |stages|
  {
    NextStage(p, live, stages[level], stages[level + 1], level)
  }

  ghost predicate Chain(p: Params, live: Nodes, stages: seq<LevelStep>) {
    forall l :: 0 <= l < |stages| - 1 ==> StageStep(p, live, stages, l)
  }

  lemma {:induction false} StagesSnoc(p: Params, live: Nodes, front: seq<LevelStep>, b: LevelStep)
    requires |front| > 0 && Chain(p, live, front) && NextStage(p, live, front[|front| - 1], b, |front| - 1)
    ensures Chain(p, live, front + [b])
  {
    forall l | 0 <= l < |front| - 1 ensures StageStep(p, live, front + [b], l) {
      assert StageStep(p, live, front, l);
    }
  }

  lemma {:induction false} LastStage(p: Params, live: Nodes, start: Nodes, m: Nodes, items: seq<TreeLeaf>,
                                     stages: seq<LevelStep>)
    requires m == live + start && |stages| == p.depth + 1 && Chain(p, live, stages)
    requires stages[0] == LevelStep(Indices(items), start + WrittenBy(LeafWrites(items)), NodeOps(LeafWrites(items)), 0)
    ensures stages[p.depth].buffer == start + Updates(p, m, LastWrites(items))
    ensures stages[p.depth].ops == NodeOps(InsertWrites(p, m, items, p.depth))
    ensures stages[p.depth].cost == TotalParents(Indices(items), p.depth)
  {
    StagesAre(p, live, start, m, items, stages, p.depth);
    InsertWritesLeave(p, m, items, p.depth);
  }

  /** The steps of the level after the last stage. */
  lemma {:induction false} LevelPlan(p: Params, live: Nodes, level: nat, items: seq<TreeLeaf>, stages: seq<LevelStep>)
    returns (steps: seq<LevelStep>)
    requires |stages| == level + 1 && Chain(p, live, stages) && stages[level].parents == Indices(items)
    ensures |steps| == |items| + 1 && steps[0] == stages[level].(parents := [])
    ensures forall j :: 0 <= j < |items| ==> Advances(p, live, level, items[j].index / 2, steps[j], steps[j + 1])
    ensures Chain(p, live, stages + [steps[|items|]])
  {
    steps := LevelTable(p, live, level, items, stages[level]);
    StagesSnoc(p, live, stages, steps[|items|]);
  }

  /** The stages are determined: level `l` leaves exactly the writes of levels 0..l. */
  lemma {:induction false} StagesAre(p: Params, live: Nodes, start: Nodes, m: Nodes, items: seq<TreeLeaf>,
                                     stages: seq<LevelStep>, level: nat)
    requires m == live + start && level < |stages| && Chain(p, live, stages)
    requires stages[0] == StageAt(p, start, m, items, 0)
    ensures stages[level] == StageAt(p, start, m, items, level)
  {
    var f := (l: nat) => StageAt(p, start, m, items, l);
    forall l: nat ensures FollowsAt(p, live, f, l) {
      StageStepAt(p, live, start, m, items, l, InsertWrites(p, m, items, l));
    }
    StagesFollow(p, live, stages, f, level);
  }

  ghost predicate FollowsAt(p: Params, live: Nodes, f: nat -> LevelStep, l: nat) {
    NextStage(p, live, f(l), f(l + 1), l)
  }

  lemma {:induction false} StagesFollow(p: Params, live: Nodes, stages: seq<LevelStep>, f: nat -> LevelStep, level: nat)
    requires level < |stages| && Chain(p, live, stages) && stages[0] == f(0)
    requires forall l: nat :: FollowsAt(p, live, f, l)
    ensures stages[level] == f(level)
  {
    if level > 0 {
      StagesFollow(p, live, stages, f, level - 1);
      assert StageStep(p, live, stages, level - 1);
      assert FollowsAt(p, live, f, level - 1);
    }
  }

  lemma {:induction false} StageStepAt(p: Params, live: Nodes, start: Nodes, m: Nodes, items: seq<TreeLeaf>,
                                       level: nat, before: seq<NodeWrite>)
    requires m == live + start && before == InsertWrites(p, m, items, level)
    ensures NextStage(p, live, StageAt(p, start, m, items, level), StageAt(p, start, m, items, level + 1), level)
  {
    var done, parents := WrittenBy(before), Layer(Indices(items), level + 1);
    Layered(live, start, done);
    StepConcat(start, Layer(Indices(items), level), parents, before, HashWrites(p, m + done, level, parents),
               TotalParents(Indices(items), level));
  }

  lemma {:induction false} StepConcat(start: Nodes, below: seq<nat>, parents: seq<nat>, before: seq<NodeWrite>,
                                      writes: seq<NodeWrite>, cost: nat)
    ensures StepWith(LevelStep(below, start + WrittenBy(before), NodeOps(before), cost), parents, writes)
         == LevelStep(parents, start + WrittenBy(before + writes), NodeOps(before + writes), cost + |parents|)
  {
    WrittenByConcat(before, writes);
    Layered(start, WrittenBy(before), WrittenBy(writes));
    assert NodeOps(before + writes) == NodeOps(before) + NodeOps(writes);
  }

  /** Writing number `j` of some writes after the ones before it. */
  lemma {:induction false} WritesNext(start: Nodes, base: seq<DbOp>, writes: seq<NodeWrite>, j: nat)
    requires j < |writes|
    ensures (start + WrittenBy(writes[..j]))[writes[j].node := writes[j].word] == start + WrittenBy(writes[..j + 1])
    ensures (base + NodeOps(writes[..j])) + [SetNode(writes[j])] == base + NodeOps(writes[..j + 1])
  {
    assert writes[..j + 1] == writes[..j] + [writes[j]];
    WritesSnoc(writes[..j], writes[j]);
    AddedLast(start, WrittenBy(writes[..j]), writes[j]);
  }

  lemma {:induction false} AdvancesAt(p: Params, live: Nodes, m: Nodes, level: nat, stage: LevelStep,
                                      parents: seq<nat>, q: nat)
    requires m == live + stage.buffer
    ensures Advances(p, live, level, q, StepAt(p, m, level, stage, parents),
                     StepAt(p, m, level, stage, if q in parents then parents else parents + [q]))
  {
    if q !in parents {
      var writes := HashWrites(p, m, level, parents);
      OverlayAbove(p, live, stage.buffer, m, level, parents, WrittenBy(writes), q);
      HashWritesSnoc(p, m, level, parents, q);
      StepSnoc(stage, parents, q, writes, NodeWrite(Node(level + 1, q), NodeHash(p, m, level, q)));
    }
  }

  lemma {:induction false} HashWritesSnoc(p: Params, m: Nodes, level: nat, parents: seq<nat>, q: nat)
    ensures HashWrites(p, m, level, parents + [q])
         == HashWrites(p, m, level, parents) + [NodeWrite(Node(level + 1, q), NodeHash(p, m, level, q))]
  {
  }

  /** Where a level stands after some writes. */
  ghost function StepWith(stage: LevelStep, parents: seq<nat>, writes: seq<NodeWrite>): LevelStep {
    LevelStep(parents, stage.buffer + WrittenBy(writes), stage.ops + NodeOps(writes), stage.cost + |parents|)
  }

  lemma {:induction false} StepSnoc(stage: LevelStep, parents: seq<nat>, q: nat, writes: seq<NodeWrite>,
                                    write: NodeWrite)
    ensures var a, b := StepWith(stage, parents, writes), StepWith(stage, parents + [q], writes + [write]);
            b == LevelStep(a.parents + [q], a.buffer[write.node := write.word], a.ops + [SetNode(write)], a.cost + 1)
  {
    WritesSnoc(writes, write);
    AddedLast(stage.buffer, WrittenBy(writes), write);
    assert stage.ops + (NodeOps(writes) + [SetNode(write)]) == (stage.ops + NodeOps(writes)) + [SetNode(write)];
  }

  /** Go's append: in place while there is room, into a larger copy otherwise. */
  method Append(a: array<TreeLeaf>, n: nat, x: TreeLeaf) returns (b: array<TreeLeaf>)
    requires n <= a.Length
    modifies a
    ensures n < b.Length && b[n] == x && forall i :: 0 <= i < n ==> b[i] == old(a[i])
    ensures n < a.Length ==> b == a && forall i :: n < i < a.Length ==> a[i] == old(a[i])
    ensures n == a.Length ==> fresh(b) && a[..] == old(a[..])
  {
    if n < a.Length {
      b := a;
    } else {
      b := new TreeLeaf[2 * n + 1];
      for i := 0 to n
        invariant forall l :: 0 <= l < i ==> b[l] == a[l]
        invariant a[..] == old(a[..])
      {
        b[i] := a[i];
      }
    }
    b[n] := x;
  }

  lemma {:induction false} ParentsSnoc(items: seq<TreeLeaf>, j: nat)
    requires j < |items|
    ensures var q, seen := items[j].index / 2, Parents(Indices(items[..j]));
            Parents(Indices(items[..j + 1])) == if q in seen then seen else seen + [q]
  {
    var s := Indices(items[..j + 1]);
    assert s[..|s| - 1] == Indices(items[..j]);
  }

  lemma {:induction false} OverlayAbove(p: Params, live: Nodes, start: Nodes, m: Nodes, level: nat,
                                        parents: seq<nat>, out: Nodes, q: nat)
    requires m == live + start && out == WrittenBy(HashWrites(p, m, level, parents))
    ensures NodeHash(p, live + (start + out), level, q) == NodeHash(p, m, level, q)
  {
    HashWritesLeave(p, m, level, parents, Node(level, 2 * q));
    HashWritesLeave(p, m, level, parents, Node(level, 2 * q + 1));
  }

  lemma {:induction false} Layered(live: Nodes, start: Nodes, done: Nodes)
    ensures live + (start + done) == (live + start) + done
  {
  }

  /** The first stage of inserting a single leaf. */
  ghost function FirstStage(start: Nodes, leaf: TreeLeaf): LevelStep {
    LevelStep([leaf.index], start[Node(0, leaf.index) := leaf.value],
              [SetNode(NodeWrite(Node(0, leaf.index), leaf.value))], 0)
  }

  lemma {:induction false} LastStageOne(p: Params, live: Nodes, start: Nodes, leaf: TreeLeaf, stages: seq<LevelStep>)
    requires |stages| == p.depth + 1 && Chain(p, live, stages) && stages[0] == FirstStage(start, leaf)
    ensures stages[p.depth].buffer == start + Updates(p, live + start, map[leaf.index := leaf.value])
    ensures stages[p.depth].ops == NodeOps(InsertWrites(p, live + start, [leaf], p.depth))
  {
    var writes := LeafWrites([leaf]);
    assert writes == [NodeWrite(Node(0, leaf.index), leaf.value)] && writes[..0] == [] && [leaf][..0] == [];
    assert stages[0].parents == Indices([leaf]) && stages[0].ops == NodeOps(writes);
    assert stages[0].buffer == start + WrittenBy(writes);
    assert LastWrites([leaf]) == map[leaf.index := leaf.value];
    LastStage(p, live, start, live + start, [leaf], stages);
  }
}
