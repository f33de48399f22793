/**
 What simulating a batch of operations means: which leaf each operation lands on, the proof
 it is given, and when it fails. Random draws are a parameter: `rand(at, k)` is the k-th
 draw made for the operation at position `at`.
 */
module Simulation {
  import opened Words
  import opened MerkleSpec
  import opened WriteOrder

  const ADDITION: uint8 := 1
  const REVOCATION: uint8 := 2
  const MAX_DRAWS: nat := 10

  /** The k-th draw made for the operation at a position. */
  type Draws = (nat, nat) -> uint64

  datatype LeafOperation = LeafOperation(leaf: TreeLeaf, op: uint8)

  datatype BatchProof = BatchProof(index: nat, path: seq<Word>)

  datatype SimError = NoEmptyLeaf(at: nat) | NoSuchLeaf(at: nat) | UnknownOperation(at: nat)

  /** The leaf word an operation expects to find, and the one it leaves. */
  function OldLeaf(p: Params, o: LeafOperation): Word {
    if o.op == ADDITION then p.empty else o.leaf.value
  }

  function NewLeaf(p: Params, o: LeafOperation): Word {
    if o.op == ADDITION then o.leaf.value else p.empty
  }

  // ---------- choosing the leaf ----------

  function Drawn(p: Params, rand: Draws, at: nat, k: nat): nat {
    rand(at, k) % Pow2(p.depth)
  }

  predicate Vacant(p: Params, m: Nodes, i: nat) {
    Read(p, m, Node(0, i)) == p.empty
  }

  /** The first vacant leaf among draws k, k + 1, ..., MAX_DRAWS - 1. */
  function FirstVacant(p: Params, m: Nodes, rand: Draws, at: nat, k: nat): (r: Option<nat>)
    ensures r.Some? ==> r.value < Pow2(p.depth) && Vacant(p, m, r.value)
    ensures r.None? <==> forall j :: k <= j < MAX_DRAWS ==> !Vacant(p, m, Drawn(p, rand, at, j))
    decreases MAX_DRAWS - k
  {
    if k >= MAX_DRAWS then None
    else if Vacant(p, m, Drawn(p, rand, at, k)) then Some(Drawn(p, rand, at, k))
    else FirstVacant(p, m, rand, at, k + 1)
  }

  /** Draw `j` hits a vacant leaf, and the draws from `k` before it do not. */
  ghost predicate FirstHit(p: Params, m: Nodes, rand: Draws, at: nat, k: nat, j: nat) {
    && k <= j < MAX_DRAWS && Vacant(p, m, Drawn(p, rand, at, j))
    && forall h :: k <= h < j ==> !Vacant(p, m, Drawn(p, rand, at, h))
  }

  lemma {:induction false} FirstVacantIsFirst(p: Params, m: Nodes, rand: Draws, at: nat, k: nat, j: nat)
    requires FirstHit(p, m, rand, at, k, j)
    ensures FirstVacant(p, m, rand, at, k) == Some(Drawn(p, rand, at, j))
    decreases j - k
  {
    if k < j {
      assert !Vacant(p, m, Drawn(p, rand, at, k));
      FirstVacantIsFirst(p, m, rand, at, k + 1, j);
    }
  }

  /** The least leaf index from `i` on that holds `value`. */
  function LeastHolding(p: Params, m: Nodes, value: Word, i: nat): (r: Option<nat>)
    ensures r.Some? ==> i <= r.value < Pow2(p.depth) && Read(p, m, Node(0, r.value)) == value
    ensures r.Some? ==> forall j :: i <= j < r.value ==> Read(p, m, Node(0, j)) != value
    ensures r.None? <==> forall j :: i <= j < Pow2(p.depth) ==> Read(p, m, Node(0, j)) != value
    decreases Pow2(p.depth) - i
  {
    if i >= Pow2(p.depth) then None
    else if Read(p, m, Node(0, i)) == value then Some(i)
    else LeastHolding(p, m, value, i + 1)
  }

  function Pick(p: Params, m: Nodes, o: LeafOperation, rand: Draws, at: nat): (r: Result<nat, SimError>)
    ensures r.Success? ==> r.value < Pow2(p.depth) && Read(p, m, Node(0, r.value)) == OldLeaf(p, o)
    ensures r.Failure? ==> r.error == ErrorFor(o, at)
    ensures r.Failure? <==> Stuck(p, m, o, rand, at)
  {
    if o.op == ADDITION then
      match FirstVacant(p, m, rand, at, 0)
      case Some(i) => Success(i)
      case None => Failure(NoEmptyLeaf(at))
    else if o.op == REVOCATION then
      match LeastHolding(p, m, o.leaf.value, 0)
      case Some(i) => Success(i)
      case None => Failure(NoSuchLeaf(at))
    else Failure(UnknownOperation(at))
  }

  /** Draw `k` for the operation at `at` names leaf `i`, which is empty, and no earlier draw names an empty leaf. */
  ghost predicate Lands(p: Params, m: Nodes, rand: Draws, at: nat, k: nat, i: nat) {
    && rand(at, k) % Pow2(p.depth) == i && Read(p, m, Node(0, i)) == p.empty
    && forall h: nat :: h < k ==> Read(p, m, Node(0, rand(at, h) % Pow2(p.depth))) != p.empty
  }

  /** None of the ten draws names an empty leaf. */
  ghost predicate NoRoom(p: Params, m: Nodes, rand: Draws, at: nat) {
    forall k: nat :: k < 10 ==> Read(p, m, Node(0, rand(at, k) % Pow2(p.depth))) != p.empty
  }

  lemma {:induction false} FirstVacantHits(p: Params, m: Nodes, rand: Draws, at: nat, k: nat) returns (j: nat)
    requires FirstVacant(p, m, rand, at, k).Some?
    ensures FirstHit(p, m, rand, at, k, j) && FirstVacant(p, m, rand, at, k).value == Drawn(p, rand, at, j)
    decreases MAX_DRAWS - k
  {
    if Vacant(p, m, Drawn(p, rand, at, k)) {
      j := k;
    } else {
      j := FirstVacantHits(p, m, rand, at, k + 1);
    }
  }

  lemma {:induction false} HitLands(p: Params, m: Nodes, rand: Draws, at: nat, j: nat)
    requires FirstHit(p, m, rand, at, 0, j)
    ensures j < 10 && Lands(p, m, rand, at, j, Drawn(p, rand, at, j))
  {
    forall h: nat | h < j ensures Read(p, m, Node(0, rand(at, h) % Pow2(p.depth))) != p.empty {
      assert !Vacant(p, m, Drawn(p, rand, at, h));
    }
  }

  lemma {:induction false} NoHitNoRoom(p: Params, m: Nodes, rand: Draws, at: nat)
    requires forall j :: 0 <= j < MAX_DRAWS ==> !Vacant(p, m, Drawn(p, rand, at, j))
    ensures NoRoom(p, m, rand, at)
  {
    forall k: nat | k < 10 ensures Read(p, m, Node(0, rand(at, k) % Pow2(p.depth))) != p.empty {
      assert !Vacant(p, m, Drawn(p, rand, at, k));
    }
  }

  lemma {:induction false} FirstVacantLands(p: Params, m: Nodes, rand: Draws, at: nat)
    ensures match FirstVacant(p, m, rand, at, 0)
            case Some(i) => exists k: nat :: k < 10 && Lands(p, m, rand, at, k, i)
            case None => NoRoom(p, m, rand, at)
  {
    var r := FirstVacant(p, m, rand, at, 0);
    if r.Some? {
      var k := FirstVacantHits(p, m, rand, at, 0);
      HitLands(p, m, rand, at, k);
    } else {
      NoHitNoRoom(p, m, rand, at);
    }
  }

  lemma {:induction false} LandsOnce(p: Params, m: Nodes, rand: Draws, at: nat, k: nat, i: nat, k': nat, i': nat)
    requires Lands(p, m, rand, at, k, i) && Lands(p, m, rand, at, k', i')
    ensures k == k' && i == i'
  {
  }

  /**
   Where an addition goes: to the leaf that the first of ten draws, taken modulo the number of
   leaves, names among the empty ones; nowhere exactly when none of the ten names an empty leaf.
   */
  lemma {:induction false} PickAddition(p: Params, m: Nodes, o: LeafOperation, rand: Draws, at: nat, i: nat)
    requires o.op == ADDITION
    ensures Pick(p, m, o, rand, at) == Success(i) <==> exists k: nat :: k < 10 && Lands(p, m, rand, at, k, i)
    ensures Pick(p, m, o, rand, at).Failure? <==> NoRoom(p, m, rand, at)
    ensures NoRoom(p, m, rand, at) ==> Pick(p, m, o, rand, at) == Failure(NoEmptyLeaf(at))
  {
    FirstVacantLands(p, m, rand, at);
    var r := FirstVacant(p, m, rand, at, 0);
    if r.Some? {
      var k': nat :| k' < 10 && Lands(p, m, rand, at, k', r.value);
      assert Read(p, m, Node(0, rand(at, k') % Pow2(p.depth))) == p.empty;
      forall k: nat | k < 10 && Lands(p, m, rand, at, k, i) ensures i == r.value {
        LandsOnce(p, m, rand, at, k, i, k', r.value);
      }
    } else {
      forall k: nat | k < 10 ensures !Lands(p, m, rand, at, k, i) {
        assert Read(p, m, Node(0, rand(at, k) % Pow2(p.depth))) != p.empty;
      }
    }
  }

  // ---------- the simulation ----------

  ghost function After(p: Params, m: Nodes, o: LeafOperation, i: nat): Nodes {
    Written(p, m, map[i := NewLeaf(p, o)])
  }

  ghost function Simulate(p: Params, m: Nodes, ops: seq<LeafOperation>, rand: Draws,
                          at: nat): Result<seq<BatchProof>, SimError>
    decreases |ops|
  {
    if ops == [] then Success([])
    else
      match Pick(p, m, ops[0], rand, at)
      case Failure(e) => Failure(e)
      case Success(i) =>
        Prepend([BatchProof(i, PathOf(p, m, i))], Simulate(p, After(p, m, ops[0], i), ops[1..], rand, at + 1))
  }

  function Prepend(proofs: seq<BatchProof>, r: Result<seq<BatchProof>, SimError>): Result<seq<BatchProof>, SimError> {
    match r
    case Success(rest) => Success(proofs + rest)
    case Failure(e) => Failure(e)
  }

  lemma {:induction false} SimulateLength(p: Params, m: Nodes, ops: seq<LeafOperation>, rand: Draws, at: nat)
    ensures var r := Simulate(p, m, ops, rand, at); r.Success? ==> |r.value| == |ops|
    decreases |ops|
  {
    if ops != [] {
      var pick := Pick(p, m, ops[0], rand, at);
      if pick.Success? {
        SimulateLength(p, After(p, m, ops[0], pick.value), ops[1..], rand, at + 1);
      }
    }
  }

  /** After `at` operations the simulation has `proofs` and stands at the tree `m`. */
  ghost predicate SimulatesTo(p: Params, start: Nodes, ops: seq<LeafOperation>, rand: Draws, at: nat,
                              m: Nodes, proofs: seq<BatchProof>)
    requires at <= |ops|
  {
    Simulate(p, start, ops, rand, 0) == Prepend(proofs, Simulate(p, m, ops[at..], rand, at))
  }

  lemma {:induction false} SimulationStart(p: Params, start: Nodes, ops: seq<LeafOperation>, rand: Draws)
    ensures SimulatesTo(p, start, ops, rand, 0, start, [])
  {
    assert ops[0..] == ops;
    var r := Simulate(p, start, ops, rand, 0);
    if r.Success? {
      assert [] + r.value == r.value;
    }
  }

  lemma {:induction false} SimulationStep(p: Params, start: Nodes, ops: seq<LeafOperation>, rand: Draws,
                                          at: nat, m: Nodes, proofs: seq<BatchProof>)
    requires at < |ops| && SimulatesTo(p, start, ops, rand, at, m, proofs)
    ensures match Pick(p, m, ops[at], rand, at)
            case Failure(e) => Simulate(p, start, ops, rand, 0) == Failure(e)
            case Success(i) =>
              SimulatesTo(p, start, ops, rand, at + 1, After(p, m, ops[at], i),
                          proofs + [BatchProof(i, PathOf(p, m, i))])
  {
    assert ops[at..][0] == ops[at] && ops[at..][1..] == ops[at + 1..];
    var pick := Pick(p, m, ops[at], rand, at);
    if pick.Success? {
      var proof := BatchProof(pick.value, PathOf(p, m, pick.value));
      var rest := Simulate(p, After(p, m, ops[at], pick.value), ops[at + 1..], rand, at + 1);
      if rest.Success? {
        assert proofs + ([proof] + rest.value) == (proofs + [proof]) + rest.value;
      }
    }
  }

  lemma {:induction false} SimulationEnd(p: Params, start: Nodes, ops: seq<LeafOperation>, rand: Draws,
                                         m: Nodes, proofs: seq<BatchProof>)
    requires SimulatesTo(p, start, ops, rand, |ops|, m, proofs)
    ensures Simulate(p, start, ops, rand, 0) == Success(proofs)
  {
    assert ops[|ops|..] == [] && proofs + [] == proofs;
  }

  // ---------- the chain of proofs ----------

  /** The check of a verifier that knows the initial root and nothing else of the tree. */
  predicate ChainVerifies(p: Params, root: Word, ops: seq<LeafOperation>, proofs: seq<BatchProof>)
    decreases |ops|
  {
    && |proofs| == |ops|
    && (ops != [] ==>
          var o, proof := ops[0], proofs[0];
          && Verifies(p, OldLeaf(p, o), proof.index, proof.path, root)
          && ChainVerifies(p, NextRoot(p, o, proof), ops[1..], proofs[1..]))
  }

  function NextRoot(p: Params, o: LeafOperation, proof: BatchProof): Word {
    if |proof.path| == p.depth then Fold(p, NewLeaf(p, o), proof.index, proof.path, p.depth) else 0
  }

  /** The root that verifier arrives at. */
  function ChainRoot(p: Params, root: Word, ops: seq<LeafOperation>, proofs: seq<BatchProof>): Word
    requires |proofs| == |ops|
    decreases |ops|
  {
    if ops == [] then root else ChainRoot(p, NextRoot(p, ops[0], proofs[0]), ops[1..], proofs[1..])
  }

  /** The tree after the operations, each at the index its proof names. */
  ghost function FinalNodes(p: Params, m: Nodes, ops: seq<LeafOperation>, proofs: seq<BatchProof>): Nodes
    requires |proofs| == |ops|
    decreases |ops|
  {
    if ops == [] then m else FinalNodes(p, After(p, m, ops[0], proofs[0].index), ops[1..], proofs[1..])
  }

  /**
   Every simulated batch verifies from the initial root alone: each proof shows the old
   leaf under the root left by the operations before it, and folding the new leaf along
   the same path gives the root for the next, ending at the root of the final tree.
   */
  lemma {:induction false} SimulationVerifies(p: Params, m: Nodes, ops: seq<LeafOperation>, rand: Draws, at: nat)
    requires Consistent(p, m)
    ensures var r := Simulate(p, m, ops, rand, at);
            r.Success? ==>
              && ChainVerifies(p, Root(p, m), ops, r.value)
              && ChainRoot(p, Root(p, m), ops, r.value) == Root(p, FinalNodes(p, m, ops, r.value))
              && Consistent(p, FinalNodes(p, m, ops, r.value))
    decreases |ops|
  {
    var r := Simulate(p, m, ops, rand, at);
    if ops != [] && r.Success? {
      var i := Pick(p, m, ops[0], rand, at).value;
      var m' := After(p, m, ops[0], i);
      var rest := Simulate(p, m', ops[1..], rand, at + 1);
      WrittenConsistent(p, m, map[i := NewLeaf(p, ops[0])]);
      SimulationVerifies(p, m', ops[1..], rand, at + 1);
      ChainCons(p, m, ops, BatchProof(i, PathOf(p, m, i)), m', r.value, rest.value);
    }
  }

  lemma {:induction false} ChainCons(p: Params, m: Nodes, ops: seq<LeafOperation>, proof: BatchProof, m': Nodes,
                                     proofs: seq<BatchProof>, rest: seq<BatchProof>)
    requires Consistent(p, m) && ops != [] && proofs == [proof] + rest
    requires proof.index < Pow2(p.depth) && proof.path == PathOf(p, m, proof.index)
    requires Read(p, m, Node(0, proof.index)) == OldLeaf(p, ops[0]) && m' == After(p, m, ops[0], proof.index)
    requires ChainVerifies(p, Root(p, m'), ops[1..], rest)
    ensures ChainVerifies(p, Root(p, m), ops, proofs)
    ensures ChainRoot(p, Root(p, m), ops, proofs) == ChainRoot(p, Root(p, m'), ops[1..], rest)
    ensures FinalNodes(p, m, ops, proofs) == FinalNodes(p, m', ops[1..], rest)
  {
    PathComputesNextRoot(p, m, proof.index, NewLeaf(p, ops[0]));
    assert proofs[0] == proof && proofs[1..] == rest;
  }

  // ---------- agreement with a batched insertion ----------

  function PlacedLeaves(p: Params, ops: seq<LeafOperation>, proofs: seq<BatchProof>): Leaves
    requires |proofs| == |ops|
    decreases |ops|
  {
    if ops == [] then map[]
    else map[proofs[0].index := NewLeaf(p, ops[0])] + PlacedLeaves(p, ops[1..], proofs[1..])
  }

  /** Applying the operations one by one is one update with the last word of every leaf. */
  lemma {:induction false} FinalIsOneUpdate(p: Params, m: Nodes, ops: seq<LeafOperation>, proofs: seq<BatchProof>)
    requires |proofs| == |ops|
    ensures FinalNodes(p, m, ops, proofs) == Written(p, m, PlacedLeaves(p, ops, proofs))
    decreases |ops|
  {
    if ops == [] {
      UpdatesNone(p, m);
    } else {
      var one: Leaves := map[proofs[0].index := NewLeaf(p, ops[0])];
      FinalIsOneUpdate(p, Written(p, m, one), ops[1..], proofs[1..]);
      UpdatesCompose(p, m, one, PlacedLeaves(p, ops[1..], proofs[1..]));
    }
  }

  // ---------- when it fails ----------

  ghost predicate Stuck(p: Params, m: Nodes, o: LeafOperation, rand: Draws, at: nat) {
    if o.op == ADDITION then forall k :: 0 <= k < MAX_DRAWS ==> !Vacant(p, m, Drawn(p, rand, at, k))
    else if o.op == REVOCATION then forall i :: 0 <= i < Pow2(p.depth) ==> Read(p, m, Node(0, i)) != o.leaf.value
    else true
  }

  function ErrorFor(o: LeafOperation, at: nat): SimError {
    if o.op == ADDITION then NoEmptyLeaf(at) else if o.op == REVOCATION then NoSuchLeaf(at) else UnknownOperation(at)
  }

  /** The tree after the operations went through, if they do. */
  ghost function TreeAfter(p: Params, m: Nodes, ops: seq<LeafOperation>, rand: Draws, at: nat): Option<Nodes>
    decreases |ops|
  {
    if ops == [] then Some(m)
    else
      match Pick(p, m, ops[0], rand, at)
      case Failure(_) => None
      case Success(i) => TreeAfter(p, After(p, m, ops[0], i), ops[1..], rand, at + 1)
  }

  /** The operations go through exactly when their simulation succeeds, and the tree is the one it ends with. */
  lemma {:induction false} TreeAfterIsFinal(p: Params, m: Nodes, ops: seq<LeafOperation>, rand: Draws, at: nat)
    ensures var r, tree := Simulate(p, m, ops, rand, at), TreeAfter(p, m, ops, rand, at);
            && (r.Success? <==> tree.Some?)
            && (r.Success? ==> |r.value| == |ops| && tree.value == FinalNodes(p, m, ops, r.value))
    decreases |ops|
  {
    if ops != [] {
      var pick := Pick(p, m, ops[0], rand, at);
      if pick.Success? {
        var m' := After(p, m, ops[0], pick.value);
        TreeAfterIsFinal(p, m', ops[1..], rand, at + 1);
        SimulateCons(p, m, ops, rand, at, BatchProof(pick.value, PathOf(p, m, pick.value)), m');
      }
    }
  }

  /** The operations before `j` go through, and the one at `j` cannot be placed. */
  ghost predicate FailsAt(p: Params, m: Nodes, ops: seq<LeafOperation>, rand: Draws, at: nat, j: nat) {
    && j < |ops|
    && var before := TreeAfter(p, m, ops[..j], rand, at);
       before.Some? && Stuck(p, before.value, ops[j], rand, at + j)
  }

  /**
   A simulation fails exactly when some operation, after the ones before it went through,
   is an addition all of whose draws hit occupied leaves, a revocation of a word no leaf
   holds, or of an unknown kind; and the error names that operation.
   */
  lemma {:induction false} SimulationFailsExactly(p: Params, m: Nodes, ops: seq<LeafOperation>, rand: Draws, at: nat)
    ensures var r := Simulate(p, m, ops, rand, at);
            && (r.Failure? <==> exists j: nat :: FailsAt(p, m, ops, rand, at, j))
            && (forall j: nat :: FailsAt(p, m, ops, rand, at, j) ==> r == Failure(ErrorFor(ops[j], at + j)))
    decreases |ops|
  {
    if Simulate(p, m, ops, rand, at).Failure? {
      var j := FailurePosition(p, m, ops, rand, at);
    }
    forall j: nat | FailsAt(p, m, ops, rand, at, j)
      ensures Simulate(p, m, ops, rand, at) == Failure(ErrorFor(ops[j], at + j))
    {
      FailsWith(p, m, ops, rand, at, j, ErrorFor(ops[j], at + j));
    }
  }

  lemma {:induction false} FailurePosition(p: Params, m: Nodes, ops: seq<LeafOperation>, rand: Draws,
                                           at: nat) returns (j: nat)
    requires Simulate(p, m, ops, rand, at).Failure?
    ensures FailsAt(p, m, ops, rand, at, j)
    decreases |ops|
  {
    var pick := Pick(p, m, ops[0], rand, at);
    if pick.Failure? {
      j := 0;
      assert ops[..0] == [];
    } else {
      var rest := FailurePosition(p, After(p, m, ops[0], pick.value), ops[1..], rand, at + 1);
      j := rest + 1;
      FailsAtLater(p, m, ops, rand, at, j);
    }
  }

  lemma {:induction false} FailsWith(p: Params, m: Nodes, ops: seq<LeafOperation>, rand: Draws,
                                     at: nat, j: nat, e: SimError)
    requires FailsAt(p, m, ops, rand, at, j) && e == ErrorFor(ops[j], at + j)
    ensures Simulate(p, m, ops, rand, at) == Failure(e)
    decreases j
  {
    if j == 0 {
      assert ops[..0] == [];
      assert Stuck(p, m, ops[0], rand, at);
    } else {
      var pick := Pick(p, m, ops[0], rand, at);
      FailsAtLater(p, m, ops, rand, at, j);
      FailsWith(p, After(p, m, ops[0], pick.value), ops[1..], rand, at + 1, j - 1, e);
      FailsCons(p, m, ops, rand, at, pick.value, e);
    }
  }

  lemma {:induction false} FailsCons(p: Params, m: Nodes, ops: seq<LeafOperation>, rand: Draws,
                                     at: nat, i: nat, e: SimError)
    requires ops != [] && Pick(p, m, ops[0], rand, at) == Success(i)
    requires Simulate(p, After(p, m, ops[0], i), ops[1..], rand, at + 1) == Failure(e)
    ensures Simulate(p, m, ops, rand, at) == Failure(e)
  {
  }

  lemma {:induction false} FailsAtLater(p: Params, m: Nodes, ops: seq<LeafOperation>, rand: Draws, at: nat, j: nat)
    requires ops != [] && j > 0
    ensures var pick := Pick(p, m, ops[0], rand, at);
            FailsAt(p, m, ops, rand, at, j)
            <==> pick.Success? && FailsAt(p, After(p, m, ops[0], pick.value), ops[1..], rand, at + 1, j - 1)
  {
    if j < |ops| {
      CutLater(ops, j);
      TreeLaterAt(p, m, ops, rand, at, j);
    }
  }

  lemma {:induction false} CutLater(ops: seq<LeafOperation>, j: nat)
    requires 0 < j < |ops|
    ensures ops[..j] != [] && ops[..j][0] == ops[0] && ops[..j][1..] == ops[1..][..j - 1] && ops[1..][j - 1] == ops[j]
  {
  }

  lemma {:induction false} TreeLaterAt(p: Params, m: Nodes, ops: seq<LeafOperation>, rand: Draws, at: nat, j: nat)
    requires 0 < j < |ops|
    ensures var pick := Pick(p, m, ops[0], rand, at);
            TreeAfter(p, m, ops[..j], rand, at)
            == if pick.Failure? then None
               else TreeAfter(p, After(p, m, ops[0], pick.value), ops[1..][..j - 1], rand, at + 1)
  {
    CutLater(ops, j);
    var pick := Pick(p, m, ops[0], rand, at);
    if pick.Success? {
      TreeLater(p, m, ops[..j], rand, at, pick.value);
    } else {
      TreeStops(p, m, ops[..j], rand, at);
    }
  }

  lemma {:induction false} TreeLater(p: Params, m: Nodes, ops: seq<LeafOperation>, rand: Draws, at: nat, i: nat)
    requires ops != [] && Pick(p, m, ops[0], rand, at) == Success(i)
    ensures TreeAfter(p, m, ops, rand, at) == TreeAfter(p, After(p, m, ops[0], i), ops[1..], rand, at + 1)
  {
  }

  lemma {:induction false} TreeStops(p: Params, m: Nodes, ops: seq<LeafOperation>, rand: Draws, at: nat)
    requires ops != [] && Pick(p, m, ops[0], rand, at).Failure?
    ensures TreeAfter(p, m, ops, rand, at).None?
  {
  }

  /** A simulation goes on as the simulation of the rest from the tree after the first operation. */
  lemma {:induction false} SimulateCons(p: Params, m: Nodes, ops: seq<LeafOperation>, rand: Draws, at: nat,
                                        proof: BatchProof, m': Nodes)
    requires ops != [] && Pick(p, m, ops[0], rand, at) == Success(proof.index)
    requires proof.path == PathOf(p, m, proof.index) && m' == After(p, m, ops[0], proof.index)
    ensures var rest := Simulate(p, m', ops[1..], rand, at + 1);
            && Simulate(p, m, ops, rand, at) == Prepend([proof], rest)
            && (rest.Success? && |rest.value| == |ops| - 1 ==>
                  FinalNodes(p, m, ops, [proof] + rest.value) == FinalNodes(p, m', ops[1..], rest.value))
  {
    var rest := Simulate(p, m', ops[1..], rand, at + 1);
    if rest.Success? {
      assert ([proof] + rest.value)[1..] == rest.value;
    }
  }

  // ---------- in the terms of the operations ----------

  /**
   An operation on tree `m` got its leaf and path: an addition (1) where its draws say, a
   revocation (2) at the least leaf that holds its word.
   */
  ghost predicate Placement(p: Params, m: Nodes, o: LeafOperation, rand: Draws, at: nat, proof: BatchProof) {
    && proof.index < Pow2(p.depth) && proof.path == PathOf(p, m, proof.index)
    && (o.op == 1 || o.op == 2)
    && (o.op == 1 ==> exists k: nat :: k < 10 && Lands(p, m, rand, at, k, proof.index))
    && (o.op == 2 ==>
          && Read(p, m, Node(0, proof.index)) == o.leaf.value
          && forall i: nat :: i < proof.index ==> Read(p, m, Node(0, i)) != o.leaf.value)
  }

  lemma {:induction false} PickPlaces(p: Params, m: Nodes, o: LeafOperation, rand: Draws, at: nat, i: nat)
    requires Pick(p, m, o, rand, at) == Success(i)
    ensures Placement(p, m, o, rand, at, BatchProof(i, PathOf(p, m, i)))
  {
    if o.op == ADDITION {
      PickAddition(p, m, o, rand, at, i);
    }
  }

  /** Every operation of a successful simulation was placed on the tree that the ones before it left. */
  ghost predicate PlacedAt(p: Params, m: Nodes, ops: seq<LeafOperation>, rand: Draws, at: nat, proofs: seq<BatchProof>,
                           j: nat)
    requires |proofs| == |ops| && j < |ops|
  {
    Placement(p, FinalNodes(p, m, ops[..j], proofs[..j]), ops[j], rand, at + j, proofs[j])
  }

  lemma {:induction false} SimulationPlaces(p: Params, m: Nodes, ops: seq<LeafOperation>, rand: Draws, at: nat)
    ensures var r := Simulate(p, m, ops, rand, at);
            && (r.Success? ==> |r.value| == |ops|)
            && (r.Success? ==> forall j: nat :: j < |ops| ==> PlacedAt(p, m, ops, rand, at, r.value, j))
    decreases |ops|
  {
    var pick := if ops == [] then Success(0) else Pick(p, m, ops[0], rand, at);
    if ops != [] && pick.Success? {
      var proof, m' := BatchProof(pick.value, PathOf(p, m, pick.value)), After(p, m, ops[0], pick.value);
      SimulationPlaces(p, m', ops[1..], rand, at + 1);
      SimulateCons(p, m, ops, rand, at, proof, m');
      PickPlaces(p, m, ops[0], rand, at, pick.value);
      var rest := Simulate(p, m', ops[1..], rand, at + 1);
      if rest.Success? {
        forall j: nat | j < |ops| ensures PlacedAt(p, m, ops, rand, at, [proof] + rest.value, j) {
          PlacedCons(p, m, ops, rand, at, proof, m', rest.value, j);
        }
      }
    }
  }

  lemma {:induction false} PlacedCons(p: Params, m: Nodes, ops: seq<LeafOperation>, rand: Draws, at: nat,
                                      proof: BatchProof, m': Nodes, rest: seq<BatchProof>, j: nat)
    requires j < |ops| == |rest| + 1 && m' == After(p, m, ops[0], proof.index)
    requires Placement(p, m, ops[0], rand, at, proof)
    requires j > 0 ==> PlacedAt(p, m', ops[1..], rand, at + 1, rest, j - 1)
    ensures PlacedAt(p, m, ops, rand, at, [proof] + rest, j)
  {
    var proofs := [proof] + rest;
    if j == 0 {
      assert ops[..0] == [] && proofs[..0] == [];
    } else {
      CutLater(ops, j);
      FinalCons(p, m, ops[..j], proof, rest[..j - 1]);
      assert proofs[..j] == [proof] + rest[..j - 1] && proofs[j] == rest[j - 1];
      assert at + 1 + (j - 1) == at + j;
    }
  }

  lemma {:induction false} FinalCons(p: Params, m: Nodes, ops: seq<LeafOperation>, proof: BatchProof,
                                     rest: seq<BatchProof>)
    requires |ops| == |rest| + 1
    ensures FinalNodes(p, m, ops, [proof] + rest) == FinalNodes(p, After(p, m, ops[0], proof.index), ops[1..], rest)
  {
    assert ([proof] + rest)[1..] == rest;
  }

  /** The last of the operations that landed on leaf `i`. */
  ghost predicate LastOn(proofs: seq<BatchProof>, i: nat, k: nat) {
    k < |proofs| && proofs[k].index == i && forall j :: k < j < |proofs| ==> proofs[j].index != i
  }

  /** The leaves of the final tree: the word of the last addition there, empty after a revocation, else as before. */
  lemma {:induction false} FinalLeaf(p: Params, m: Nodes, ops: seq<LeafOperation>, proofs: seq<BatchProof>, i: nat)
    requires |proofs| == |ops|
    ensures forall k: nat :: LastOn(proofs, i, k) ==>
              Read(p, FinalNodes(p, m, ops, proofs), Node(0, i))
              == if ops[k].op == 1 then ops[k].leaf.value else p.empty
    ensures (forall k :: 0 <= k < |proofs| ==> proofs[k].index != i) ==>
              Read(p, FinalNodes(p, m, ops, proofs), Node(0, i)) == Read(p, m, Node(0, i))
    decreases |ops|
  {
    if ops != [] {
      var one: Leaves := map[proofs[0].index := NewLeaf(p, ops[0])];
      var m', rest := After(p, m, ops[0], proofs[0].index), proofs[1..];
      WrittenReadsAs(p, m, one, m');
      assert Read(p, m', Node(0, i)) == Rebuilt(p, m, one, 0, i);
      FinalLeaf(p, m', ops[1..], rest, i);
      forall k: nat | LastOn(proofs, i, k) ensures k > 0 ==> LastOn(rest, i, k - 1)
        ensures k == 0 ==> forall j :: 0 <= j < |rest| ==> rest[j].index != i
      {
        assert forall j :: 0 <= j < |rest| ==> rest[j] == proofs[j + 1];
      }
      assert forall j :: 0 <= j < |rest| ==> rest[j] == proofs[j + 1];
    }
  }

  /** Why an operation cannot be placed on tree `m`. */
  ghost predicate Refused(p: Params, m: Nodes, o: LeafOperation, rand: Draws, error: SimError) {
    match error
    case NoEmptyLeaf(at) => o.op == 1 && NoRoom(p, m, rand, at)
    case NoSuchLeaf(at) =>
      o.op == 2 && forall i: nat :: i < Pow2(p.depth) ==> Read(p, m, Node(0, i)) != o.leaf.value
    case UnknownOperation(_) => o.op != 1 && o.op != 2
  }

  lemma {:induction false} RefusedIsStuck(p: Params, m: Nodes, o: LeafOperation, rand: Draws, error: SimError)
    ensures Refused(p, m, o, rand, error) <==> Stuck(p, m, o, rand, error.at) && error == ErrorFor(o, error.at)
  {
    if o.op == ADDITION {
      PickAddition(p, m, o, rand, error.at, 0);
    }
  }

  /** The operations before the one an error names go through, and that one is refused for the reason given. */
  ghost predicate Blames(p: Params, m: Nodes, ops: seq<LeafOperation>, rand: Draws, error: SimError) {
    && error.at < |ops|
    && var before := TreeAfter(p, m, ops[..error.at], rand, 0);
       before.Some? && Refused(p, before.value, ops[error.at], rand, error)
  }

  /** A simulation fails with an error exactly when that error is to blame. */
  lemma {:induction false} FailureBlames(p: Params, m: Nodes, ops: seq<LeafOperation>, rand: Draws, error: SimError)
    ensures Simulate(p, m, ops, rand, 0) == Failure(error) <==> Blames(p, m, ops, rand, error)
  {
    SimulationFailsExactly(p, m, ops, rand, 0);
    if Simulate(p, m, ops, rand, 0) == Failure(error) {
      var j: nat :| FailsAt(p, m, ops, rand, 0, j);
      assert error == ErrorFor(ops[j], 0 + j);
      RefusedIsStuck(p, TreeAfter(p, m, ops[..j], rand, 0).value, ops[j], rand, error);
    }
    if Blames(p, m, ops, rand, error) {
      RefusedIsStuck(p, TreeAfter(p, m, ops[..error.at], rand, 0).value, ops[error.at], rand, error);
      assert FailsAt(p, m, ops, rand, 0, error.at);
    }
  }
}
