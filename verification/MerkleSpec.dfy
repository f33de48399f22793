/**
 The meaning of a sparse Merkle tree, independent of how it is updated.

 A tree is a finite map from nodes to words; an absent node reads as the hash of the
 empty branch of its level. `SpecNode` is the reference definition of every node from the
 leaves alone, and `Updates` says what a set of leaf writes does to a stored tree.
 */
module MerkleSpec {
  import opened Words

  datatype Node = Node(level: nat, index: nat)

  type Nodes = map<Node, Word>

  /** Leaf words by leaf index; an absent index is an empty leaf. */
  type Leaves = map<nat, Word>

  datatype Params = Params(depth: nat, empty: Word, hash: (Word, Word) -> Word)

  // ---------- reading ----------

  function EmptyAt(p: Params, level: nat): Word {
    if level == 0 then p.empty else p.hash(EmptyAt(p, level - 1), EmptyAt(p, level - 1))
  }

  function Read(p: Params, m: Nodes, n: Node): Word {
    if n in m then m[n] else EmptyAt(p, n.level)
  }

  function Root(p: Params, m: Nodes): Word {
    Read(p, m, Node(p.depth, 0))
  }

  ghost predicate NodeOk(p: Params, m: Nodes, l: nat, i: nat) {
    Read(p, m, Node(l + 1, i)) == p.hash(Read(p, m, Node(l, 2 * i)), Read(p, m, Node(l, 2 * i + 1)))
  }

  /** Every inner node is the hash of its two children. */
  ghost predicate Consistent(p: Params, m: Nodes) {
    forall l: nat, i: nat :: l < p.depth ==> NodeOk(p, m, l, i)
  }

  // ---------- the reference tree ----------

  function LeafAt(p: Params, leaves: Leaves, i: nat): Word {
    if i in leaves then leaves[i] else p.empty
  }

  function SpecNode(p: Params, leaves: Leaves, level: nat, i: nat): Word {
    if level == 0 then LeafAt(p, leaves, i)
    else p.hash(SpecNode(p, leaves, level - 1, 2 * i), SpecNode(p, leaves, level - 1, 2 * i + 1))
  }

  ghost predicate HasLeaves(p: Params, m: Nodes, leaves: Leaves) {
    forall i: nat :: Read(p, m, Node(0, i)) == LeafAt(p, leaves, i)
  }

  /** A consistent tree is, node by node, the reference tree of its leaves. */
  lemma {:induction false} ConsistentIsSpec(p: Params, m: Nodes, leaves: Leaves, level: nat, i: nat)
    requires Consistent(p, m) && HasLeaves(p, m, leaves) && level <= p.depth
    ensures Read(p, m, Node(level, i)) == SpecNode(p, leaves, level, i)
  {
    if level > 0 {
      ConsistentIsSpec(p, m, leaves, level - 1, 2 * i);
      ConsistentIsSpec(p, m, leaves, level - 1, 2 * i + 1);
      assert NodeOk(p, m, level - 1, i);
    }
  }

  lemma {:induction false} EmptyTreeConsistent(p: Params)
    ensures Consistent(p, map[])
  {
    forall l: nat, i: nat | l < p.depth ensures NodeOk(p, map[], l, i) {
    }
  }

  // ---------- the nodes a write touches ----------

  /** Whether the node (level, i) lies on the way from one of the leaves `keys` to the top. */
  predicate Hit(keys: set<nat>, level: nat, i: nat) {
    if level == 0 then i in keys else Hit(keys, level - 1, 2 * i) || Hit(keys, level - 1, 2 * i + 1)
  }

  /** The nodes of levels 0..level on the way from `keys` to the top. */
  ghost function TouchedUpTo(keys: set<nat>, level: nat): (r: set<Node>)
    ensures forall n {:trigger n in r} :: n in r <==> n.level <= level && Hit(keys, n.level, n.index)
  {
    TouchedExists(keys, level);
    var r :| IsTouched(keys, level, r);
    r
  }

  ghost predicate IsTouched(keys: set<nat>, level: nat, r: set<Node>) {
    forall n {:trigger n in r} :: n in r <==> n.level <= level && Hit(keys, n.level, n.index)
  }

  /** Only finitely many nodes lie above finitely many leaves. */
  lemma {:induction false} TouchedExists(keys: set<nat>, level: nat)
    ensures exists r :: IsTouched(keys, level, r)
  {
    var r := set l: nat, k | l <= level && k in keys :: Node(l, Anc(k, l));
    forall n: Node ensures n in r <==> n.level <= level && Hit(keys, n.level, n.index) {
      HitAnc(keys, n.level, n.index);
      if n in r {
        var l: nat, k :| l <= level && k in keys && n == Node(l, Anc(k, l));
        assert Anc(k, n.level) == n.index;
      }
    }
    assert IsTouched(keys, level, r);
  }

  lemma {:induction false} HitAnc(keys: set<nat>, level: nat, i: nat)
    ensures Hit(keys, level, i) <==> exists k :: k in keys && Anc(k, level) == i
  {
    if level == 0 {
      assert forall k: nat :: Anc(k, 0) == k;
    } else {
      HitAnc(keys, level - 1, 2 * i);
      HitAnc(keys, level - 1, 2 * i + 1);
      if k :| k in keys && Anc(k, level) == i {
        assert Anc(k, level - 1) == 2 * i || Anc(k, level - 1) == 2 * i + 1;
      }
      forall k | k in keys && (Anc(k, level - 1) == 2 * i || Anc(k, level - 1) == 2 * i + 1)
        ensures Anc(k, level) == i {
      }
    }
  }

  lemma {:induction false} HitUnion(a: set<nat>, b: set<nat>, level: nat, i: nat)
    ensures Hit(a + b, level, i) <==> Hit(a, level, i) || Hit(b, level, i)
  {
    if level > 0 {
      HitUnion(a, b, level - 1, 2 * i);
      HitUnion(a, b, level - 1, 2 * i + 1);
    }
  }

  lemma {:induction false} HitOne(k: nat, level: nat, i: nat)
    ensures Hit({k}, level, i) <==> i == Anc(k, level)
  {
    if level > 0 {
      HitOne(k, level - 1, 2 * i);
      HitOne(k, level - 1, 2 * i + 1);
    }
  }

  lemma {:induction false} HitNone(level: nat, i: nat)
    ensures !Hit({}, level, i)
  {
    if level > 0 {
      HitNone(level - 1, 2 * i);
      HitNone(level - 1, 2 * i + 1);
    }
  }

  // ---------- what a set of leaf writes does ----------

  /** The word at (level, i) once `leaves` have been written over `m` and every touched node recomputed. */
  function Rebuilt(p: Params, m: Nodes, leaves: Leaves, level: nat, i: nat): Word {
    if !Hit(leaves.Keys, level, i) then Read(p, m, Node(level, i))
    else if level == 0 then leaves[i]
    else p.hash(Rebuilt(p, m, leaves, level - 1, 2 * i), Rebuilt(p, m, leaves, level - 1, 2 * i + 1))
  }

  ghost function UpdatesUpTo(p: Params, m: Nodes, leaves: Leaves, level: nat): Nodes {
    map n | n in TouchedUpTo(leaves.Keys, level) :: Rebuilt(p, m, leaves, n.level, n.index)
  }

  /** Exactly the entries that writing `leaves` over `m` adds or replaces. */
  ghost function Updates(p: Params, m: Nodes, leaves: Leaves): Nodes {
    UpdatesUpTo(p, m, leaves, p.depth)
  }

  ghost function Written(p: Params, m: Nodes, leaves: Leaves): Nodes {
    m + Updates(p, m, leaves)
  }

  /** `w` reads as `m` does once `leaves` are written, up to a level. */
  ghost predicate ReadsAs(p: Params, m: Nodes, leaves: Leaves, w: Nodes, upTo: nat) {
    forall n: Node {:trigger Read(p, w, n)} ::
      n.level <= upTo ==> Read(p, w, n) == Rebuilt(p, m, leaves, n.level, n.index)
  }

  lemma {:induction false} UpToReadsAs(p: Params, m: Nodes, leaves: Leaves, w: Nodes, upTo: nat)
    requires w == m + UpdatesUpTo(p, m, leaves, upTo)
    ensures ReadsAs(p, m, leaves, w, upTo)
  {
  }

  lemma {:induction false} WrittenReadsAs(p: Params, m: Nodes, leaves: Leaves, w: Nodes)
    requires w == Written(p, m, leaves)
    ensures ReadsAs(p, m, leaves, w, p.depth)
  {
    UpToReadsAs(p, m, leaves, w, p.depth);
  }

  /** Writing leaves keeps the tree consistent ... */
  lemma {:induction false} WrittenConsistent(p: Params, m: Nodes, leaves: Leaves)
    requires Consistent(p, m)
    ensures Consistent(p, Written(p, m, leaves))
  {
    var w := Written(p, m, leaves);
    WrittenReadsAs(p, m, leaves, w);
    forall l: nat, i: nat | l < p.depth ensures NodeOk(p, w, l, i) {
      WrittenNodeOk(p, m, leaves, w, l, i);
    }
  }

  lemma {:induction false} WrittenNodeOk(p: Params, m: Nodes, leaves: Leaves, w: Nodes, l: nat, i: nat)
    requires l < p.depth && ReadsAs(p, m, leaves, w, p.depth) && Consistent(p, m)
    ensures NodeOk(p, w, l, i)
  {
    assert NodeOk(p, m, l, i);
    assert Hit(leaves.Keys, l + 1, i) <==> Hit(leaves.Keys, l, 2 * i) || Hit(leaves.Keys, l, 2 * i + 1);
  }

  /** ... and overrides exactly the written leaves. */
  lemma {:induction false} WrittenLeaves(p: Params, m: Nodes, base: Leaves, leaves: Leaves)
    requires HasLeaves(p, m, base)
    ensures HasLeaves(p, Written(p, m, leaves), base + leaves)
  {
    var w := Written(p, m, leaves);
    WrittenReadsAs(p, m, leaves, w);
    forall i: nat ensures Read(p, w, Node(0, i)) == LeafAt(p, base + leaves, i) {
      assert Read(p, m, Node(0, i)) == LeafAt(p, base, i);
    }
  }

  /** The root after an update is the reference root of the last-write-wins leaf map. */
  lemma {:induction false} WrittenRoot(p: Params, m: Nodes, base: Leaves, leaves: Leaves)
    requires Consistent(p, m) && HasLeaves(p, m, base)
    ensures Root(p, Written(p, m, leaves)) == SpecNode(p, base + leaves, p.depth, 0)
  {
    WrittenConsistent(p, m, leaves);
    WrittenLeaves(p, m, base, leaves);
    ConsistentIsSpec(p, Written(p, m, leaves), base + leaves, p.depth, 0);
  }

  /** Away from `b`, laying `b` over `a` changes nothing. */
  lemma {:induction false} RebuiltAway(p: Params, m: Nodes, a: Leaves, b: Leaves, ab: Leaves, level: nat, i: nat)
    requires ab == a + b && !Hit(b.Keys, level, i)
    ensures Rebuilt(p, m, ab, level, i) == Rebuilt(p, m, a, level, i)
  {
    assert ab.Keys == a.Keys + b.Keys;
    HitUnion(a.Keys, b.Keys, level, i);
    if level > 0 {
      RebuiltAway(p, m, a, b, ab, level - 1, 2 * i);
      RebuiltAway(p, m, a, b, ab, level - 1, 2 * i + 1);
    }
  }

  lemma {:induction false} RebuiltTwice(p: Params, m: Nodes, a: Leaves, b: Leaves, ab: Leaves, w: Nodes, level: nat,
                                        i: nat)
    requires level <= p.depth && ab == a + b && ReadsAs(p, m, a, w, p.depth)
    ensures Rebuilt(p, w, b, level, i) == Rebuilt(p, m, ab, level, i)
  {
    if !Hit(b.Keys, level, i) {
      RebuiltAway(p, m, a, b, ab, level, i);
    } else {
      assert ab.Keys == a.Keys + b.Keys;
      HitUnion(a.Keys, b.Keys, level, i);
      if level > 0 {
        RebuiltTwice(p, m, a, b, ab, w, level - 1, 2 * i);
        RebuiltTwice(p, m, a, b, ab, w, level - 1, 2 * i + 1);
      }
    }
  }

  /**
   The central law: two updates in a row write the same entries as one update with the
   second leaf map laid over the first, from any stored tree, consistent or not.
   */
  lemma {:induction false} UpdatesCompose(p: Params, m: Nodes, a: Leaves, b: Leaves)
    ensures Updates(p, m, a) + Updates(p, Written(p, m, a), b) == Updates(p, m, a + b)
    ensures Written(p, Written(p, m, a), b) == Written(p, m, a + b)
  {
    var ab, w := a + b, Written(p, m, a);
    var first, second, one := Updates(p, m, a), Updates(p, w, b), Updates(p, m, ab);
    forall n: Node ensures n in first || n in second <==> n in one {
      UpdatesComposeKeys(p, m, a, b, ab, w, n);
    }
    forall n | n in one ensures (first + second)[n] == one[n] {
      UpdatesComposeAt(p, m, a, b, ab, w, n);
    }
    SumIs(m, first, second, one);
  }

  lemma {:induction false} SumIs(m: Nodes, first: Nodes, second: Nodes, one: Nodes)
    requires forall n :: n in first || n in second <==> n in one
    requires forall n :: n in one ==> (first + second)[n] == one[n]
    ensures first + second == one
    ensures (m + first) + second == m + one
  {
    assert (m + first) + second == m + (first + second);
  }

  lemma {:induction false} UpdatesComposeKeys(p: Params, m: Nodes, a: Leaves, b: Leaves, ab: Leaves, w: Nodes, n: Node)
    requires ab == a + b
    ensures n in Updates(p, m, ab) <==> n in Updates(p, m, a) || n in Updates(p, w, b)
  {
    assert ab.Keys == a.Keys + b.Keys;
    HitUnion(a.Keys, b.Keys, n.level, n.index);
  }

  lemma {:induction false} UpdatesComposeAt(p: Params, m: Nodes, a: Leaves, b: Leaves, ab: Leaves, w: Nodes, n: Node)
    requires ab == a + b && w == Written(p, m, a) && n in Updates(p, m, ab)
    requires n in Updates(p, m, a) || n in Updates(p, w, b)
    ensures (Updates(p, m, a) + Updates(p, w, b))[n] == Updates(p, m, ab)[n]
  {
    if n in Updates(p, w, b) {
      WrittenReadsAs(p, m, a, w);
      RebuiltTwice(p, m, a, b, ab, w, n.level, n.index);
    } else {
      RebuiltAway(p, m, a, b, ab, n.level, n.index);
    }
  }

  lemma {:induction false} UpdatesNone(p: Params, m: Nodes)
    ensures Updates(p, m, map[]) == map[]
    ensures Written(p, m, map[]) == m
  {
    forall n: Node ensures !Hit({}, n.level, n.index) {
      HitNone(n.level, n.index);
    }
    var none: Leaves := map[];
    assert none.Keys == {};
    assert TouchedUpTo(none.Keys, p.depth) == {};
  }

  /** An update depends on the stored tree only through what it reads. */
  lemma {:induction false} RebuiltByReads(p: Params, m: Nodes, m': Nodes, leaves: Leaves, level: nat, i: nat)
    requires SameReads(p, m, m')
    ensures Rebuilt(p, m, leaves, level, i) == Rebuilt(p, m', leaves, level, i)
  {
    assert Read(p, m, Node(level, i)) == Read(p, m', Node(level, i));
    if level > 0 {
      RebuiltByReads(p, m, m', leaves, level - 1, 2 * i);
      RebuiltByReads(p, m, m', leaves, level - 1, 2 * i + 1);
    }
  }

  ghost predicate SameReads(p: Params, m: Nodes, m': Nodes) {
    forall n :: Read(p, m, n) == Read(p, m', n)
  }

  lemma {:induction false} UpdatesByReads(p: Params, m: Nodes, m': Nodes, leaves: Leaves)
    requires SameReads(p, m, m')
    ensures Updates(p, m, leaves) == Updates(p, m', leaves)
  {
    var u, u' := Updates(p, m, leaves), Updates(p, m', leaves);
    assert u.Keys == u'.Keys;
    forall n | n in u ensures u[n] == u'[n] {
      RebuiltByReads(p, m, m', leaves, n.level, n.index);
    }
  }

  // ---------- proofs ----------

  /** `Path[l]` is the sibling met at level `l`; bit `l` of `index` says on which side it stands. */
  datatype MerkleProof = MerkleProof(leaf: Word, path: seq<Word>, index: nat, root: Word)

  function Sibling(i: nat): nat {
    if i % 2 == 0 then i + 1 else i - 1
  }

  function Join(p: Params, i: nat, w: Word, sibling: Word): Word {
    if i % 2 == 0 then p.hash(w, sibling) else p.hash(sibling, w)
  }

  /** What a verifier computes from a leaf and the first `level` path elements. */
  function Fold(p: Params, leaf: Word, i: nat, path: seq<Word>, level: nat): Word
    requires level <= |path|
  {
    if level == 0 then leaf
    else Join(p, Anc(i, level - 1), Fold(p, leaf, i, path, level - 1), path[level - 1])
  }

  predicate Verifies(p: Params, leaf: Word, i: nat, path: seq<Word>, root: Word) {
    |path| == p.depth && Fold(p, leaf, i, path, p.depth) == root
  }

  function PathOf(p: Params, m: Nodes, i: nat): (path: seq<Word>)
    ensures |path| == p.depth
  {
    seq(p.depth, (l: nat) => Read(p, m, Node(l, Sibling(Anc(i, l)))))
  }

  function ProofOf(p: Params, m: Nodes, i: nat): MerkleProof {
    MerkleProof(Read(p, m, Node(0, i)), PathOf(p, m, i), i, Root(p, m))
  }

  /** `path[l]` is the sibling, at level `l`, of the way up from leaf `i`. */
  ghost predicate SiblingAt(p: Params, m: Nodes, i: nat, path: seq<Word>, l: nat)
    requires l < |path|
  {
    path[l] == Read(p, m, Node(l, Sibling(Anc(i, l))))
  }

  /** The words that a verifier hashes at level `l`, in order. */
  function HashedAt(p: Params, leaf: Word, i: nat, path: seq<Word>, l: nat): (Word, Word)
    requires l < |path|
  {
    var w := Fold(p, leaf, i, path, l);
    if Anc(i, l) % 2 == 0 then (w, path[l]) else (path[l], w)
  }

  /** The words that the tree hashes at level `l` on the way up from leaf `i`, in order. */
  function ChildrenAt(p: Params, m: Nodes, i: nat, l: nat): (Word, Word) {
    var q := Anc(i, l + 1);
    (Read(p, m, Node(l, 2 * q)), Read(p, m, Node(l, 2 * q + 1)))
  }

  /** From level `l` up the path is the tree's own. */
  ghost predicate OwnFrom(p: Params, m: Nodes, i: nat, path: seq<Word>, l: nat) {
    forall k: nat :: l <= k < |path| ==> SiblingAt(p, m, i, path, k)
  }

  /** After `l` steps the verifier has the tree's own node. */
  ghost predicate OnTree(p: Params, m: Nodes, i: nat, leaf: Word, path: seq<Word>, l: nat)
    requires l <= |path|
  {
    Fold(p, leaf, i, path, l) == Read(p, m, Node(l, Anc(i, l)))
  }

  /** The words hashed at a level are the tree's exactly when way and sibling are the tree's. */
  lemma {:induction false} SameHashed(p: Params, m: Nodes, i: nat, leaf: Word, path: seq<Word>, l: nat)
    requires Consistent(p, m) && l < p.depth == |path|
    ensures var x, y := HashedAt(p, leaf, i, path, l), ChildrenAt(p, m, i, l);
            && (x == y <==> OnTree(p, m, i, leaf, path, l) && SiblingAt(p, m, i, path, l))
            && (p.hash(x.0, x.1) == p.hash(y.0, y.1) <==> OnTree(p, m, i, leaf, path, l + 1))
  {
    var a, q := Anc(i, l), Anc(i, l + 1);
    assert q == a / 2 && (a == 2 * q || a == 2 * q + 1);
    assert NodeOk(p, m, l, q);
  }

  /** With the tree's own path a verifier stays on the tree. */
  lemma {:induction false} StaysOnTree(p: Params, m: Nodes, i: nat, leaf: Word, path: seq<Word>, l: nat, level: nat)
    requires Consistent(p, m) && l <= level <= p.depth == |path| && OwnFrom(p, m, i, path, l)
    requires OnTree(p, m, i, leaf, path, l)
    ensures OnTree(p, m, i, leaf, path, level)
  {
    if l < level {
      StaysOnTree(p, m, i, leaf, path, l, level - 1);
      SameHashed(p, m, i, leaf, path, level - 1);
    }
  }

  lemma {:induction false} OwnIsPath(p: Params, m: Nodes, i: nat, path: seq<Word>)
    requires |path| == p.depth
    ensures OwnFrom(p, m, i, path, 0) <==> path == PathOf(p, m, i)
  {
    var own := PathOf(p, m, i);
    assert OwnFrom(p, m, i, own, 0);
    if OwnFrom(p, m, i, path, 0) {
      forall k | 0 <= k < |path| ensures path[k] == own[k] {
        assert SiblingAt(p, m, i, path, k);
      }
    }
  }

  /**
   On a consistent tree the proof of an index under the root verifies. An index at or
   beyond 2^depth climbs to another top node, so there the proof verifies exactly when
   that node happens to hold the root word.
   */
  lemma {:induction false} ProofVerifies(p: Params, m: Nodes, i: nat)
    requires Consistent(p, m)
    ensures var proof := ProofOf(p, m, i);
            Verifies(p, proof.leaf, i, proof.path, proof.root)
            <==> i < Pow2(p.depth) || Read(p, m, Node(p.depth, Anc(i, p.depth))) == Root(p, m)
  {
    OwnIsPath(p, m, i, PathOf(p, m, i));
    StaysOnTree(p, m, i, Read(p, m, Node(0, i)), PathOf(p, m, i), 0, p.depth);
    AncIsRoot(i, p.depth);
  }

  /**
   The verifier comes onto the tree at level `l + 1` by a collision: the words it hashes are
   other words than the tree's, with the same hash, and from there up the path is the tree's.
   */
  ghost predicate CollidesAt(p: Params, m: Nodes, i: nat, leaf: Word, path: seq<Word>, l: nat)
    requires l < |path|
  {
    var x, y := HashedAt(p, leaf, i, path, l), ChildrenAt(p, m, i, l);
    x != y && p.hash(x.0, x.1) == p.hash(y.0, y.1) && OwnFrom(p, m, i, path, l + 1)
  }

  /** A verifier that is on the tree was on it all along, or came onto it by a collision. */
  lemma {:induction false} FoldCollides(p: Params, m: Nodes, i: nat, leaf: Word, path: seq<Word>, level: nat)
    requires Consistent(p, m) && level <= p.depth == |path| && OwnFrom(p, m, i, path, level)
    requires OnTree(p, m, i, leaf, path, level)
    ensures (OnTree(p, m, i, leaf, path, 0) && OwnFrom(p, m, i, path, 0))
            || exists l: nat :: l < level && CollidesAt(p, m, i, leaf, path, l)
  {
    if level > 0 {
      var l := level - 1;
      SameHashed(p, m, i, leaf, path, l);
      if HashedAt(p, leaf, i, path, l) == ChildrenAt(p, m, i, l) {
        FoldCollides(p, m, i, leaf, path, l);
      } else {
        assert CollidesAt(p, m, i, leaf, path, l);
      }
    }
  }

  /**
   Proofs are unique up to collisions that can be pointed at: of every hash, a leaf and a path
   verify for an index under the root exactly when they are the tree's own, or when at some
   level they hash other words than the tree's to the same word and follow the tree from there.
   */
  lemma {:induction false} ProofUnique(p: Params, m: Nodes, i: nat, leaf: Word, path: seq<Word>)
    requires Consistent(p, m) && i < Pow2(p.depth) && |path| == p.depth
    ensures Verifies(p, leaf, i, path, Root(p, m)) <==>
              (leaf == ProofOf(p, m, i).leaf && path == ProofOf(p, m, i).path)
              || exists l: nat :: l < p.depth && CollidesAt(p, m, i, leaf, path, l)
  {
    AncIsRoot(i, p.depth);
    OwnIsPath(p, m, i, path);
    if OnTree(p, m, i, leaf, path, p.depth) {
      FoldCollides(p, m, i, leaf, path, p.depth);
    }
    if OnTree(p, m, i, leaf, path, 0) && OwnFrom(p, m, i, path, 0) {
      StaysOnTree(p, m, i, leaf, path, 0, p.depth);
    }
    forall l: nat | l < p.depth && CollidesAt(p, m, i, leaf, path, l) ensures OnTree(p, m, i, leaf, path, p.depth) {
      CollisionMeets(p, m, i, leaf, path, l);
    }
  }

  /** From a collision on, the verifier is on the tree. */
  lemma {:induction false} CollisionMeets(p: Params, m: Nodes, i: nat, leaf: Word, path: seq<Word>, l: nat)
    requires Consistent(p, m) && l < p.depth == |path| && CollidesAt(p, m, i, leaf, path, l)
    ensures OnTree(p, m, i, leaf, path, p.depth)
  {
    SameHashed(p, m, i, leaf, path, l);
    StaysOnTree(p, m, i, leaf, path, l + 1, p.depth);
  }

  /** Changing one leaf leaves its own path as it was. */
  lemma {:induction false} PathSurvivesOwnWrite(p: Params, m: Nodes, i: nat, w: Word)
    ensures PathOf(p, Written(p, m, map[i := w]), i) == PathOf(p, m, i)
  {
    var one: Leaves := map[i := w];
    assert one.Keys == {i};
    var w' := Written(p, m, one);
    WrittenReadsAs(p, m, one, w');
    forall l: nat | l < p.depth
      ensures Read(p, w', Node(l, Sibling(Anc(i, l)))) == Read(p, m, Node(l, Sibling(Anc(i, l))))
    {
      HitOne(i, l, Sibling(Anc(i, l)));
    }
  }

  /** So the path that proves the old leaf also computes the root with the new leaf in place. */
  lemma {:induction false} PathComputesNextRoot(p: Params, m: Nodes, i: nat, w: Word)
    requires Consistent(p, m) && i < Pow2(p.depth)
    ensures Verifies(p, Read(p, m, Node(0, i)), i, PathOf(p, m, i), Root(p, m))
    ensures Verifies(p, w, i, PathOf(p, m, i), Root(p, Written(p, m, map[i := w])))
  {
    ProofVerifies(p, m, i);
    var m' := Written(p, m, map[i := w]);
    WrittenConsistent(p, m, map[i := w]);
    ProofVerifies(p, m', i);
    PathSurvivesOwnWrite(p, m, i, w);
    var one: Leaves := map[i := w];
    WrittenReadsAs(p, m, one, m');
    assert Read(p, m', Node(0, i)) == w;
  }
}
