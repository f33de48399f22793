/**
 What the lock protects. A flush passes through trees that were never committed; readers see
 only committed ones, and every committed tree is the tree of the operations behind it.
 */
module Isolation {
  import opened Words
  import opened MerkleSpec
  import opened WriteOrder
  import opened LeafStorage
  import opened Simulation
  import opened Registry
  import opened Locking

  /** The tree that was committed last. */
  function Latest(d: Data): Nodes {
    if d.history == [] then map[] else d.history[|d.history| - 1]
  }

  // ---------- the data invariant ----------

  ghost predicate ReaderOk(p: Params, d: Data, th: Thread) {
    th.Busy? && th.task.Read? ==>
      && |th.task.got| <= p.depth + 2
      && (!Holding(th) ==> th.task.got == [])
      && (Holding(th) && !th.phase.Inside? ==> Complete(p, th.task))
      && forall k: nat :: k < |th.task.got| ==>
           th.task.got[k] == MerkleSpec.Read(p, Live(d.nodes), Target(p, th.task.index, k))
  }

  ghost predicate WriterOk(p: Params, d: Data, th: Thread) {
    th.Busy? && th.task.Flush? ==>
      && th.task.base == Latest(d)
      && th.task.done <= |BatchOf(p, th.task)|
      && (!Holding(th) ==> th.task.done == 0)
      && d.nodes == AfterOps(th.task.base, BatchOf(p, th.task)[..th.task.done])
      && (Holding(th) && !th.phase.Inside? ==> Complete(p, th.task))
  }

  ghost predicate ReturnedOk(p: Params, d: Data, th: Thread) {
    th.Returned? ==> th.at < |d.history| && th.proof == ProofOf(p, Live(d.history[th.at]), th.proof.index)
  }

  /** What a thread may rely on, given what its registry holds. */
  ghost predicate ThreadOk(p: Params, d: Data, th: Thread) {
    ReaderOk(p, d, th) && WriterOk(p, d, th) && ReturnedOk(p, d, th)
  }

  ghost predicate KnowsOk(p: Params, s: Sys, th: Thread) {
    th.Idle? || ThreadOk(p, DataAt(s, th.reg), th)
  }

  ghost predicate ThreadsOk(p: Params, s: Sys) {
    forall t: Tid :: KnowsOk(p, s, ThreadAt(s, t))
  }

  ghost predicate Torn(s: Sys, r: Reg) {
    exists t :: Flushing(ThreadAt(s, t), r)
  }

  /** Every committed tree is consistent, and unless a flush is under way the nodes are the latest one. */
  ghost predicate DataOk(p: Params, d: Data, torn: bool) {
    && |d.history| == |d.commits| + 1
    && (forall n :: n in d.history ==> Consistent(p, Live(n)))
    && (torn || d.nodes == Latest(d))
  }

  ghost predicate RegOk(p: Params, s: Sys, r: Reg) {
    DataOk(p, DataAt(s, r), Torn(s, r))
  }

  ghost predicate AllDataOk(p: Params, s: Sys) {
    forall r :: RegOk(p, s, r)
  }

  ghost predicate OneWriter(s: Sys) {
    forall t, u, r :: Writing(ThreadAt(s, t), r) && Writing(ThreadAt(s, u), r) ==> t == u
  }

  ghost predicate DataInv(p: Params, s: Sys) {
    OneWriter(s) && ThreadsOk(p, s) && AllDataOk(p, s)
  }

  /** What the flushes under way will write survives storage. */
  ghost predicate FlushesSurvive(p: Params, s: Sys) {
    forall t: Tid :: TaskSurvives(p, ThreadAt(s, t))
  }

  ghost predicate TaskSurvives(p: Params, th: Thread) {
    th.Busy? && th.task.Flush? ==> Survives(p, Live(th.task.base), LastWrites(CommitLeaves(p, th.task.ops)))
  }

  // ---------- steps that leave the data alone ----------

  lemma {:induction false} OneWriterKept(s: Sys, s': Sys, t: Tid, was: Thread, th: Thread)
    requires OneWriter(s) && Moves(s, s', t, was, th)
    requires forall u, r :: u != t && Writing(th, r) ==> !Writing(ThreadAt(s, u), r)
    ensures OneWriter(s')
  {
    forall u, v, r | Writing(ThreadAt(s', u), r) && Writing(ThreadAt(s', v), r) ensures u == v {
      MovesOthers(s, s', t, was, th, u);
      MovesOthers(s, s', t, was, th, v);
    }
  }

  /** A flush goes on as long as its thread does not end it. */
  lemma {:induction false} TornKept(s: Sys, s': Sys, t: Tid, was: Thread, th: Thread, r: Reg)
    requires Moves(s, s', t, was, th) && (Flushing(was, r) ==> Flushing(th, r)) && Torn(s, r)
    ensures Torn(s', r)
  {
    var u :| Flushing(ThreadAt(s, u), r);
    MovesOthers(s, s', t, was, th, u);
    assert Flushing(ThreadAt(s', u), r);
  }

  /** A thread that changes no data and ends no flush disturbs nobody. */
  lemma {:induction false} PrivateKeeps(p: Params, s: Sys, s': Sys, t: Tid, was: Thread, th: Thread)
    requires DataInv(p, s) && Moves(s, s', t, was, th) && s'.data == s.data
    requires KnowsOk(p, s, th) && forall r :: Flushing(was, r) ==> Flushing(th, r)
    requires forall u, r :: u != t && Writing(th, r) ==> !Writing(ThreadAt(s, u), r)
    ensures DataInv(p, s')
  {
    OneWriterKept(s, s', t, was, th);
    forall u ensures KnowsOk(p, s', ThreadAt(s', u)) {
      MovesOthers(s, s', t, was, th, u);
      assert KnowsOk(p, s, ThreadAt(s, u));
    }
    forall r ensures RegOk(p, s', r) {
      assert RegOk(p, s, r);
      if Torn(s, r) {
        TornKept(s, s', t, was, th, r);
      }
    }
  }

  lemma {:induction false} BeginReadKeeps(p: Params, s: Sys, s': Sys, t: Tid, r: Reg, index: uint32)
    requires DataInv(p, s) && BeginRead(s, s', t, r, index)
    ensures DataInv(p, s')
  {
    PrivateKeeps(p, s, s', t, ThreadAt(s, t), Busy(r, Read(index, []), Seek(false)));
  }

  lemma {:induction false} BeginFlushKeeps(p: Params, s: Sys, s': Sys, t: Tid, r: Reg, ops: seq<LeafOperation>)
    requires DataInv(p, s) && BeginFlush(s, s', t, r, ops)
    ensures DataInv(p, s')
  {
    var th := Busy(r, Flush(DataAt(s, r).nodes, ops, 0), Seek(false));
    assert RegOk(p, s, r);
    assert forall u :: Flushing(ThreadAt(s, u), r) ==> Writing(ThreadAt(s, u), r);
    assert BatchOf(p, th.task)[..0] == [];
    PrivateKeeps(p, s, s', t, ThreadAt(s, t), th);
  }

  /** Moving on with the same task, never out of the critical section before it is complete. */
  lemma {:induction false} PhaseKeeps(p: Params, s: Sys, s': Sys, t: Tid, was: Thread, th: Thread)
    requires DataInv(p, s) && Moves(s, s', t, was, th) && s'.data == s.data
    requires was.Busy? && th.Busy? && th == was.(phase := th.phase) && (Holding(was) ==> Holding(th))
    requires Holding(th) && !th.phase.Inside? ==> Complete(p, th.task)
    ensures DataInv(p, s')
  {
    assert KnowsOk(p, s, was);
    SamePhaseOk(p, DataAt(s, was.reg), was, th);
    PrivateKeeps(p, s, s', t, was, th);
  }

  lemma {:induction false} SamePhaseOk(p: Params, d: Data, was: Thread, th: Thread)
    requires ThreadOk(p, d, was) && was.Busy? && th.Busy?
    requires th == was.(phase := th.phase) && (Holding(was) ==> Holding(th))
    requires Holding(th) && !th.phase.Inside? ==> Complete(p, th.task)
    ensures ThreadOk(p, d, th)
  {
  }

  lemma {:induction false} FindLockKeeps(p: Params, s: Sys, s': Sys, t: Tid)
    requires DataInv(p, s) && (FindLock(s, s', t) || Create(s, s', t))
    ensures DataInv(p, s')
  {
    assert KnowsOk(p, s, ThreadAt(s, t));
    PhaseKeeps(p, s, s', t, ThreadAt(s, t), ThreadAt(s', t));
  }

  lemma {:induction false} AcquireKeeps(p: Params, s: Sys, s': Sys, t: Tid)
    requires DataInv(p, s) && (Acquire(s, s', t) || Leave(p, s, s', t))
    ensures DataInv(p, s')
  {
    PhaseKeeps(p, s, s', t, ThreadAt(s, t), ThreadAt(s', t));
  }

  lemma {:induction false} ReadNodeKeeps(p: Params, s: Sys, s': Sys, t: Tid)
    requires DataInv(p, s) && ReadNode(p, s, s', t)
    ensures DataInv(p, s')
  {
    var was, th := ThreadAt(s, t), ThreadAt(s', t);
    assert KnowsOk(p, s, was);
    ReadMore(p, DataAt(s, was.reg), was, th);
    PrivateKeeps(p, s, s', t, was, th);
  }

  lemma {:induction false} ReadMore(p: Params, d: Data, was: Thread, th: Thread)
    requires ThreadOk(p, d, was) && was.Busy? && was.phase.Inside? && was.task.Read? && |was.task.got| < p.depth + 2
    requires var word := MerkleSpec.Read(p, Live(d.nodes), Target(p, was.task.index, |was.task.got|));
             th == was.(task := Read(was.task.index, was.task.got + [word]))
    ensures ThreadOk(p, d, th)
  {
  }

  // ---------- writing a key ----------

  /** What a thread relies on stays if its registry only gains commits, and its nodes stay while it depends on them. */
  lemma {:induction false} ThreadCarries(p: Params, d: Data, d': Data, th: Thread)
    requires ThreadOk(p, d, th) && d.history <= d'.history
    requires th.Busy? && (th.task.Read? ==> th.task.got != []) ==> d'.nodes == d.nodes
    requires th.Busy? && th.task.Flush? ==> Latest(d') == Latest(d)
    ensures ThreadOk(p, d', th)
  {
  }

  lemma {:induction false} WriteDisturbsNobody(p: Params, s: Sys, s': Sys, t: Tid, u: Tid)
    requires LockInv(s) && DataInv(p, s) && WriteKey(p, s, s', t) && u != t
    ensures KnowsOk(p, s', ThreadAt(s, u))
  {
    var r, th := ThreadAt(s, t).reg, ThreadAt(s, u);
    assert KnowsOk(p, s, th);
    if !th.Idle? && th.reg == r {
      WriterIsAlone(s, t, u, r);
      assert Writing(ThreadAt(s, t), r);
      ThreadCarries(p, DataAt(s, r), DataAt(s', r), th);
    }
  }

  lemma {:induction false} WriterGoesOn(p: Params, d: Data, d': Data, was: Thread, th: Thread)
    requires ThreadOk(p, d, was) && was.Busy? && was.phase.Inside? && was.task.Flush?
    requires was.task.done < |BatchOf(p, was.task)| && th == was.(task := was.task.(done := was.task.done + 1))
    requires d' == d.(nodes := AfterOp(d.nodes, BatchOf(p, was.task)[was.task.done]))
    ensures ThreadOk(p, d', th)
  {
    var batch, done := BatchOf(p, was.task), was.task.done;
    assert BatchOf(p, th.task) == batch && batch[..done + 1][..done] == batch[..done];
  }

  lemma {:induction false} WriteKeyKeeps(p: Params, s: Sys, s': Sys, t: Tid)
    requires LockInv(s) && DataInv(p, s) && WriteKey(p, s, s', t)
    ensures DataInv(p, s')
  {
    var was, th := ThreadAt(s, t), ThreadAt(s', t);
    OneWriterKept(s, s', t, was, th);
    forall u ensures KnowsOk(p, s', ThreadAt(s', u)) {
      MovesOthers(s, s', t, was, th, u);
      if u == t {
        assert KnowsOk(p, s, was);
        WriterGoesOn(p, DataAt(s, was.reg), DataAt(s', was.reg), was, th);
      } else {
        WriteDisturbsNobody(p, s, s', t, u);
      }
    }
    forall r ensures RegOk(p, s', r) {
      assert RegOk(p, s, r);
      if r == was.reg {
        assert Flushing(ThreadAt(s', t), r);
      } else if Torn(s, r) {
        TornKept(s, s', t, was, th, r);
      }
    }
  }

  // ---------- finishing ----------

  lemma {:induction false} AfterOpsAre(base: Nodes, index: map<Word, uint32>, ops: seq<DbOp>)
    ensures AfterOps(base, ops) == ApplyBatch(Store(base, index, None), ops).nodes
  {
    if ops != [] {
      AfterOpsAre(base, index, ops[..|ops| - 1]);
    }
  }

  /** A flush that ran to its end leaves a consistent tree exactly when what it wrote survives. */
  lemma {:induction false} FlushedIsConsistent(p: Params, base: Nodes, ops: seq<LeafOperation>)
    requires Consistent(p, Live(base))
    ensures Consistent(p, Live(AfterOps(base, CommitBatch(p, Live(base), ops))))
       <==> Survives(p, Live(base), LastWrites(CommitLeaves(p, ops)))
  {
    AfterOpsAre(base, map[], CommitBatch(p, Live(base), ops));
    CommitConsistentExactly(p, Store(base, map[], None), ops);
  }

  /** What a reader took home while holding the lock is the proof of one tree. */
  lemma {:induction false} GotIsProof(p: Params, m: Nodes, index: uint32, got: seq<Word>)
    requires |got| == p.depth + 2
    requires forall k: nat :: k < |got| ==> got[k] == MerkleSpec.Read(p, m, Target(p, index, k))
    ensures ProofFrom(p, index, got) == ProofOf(p, m, index)
  {
    assert got[1..p.depth + 1] == PathOf(p, m, index);
  }

  /** Under the read lock the registry's nodes are the tree that was committed last. */
  lemma {:induction false} ReadersSeeCommitted(p: Params, s: Sys, t: Tid, r: Reg)
    requires LockInv(s) && DataInv(p, s) && ReadsInside(ThreadAt(s, t), r)
    ensures DataAt(s, r).nodes == Latest(DataAt(s, r))
  {
    assert RegOk(p, s, r);
    forall u ensures !Flushing(ThreadAt(s, u), r) {
      ReadExcludesWrite(s, t, u, r);
    }
  }

  lemma {:induction false} ReleaseReadKeeps(p: Params, s: Sys, s': Sys, t: Tid)
    requires LockInv(s) && DataInv(p, s) && Release(p, s, s', t) && ThreadAt(s, t).task.Read?
    ensures DataInv(p, s')
  {
    var was := ThreadAt(s, t);
    assert KnowsOk(p, s, was) && RegOk(p, s, was.reg);
    ReadersSeeCommitted(p, s, t, was.reg);
    GotIsProof(p, Live(DataAt(s, was.reg).nodes), was.task.index, was.task.got);
    PrivateKeeps(p, s, s', t, was, ThreadAt(s', t));
  }

  /** A complete flush that survives turns its registry's nodes into a committed tree. */
  lemma {:induction false} FlushCommits(p: Params, d: Data, th: Thread)
    requires DataOk(p, d, true) && ThreadOk(p, d, th) && TaskSurvives(p, th)
    requires th.Busy? && th.task.Flush? && Complete(p, th.task)
    ensures DataOk(p, CommittedData(d, th.task.ops), false)
  {
    var batch := BatchOf(p, th.task);
    assert batch[..th.task.done] == batch && Latest(d) in d.history;
    FlushedIsConsistent(p, th.task.base, th.task.ops);
  }

  lemma {:induction false} ReleaseFlushKeeps(p: Params, s: Sys, s': Sys, t: Tid)
    requires FlushesSurvive(p, s) && DataInv(p, s) && Release(p, s, s', t) && ThreadAt(s, t).task.Flush?
    ensures DataInv(p, s')
  {
    var was := ThreadAt(s, t);
    var d := DataAt(s, was.reg);
    OneWriterKept(s, s', t, was, Idle);
    forall u ensures KnowsOk(p, s', ThreadAt(s', u)) {
      MovesOthers(s, s', t, was, Idle, u);
      assert KnowsOk(p, s, ThreadAt(s, u)) && Writing(was, was.reg);
      if u != t && !ThreadAt(s, u).Idle? && ThreadAt(s, u).reg == was.reg {
        ThreadCarries(p, d, CommittedData(d, was.task.ops), ThreadAt(s, u));
      }
    }
    forall r ensures RegOk(p, s', r) {
      assert RegOk(p, s, r);
      if r == was.reg {
        assert KnowsOk(p, s, was) && TaskSurvives(p, was);
        FlushCommits(p, d, was);
      } else if Torn(s, r) {
        TornKept(s, s', t, was, Idle, r);
      }
    }
  }

  lemma {:induction false} StepKeeps(p: Params, s: Sys, s': Sys, t: Tid)
    requires LockInv(s) && DataInv(p, s) && FlushesSurvive(p, s) && StepOf(p, s, s', t)
    ensures DataInv(p, s')
  {
    if r, index :| BeginRead(s, s', t, r, index) {
      BeginReadKeeps(p, s, s', t, r, index);
    } else if FindLock(s, s', t) || Create(s, s', t) {
      FindLockKeeps(p, s, s', t);
    } else if Acquire(s, s', t) || Leave(p, s, s', t) {
      AcquireKeeps(p, s, s', t);
    } else if ReadNode(p, s, s', t) {
      ReadNodeKeeps(p, s, s', t);
    } else if r, ops :| BeginFlush(s, s', t, r, ops) {
      BeginFlushKeeps(p, s, s', t, r, ops);
    } else if WriteKey(p, s, s', t) {
      WriteKeyKeeps(p, s, s', t);
    } else if ThreadAt(s, t).task.Read? {
      ReleaseReadKeeps(p, s, s', t);
    } else {
      ReleaseFlushKeeps(p, s, s', t);
    }
  }

  /** All flushes of a run survive storage. */
  ghost predicate RunSurvives(p: Params, tr: seq<Sys>) {
    forall k: nat :: k < |tr| ==> FlushesSurvive(p, tr[k])
  }

  lemma {:induction false} StepData(p: Params, s: Sys, s': Sys)
    requires LockInv(s) && DataInv(p, s) && FlushesSurvive(p, s) && Step(p, s, s')
    ensures DataInv(p, s')
  {
    var t :| StepOf(p, s, s', t);
    StepKeeps(p, s, s', t);
  }

  lemma {:induction false} RunInv(p: Params, tr: seq<Sys>, k: nat)
    requires Run(p, tr) && RunSurvives(p, tr) && k < |tr|
    ensures DataInv(p, tr[k])
  {
    if k == 0 {
      FirstData(p, tr[0]);
    } else {
      RunInv(p, tr, k - 1);
      RunLockInv(p, tr, k - 1);
      assert StepAt(p, tr, k - 1);
      StepData(p, tr[k - 1], tr[k]);
    }
  }

  lemma {:induction false} FirstData(p: Params, s: Sys)
    requires s.threads == map[] && s.data == map[]
    ensures DataInv(p, s)
  {
    var none: Nodes := map[];
    assert Live(none) == none;
    EmptyTreeConsistent(p);
  }

  /** A hash that is never zero and storable words are enough for flushes to survive. */
  lemma {:induction false} StorableRun(p: Params, tr: seq<Sys>)
    requires NonzeroHash(p)
    requires forall k: nat, t: Tid :: k < |tr| ==> TaskStorable(p, ThreadAt(tr[k], t))
    ensures RunSurvives(p, tr)
  {
    forall k: nat, t: Tid | k < |tr| ensures TaskSurvives(p, ThreadAt(tr[k], t)) {
      var th := ThreadAt(tr[k], t);
      assert TaskStorable(p, th);
      if th.Busy? && th.task.Flush? {
        StorableSurvives(p, th.task.base, th.task.ops);
      }
    }
  }

  ghost predicate TaskStorable(p: Params, th: Thread) {
    th.Busy? && th.task.Flush? ==> StorableOps(p, th.task.ops)
  }

  // ---------- committed trees and the operations behind them ----------

  /** The operations of some commits, in order. */
  function Ops(commits: seq<seq<LeafOperation>>): seq<LeafOperation> {
    if commits == [] then [] else Ops(commits[..|commits| - 1]) + commits[|commits| - 1]
  }

  lemma {:induction false} OpsSnoc(commits: seq<seq<LeafOperation>>, ops: seq<LeafOperation>)
    ensures Ops(commits + [ops]) == Ops(commits) + ops
  {
    assert (commits + [ops])[..|commits|] == commits;
  }

  lemma {:induction false} OpsPrefix(commits: seq<seq<LeafOperation>>, n: nat)
    requires n <= |commits|
    ensures Ops(commits[..n]) <= Ops(commits)
    decreases |commits|
  {
    if n == |commits| {
      assert commits[..n] == commits;
    } else {
      assert commits[..|commits| - 1][..n] == commits[..n];
      OpsPrefix(commits[..|commits| - 1], n);
    }
  }

  /** The tree that the commits determine. */
  ghost function TreeOf(p: Params, commits: seq<seq<LeafOperation>>): Nodes {
    Updates(p, map[], ApplyAll(p, NOTHING, Ops(commits)).leaves)
  }

  ghost predicate TreeAt(p: Params, history: seq<Nodes>, commits: seq<seq<LeafOperation>>, j: nat)
    requires j < |history| && j <= |commits|
  {
    history[j] == TreeOf(p, commits[..j])
  }

  /** If the trees of its commits read back, the j-th tree of a registry is that of its first j commits. */
  ghost predicate LogOk(p: Params, d: Data) {
    && |d.history| == |d.commits| + 1
    && (AllReadBack(p, Ops(d.commits)) ==> forall j: nat :: j < |d.history| ==> TreeAt(p, d.history, d.commits, j))
  }

  lemma {:induction false} TreeReadsBack(p: Params, commits: seq<seq<LeafOperation>>, all: seq<LeafOperation>)
    requires AllReadBack(p, all) && Ops(commits) <= all
    ensures ReadsBack(p, TreeOf(p, commits))
  {
    MadeOfKept(p, all, NOTHING, Ops(commits));
  }

  /** Flushing the next commit leads from the tree of the commits before to the tree with it. */
  lemma {:induction false} FlushIsNext(p: Params, commits: seq<seq<LeafOperation>>, ops: seq<LeafOperation>,
                                       base: Nodes)
    requires ReadsBack(p, base) && base == TreeOf(p, commits)
    ensures AfterOps(base, CommitBatch(p, Live(base), ops)) == TreeOf(p, commits + [ops])
  {
    var st := ApplyAll(p, NOTHING, Ops(commits));
    AfterOpsAre(base, map[], CommitBatch(p, Live(base), ops));
    CommitBatchDoes(p, Store(base, map[], None), ops);
    CommitNodes(p, base, st, ops);
    OpsSnoc(commits, ops);
    ApplyAllConcat(p, NOTHING, Ops(commits), ops);
  }

  /** A complete flush adds the next tree. */
  lemma {:induction false} FlushKeepsLog(p: Params, d: Data, th: Thread)
    requires LogOk(p, d) && ThreadOk(p, d, th) && th.Busy? && th.task.Flush? && Complete(p, th.task)
    ensures LogOk(p, CommittedData(d, th.task.ops))
  {
    var batch, ops := BatchOf(p, th.task), th.task.ops;
    assert batch[..th.task.done] == batch;
    OpsSnoc(d.commits, ops);
    if AllReadBack(p, Ops(d.commits + [ops])) {
      AllReadBackPrefix(p, Ops(d.commits), ops);
      assert TreeAt(p, d.history, d.commits, |d.commits|) && d.commits[..|d.commits|] == d.commits;
      TreeReadsBack(p, d.commits, Ops(d.commits));
      FlushIsNext(p, d.commits, ops, Latest(d));
      LogSnoc(p, d.history, d.commits, ops, d.nodes);
    }
  }

  lemma {:induction false} LogSnoc(p: Params, history: seq<Nodes>, commits: seq<seq<LeafOperation>>,
                                   ops: seq<LeafOperation>, next: Nodes)
    requires |history| == |commits| + 1 && forall j: nat :: j < |history| ==> TreeAt(p, history, commits, j)
    requires next == TreeOf(p, commits + [ops])
    ensures forall j: nat :: j < |history| + 1 ==> TreeAt(p, history + [next], commits + [ops], j)
  {
    forall j: nat | j < |history| + 1 ensures TreeAt(p, history + [next], commits + [ops], j) {
      if j < |history| {
        assert TreeAt(p, history, commits, j) && (commits + [ops])[..j] == commits[..j];
      } else {
        assert (commits + [ops])[..j] == commits + [ops];
      }
    }
  }

  ghost predicate LogInv(p: Params, s: Sys) {
    forall r :: LogOk(p, DataAt(s, r))
  }

  lemma {:induction false} StepKeepsLog(p: Params, s: Sys, s': Sys, t: Tid)
    requires DataInv(p, s) && LogInv(p, s) && StepOf(p, s, s', t)
    ensures LogInv(p, s')
  {
    forall r ensures LogOk(p, DataAt(s', r)) {
      assert LogOk(p, DataAt(s, r));
      if Commits(p, s, s', t) {
        assert KnowsOk(p, s, ThreadAt(s, t));
        CommitsHere(p, s, s', t, r);
        if r == ThreadAt(s, t).reg {
          FlushKeepsLog(p, DataAt(s, r), ThreadAt(s, t));
        }
      } else {
        CommitsNothing(p, s, s', t, r);
      }
    }
  }

  ghost predicate Commits(p: Params, s: Sys, s': Sys, t: Tid) {
    Release(p, s, s', t) && ThreadAt(s, t).task.Flush?
  }

  lemma {:induction false} CommitsHere(p: Params, s: Sys, s': Sys, t: Tid, r: Reg)
    requires Commits(p, s, s', t)
    ensures DataAt(s', r) == if r == ThreadAt(s, t).reg then CommittedData(DataAt(s, r), ThreadAt(s, t).task.ops)
                             else DataAt(s, r)
  {
  }

  lemma {:induction false} CommitsNothing(p: Params, s: Sys, s': Sys, t: Tid, r: Reg)
    requires StepOf(p, s, s', t) && !Commits(p, s, s', t)
    ensures DataAt(s', r).history == DataAt(s, r).history && DataAt(s', r).commits == DataAt(s, r).commits
  {
    if !WriteKey(p, s, s', t) {
      QuietData(p, s, s', t);
    }
  }

  /** Only writing a key and ending a flush change data. */
  lemma {:induction false} QuietData(p: Params, s: Sys, s': Sys, t: Tid)
    requires StepOf(p, s, s', t) && !WriteKey(p, s, s', t) && !Commits(p, s, s', t)
    ensures s'.data == s.data
  {
  }

  lemma {:induction false} StepLog(p: Params, s: Sys, s': Sys)
    requires DataInv(p, s) && LogInv(p, s) && Step(p, s, s')
    ensures LogInv(p, s')
  {
    var t :| StepOf(p, s, s', t);
    StepKeepsLog(p, s, s', t);
  }

  lemma {:induction false} RunLogInv(p: Params, tr: seq<Sys>, k: nat)
    requires Run(p, tr) && RunSurvives(p, tr) && k < |tr|
    ensures LogInv(p, tr[k])
  {
    if k == 0 {
      FirstLog(p);
    } else {
      RunLogInv(p, tr, k - 1);
      RunInv(p, tr, k - 1);
      LogAt(p, tr, k);
    }
  }

  lemma {:induction false} LogAt(p: Params, tr: seq<Sys>, k: nat)
    requires Run(p, tr) && 0 < k < |tr| && DataInv(p, tr[k - 1]) && LogInv(p, tr[k - 1])
    ensures LogInv(p, tr[k])
  {
    assert StepAt(p, tr, k - 1);
    StepLog(p, tr[k - 1], tr[k]);
  }

  lemma {:induction false} FirstLog(p: Params)
    ensures LogOk(p, Data(map[], [map[]], []))
  {
    UpdatesNone(p, map[]);
    var none: seq<seq<LeafOperation>> := [];
    assert none[..0] == none;
  }

  // ---------- the theorems ----------

  /**
   Reader isolation: in every interleaving, a returned proof is the proof of one committed
   tree, so it verifies against its own root, although a flush passes through trees that
   were never committed.
   */
  lemma {:induction false} ProofsAreIsolated(p: Params, tr: seq<Sys>, k: nat, t: Tid)
    requires Run(p, tr) && RunSurvives(p, tr) && k < |tr| && ThreadAt(tr[k], t).Returned?
    ensures var th := ThreadAt(tr[k], t);
            var d := DataAt(tr[k], th.reg);
            && th.at <= |d.commits| < |d.history|
            && Consistent(p, Live(d.history[th.at])) && th.proof == ProofOf(p, Live(d.history[th.at]), th.proof.index)
            && (th.proof.index < Pow2(p.depth) ==>
                  Verifies(p, th.proof.leaf, th.proof.index, th.proof.path, th.proof.root))
  {
    RunInv(p, tr, k);
    var th := ThreadAt(tr[k], t);
    assert KnowsOk(p, tr[k], th) && RegOk(p, tr[k], th.reg);
    ProofVerifies(p, Live(DataAt(tr[k], th.reg).history[th.at]), th.proof.index);
  }

  /**
   And that tree is the one of the operations committed before: if they read back, a returned
   proof carries the leaf, and the reference root, of the registry's commits up to then.
   */
  lemma {:induction false} ProofsAnswerCommits(p: Params, tr: seq<Sys>, k: nat, t: Tid)
    requires Run(p, tr) && RunSurvives(p, tr) && k < |tr| && ThreadAt(tr[k], t).Returned?
    requires AllReadBack(p, Ops(DataAt(tr[k], ThreadAt(tr[k], t).reg).commits))
    ensures var th := ThreadAt(tr[k], t);
            var commits := DataAt(tr[k], th.reg).commits;
            && th.at <= |commits|
            && var leaves := ApplyAll(p, NOTHING, Ops(commits[..th.at])).leaves;
               th.proof.leaf == LeafAt(p, leaves, th.proof.index) && th.proof.root == SpecNode(p, leaves, p.depth, 0)
  {
    ProofsAreIsolated(p, tr, k, t);
    RunLogInv(p, tr, k);
    var th := ThreadAt(tr[k], t);
    var d := DataAt(tr[k], th.reg);
    assert LogOk(p, d) && TreeAt(p, d.history, d.commits, th.at);
    TreeAnswers(p, d.commits, th.at, th.proof.index);
  }

  lemma {:induction false} TreeAnswers(p: Params, commits: seq<seq<LeafOperation>>, n: nat, index: nat)
    requires AllReadBack(p, Ops(commits)) && n <= |commits|
    ensures var leaves := ApplyAll(p, NOTHING, Ops(commits[..n])).leaves;
            var proof := ProofOf(p, Live(TreeOf(p, commits[..n])), index);
            proof.leaf == LeafAt(p, leaves, index) && proof.root == SpecNode(p, leaves, p.depth, 0)
  {
    var st, tree := ApplyAll(p, NOTHING, Ops(commits[..n])), TreeOf(p, commits[..n]);
    OpsPrefix(commits, n);
    TreeReadsBack(p, commits[..n], Ops(commits));
    RepresentsReads(p, Store(tree, st.index, None), st);
  }

  predicate ReadsInside(th: Thread, r: Reg) {
    Holding(th) && th.reg == r && th.task.Read?
  }

  lemma {:induction false} ReadExcludesWrite(s: Sys, t: Tid, u: Tid, r: Reg)
    requires LockInv(s) && ReadsInside(ThreadAt(s, t), r)
    ensures !Flushing(ThreadAt(s, u), r)
  {
    if u != t && Flushing(ThreadAt(s, u), r) {
      WriterIsAlone(s, u, t, r);
    }
  }

  /** While a reader is inside, its registry stands still. */
  lemma {:induction false} ReaderFreezes(p: Params, s: Sys, s': Sys, t: Tid, u: Tid, r: Reg)
    requires LockInv(s) && ReadsInside(ThreadAt(s, t), r) && StepOf(p, s, s', u)
    ensures DataAt(s', r) == DataAt(s, r)
  {
    ReadExcludesWrite(s, t, u, r);
    if Commits(p, s, s', u) {
      CommitsHere(p, s, s', u, r);
    } else if !WriteKey(p, s, s', u) {
      QuietData(p, s, s', u);
    }
  }

  /** So the tree a proof is read from is the current one from taking the lock to giving it back. */
  lemma {:induction false} FrozenWhileRead(p: Params, tr: seq<Sys>, i: nat, k: nat, t: Tid, r: Reg)
    requires Run(p, tr) && i <= k < |tr|
    requires forall j: nat :: i <= j < k ==> ReadsInside(ThreadAt(tr[j], t), r)
    ensures DataAt(tr[k], r) == DataAt(tr[i], r)
    decreases k
  {
    if i < k {
      FrozenWhileRead(p, tr, i, k - 1, t, r);
      RunLockInv(p, tr, k - 1);
      assert StepAt(p, tr, k - 1) && ReadsInside(ThreadAt(tr[k - 1], t), r);
      StepFreezes(p, tr[k - 1], tr[k], t, r);
    }
  }

  lemma {:induction false} StepFreezes(p: Params, s: Sys, s': Sys, t: Tid, r: Reg)
    requires LockInv(s) && ReadsInside(ThreadAt(s, t), r) && Step(p, s, s')
    ensures DataAt(s', r) == DataAt(s, r)
  {
    var u :| StepOf(p, s, s', u);
    ReaderFreezes(p, s, s', t, u, r);
  }

  // ---------- what was asked for ----------

  /** Thread `b` is busy with what `a` is busy with. */
  predicate SameAsk(a: Thread, b: Thread) {
    && a.Busy? && b.Busy? && a.reg == b.reg
    && match a.task
       case Read(index, _) => b.task.Read? && b.task.index == index
       case Flush(_, ops, _) => b.task.Flush? && b.task.ops == ops
  }

  lemma {:induction false} StepMoves(p: Params, s: Sys, s': Sys, u: Tid)
    requires StepOf(p, s, s', u)
    ensures Moves(s, s', u, ThreadAt(s, u), ThreadAt(s', u))
  {
  }

  /** A busy thread goes on with its task, returns the proof it was to read, or ends the flush it was to write. */
  ghost predicate GoesOn(p: Params, s: Sys, s': Sys, t: Tid) {
    var a, b := ThreadAt(s, t), ThreadAt(s', t);
    && (b.Busy? ==> SameAsk(a, b))
    && (b.Returned? ==> a.Busy? && a.task.Read? && b.reg == a.reg && b.proof.index == a.task.index)
    && (b.Idle? ==> Commits(p, s, s', t))
  }

  lemma {:induction false} OwnStep(p: Params, s: Sys, s': Sys, t: Tid)
    requires StepOf(p, s, s', t) && ThreadAt(s, t).Busy?
    ensures GoesOn(p, s, s', t)
  {
  }

  lemma {:induction false} StepGoesOn(p: Params, s: Sys, s': Sys, t: Tid)
    requires Step(p, s, s') && ThreadAt(s, t).Busy?
    ensures GoesOn(p, s, s', t)
  {
    var u :| StepOf(p, s, s', u);
    if u == t {
      OwnStep(p, s, s', t);
    } else {
      StepMoves(p, s, s', u);
      MovesOthers(s, s', u, ThreadAt(s, u), ThreadAt(s', u), t);
    }
  }

  lemma {:induction false} StillBusy(p: Params, tr: seq<Sys>, i: nat, k: nat, t: Tid)
    requires Run(p, tr) && i <= k < |tr| && forall h: nat :: i <= h <= k ==> ThreadAt(tr[h], t).Busy?
    ensures SameAsk(ThreadAt(tr[i], t), ThreadAt(tr[k], t))
    decreases k
  {
    if i < k {
      StillBusy(p, tr, i, k - 1, t);
      assert StepAt(p, tr, k - 1) && ThreadAt(tr[k - 1], t).Busy?;
      StepGoesOn(p, tr[k - 1], tr[k], t);
    }
  }

  lemma {:induction false} BeganRead(s: Sys, s': Sys, t: Tid, r: Reg, index: uint32)
    requires BeginRead(s, s', t, r, index)
    ensures SameAsk(Busy(r, Read(index, []), Inside), ThreadAt(s', t))
  {
  }

  lemma {:induction false} BeganFlush(s: Sys, s': Sys, t: Tid, r: Reg, ops: seq<LeafOperation>)
    requires BeginFlush(s, s', t, r, ops)
    ensures SameAsk(Busy(r, Flush(map[], ops, 0), Inside), ThreadAt(s', t))
  {
  }

  /** The proof that a reader returns is of the registry and the index it was asked for ... */
  lemma {:induction false} ReadsWhatWasAsked(p: Params, tr: seq<Sys>, j: nat, k: nat, t: Tid, r: Reg, index: uint32)
    requires Run(p, tr) && j + 1 < k < |tr| && BeginRead(tr[j], tr[j + 1], t, r, index)
    requires forall h: nat :: j < h < k ==> ThreadAt(tr[h], t).Busy?
    requires ThreadAt(tr[k], t).Returned?
    ensures ThreadAt(tr[k], t).reg == r && ThreadAt(tr[k], t).proof.index == index
  {
    BeganRead(tr[j], tr[j + 1], t, r, index);
    StillBusy(p, tr, j + 1, k - 1, t);
    assert StepAt(p, tr, k - 1);
    StepGoesOn(p, tr[k - 1], tr[k], t);
  }

  /** ... and a flush that ends has committed the operations it was given. */
  lemma {:induction false} CommitsWhatWasAsked(p: Params, tr: seq<Sys>, j: nat, k: nat, t: Tid, r: Reg,
                                               ops: seq<LeafOperation>)
    requires Run(p, tr) && j + 1 < k < |tr| && BeginFlush(tr[j], tr[j + 1], t, r, ops)
    requires forall h: nat :: j < h < k ==> ThreadAt(tr[h], t).Busy?
    requires ThreadAt(tr[k], t).Idle?
    ensures DataAt(tr[k], r).commits == DataAt(tr[k - 1], r).commits + [ops]
  {
    BeganFlush(tr[j], tr[j + 1], t, r, ops);
    CommitsAsked(p, tr, j + 1, k, t, r, ops);
  }

  lemma {:induction false} CommitsAsked(p: Params, tr: seq<Sys>, i: nat, k: nat, t: Tid, r: Reg,
                                        ops: seq<LeafOperation>)
    requires Run(p, tr) && i < k < |tr| && SameAsk(Busy(r, Flush(map[], ops, 0), Inside), ThreadAt(tr[i], t))
    requires forall h: nat :: i <= h < k ==> ThreadAt(tr[h], t).Busy?
    requires ThreadAt(tr[k], t).Idle?
    ensures DataAt(tr[k], r).commits == DataAt(tr[k - 1], r).commits + [ops]
  {
    StillBusy(p, tr, i, k - 1, t);
    var th := ThreadAt(tr[k - 1], t);
    assert th.Busy? && th.reg == r && th.task.Flush? && th.task.ops == ops;
    EndsAt(p, tr, k, t, r, ops);
  }

  lemma {:induction false} EndsAt(p: Params, tr: seq<Sys>, k: nat, t: Tid, r: Reg, ops: seq<LeafOperation>)
    requires Run(p, tr) && 0 < k < |tr| && ThreadAt(tr[k], t).Idle?
    requires var th := ThreadAt(tr[k - 1], t); th.Busy? && th.reg == r && th.task.Flush? && th.task.ops == ops
    ensures DataAt(tr[k], r).commits == DataAt(tr[k - 1], r).commits + [ops]
  {
    assert StepAt(p, tr, k - 1);
    EndsWith(p, tr[k - 1], tr[k], t, r, ops);
  }

  lemma {:induction false} EndsWith(p: Params, s: Sys, s': Sys, t: Tid, r: Reg, ops: seq<LeafOperation>)
    requires Step(p, s, s') && ThreadAt(s, t).Busy? && ThreadAt(s, t).reg == r && ThreadAt(s', t).Idle?
    requires ThreadAt(s, t).task.Flush? && ThreadAt(s, t).task.ops == ops
    ensures DataAt(s', r).commits == DataAt(s, r).commits + [ops]
  {
    StepGoesOn(p, s, s', t);
    CommitsHere(p, s, s', t, r);
  }

  // ---------- why the lock is needed ----------

  predicate SetsNode(ops: seq<DbOp>, n: Node) {
    exists k :: 0 <= k < |ops| && ops[k].SetNode? && ops[k].write.node == n
  }

  lemma {:induction false} UnsetStays(base: Nodes, ops: seq<DbOp>, n: Node)
    requires !SetsNode(ops, n)
    ensures n in AfterOps(base, ops) <==> n in base
    ensures n in base ==> AfterOps(base, ops)[n] == base[n]
  {
    if ops != [] {
      var front := ops[..|ops| - 1];
      forall k | 0 <= k < |front| ensures !(front[k].SetNode? && front[k].write.node == n) {
        assert front[k] == ops[k];
      }
      UnsetStays(base, front, n);
    }
  }

  /**
   In the middle of any flush, a node that is not yet written is the hash of its children
   exactly when what was written below did not change that hash; otherwise the tree is torn.
   */
  lemma {:induction false} FlushTears(p: Params, tr: seq<Sys>, k: nat, t: Tid, l: nat, q: nat)
    requires Run(p, tr) && RunSurvives(p, tr) && k < |tr| && l < p.depth
    requires var th := ThreadAt(tr[k], t);
             && th.Busy? && Flushing(th, th.reg) && th.task.done <= |BatchOf(p, th.task)|
             && !SetsNode(BatchOf(p, th.task)[..th.task.done], Node(l + 1, q))
    ensures var th := ThreadAt(tr[k], t);
            var before, now := Live(th.task.base), Live(DataAt(tr[k], th.reg).nodes);
            && (NodeOk(p, now, l, q) <==> NodeHash(p, now, l, q) == NodeHash(p, before, l, q))
            && (Consistent(p, now) ==> NodeHash(p, now, l, q) == NodeHash(p, before, l, q))
  {
    RunInv(p, tr, k);
    var th := ThreadAt(tr[k], t);
    assert KnowsOk(p, tr[k], th) && RegOk(p, tr[k], th.reg) && Latest(DataAt(tr[k], th.reg)) == th.task.base;
    var base, done := th.task.base, BatchOf(p, th.task)[..th.task.done];
    UnsetStays(base, done, Node(l + 1, q));
    TornNode(p, base, AfterOps(base, done), l, q);
  }

  lemma {:induction false} TornNode(p: Params, base: Nodes, nodes: Nodes, l: nat, q: nat)
    requires Consistent(p, Live(base)) && l < p.depth
    requires Node(l + 1, q) in nodes <==> Node(l + 1, q) in base
    requires Node(l + 1, q) in base ==> nodes[Node(l + 1, q)] == base[Node(l + 1, q)]
    ensures NodeOk(p, Live(nodes), l, q) <==> NodeHash(p, Live(nodes), l, q) == NodeHash(p, Live(base), l, q)
    ensures Consistent(p, Live(nodes)) ==> NodeOk(p, Live(nodes), l, q)
  {
    assert NodeOk(p, Live(base), l, q);
  }

  lemma {:induction false} LeavesFirst(p: Params, m: Nodes, leaves: seq<TreeLeaf>, level: nat)
    ensures LeafWrites(leaves) <= InsertWrites(p, m, leaves, level)
  {
    if level > 0 {
      LeavesFirst(p, m, leaves, level - 1);
    }
  }

  lemma {:induction false} Extends(p: Params, tr: seq<Sys>, s: Sys, t: Tid)
    requires Run(p, tr) && StepOf(p, tr[|tr| - 1], s, t)
    ensures Run(p, tr + [s])
  {
    forall k: nat | k + 1 < |tr + [s]| ensures StepAt(p, tr + [s], k) {
      assert k + 1 < |tr| ==> StepAt(p, tr, k);
    }
  }

  /** And flushes do tear the tree: a run that adds one certificate reaches an inconsistent tree. */
  lemma {:induction false} TornRun(p: Params, r: Reg, t: Tid, v: Word) returns (tr: seq<Sys>)
    requires p.depth > 0 && v != 0 && p.hash(v, p.empty) != p.hash(p.empty, p.empty)
    ensures Run(p, tr) && Torn(tr[|tr| - 1], r) && !Consistent(p, Live(DataAt(tr[|tr| - 1], r).nodes))
  {
    var ops := [LeafOperation(TreeLeaf(0, v), ADDITION)];
    tr := LockedRun(p, r, t, ops);
    var s, none, torn := tr[|tr| - 1], map[], map[Node(0, 0) := v];
    FirstWrites(p, map[], ops, v);
    var s1 := WriteNext(p, s, t, r, Flush(map[], ops, 0), none);
    Extends(p, tr, s1, t);
    tr := tr + [s1];
    var s2 := WriteNext(p, s1, t, r, Flush(map[], ops, 1), torn);
    Extends(p, tr, s2, t);
    tr := tr + [s2];
    assert Flushing(ThreadAt(s2, t), r);
    TornLeaf(p, v);
  }

  lemma {:induction false} WriteNext(p: Params, s: Sys, t: Tid, r: Reg, flush: Task, nodes: Nodes) returns (s': Sys)
    requires flush.Flush? && ThreadAt(s, t) == Busy(r, flush, Inside) && flush.done < |BatchOf(p, flush)|
    requires nodes == AfterOp(DataAt(s, r).nodes, BatchOf(p, flush)[flush.done])
    ensures WriteKey(p, s, s', t)
    ensures DataAt(s', r).nodes == nodes && ThreadAt(s', t) == Busy(r, flush.(done := flush.done + 1), Inside)
  {
    s' := s.(data := s.data[r := DataAt(s, r).(nodes := nodes)],
             threads := s.threads[t := Busy(r, flush.(done := flush.done + 1), Inside)]);
  }

  lemma {:induction false} TornLeaf(p: Params, v: Word)
    requires p.depth > 0 && v != 0 && p.hash(v, p.empty) != p.hash(p.empty, p.empty)
    ensures !Consistent(p, Live(map[Node(0, 0) := v]))
  {
    var torn: Nodes := map[Node(0, 0) := v];
    assert Live(torn) == torn && EmptyAt(p, 1) == p.hash(p.empty, p.empty);
    assert !NodeOk(p, torn, 0, 0);
  }

  /** The batch begins with the index entry and the leaf. */
  lemma {:induction false} FirstWrites(p: Params, base: Nodes, ops: seq<LeafOperation>, v: Word)
    requires ops == [LeafOperation(TreeLeaf(0, v), ADDITION)]
    ensures var batch := CommitBatch(p, Live(base), ops);
            |batch| >= 2 && batch[0] == SetIndex(v, 0) && batch[1] == SetNode(NodeWrite(Node(0, 0), v))
  {
    var leaves := CommitLeaves(p, ops);
    LeavesFirst(p, Live(base), leaves, p.depth);
    assert LeafWrites(leaves)[0] == InsertWrites(p, Live(base), leaves, p.depth)[0];
  }

  /** A writer alone comes to hold the lock. */
  lemma {:induction false} LockedRun(p: Params, r: Reg, t: Tid, ops: seq<LeafOperation>) returns (tr: seq<Sys>)
    ensures Run(p, tr)
    ensures tr[|tr| - 1]
         == Sys(map[r := 0], [Rw(Some(t), {})], map[t := Busy(r, Flush(map[], ops, 0), Inside)], map[])
  {
    var flush := Flush(map[], ops, 0);
    var s0 := Sys(map[], [], map[], map[]);
    var s1 := s0.(threads := map[t := Busy(r, flush, Seek(false))]);
    var s2 := s0.(threads := map[t := Busy(r, flush, Missed(false))]);
    var s3 := Sys(map[r := 0], [Rw(None, {})], map[t := Busy(r, flush, Have(false, 0))], map[]);
    var s4 := Sys(map[r := 0], [Rw(Some(t), {})], map[t := Busy(r, flush, Inside)], map[]);
    assert BeginFlush(s0, s1, t, r, ops);
    Extends(p, [s0], s1, t);
    tr := [s0] + [s1];
    assert FindLock(s1, s2, t);
    Extends(p, tr, s2, t);
    tr := tr + [s2];
    assert Create(s2, s3, t);
    Extends(p, tr, s3, t);
    tr := tr + [s3];
    assert Acquire(s3, s4, t);
    Extends(p, tr, s4, t);
    tr := tr + [s4];
  }
}
