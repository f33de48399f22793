/**
 Readers and the writer of a registry, step by step: the lock table that creates a
 registry's lock on first use, the lock itself, a proof read node by node under the read
 lock, and a commit flushed key by key under the write lock. Any number of threads run on
 any number of registries; a registry has one writer at a time. Here: the steps, and what
 they keep of the table and the locks, whatever the data.
 */
module Locking {
  import opened Words
  import opened MerkleSpec
  import opened LeafStorage
  import opened Simulation
  import opened Registry

  type Tid = nat
  type Reg = uint8
  type Id = nat

  /** A readers-writer lock, by who holds it. */
  datatype Rw = Rw(writer: Option<Tid>, readers: set<Tid>)

  /** `got` are the words read so far; `done` is how many operations of the batch are written. */
  datatype Task = Read(index: uint32, got: seq<Word>) | Flush(base: Nodes, ops: seq<LeafOperation>, done: nat)

  /** Acquiring (`out` false) and releasing (`out` true) both go through the lock table. */
  datatype Phase = Seek(out: bool) | Missed(out: bool) | Have(out: bool, id: Id) | Inside

  /** A proof is returned with the number of commits it was read after. */
  datatype Thread = Idle | Busy(reg: Reg, task: Task, phase: Phase) | Returned(reg: Reg, proof: MerkleProof, at: nat)

  /** What a registry holds; `commits` are the operations committed so far, and `history` the trees before and after. */
  datatype Data = Data(nodes: Nodes, history: seq<Nodes>, commits: seq<seq<LeafOperation>>)

  datatype Sys = Sys(table: map<Reg, Id>, locks: seq<Rw>, threads: map<Tid, Thread>, data: map<Reg, Data>)

  function ThreadAt(s: Sys, t: Tid): Thread {
    if t in s.threads then s.threads[t] else Idle
  }

  function DataAt(s: Sys, r: Reg): Data {
    if r in s.data then s.data[r] else Data(map[], [map[]], [])
  }

  // ---------- tasks ----------

  /** The nodes a proof reads, in order: the leaf, the siblings upwards, the root. */
  function Target(p: Params, index: nat, k: nat): Node {
    if k == 0 then Node(0, index)
    else if k <= p.depth then Node(k - 1, Sibling(Anc(index, k - 1)))
    else Node(p.depth, 0)
  }

  function ProofFrom(p: Params, index: uint32, got: seq<Word>): MerkleProof
    requires |got| == p.depth + 2
  {
    MerkleProof(got[0], got[1..p.depth + 1], index, got[p.depth + 1])
  }

  function BatchOf(p: Params, task: Task): seq<DbOp>
    requires task.Flush?
  {
    CommitBatch(p, Live(task.base), task.ops)
  }

  function AfterOp(nodes: Nodes, op: DbOp): Nodes {
    ApplyOp(Store(nodes, map[], None), op).nodes
  }

  /** The nodes once the first operations of a batch are written. */
  function AfterOps(base: Nodes, ops: seq<DbOp>): Nodes {
    if ops == [] then base else AfterOp(AfterOps(base, ops[..|ops| - 1]), ops[|ops| - 1])
  }

  predicate Complete(p: Params, task: Task) {
    match task
    case Read(_, got) => |got| == p.depth + 2
    case Flush(_, _, done) => done == |BatchOf(p, task)|
  }

  // ---------- steps of thread t ----------

  ghost predicate BeginRead(s: Sys, s': Sys, t: Tid, r: Reg, index: uint32) {
    && (ThreadAt(s, t).Idle? || ThreadAt(s, t).Returned?)
    && s' == s.(threads := s.threads[t := Busy(r, Read(index, []), Seek(false))])
  }

  /** The writer computes its batch from the database as it stands, before taking the lock. */
  ghost predicate BeginFlush(s: Sys, s': Sys, t: Tid, r: Reg, ops: seq<LeafOperation>) {
    && (ThreadAt(s, t).Idle? || ThreadAt(s, t).Returned?)
    && (forall u :: !Writing(ThreadAt(s, u), r))
    && s' == s.(threads := s.threads[t := Busy(r, Flush(DataAt(s, r).nodes, ops, 0), Seek(false))])
  }

  ghost predicate FindLock(s: Sys, s': Sys, t: Tid) {
    var th := ThreadAt(s, t);
    && th.Busy? && th.phase.Seek?
    && var phase := if th.reg in s.table then Have(th.phase.out, s.table[th.reg]) else Missed(th.phase.out);
       s' == s.(threads := s.threads[t := th.(phase := phase)])
  }

  /** Under the table's own lock: look again, and only then create. */
  ghost predicate Create(s: Sys, s': Sys, t: Tid) {
    var th := ThreadAt(s, t);
    && th.Busy? && th.phase.Missed?
    && if th.reg in s.table then
         s' == s.(threads := s.threads[t := th.(phase := Have(th.phase.out, s.table[th.reg]))])
       else
         s' == s.(table := s.table[th.reg := |s.locks|], locks := s.locks + [Rw(None, {})],
                  threads := s.threads[t := th.(phase := Have(th.phase.out, |s.locks|))])
  }

  ghost predicate Acquire(s: Sys, s': Sys, t: Tid) {
    var th := ThreadAt(s, t);
    && th.Busy? && th.phase.Have? && !th.phase.out && th.phase.id < |s.locks|
    && var lock := s.locks[th.phase.id];
       && lock.writer == None && (th.task.Flush? ==> lock.readers == {})
       && var lock' := if th.task.Flush? then Rw(Some(t), {}) else Rw(None, lock.readers + {t});
          s' == s.(locks := s.locks[th.phase.id := lock'], threads := s.threads[t := th.(phase := Inside)])
  }

  ghost predicate ReadNode(p: Params, s: Sys, s': Sys, t: Tid) {
    var th := ThreadAt(s, t);
    && th.Busy? && th.phase.Inside? && th.task.Read? && |th.task.got| < p.depth + 2
    && var word := MerkleSpec.Read(p, Live(DataAt(s, th.reg).nodes), Target(p, th.task.index, |th.task.got|));
       s' == s.(threads := s.threads[t := th.(task := Read(th.task.index, th.task.got + [word]))])
  }

  ghost predicate WriteKey(p: Params, s: Sys, s': Sys, t: Tid) {
    var th := ThreadAt(s, t);
    && th.Busy? && th.phase.Inside? && th.task.Flush? && th.task.done < |BatchOf(p, th.task)|
    && var data := DataAt(s, th.reg);
       s' == s.(data := s.data[th.reg := data.(nodes := AfterOp(data.nodes, BatchOf(p, th.task)[th.task.done]))],
                threads := s.threads[t := th.(task := th.task.(done := th.task.done + 1))])
  }

  ghost predicate Leave(p: Params, s: Sys, s': Sys, t: Tid) {
    var th := ThreadAt(s, t);
    && th.Busy? && th.phase.Inside? && Complete(p, th.task)
    && s' == s.(threads := s.threads[t := th.(phase := Seek(true))])
  }

  /** The nodes as they are become the latest committed tree. */
  function CommittedData(d: Data, ops: seq<LeafOperation>): Data {
    Data(d.nodes, d.history + [d.nodes], d.commits + [ops])
  }

  /** Releasing acts on whatever lock the table gave. */
  ghost predicate Release(p: Params, s: Sys, s': Sys, t: Tid) {
    var th := ThreadAt(s, t);
    && th.Busy? && th.phase.Have? && th.phase.out && th.phase.id < |s.locks| && Complete(p, th.task)
    && var lock := s.locks[th.phase.id];
       match th.task
       case Read(index, got) =>
         s' == s.(locks := s.locks[th.phase.id := lock.(readers := lock.readers - {t})],
                  threads := s.threads[t := Returned(th.reg, ProofFrom(p, index, got), |DataAt(s, th.reg).commits|)])
       case Flush(_, _, _) =>
         s' == s.(locks := s.locks[th.phase.id := lock.(writer := None)],
                  threads := s.threads[t := Idle],
                  data := s.data[th.reg := CommittedData(DataAt(s, th.reg), th.task.ops)])
  }

  /** The steps that leave the table and the locks as they are. */
  ghost predicate UnlockedStep(p: Params, s: Sys, s': Sys, t: Tid) {
    || (exists r, index :: BeginRead(s, s', t, r, index))
    || (exists r, ops :: BeginFlush(s, s', t, r, ops))
    || FindLock(s, s', t) || ReadNode(p, s, s', t) || WriteKey(p, s, s', t) || Leave(p, s, s', t)
  }

  ghost predicate StepOf(p: Params, s: Sys, s': Sys, t: Tid) {
    UnlockedStep(p, s, s', t) || Create(s, s', t) || Acquire(s, s', t) || Release(p, s, s', t)
  }

  ghost predicate Step(p: Params, s: Sys, s': Sys) {
    exists t :: StepOf(p, s, s', t)
  }

  ghost predicate StepAt(p: Params, tr: seq<Sys>, k: nat)
    requires k + 1 < |tr|
  {
    Step(p, tr[k], tr[k + 1])
  }

  ghost predicate Run(p: Params, tr: seq<Sys>) {
    && tr != [] && tr[0] == Sys(map[], [], map[], map[])
    && forall k: nat :: k + 1 < |tr| ==> StepAt(p, tr, k)
  }

  // ---------- the lock invariant ----------

  predicate Writing(th: Thread, r: Reg) {
    th.Busy? && th.reg == r && th.task.Flush?
  }

  /** From taking the lock until giving it back. */
  predicate Holding(th: Thread) {
    th.Busy? && (th.phase.Inside? || th.phase.out)
  }

  predicate Flushing(th: Thread, r: Reg) {
    Writing(th, r) && Holding(th)
  }

  /** The lock table: one lock per registry, never replaced, and every handle is that lock. */
  ghost predicate TableOk(s: Sys) {
    && (forall r :: r in s.table ==> s.table[r] < |s.locks|)
    && (forall r, q :: r in s.table && q in s.table && s.table[r] == s.table[q] ==> r == q)
  }

  ghost predicate HandleOk(s: Sys, th: Thread) {
    && (th.Busy? && th.phase.Have? ==> th.reg in s.table && s.table[th.reg] == th.phase.id)
    && (Holding(th) ==> th.reg in s.table)
  }

  ghost predicate HandlesOk(s: Sys) {
    forall t: Tid :: HandleOk(s, ThreadAt(s, t))
  }

  predicate ReadsUnder(th: Thread, s: Sys, id: Id) {
    Holding(th) && th.task.Read? && th.reg in s.table && s.table[th.reg] == id
  }

  predicate WritesUnder(th: Thread, s: Sys, id: Id) {
    Holding(th) && th.task.Flush? && th.reg in s.table && s.table[th.reg] == id
  }

  /** The lock's holders are exactly the threads inside, and a writer is alone. */
  ghost predicate LockOk(s: Sys, id: Id)
    requires id < |s.locks|
  {
    && (forall t: Tid :: t in s.locks[id].readers <==> ReadsUnder(ThreadAt(s, t), s, id))
    && (forall t: Tid :: s.locks[id].writer == Some(t) <==> WritesUnder(ThreadAt(s, t), s, id))
    && (s.locks[id].writer.Some? ==> s.locks[id].readers == {})
  }

  ghost predicate LocksOk(s: Sys) {
    forall id :: 0 <= id < |s.locks| ==> LockOk(s, id)
  }

  ghost predicate LockInv(s: Sys) {
    TableOk(s) && HandlesOk(s) && LocksOk(s)
  }

  /** Thread t moves from `was` to `th`; all others stay as they are. */
  ghost predicate Moves(s: Sys, s': Sys, t: Tid, was: Thread, th: Thread) {
    ThreadAt(s, t) == was && s'.threads == s.threads[t := th]
  }

  lemma {:induction false} MovesOthers(s: Sys, s': Sys, t: Tid, was: Thread, th: Thread, u: Tid)
    requires Moves(s, s', t, was, th)
    ensures ThreadAt(s', u) == if u == t then th else ThreadAt(s, u)
  {
  }

  predicate SameHold(a: Thread, b: Thread) {
    && (Holding(a) <==> Holding(b))
    && (Holding(a) ==> a.reg == b.reg && (a.task.Flush? <==> b.task.Flush?))
  }

  /** A thread that neither enters nor leaves a critical section leaves the locks as they should be. */
  lemma {:induction false} LocksKept(s: Sys, s': Sys, t: Tid, was: Thread, th: Thread)
    requires LockInv(s) && Moves(s, s', t, was, th) && s'.locks == s.locks && s'.table == s.table
    requires SameHold(was, th) && HandleOk(s, th)
    ensures LockInv(s')
  {
    forall u ensures HandleOk(s', ThreadAt(s', u)) {
      MovesOthers(s, s', t, was, th, u);
      assert HandleOk(s, ThreadAt(s, u));
    }
    forall id | 0 <= id < |s'.locks| ensures LockOk(s', id) {
      assert LockOk(s, id);
      forall u ensures u in s'.locks[id].readers <==> ReadsUnder(ThreadAt(s', u), s', id)
        ensures s'.locks[id].writer == Some(u) <==> WritesUnder(ThreadAt(s', u), s', id)
      {
        MovesOthers(s, s', t, was, th, u);
      }
    }
  }

  /** Creation installs a lock only where there is none, and nobody can hold the new one yet. */
  lemma {:induction false} CreateLocks(s: Sys, s': Sys, t: Tid)
    requires LockInv(s) && Create(s, s', t)
    ensures LockInv(s')
  {
    var was, th := ThreadAt(s, t), ThreadAt(s', t);
    assert HandleOk(s, was);
    if was.reg in s.table {
      LocksKept(s, s', t, was, th);
    } else {
      forall u ensures HandleOk(s', ThreadAt(s', u)) {
        MovesOthers(s, s', t, was, th, u);
        assert HandleOk(s, ThreadAt(s, u));
      }
      forall id | 0 <= id < |s'.locks| ensures LockOk(s', id) {
        NewLockOk(s, s', t, was, th, id);
      }
    }
  }

  lemma {:induction false} NewLockOk(s: Sys, s': Sys, t: Tid, was: Thread, th: Thread, id: nat)
    requires LockInv(s) && Moves(s, s', t, was, th) && SameHold(was, th)
    requires was.Busy? && was.reg !in s.table && s'.table == s.table[was.reg := |s.locks|]
    requires s'.locks == s.locks + [Rw(None, {})] && id < |s'.locks|
    ensures LockOk(s', id)
  {
    assert id < |s.locks| ==> LockOk(s, id);
    forall u ensures ReadsUnder(ThreadAt(s', u), s', id) <==> id < |s.locks| && u in s.locks[id].readers
      ensures WritesUnder(ThreadAt(s', u), s', id) <==> id < |s.locks| && s.locks[id].writer == Some(u)
    {
      MovesOthers(s, s', t, was, th, u);
      assert HandleOk(s, ThreadAt(s, u));
    }
  }

  lemma {:induction false} AcquireLocks(s: Sys, s': Sys, t: Tid)
    requires LockInv(s) && Acquire(s, s', t)
    ensures LockInv(s')
  {
    var was, th := ThreadAt(s, t), ThreadAt(s', t);
    assert HandleOk(s, was);
    forall u ensures HandleOk(s', ThreadAt(s', u)) {
      MovesOthers(s, s', t, was, th, u);
      assert HandleOk(s, ThreadAt(s, u));
    }
    forall id | 0 <= id < |s'.locks| ensures LockOk(s', id) {
      assert LockOk(s, id);
      forall u { MovesOthers(s, s', t, was, th, u); }
    }
  }

  lemma {:induction false} ReleaseLocks(p: Params, s: Sys, s': Sys, t: Tid)
    requires LockInv(s) && Release(p, s, s', t)
    ensures LockInv(s')
  {
    var was, th := ThreadAt(s, t), ThreadAt(s', t);
    assert HandleOk(s, was);
    forall u ensures HandleOk(s', ThreadAt(s', u)) {
      MovesOthers(s, s', t, was, th, u);
      assert HandleOk(s, ThreadAt(s, u));
    }
    forall id | 0 <= id < |s'.locks| ensures LockOk(s', id) {
      assert LockOk(s, id);
      forall u { MovesOthers(s, s', t, was, th, u); }
    }
  }

  /** Thread t does not touch the locks, and holds what it held. */
  ghost predicate HoldsOn(s: Sys, s': Sys, t: Tid) {
    && Moves(s, s', t, ThreadAt(s, t), ThreadAt(s', t)) && s'.locks == s.locks && s'.table == s.table
    && SameHold(ThreadAt(s, t), ThreadAt(s', t)) && HandleOk(s, ThreadAt(s', t))
  }

  lemma {:induction false} BeginHoldsOn(s: Sys, s': Sys, t: Tid, r: Reg, index: uint32, ops: seq<LeafOperation>)
    requires BeginRead(s, s', t, r, index) || BeginFlush(s, s', t, r, ops)
    ensures HoldsOn(s, s', t)
  {
  }

  lemma {:induction false} InsideHoldsOn(p: Params, s: Sys, s': Sys, t: Tid)
    requires ReadNode(p, s, s', t) || WriteKey(p, s, s', t) || Leave(p, s, s', t)
    requires HandleOk(s, ThreadAt(s, t))
    ensures HoldsOn(s, s', t)
  {
  }

  lemma {:induction false} FindLockHoldsOn(s: Sys, s': Sys, t: Tid)
    requires FindLock(s, s', t) && HandleOk(s, ThreadAt(s, t))
    ensures HoldsOn(s, s', t)
  {
  }

  lemma {:induction false} UnlockedHoldsOn(p: Params, s: Sys, s': Sys, t: Tid)
    requires UnlockedStep(p, s, s', t) && HandleOk(s, ThreadAt(s, t))
    ensures HoldsOn(s, s', t)
  {
    if r, index :| BeginRead(s, s', t, r, index) {
      BeginHoldsOn(s, s', t, r, index, []);
    } else if r, ops :| BeginFlush(s, s', t, r, ops) {
      BeginHoldsOn(s, s', t, r, 0, ops);
    } else if FindLock(s, s', t) {
      FindLockHoldsOn(s, s', t);
    } else {
      InsideHoldsOn(p, s, s', t);
    }
  }

  lemma {:induction false} StepKeepsLocks(p: Params, s: Sys, s': Sys, t: Tid)
    requires LockInv(s) && StepOf(p, s, s', t)
    ensures LockInv(s')
  {
    if UnlockedStep(p, s, s', t) {
      assert HandleOk(s, ThreadAt(s, t));
      UnlockedHoldsOn(p, s, s', t);
      LocksKept(s, s', t, ThreadAt(s, t), ThreadAt(s', t));
    } else if Create(s, s', t) {
      CreateLocks(s, s', t);
    } else if Acquire(s, s', t) {
      AcquireLocks(s, s', t);
    } else {
      ReleaseLocks(p, s, s', t);
    }
  }

  lemma {:induction false} RunLockInv(p: Params, tr: seq<Sys>, k: nat)
    requires Run(p, tr) && k < |tr|
    ensures LockInv(tr[k])
  {
    if k > 0 {
      RunLockInv(p, tr, k - 1);
      assert StepAt(p, tr, k - 1);
      StepLocks(p, tr[k - 1], tr[k]);
    }
  }

  lemma {:induction false} StepLocks(p: Params, s: Sys, s': Sys)
    requires LockInv(s) && Step(p, s, s')
    ensures LockInv(s')
  {
    var t :| StepOf(p, s, s', t);
    StepKeepsLocks(p, s, s', t);
  }

  /** While a writer holds the lock of a registry, nobody else is inside. */
  lemma {:induction false} WriterIsAlone(s: Sys, t: Tid, u: Tid, r: Reg)
    requires LockInv(s) && t != u && Flushing(ThreadAt(s, t), r)
    ensures !(Holding(ThreadAt(s, u)) && ThreadAt(s, u).reg == r)
  {
    assert HandleOk(s, ThreadAt(s, t));
    var id := s.table[r];
    assert LockOk(s, id);
    assert WritesUnder(ThreadAt(s, t), s, id);
    assert u !in s.locks[id].readers && s.locks[id].writer != Some(u);
    assert !ReadsUnder(ThreadAt(s, u), s, id) && !WritesUnder(ThreadAt(s, u), s, id);
  }

  /**
   The lock table: whatever the interleaving of its lookups and creations, all threads get
   the same lock for a registry, no two registries share one, and a thread about to release
   has in hand the very lock it holds.
   */
  lemma {:induction false} LocksAreUnique(p: Params, tr: seq<Sys>, k: nat, t: Tid, u: Tid)
    requires Run(p, tr) && k < |tr| && ThreadAt(tr[k], t).Busy? && ThreadAt(tr[k], t).phase.Have?
    ensures var th, other := ThreadAt(tr[k], t), ThreadAt(tr[k], u);
            && th.phase.id < |tr[k].locks|
            && (other.Busy? && other.phase.Have? ==> (th.phase.id == other.phase.id <==> th.reg == other.reg))
            && (th.phase.out && th.task.Flush? ==> tr[k].locks[th.phase.id].writer == Some(t))
            && (th.phase.out && th.task.Read? ==> t in tr[k].locks[th.phase.id].readers)
  {
    RunLockInv(p, tr, k);
    var th := ThreadAt(tr[k], t);
    assert HandleOk(tr[k], th) && HandleOk(tr[k], ThreadAt(tr[k], u));
    assert LockOk(tr[k], th.phase.id);
    assert ReadsUnder(th, tr[k], th.phase.id) || WritesUnder(th, tr[k], th.phase.id) || !th.phase.out;
  }

  /** Once a registry has a lock it keeps it: nothing is ever installed over it. */
  lemma {:induction false} LockNeverReplaced(p: Params, tr: seq<Sys>, j: nat, k: nat, r: Reg)
    requires Run(p, tr) && j <= k < |tr| && r in tr[j].table
    ensures r in tr[k].table && tr[k].table[r] == tr[j].table[r]
    decreases k
  {
    if j < k {
      LockNeverReplaced(p, tr, j, k - 1, r);
      assert StepAt(p, tr, k - 1);
      var t :| StepOf(p, tr[k - 1], tr[k], t);
      StepKeepsTable(p, tr[k - 1], tr[k], t, r);
    }
  }

  lemma {:induction false} StepKeepsTable(p: Params, s: Sys, s': Sys, t: Tid, r: Reg)
    requires StepOf(p, s, s', t) && r in s.table
    ensures r in s'.table && s'.table[r] == s.table[r]
  {
  }
}
