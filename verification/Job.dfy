/** The indexing job of one registry: from contract logs to a commit. */
module Job {
  import opened Words
  import opened MerkleSpec
  import opened WriteOrder
  import opened LeafStorage
  import opened Simulation
  import opened Registry

  /** A CertificateProcessed log. */
  datatype Log = Log(block: uint64, removed: bool, leafIndex: nat, leafHash: Word, operation: uint8)

  /** Additions are 0 and revocations 1 in the contract; anything else is refused. */
  predicate Readable(l: Log) {
    l.removed || l.operation <= 1
  }

  predicate AllReadable(logs: seq<Log>) {
    forall k :: 0 <= k < |logs| ==> Readable(logs[k])
  }

  /** The leaf index is cut to 32 bits. */
  function OperationOf(l: Log): LeafOperation {
    LeafOperation(TreeLeaf(l.leafIndex % 0x1_0000_0000, l.leafHash), if l.operation == 0 then ADDITION else REVOCATION)
  }

  /** The operations of the logs in order, removed logs left out. */
  function OpsOf(logs: seq<Log>): (ops: seq<LeafOperation>)
    ensures forall k :: 0 <= k < |ops| ==> Known(ops[k])
  {
    if logs == [] then []
    else if logs[|logs| - 1].removed then OpsOf(logs[..|logs| - 1])
    else OpsOf(logs[..|logs| - 1]) + [OperationOf(logs[|logs| - 1])]
  }

  lemma {:induction false} OpsOfConcat(a: seq<Log>, b: seq<Log>)
    ensures OpsOf(a + b) == OpsOf(a) + OpsOf(b)
  {
    if b == [] {
      assert a + b == a;
    } else {
      OpsOfConcat(a, b[..|b| - 1]);
      assert (a + b)[..|a + b| - 1] == a + b[..|b| - 1];
    }
  }

  // ---------- what logs say ----------

  /** Log `k` is the last one, of those not removed, on the leaf with 32-bit index `i`. */
  predicate LastOnLeaf(logs: seq<Log>, i: nat, k: nat) {
    && k < |logs| && !logs[k].removed && logs[k].leafIndex % 0x1_0000_0000 == i
    && forall j :: k < j < |logs| ==> logs[j].removed || logs[j].leafIndex % 0x1_0000_0000 != i
  }

  predicate NoneOnLeaf(logs: seq<Log>, i: nat) {
    forall j :: 0 <= j < |logs| ==> logs[j].removed || logs[j].leafIndex % 0x1_0000_0000 != i
  }

  /** Log `k` is the last one, of those not removed, with hash `v`. */
  predicate LastWithHash(logs: seq<Log>, v: Word, k: nat) {
    && k < |logs| && !logs[k].removed && logs[k].leafHash == v
    && forall j :: k < j < |logs| ==> logs[j].removed || logs[j].leafHash != v
  }

  predicate NoneWithHash(logs: seq<Log>, v: Word) {
    forall j :: 0 <= j < |logs| ==> logs[j].removed || logs[j].leafHash != v
  }

  /** The words of the leaves: the hash after an addition (0), empty after a revocation (1). */
  lemma {:induction false} LeafTold(p: Params, st: State, logs: seq<Log>, i: nat, k: nat)
    requires LastOnLeaf(logs, i, k)
    ensures var leaves := ApplyAll(p, st, OpsOf(logs)).leaves;
            i in leaves && leaves[i] == if logs[k].operation == 0 then logs[k].leafHash else p.empty
    decreases |logs|
  {
    var front, last := logs[..|logs| - 1], logs[|logs| - 1];
    OpsSnoc(p, st, front, last);
    assert logs == front + [last];
    if k < |front| {
      assert LastOnLeaf(front, i, k);
      LeafTold(p, st, front, i, k);
    }
  }

  lemma {:induction false} LeafUntold(p: Params, st: State, logs: seq<Log>, i: nat)
    requires NoneOnLeaf(logs, i)
    ensures var leaves := ApplyAll(p, st, OpsOf(logs)).leaves;
            (i in leaves <==> i in st.leaves) && (i in leaves ==> leaves[i] == st.leaves[i])
    decreases |logs|
  {
    if logs != [] {
      var front, last := logs[..|logs| - 1], logs[|logs| - 1];
      OpsSnoc(p, st, front, last);
      assert logs == front + [last];
      LeafUntold(p, st, front, i);
    }
  }

  /** The value index: the leaf of the last addition of a hash, and no entry after a revocation. */
  lemma {:induction false} HashTold(p: Params, st: State, logs: seq<Log>, v: Word, k: nat)
    requires LastWithHash(logs, v, k)
    ensures var index := ApplyAll(p, st, OpsOf(logs)).index;
            if logs[k].operation == 0 then v in index && index[v] == logs[k].leafIndex % 0x1_0000_0000 else v !in index
    decreases |logs|
  {
    var front, last := logs[..|logs| - 1], logs[|logs| - 1];
    OpsSnoc(p, st, front, last);
    assert logs == front + [last];
    if k < |front| {
      assert LastWithHash(front, v, k);
      HashTold(p, st, front, v, k);
    }
  }

  lemma {:induction false} HashUntold(p: Params, st: State, logs: seq<Log>, v: Word)
    requires NoneWithHash(logs, v)
    ensures var index := ApplyAll(p, st, OpsOf(logs)).index;
            (v in index <==> v in st.index) && (v in index ==> index[v] == st.index[v])
    decreases |logs|
  {
    if logs != [] {
      var front, last := logs[..|logs| - 1], logs[|logs| - 1];
      OpsSnoc(p, st, front, last);
      assert logs == front + [last];
      HashUntold(p, st, front, v);
    }
  }

  lemma {:induction false} OpsSnoc(p: Params, st: State, front: seq<Log>, last: Log)
    ensures ApplyAll(p, st, OpsOf(front + [last]))
         == if last.removed then ApplyAll(p, st, OpsOf(front))
            else Apply(p, ApplyAll(p, st, OpsOf(front)), OperationOf(last))
  {
    assert (front + [last])[..|front|] == front;
    if !last.removed {
      var ops := OpsOf(front) + [OperationOf(last)];
      assert ops[..|ops| - 1] == OpsOf(front);
    }
  }

  /**
   Store `s'` is store `s` after the logs, in the logs' own terms: every leaf holds the hash of the
   last log on it, or the empty word if that log is a revocation; every hash is found at the leaf
   of its last log, or not at all if that log is a revocation; the rest is as before.
   */
  ghost predicate Told(p: Params, s: Store, s': Store, logs: seq<Log>) {
    && (forall i: nat, k: nat :: LastOnLeaf(logs, i, k) ==>
          Node(0, i) in s'.nodes
          && s'.nodes[Node(0, i)] == if logs[k].operation == 0 then logs[k].leafHash else p.empty)
    && (forall i: nat :: NoneOnLeaf(logs, i) ==>
          (Node(0, i) in s'.nodes <==> Node(0, i) in s.nodes)
          && (Node(0, i) in s'.nodes ==> s'.nodes[Node(0, i)] == s.nodes[Node(0, i)]))
    && (forall v: Word, k: nat :: LastWithHash(logs, v, k) ==>
          if logs[k].operation == 0 then v in s'.index && s'.index[v] == logs[k].leafIndex % 0x1_0000_0000
          else v !in s'.index)
    && (forall v: Word :: NoneWithHash(logs, v) ==>
          (v in s'.index <==> v in s.index) && (v in s'.index ==> s'.index[v] == s.index[v]))
  }

  /** Two states tell the same of the leaves as the nodes do. */
  lemma {:induction false} TellsBy(p: Params, s: Store, s': Store, logs: seq<Log>, leaves: Leaves)
    requires leaves == ApplyAll(p, NOTHING, OpsOf(logs)).leaves
    requires s'.index == ApplyAll(p, State(map[], s.index), OpsOf(logs)).index
    requires forall i: nat :: Node(0, i) in s'.nodes <==> Node(0, i) in s.nodes || i in leaves
    requires forall i: nat :: Node(0, i) in s'.nodes ==>
               s'.nodes[Node(0, i)] == if i in leaves then leaves[i] else s.nodes[Node(0, i)]
    ensures Told(p, s, s', logs)
  {
    forall i: nat, k: nat | LastOnLeaf(logs, i, k)
      ensures i in leaves && leaves[i] == if logs[k].operation == 0 then logs[k].leafHash else p.empty
    {
      LeafTold(p, NOTHING, logs, i, k);
    }
    forall i: nat | NoneOnLeaf(logs, i) ensures i !in leaves {
      LeafUntold(p, NOTHING, logs, i);
    }
    forall v: Word, k: nat | LastWithHash(logs, v, k) ensures
      if logs[k].operation == 0 then v in s'.index && s'.index[v] == logs[k].leafIndex % 0x1_0000_0000
      else v !in s'.index
    {
      HashTold(p, State(map[], s.index), logs, v, k);
    }
    forall v: Word | NoneWithHash(logs, v)
      ensures (v in s'.index <==> v in s.index) && (v in s'.index ==> s'.index[v] == s.index[v])
    {
      HashUntold(p, State(map[], s.index), logs, v);
    }
  }

  /** A commit of the operations of some logs does what the logs say. */
  lemma {:induction false} CommittedTells(p: Params, s: Store, logs: seq<Log>, block: uint64)
    ensures var s' := Committed(p, s, OpsOf(logs), block); Told(p, s, s', logs) && s'.progress == Some(block)
  {
    var ops, s' := OpsOf(logs), Committed(p, s, OpsOf(logs), block);
    var leaves := ApplyAll(p, NOTHING, ops).leaves;
    CommitLeavesLast(p, NOTHING, ops);
    assert NOTHING.leaves + LastWrites(CommitLeaves(p, ops)) == leaves;
    if ops == [] {
      ProgressLast(s, [], block);
    } else {
      ProgressLast(s, CommitBatch(p, Live(s.nodes), ops), block);
      CommitBatchDoes(p, s, ops);
    }
    LeavesOfUpdate(p, Live(s.nodes), leaves);
    TellsBy(p, s, s', logs, leaves);
  }

  lemma {:induction false} LeavesOfUpdate(p: Params, m: Nodes, leaves: Leaves)
    ensures forall i: nat :: Node(0, i) in Updates(p, m, leaves) <==> i in leaves
    ensures forall i: nat :: i in leaves ==> Updates(p, m, leaves)[Node(0, i)] == leaves[i]
  {
  }

  class ZkCertificateRegistryJob {
    const registry: ZKCertificateRegistry

    constructor (registry: ZKCertificateRegistry)
      ensures this.registry == registry
    {
      this.registry := registry;
    }

    method HandleEVMLog(buffer: OperationsBuffer, log: Log) returns (ok: bool)
      modifies buffer
      ensures ok <==> log.removed || log.operation == 0 || log.operation == 1
      ensures log.removed || !ok ==> buffer.buffer == old(buffer.buffer)
      ensures !log.removed && log.operation == 0 ==>
                buffer.buffer == old(buffer.buffer)
                  + [LeafOperation(TreeLeaf(log.leafIndex % 0x1_0000_0000, log.leafHash), ADDITION)]
      ensures !log.removed && log.operation == 1 ==>
                buffer.buffer == old(buffer.buffer)
                  + [LeafOperation(TreeLeaf(log.leafIndex % 0x1_0000_0000, log.leafHash), REVOCATION)]
    {
      if log.removed {
        return true;
      }
      var index := log.leafIndex % 0x1_0000_0000;
      if log.operation == 0 {
        buffer.AppendAddition(index, log.leafHash);
      } else if log.operation == 1 {
        buffer.AppendRevocation(index, log.leafHash);
      } else {
        return false;
      }
      ok := true;
    }

    /** Writes the operations and the block to resume from in one batch, or nothing. */
    method Commit(buffer: OperationsBuffer, block: uint64) returns (ok: bool)
      requires registry.tree.Valid()
      modifies registry.tree, registry.tree.storage
      ensures registry.tree.Valid()
      ensures ok <==> forall k :: 0 <= k < |buffer.buffer| ==> Known(buffer.buffer[k])
      ensures registry.tree.storage.store ==
                if ok then Committed(registry.tree.p, old(registry.tree.storage.store), buffer.buffer, block)
                else old(registry.tree.storage.store)
    {
      var batch := new DbBatch();
      var ops := buffer.buffer;
      if |ops| > 0 {
        ok := registry.CommitOperations(batch, ops);
        if !ok {
          return;
        }
      }
      assert batch.ops ==
             if ops == [] then [] else CommitBatch(registry.tree.p, Live(registry.tree.storage.store.nodes), ops);
      batch.Add(SetProgress(block));
      registry.tree.storage.WriteSync(batch);
      ok := true;
    }

    /** Handles the logs of one range: all of them are committed, or none. */
    method HandleLogs(logs: seq<Log>, progress: uint64) returns (ok: bool)
      requires registry.tree.Valid()
      modifies registry.tree, registry.tree.storage
      ensures registry.tree.Valid()
      ensures ok <==> AllReadable(logs)
      ensures registry.tree.storage.store ==
                if ok then Committed(registry.tree.p, old(registry.tree.storage.store), OpsOf(logs), progress)
                else old(registry.tree.storage.store)
      ensures ok ==> Told(registry.tree.p, old(registry.tree.storage.store), registry.tree.storage.store, logs)
                     && registry.tree.storage.store.progress == Some(progress)
    {
      var buffer := new OperationsBuffer();
      ok := BufferLogs(buffer, logs);
      if ok {
        ok := Commit(buffer, progress);
        CommittedTells(registry.tree.p, old(registry.tree.storage.store), logs, progress);
      }
    }

    /** Collects the operations of the logs, in order, up to the first log that cannot be read. */
    method BufferLogs(buffer: OperationsBuffer, logs: seq<Log>) returns (ok: bool)
      requires buffer.buffer == []
      modifies buffer
      ensures ok <==> AllReadable(logs)
      ensures ok ==> buffer.buffer == OpsOf(logs)
    {
      for k := 0 to |logs|
        invariant buffer.buffer == OpsOf(logs[..k])
        invariant forall j :: 0 <= j < k ==> Readable(logs[j])
      {
        assert logs[..k + 1][..k] == logs[..k];
        ok := HandleEVMLog(buffer, logs[k]);
        if !ok {
          return;
        }
      }
      assert logs[..|logs|] == logs;
      ok := true;
    }
  }
}
