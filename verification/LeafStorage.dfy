/**
 The stored state of one registry, the database batch that changes it, and the overlays
 that read their own writes.

 A node word is stored as its minimal big-endian bytes, so the zero word is an empty byte
 string, and an empty byte string reads as "not found". `Lookup` and `Live` keep that.
 */
module LeafStorage {
  import opened Words
  import opened MerkleSpec
  import opened WriteOrder

  /** Tree nodes, the value -> leaf index table, and the block to resume from. */
  datatype Store = Store(nodes: Nodes, index: map<Word, uint32>, progress: Option<uint64>)

  datatype DbOp =
    | SetNode(write: NodeWrite)
    | SetIndex(value: Word, at: uint32)
    | DeleteIndex(value: Word)
    | SetProgress(block: uint64)

  function ApplyOp(s: Store, op: DbOp): Store {
    match op
    case SetNode(w) => s.(nodes := s.nodes[w.node := w.word])
    case SetIndex(v, i) => s.(index := s.index[v := i])
    case DeleteIndex(v) => s.(index := s.index - {v})
    case SetProgress(b) => s.(progress := Some(b))
  }

  /** Writing a batch: its operations, in order. */
  function ApplyBatch(s: Store, ops: seq<DbOp>): Store {
    if ops == [] then s else ApplyOp(ApplyBatch(s, ops[..|ops| - 1]), ops[|ops| - 1])
  }

  function NodeOps(writes: seq<NodeWrite>): (r: seq<DbOp>)
    ensures |r| == |writes|
  {
    seq(|writes|, k requires 0 <= k < |writes| => SetNode(writes[k]))
  }

  lemma {:induction false} ApplyBatchConcat(s: Store, a: seq<DbOp>, b: seq<DbOp>)
    ensures ApplyBatch(s, a + b) == ApplyBatch(ApplyBatch(s, a), b)
  {
    if b == [] {
      assert a + b == a;
    } else {
      ApplyBatchConcat(s, a, b[..|b| - 1]);
      assert (a + b)[..|a + b| - 1] == a + b[..|b| - 1];
    }
  }

  lemma {:induction false} ApplyBatchSnoc(s: Store, ops: seq<DbOp>, op: DbOp)
    ensures ApplyBatch(s, ops + [op]) == ApplyOp(ApplyBatch(s, ops), op)
  {
    assert (ops + [op])[..|ops|] == ops;
  }

  /** One more write, as it changes the nodes and the batch. */
  lemma {:induction false} WritesSnoc(writes: seq<NodeWrite>, write: NodeWrite)
    ensures WrittenBy(writes + [write]) == WrittenBy(writes)[write.node := write.word]
    ensures NodeOps(writes + [write]) == NodeOps(writes) + [SetNode(write)]
  {
    assert (writes + [write])[..|writes|] == writes;
  }

  lemma {:induction false} AddedLast(m: Nodes, w: Nodes, write: NodeWrite)
    ensures (m + w)[write.node := write.word] == m + w[write.node := write.word]
  {
  }

  lemma {:induction false} ApplyNodeOps(s: Store, writes: seq<NodeWrite>)
    ensures ApplyBatch(s, NodeOps(writes)) == s.(nodes := s.nodes + WrittenBy(writes))
  {
    if writes == [] {
      assert s.nodes + WrittenBy(writes) == s.nodes;
    } else {
      var front, last := writes[..|writes| - 1], writes[|writes| - 1];
      ApplyNodeOps(s, front);
      ApplyNodeOpsSnoc(s, front, last);
      assert writes == front + [last];
    }
  }

  lemma {:induction false} ApplyNodeOpsSnoc(s: Store, front: seq<NodeWrite>, last: NodeWrite)
    requires ApplyBatch(s, NodeOps(front)) == s.(nodes := s.nodes + WrittenBy(front))
    ensures ApplyBatch(s, NodeOps(front + [last])) == s.(nodes := s.nodes + WrittenBy(front + [last]))
  {
    WritesSnoc(front, last);
    ApplyBatchSnoc(s, NodeOps(front), SetNode(last));
    AddedLast(s.nodes, WrittenBy(front), last);
  }

  // ---------- reading words back ----------

  function Lookup(nodes: Nodes, n: Node): Option<Word> {
    if n in nodes && nodes[n] != 0 then Some(nodes[n]) else None
  }

  /** The nodes a reader of the database finds. */
  function Live(nodes: Nodes): Nodes {
    map n | n in nodes && nodes[n] != 0 :: nodes[n]
  }

  /** No word is lost by storing it: a stored zero stands only where the empty branch is zero anyway. */
  ghost predicate ReadsBack(p: Params, nodes: Nodes) {
    forall n :: n in nodes && nodes[n] == 0 ==> EmptyAt(p, n.level) == 0
  }

  /**
   After an overlay is written out, the database reads like the overlay did exactly when
   every word of the overlay reads back.
   */
  lemma {:induction false} FlushKeepsReads(p: Params, stored: Nodes, buffer: Nodes)
    ensures SameReads(p, Live(stored + buffer), Live(stored) + buffer) <==> ReadsBack(p, buffer)
  {
    var after, overlay := Live(stored + buffer), Live(stored) + buffer;
    forall n ensures Read(p, after, n) == Read(p, overlay, n)
                 <==> (n in buffer && buffer[n] == 0 ==> EmptyAt(p, n.level) == 0)
    {
    }
    if SameReads(p, after, overlay) {
      forall n | n in buffer && buffer[n] == 0 ensures EmptyAt(p, n.level) == 0 {
        assert Read(p, after, n) == Read(p, overlay, n);
      }
    }
  }

  lemma {:induction false} ReadsBackIsLive(p: Params, nodes: Nodes)
    ensures ReadsBack(p, nodes) <==> SameReads(p, Live(nodes), nodes)
  {
    FlushKeepsReads(p, map[], nodes);
    var none: Nodes := map[];
    assert none + nodes == nodes && Live(none) + nodes == nodes;
  }

  // ---------- the objects ----------

  class Database {
    var store: Store

    constructor ()
      ensures store == Store(map[], map[], None)
    {
      store := Store(map[], map[], None);
    }

    method GetLeaf(level: uint8, index: uint32) returns (r: Option<Word>)
      ensures r.Some? <==> Node(level, index) in store.nodes && store.nodes[Node(level, index)] != 0
      ensures r.Some? ==> r.value == store.nodes[Node(level, index)]
    {
      r := Lookup(store.nodes, Node(level, index));
    }

    method GetLeafIndex(value: Word) returns (r: Option<uint32>)
      ensures r.Some? <==> value in store.index
      ensures r.Some? ==> r.value == store.index[value]
    {
      if value in store.index {
        r := Some(store.index[value]);
      } else {
        r := None;
      }
    }

    /** The batch is written as one atomic step. */
    method WriteSync(batch: DbBatch)
      modifies this
      ensures store == ApplyBatch(old(store), batch.ops)
    {
      store := ApplyBatch(store, batch.ops);
    }
  }

  class DbBatch {
    var ops: seq<DbOp>

    constructor ()
      ensures ops == []
    {
      ops := [];
    }

    method Add(op: DbOp)
      modifies this
      ensures ops == old(ops) + [op]
    {
      ops := ops + [op];
    }
  }

  /**
   What the tree reads and writes while it updates: the commit buffer, which sends every
   write on to a database batch and knows only its own writes, or the simulation buffer,
   which writes nowhere and falls through to the database.
   */
  class NodeBatch {
    const sink: DbBatch?
    const through: Database?
    var buffer: Nodes

    constructor Commit(batch: DbBatch)
      ensures sink == batch && through == null && buffer == map[]
    {
      sink, through, buffer := batch, null, map[];
    }

    constructor Simulation(storage: Database)
      ensures sink == null && through == storage && buffer == map[]
    {
      sink, through, buffer := null, storage, map[];
    }

    method SetLeaf(level: uint8, index: uint32, value: Word)
      modifies this, sink
      ensures buffer == old(buffer)[Node(level, index) := value]
      ensures sink != null ==> sink.ops == old(sink.ops) + [SetNode(NodeWrite(Node(level, index), value))]
    {
      buffer := buffer[Node(level, index) := value];
      if sink != null {
        sink.Add(SetNode(NodeWrite(Node(level, index), value)));
      }
    }

    method GetLeaf(level: uint8, index: uint32) returns (r: Option<Word>)
      ensures r == if Node(level, index) in buffer then Some(buffer[Node(level, index)])
                   else if through != null then Lookup(through.store.nodes, Node(level, index))
                   else None
    {
      if Node(level, index) in buffer {
        r := Some(buffer[Node(level, index)]);
      } else if through != null {
        r := through.GetLeaf(level, index);
      } else {
        r := None;
      }
    }
  }
}
