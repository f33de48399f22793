/**
 One flat key-value database holds every registry's nodes and value index, the jobs, the
 registry table and its counter. Here: the byte encodings, and why the flat database
 behaves like separate typed stores.
 */
module Keys {
  import opened Words
  import opened MerkleSpec
  import opened WriteOrder
  import opened LeafStorage
  import opened Simulation
  import opened Registry

  type Bytes = seq<uint8>

  /** A contract address. */
  type Address = a: Bytes | |a| == 20 witness seq(20, i => 0)

  datatype Key =
    | JobKey(address: Address, contract: uint8, startBlock: uint64)
    | NodeKey(reg: uint8, level: uint8, index: uint32)
    | LeafIndexKey(reg: uint8, value: Word)
    | MetadataKey(address: Address)
    | RegistryIndexKey(address: Address)
    | CounterKey

  // ---------- numbers as bytes ----------

  /** Big-endian with a fixed number of bytes. */
  function BigEndian(n: nat, v: nat): (r: Bytes)
    ensures |r| == n
  {
    if n == 0 then [] else BigEndian(n - 1, v / 256) + [v % 256]
  }

  /** Big-endian without leading zeros: zero is the empty string. */
  function Minimal(v: nat): (r: Bytes)
    ensures r == [] <==> v == 0
  {
    if v == 0 then [] else Minimal(v / 256) + [v % 256]
  }

  function Number(b: Bytes): nat {
    if b == [] then 0 else 256 * Number(b[..|b| - 1]) + b[|b| - 1]
  }

  function Pow256(n: nat): nat {
    if n == 0 then 1 else 256 * Pow256(n - 1)
  }

  lemma {:induction false} BigEndianBack(n: nat, v: nat)
    requires v < Pow256(n)
    ensures Number(BigEndian(n, v)) == v
  {
    if n > 0 {
      BigEndianBack(n - 1, v / 256);
      var b := BigEndian(n, v);
      assert b[..|b| - 1] == BigEndian(n - 1, v / 256);
    }
  }

  lemma {:induction false} MinimalBack(v: nat)
    ensures Number(Minimal(v)) == v
  {
    if v > 0 {
      MinimalBack(v / 256);
      var b := Minimal(v);
      assert b[..|b| - 1] == Minimal(v / 256);
    }
  }

  lemma {:induction false} Widths()
    ensures Pow256(4) == 0x1_0000_0000 && Pow256(8) == 0x1_0000_0000_0000_0000 && Pow256(32) == WORD_LIMIT
  {
    assert Pow256(4) == 0x1_0000_0000;
    assert Pow256(8) == 0x1_0000_0000_0000_0000 by {
      assert Pow256(6) == 0x1_0000_0000_0000;
    }
    Pow256Sum(8, 8);
    Pow256Sum(16, 16);
  }

  lemma {:induction false} Pow256Sum(a: nat, b: nat)
    ensures Pow256(a + b) == Pow256(a) * Pow256(b)
  {
    if a > 0 {
      Pow256Sum(a - 1, b);
      assert Pow256(a + b) == 256 * (Pow256(a - 1) * Pow256(b));
    }
  }

  // ---------- keys ----------

  function Encode(k: Key): Bytes {
    match k
    case JobKey(address, contract, startBlock) => [0] + address + [contract] + BigEndian(8, startBlock)
    case NodeKey(reg, level, index) => [1, reg, level] + BigEndian(4, index)
    case LeafIndexKey(reg, value) => [2, reg] + BigEndian(32, value)
    case MetadataKey(address) => [3] + address
    case RegistryIndexKey(address) => [4] + address
    case CounterKey => [5]
  }

  /** Different keys never collide, within a kind or across kinds. */
  lemma {:induction false} EncodeInjective(a: Key, b: Key)
    requires Encode(a) == Encode(b)
    ensures a == b
  {
    var x, y := Encode(a), Encode(b);
    Widths();
    assert x[0] == y[0];
    match a {
      case JobKey(address, contract, startBlock) =>
        assert x[1..21] == address && y[1..21] == b.address;
        assert x[21] == contract && y[21] == b.contract;
        assert x[22..] == BigEndian(8, startBlock) && y[22..] == BigEndian(8, b.startBlock);
        BigEndianBack(8, startBlock);
        BigEndianBack(8, b.startBlock);
      case NodeKey(reg, level, index) =>
        assert x[1] == y[1] && x[2] == y[2];
        assert x[3..] == BigEndian(4, index) && y[3..] == BigEndian(4, b.index);
        BigEndianBack(4, index);
        BigEndianBack(4, b.index);
      case LeafIndexKey(reg, value) =>
        assert x[1] == y[1];
        assert x[2..] == BigEndian(32, value) && y[2..] == BigEndian(32, b.value);
        BigEndianBack(32, value);
        BigEndianBack(32, b.value);
      case MetadataKey(address) =>
        assert x[1..] == address && y[1..] == b.address;
      case RegistryIndexKey(address) =>
        assert x[1..] == address && y[1..] == b.address;
      case CounterKey =>
    }
  }

  /** The keys byte by byte: a node ... */
  lemma {:induction false} NodeKeyLayout(reg: uint8, level: uint8, index: uint32)
    ensures var x := Encode(NodeKey(reg, level, index));
            && |x| == 7 && x[0] == 1 && x[1] == reg && x[2] == level
            && 0x100_0000 * (x[3] as nat) + 0x1_0000 * (x[4] as nat) + 0x100 * (x[5] as nat) + (x[6] as nat) == index
  {
    BigEndianFour(index);
    var x, b := Encode(NodeKey(reg, level, index)), BigEndian(4, index);
    assert x[3] == b[0] && x[4] == b[1] && x[5] == b[2] && x[6] == b[3];
  }

  /** ... a value of a registry's index ... */
  lemma {:induction false} IndexKeyLayout(reg: uint8, value: Word)
    ensures var x := Encode(LeafIndexKey(reg, value));
            |x| == 34 && x[0] == 2 && x[1] == reg && Number(x[2..]) == value
  {
    Widths();
    BigEndianBack(32, value);
    assert Encode(LeafIndexKey(reg, value))[2..] == BigEndian(32, value);
  }

  /** ... a job, and the keys that hold an address or nothing. */
  lemma {:induction false} JobKeyLayout(address: Address, contract: uint8, startBlock: uint64)
    ensures var x := Encode(JobKey(address, contract, startBlock));
            |x| == 30 && x[0] == 0 && x[1..21] == address && x[21] == contract && Number(x[22..]) == startBlock
    ensures Encode(MetadataKey(address)) == [3] + address && Encode(RegistryIndexKey(address)) == [4] + address
    ensures Encode(CounterKey) == [5]
  {
    Widths();
    BigEndianBack(8, startBlock);
    InThree(0, address, contract, BigEndian(8, startBlock));
  }

  lemma {:induction false} InThree(kind: uint8, address: Address, contract: uint8, rest: Bytes)
    ensures var x := [kind] + address + [contract] + rest;
            && |x| == 22 + |rest| && x[0] == kind && x[1..21] == address && x[21] == contract
            && x[22..] == rest
  {
  }

  lemma {:induction false} BigEndianFour(v: uint32)
    ensures var b := BigEndian(4, v);
            0x100_0000 * (b[0] as nat) + 0x1_0000 * (b[1] as nat) + 0x100 * (b[2] as nat) + (b[3] as nat) == v
  {
    var v1, v2, v3 := v / 256, v / 256 / 256, v / 256 / 256 / 256;
    assert BigEndian(1, v3) == [v3 % 256];
    assert BigEndian(2, v2) == [v3 % 256, v2 % 256];
    assert BigEndian(3, v1) == [v3 % 256, v2 % 256, v1 % 256];
    assert BigEndian(4, v) == [v3 % 256, v2 % 256, v1 % 256, v % 256];
  }

  // ---------- the simulation's text keys ----------

  function Digit(d: nat): char
    requires d < 10
  {
    '0' + d as char
  }

  function Decimal(n: nat): (r: string)
    ensures |r| > 0
  {
    if n < 10 then [Digit(n)] else Decimal(n / 10) + [Digit(n % 10)]
  }

  function SimKey(level: uint8, index: uint32): string {
    Decimal(level) + ":" + Decimal(index)
  }

  lemma {:induction false} DecimalDigits(n: nat, k: nat)
    requires k < |Decimal(n)|
    ensures Decimal(n)[k] != ':'
  {
    if n >= 10 && k < |Decimal(n)| - 1 {
      DecimalDigits(n / 10, k);
    }
  }

  lemma {:induction false} DecimalInjective(m: nat, n: nat)
    requires Decimal(m) == Decimal(n)
    ensures m == n
  {
    var a, b := Decimal(m), Decimal(n);
    assert a[|a| - 1] == b[|b| - 1];
    assert a[|a| - 1] == Digit(m % 10) && b[|b| - 1] == Digit(n % 10);
    if m >= 10 && n >= 10 {
      assert a[..|a| - 1] == Decimal(m / 10) && b[..|b| - 1] == Decimal(n / 10);
      DecimalInjective(m / 10, n / 10);
    }
  }

  /** A text key has its colon right after the level, and nowhere before. */
  lemma {:induction false} ColonAfterLevel(level: uint8, index: uint32, j: nat)
    requires j < |SimKey(level, index)| && SimKey(level, index)[j] == ':'
    ensures |Decimal(level)| <= j
  {
    forall k: nat | k < |Decimal(level)| ensures SimKey(level, index)[k] != ':' {
      DecimalDigits(level, k);
    }
  }

  lemma {:induction false} SimKeyInjective(l: uint8, i: uint32, l': uint8, i': uint32)
    requires SimKey(l, i) == SimKey(l', i')
    ensures l == l' && i == i'
  {
    var a, b, x := Decimal(l), Decimal(l'), SimKey(l, i);
    assert x[|a|] == ':' && x[|b|] == ':';
    ColonAfterLevel(l, i, |b|);
    ColonAfterLevel(l', i', |a|);
    assert x[..|a|] == a && x[..|b|] == b;
    assert x[|a| + 1..] == Decimal(i) && x[|b| + 1..] == Decimal(i');
    DecimalInjective(l, l');
    DecimalInjective(i, i');
  }

  // ---------- the flat database ----------

  type Flat = map<Bytes, Bytes>

  function Get(flat: Flat, k: Key): Bytes {
    if Encode(k) in flat then flat[Encode(k)] else []
  }

  /** A leaf index is stored in 34 bytes, of which the first four count. */
  function IndexBytes(i: uint32): Bytes {
    BigEndian(4, i) + seq(30, k => 0)
  }

  function FlatNode(flat: Flat, r: uint8, level: uint8, index: uint32): Option<nat> {
    var b := Get(flat, NodeKey(r, level, index));
    if b == [] then None else Some(Number(b))
  }

  function FlatIndex(flat: Flat, r: uint8, v: Word): Result<Option<nat>, Bytes> {
    var b := Get(flat, LeafIndexKey(r, v));
    if b == [] then Success(None) else if |b| != 34 then Failure(b) else Success(Some(Number(b[..4])))
  }

  /** The database operation of registry `r` and job `job` as bytes; `record` encodes a job record. */
  function FlatOp(flat: Flat, r: uint8, job: Key, record: uint64 -> Bytes, op: DbOp): Flat
    requires InRange(op)
  {
    match op
    case SetNode(w) => flat[Encode(NodeKey(r, w.node.level, w.node.index)) := Minimal(w.word)]
    case SetIndex(v, i) => flat[Encode(LeafIndexKey(r, v)) := IndexBytes(i)]
    case DeleteIndex(v) => flat - {Encode(LeafIndexKey(r, v))}
    case SetProgress(b) => flat[Encode(job) := record(b)]
  }

  predicate InRange(op: DbOp) {
    op.SetNode? ==> op.write.node.level < 0x100 && op.write.node.index < 0x1_0000_0000
  }

  function FlatBatch(flat: Flat, r: uint8, job: Key, record: uint64 -> Bytes, ops: seq<DbOp>): Flat
    requires forall k :: 0 <= k < |ops| ==> InRange(ops[k])
  {
    if ops == [] then flat
    else FlatOp(FlatBatch(flat, r, job, record, ops[..|ops| - 1]), r, job, record, ops[|ops| - 1])
  }

  /** The flat database shows, to registry `r` and its job, exactly the typed store. */
  ghost predicate Shows(flat: Flat, r: uint8, job: Key, record: uint64 -> Bytes, s: Store) {
    && (forall level: uint8, index: uint32 :: NodeShown(flat, r, s, level, index))
    && (forall v: Word :: IndexShown(flat, r, s, v))
    && ProgressShown(flat, job, record, s)
  }

  ghost predicate ProgressShown(flat: Flat, job: Key, record: uint64 -> Bytes, s: Store) {
    match s.progress
    case None => Encode(job) !in flat
    case Some(block) => Encode(job) in flat && flat[Encode(job)] == record(block)
  }

  ghost predicate NodeShown(flat: Flat, r: uint8, s: Store, level: uint8, index: uint32) {
    match Lookup(s.nodes, Node(level, index))
    case None => FlatNode(flat, r, level, index) == None
    case Some(w) => FlatNode(flat, r, level, index) == Some(w as nat)
  }

  ghost predicate IndexShown(flat: Flat, r: uint8, s: Store, v: Word) {
    FlatIndex(flat, r, v) == Success(if v in s.index then Some(s.index[v] as nat) else None)
  }

  /** What a commit for registry `r` and job `job` may write. */
  predicate Owned(k: Key, r: uint8, job: Key) {
    (k.NodeKey? && k.reg == r) || (k.LeafIndexKey? && k.reg == r) || k == job
  }

  predicate SameAt(a: Flat, b: Flat, k: Key) {
    && (Encode(k) in a <==> Encode(k) in b)
    && (Encode(k) in a ==> a[Encode(k)] == b[Encode(k)])
  }

  lemma {:induction false} FlatOpFrame(flat: Flat, r: uint8, job: Key, record: uint64 -> Bytes, op: DbOp, k: Key)
    requires InRange(op) && !Owned(k, r, job)
    ensures SameAt(FlatOp(flat, r, job, record, op), flat, k)
  {
    var written := match op
      case SetNode(w) => NodeKey(r, w.node.level, w.node.index)
      case SetIndex(v, _) => LeafIndexKey(r, v)
      case DeleteIndex(v) => LeafIndexKey(r, v)
      case SetProgress(_) => job;
    if Encode(k) == Encode(written) {
      EncodeInjective(k, written);
    }
  }

  lemma {:induction false} IndexBytesBack(i: uint32)
    ensures |IndexBytes(i)| == 34 && Number(IndexBytes(i)[..4]) == i
  {
    Widths();
    BigEndianBack(4, i);
    assert IndexBytes(i)[..4] == BigEndian(4, i);
  }

  lemma {:induction false} FlatOpNode(flat: Flat, r: uint8, job: Key, record: uint64 -> Bytes, s: Store, op: DbOp,
                                      level: uint8, index: uint32)
    requires InRange(op) && job.JobKey? && NodeShown(flat, r, s, level, index)
    ensures NodeShown(FlatOp(flat, r, job, record, op), r, ApplyOp(s, op), level, index)
  {
    var k := NodeKey(r, level, index);
    match op {
      case SetNode(w) =>
        MinimalBack(w.word);
        var written := NodeKey(r, w.node.level, w.node.index);
        if Encode(k) == Encode(written) {
          EncodeInjective(k, written);
        }
      case SetIndex(v, _) =>
        assert Encode(k)[0] != Encode(LeafIndexKey(r, v))[0];
      case DeleteIndex(v) =>
        assert Encode(k)[0] != Encode(LeafIndexKey(r, v))[0];
      case SetProgress(_) =>
        assert Encode(k)[0] != Encode(job)[0];
    }
  }

  lemma {:induction false} FlatOpIndex(flat: Flat, r: uint8, job: Key, record: uint64 -> Bytes, s: Store, op: DbOp,
                                       v: Word)
    requires InRange(op) && job.JobKey? && IndexShown(flat, r, s, v)
    ensures IndexShown(FlatOp(flat, r, job, record, op), r, ApplyOp(s, op), v)
  {
    var k := LeafIndexKey(r, v);
    match op {
      case SetNode(w) =>
        assert Encode(k)[0] != Encode(NodeKey(r, w.node.level, w.node.index))[0];
      case SetIndex(u, i) =>
        IndexBytesBack(i);
        if Encode(k) == Encode(LeafIndexKey(r, u)) {
          EncodeInjective(k, LeafIndexKey(r, u));
        }
      case DeleteIndex(u) =>
        if Encode(k) == Encode(LeafIndexKey(r, u)) {
          EncodeInjective(k, LeafIndexKey(r, u));
        }
      case SetProgress(_) =>
        assert Encode(k)[0] != Encode(job)[0];
    }
  }

  lemma {:induction false} FlatOpProgress(flat: Flat, r: uint8, job: Key, record: uint64 -> Bytes, s: Store, op: DbOp)
    requires InRange(op) && job.JobKey? && ProgressShown(flat, job, record, s)
    ensures ProgressShown(FlatOp(flat, r, job, record, op), job, record, ApplyOp(s, op))
  {
    match op {
      case SetNode(w) =>
        assert Encode(job)[0] != Encode(NodeKey(r, w.node.level, w.node.index))[0];
      case SetIndex(v, _) =>
        assert Encode(job)[0] != Encode(LeafIndexKey(r, v))[0];
      case DeleteIndex(v) =>
        assert Encode(job)[0] != Encode(LeafIndexKey(r, v))[0];
      case SetProgress(_) =>
    }
  }

  lemma {:induction false} FlatOpShows(flat: Flat, r: uint8, job: Key, record: uint64 -> Bytes, s: Store, op: DbOp)
    requires InRange(op) && job.JobKey? && Shows(flat, r, job, record, s)
    ensures Shows(FlatOp(flat, r, job, record, op), r, job, record, ApplyOp(s, op))
  {
    forall level: uint8, index: uint32
      ensures NodeShown(FlatOp(flat, r, job, record, op), r, ApplyOp(s, op), level, index)
    {
      FlatOpNode(flat, r, job, record, s, op, level, index);
    }
    forall v: Word ensures IndexShown(FlatOp(flat, r, job, record, op), r, ApplyOp(s, op), v) {
      FlatOpIndex(flat, r, job, record, s, op, v);
    }
    FlatOpProgress(flat, r, job, record, s, op);
  }

  /**
   The flat database refines the typed stores: writing a batch of registry `r` does to the
   bytes what it does to that registry's typed store, resume block included, and changes no
   key of another registry, another job, the metadata or the registry table.
   */
  lemma {:induction false} FlatBatchRefines(flat: Flat, r: uint8, job: Key, record: uint64 -> Bytes, s: Store,
                                            ops: seq<DbOp>)
    requires job.JobKey? && Shows(flat, r, job, record, s) && forall k :: 0 <= k < |ops| ==> InRange(ops[k])
    ensures Shows(FlatBatch(flat, r, job, record, ops), r, job, record, ApplyBatch(s, ops))
    ensures forall k :: !Owned(k, r, job) ==> SameAt(FlatBatch(flat, r, job, record, ops), flat, k)
    decreases |ops|
  {
    if ops != [] {
      var front, op := ops[..|ops| - 1], ops[|ops| - 1];
      FlatBatchRefines(flat, r, job, record, s, front);
      var flat', s' := FlatBatch(flat, r, job, record, front), ApplyBatch(s, front);
      FlatOpShows(flat', r, job, record, s', op);
      forall k | !Owned(k, r, job) ensures SameAt(FlatOp(flat', r, job, record, op), flat, k) {
        FlatOpFrame(flat', r, job, record, op, k);
      }
    }
  }

  /** In particular, other registries and their jobs keep showing what they showed. */
  lemma {:induction false} OtherRegistriesKeep(flat: Flat, r: uint8, job: Key, record: uint64 -> Bytes, s: Store,
                                               ops: seq<DbOp>, q: uint8, job': Key, other: Store)
    requires job.JobKey? && Shows(flat, r, job, record, s) && forall k :: 0 <= k < |ops| ==> InRange(ops[k])
    requires q != r && job'.JobKey? && job' != job && Shows(flat, q, job', record, other)
    ensures Shows(FlatBatch(flat, r, job, record, ops), q, job', record, other)
  {
    FlatBatchRefines(flat, r, job, record, s, ops);
    var flat' := FlatBatch(flat, r, job, record, ops);
    assert SameAt(flat', flat, job');
    forall level: uint8, index: uint32 ensures NodeShown(flat', q, other, level, index) {
      assert SameAt(flat', flat, NodeKey(q, level, index));
      assert NodeShown(flat, q, other, level, index);
    }
    forall v: Word ensures IndexShown(flat', q, other, v) {
      assert SameAt(flat', flat, LeafIndexKey(q, v));
      assert IndexShown(flat, q, other, v);
    }
  }

  lemma {:induction false} LayerInRange(s: seq<nat>, level: nat)
    requires forall k :: 0 <= k < |s| ==> s[k] < 0x1_0000_0000
    ensures forall k :: 0 <= k < |Layer(s, level)| ==> Layer(s, level)[k] < 0x1_0000_0000
  {
    if level > 0 {
      LayerInRange(s, level - 1);
      forall k | 0 <= k < |Layer(s, level)| ensures Layer(s, level)[k] < 0x1_0000_0000 {
        ParentsSound(Layer(s, level - 1), Layer(s, level)[k]);
      }
    }
  }

  /** The writes go to nodes up to a level, with 32-bit indices. */
  ghost predicate Fit(writes: seq<NodeWrite>, level: nat) {
    forall k :: 0 <= k < |writes| ==> writes[k].node.level <= level && writes[k].node.index < 0x1_0000_0000
  }

  lemma {:induction false} InsertInRange(p: Params, m: Nodes, leaves: seq<TreeLeaf>, level: nat)
    ensures Fit(InsertWrites(p, m, leaves, level), level)
  {
    if level > 0 {
      InsertInRange(p, m, leaves, level - 1);
      LayerInRange(Indices(leaves), level);
      var top := NextWritten(p, m, leaves, level);
      FitNext(InsertWrites(p, m, leaves, level - 1), top, Layer(Indices(leaves), level), level);
    }
  }

  lemma {:induction false} FitNext(below: seq<NodeWrite>, top: seq<NodeWrite>, layer: seq<nat>, level: nat)
    requires level > 0 && Fit(below, level - 1) && WritesTo(top, level, layer)
    requires forall k :: 0 <= k < |layer| ==> layer[k] < 0x1_0000_0000
    ensures Fit(below + top, level)
  {
  }

  /** Every commit of a tree of depth up to 32 fits the keys. */
  lemma {:induction false} CommitInRange(p: Params, m: Nodes, ops: seq<LeafOperation>)
    requires p.depth <= 32
    ensures forall k :: 0 <= k < |CommitBatch(p, m, ops)| ==> InRange(CommitBatch(p, m, ops)[k])
  {
    var writes := InsertWrites(p, m, CommitLeaves(p, ops), p.depth);
    InsertInRange(p, m, CommitLeaves(p, ops), p.depth);
    assert forall k :: 0 <= k < |writes| ==> InRange(NodeOps(writes)[k]);
  }
}
