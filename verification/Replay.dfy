/**
 Every run of one registry's job: ranges committed in order, logs drained from a
 subscription, crashes at any moment, restarts from the stored block (which is read again,
 inclusively), and jobs stopped with their progress deleted.
 */
module Replay {
  import opened Words
  import opened MerkleSpec
  import opened LeafStorage
  import opened Simulation
  import opened Registry
  import opened Job

  // ---------- operations overwrite cells ----------

  /** What an operation can change: a leaf slot, or an entry of the value index. */
  datatype Cell = Slot(i: nat) | Entry(v: Word)

  function Content(st: State, c: Cell): Option<nat> {
    match c
    case Slot(i) => if i in st.leaves then Some(st.leaves[i]) else None
    case Entry(v) => if v in st.index then Some(st.index[v]) else None
  }

  predicate Writes(o: LeafOperation, c: Cell) {
    c == Slot(o.leaf.index) || c == Entry(o.leaf.value)
  }

  predicate WrittenIn(ops: seq<LeafOperation>, c: Cell) {
    exists k :: 0 <= k < |ops| && Writes(ops[k], c)
  }

  ghost predicate SameContent(a: State, b: State) {
    forall c :: Content(a, c) == Content(b, c)
  }

  lemma {:induction false} SameContentIsSame(a: State, b: State)
    requires SameContent(a, b)
    ensures a == b
  {
    forall i ensures i in a.leaves <==> i in b.leaves
      ensures i in a.leaves ==> a.leaves[i] == b.leaves[i]
    {
      assert Content(a, Slot(i)) == Content(b, Slot(i));
    }
    forall v ensures v in a.index <==> v in b.index
      ensures v in a.index ==> a.index[v] == b.index[v]
    {
      assert Content(a, Entry(v)) == Content(b, Entry(v));
    }
    assert a.leaves == b.leaves && a.index == b.index;
  }

  lemma {:induction false} Untouched(p: Params, st: State, ops: seq<LeafOperation>, c: Cell)
    requires !WrittenIn(ops, c)
    ensures Content(ApplyAll(p, st, ops), c) == Content(st, c)
  {
    if ops != [] {
      var front := ops[..|ops| - 1];
      assert !Writes(ops[|ops| - 1], c);
      assert forall k :: 0 <= k < |front| ==> front[k] == ops[k];
      Untouched(p, st, front, c);
    }
  }

  /** What a list of operations leaves in a cell it writes does not depend on where it started. */
  lemma {:induction false} Overwritten(p: Params, a: State, b: State, ops: seq<LeafOperation>, c: Cell)
    requires WrittenIn(ops, c)
    ensures Content(ApplyAll(p, a, ops), c) == Content(ApplyAll(p, b, ops), c)
  {
    var front := ops[..|ops| - 1];
    if !Writes(ops[|ops| - 1], c) {
      var k :| 0 <= k < |ops| && Writes(ops[k], c);
      assert front[k] == ops[k];
      Overwritten(p, a, b, front, c);
    }
  }

  lemma {:induction false} WrittenInConcat(a: seq<LeafOperation>, b: seq<LeafOperation>, c: Cell)
    ensures WrittenIn(a + b, c) <==> WrittenIn(a, c) || WrittenIn(b, c)
  {
    if k :| 0 <= k < |a| && Writes(a[k], c) {
      assert (a + b)[k] == a[k];
    }
    if k :| 0 <= k < |b| && Writes(b[k], c) {
      assert (a + b)[|a| + k] == b[k];
    }
  }

  // ---------- the log ----------

  ghost predicate Sorted(log: seq<Log>) {
    forall j, k :: 0 <= j < k < |log| ==> log[j].block <= log[k].block
  }

  /** How many logs come before block `b`. */
  function Below(log: seq<Log>, b: nat): (n: nat)
    ensures n <= |log|
  {
    if log == [] then 0
    else Below(log[..|log| - 1], b) + if log[|log| - 1].block < b then 1 else 0
  }

  lemma {:induction false} BelowSplits(log: seq<Log>, b: nat, k: nat)
    requires Sorted(log) && k < |log|
    ensures log[k].block < b <==> k < Below(log, b)
  {
    var front := log[..|log| - 1];
    if k < |front| {
      BelowSplits(front, b, k);
      assert log[k].block <= log[|log| - 1].block;
    } else if |front| > 0 {
      BelowSplits(front, b, |front| - 1);
      assert log[|front| - 1].block <= log[|front|].block;
    }
  }

  lemma {:induction false} BelowGrows(log: seq<Log>, a: nat, b: nat)
    requires a <= b
    ensures Below(log, a) <= Below(log, b)
  {
    if log != [] {
      BelowGrows(log[..|log| - 1], a, b);
    }
  }

  /** What the node answers for a block range: the logs in it, in order. */
  function Filter(log: seq<Log>, from: nat, to: nat): seq<Log> {
    if log == [] then []
    else if from <= log[|log| - 1].block <= to then Filter(log[..|log| - 1], from, to) + [log[|log| - 1]]
    else Filter(log[..|log| - 1], from, to)
  }

  lemma {:induction false} FilterConcat(a: seq<Log>, b: seq<Log>, from: nat, to: nat)
    ensures Filter(a + b, from, to) == Filter(a, from, to) + Filter(b, from, to)
  {
    if b == [] {
      assert a + b == a;
    } else {
      FilterConcat(a, b[..|b| - 1], from, to);
      assert (a + b)[..|a + b| - 1] == a + b[..|b| - 1];
    }
  }

  lemma {:induction false} FilterAll(logs: seq<Log>, from: nat, to: nat)
    requires forall k :: 0 <= k < |logs| ==> from <= logs[k].block <= to
    ensures Filter(logs, from, to) == logs
  {
    if logs != [] {
      FilterAll(logs[..|logs| - 1], from, to);
    }
  }

  lemma {:induction false} FilterNone(logs: seq<Log>, from: nat, to: nat)
    requires forall k :: 0 <= k < |logs| ==> !(from <= logs[k].block <= to)
    ensures Filter(logs, from, to) == []
  {
    if logs != [] {
      FilterNone(logs[..|logs| - 1], from, to);
    }
  }

  lemma {:induction false} FilterIsSlice(log: seq<Log>, from: nat, to: nat)
    requires Sorted(log) && from <= to + 1
    ensures Below(log, from) <= Below(log, to + 1)
    ensures Filter(log, from, to) == log[Below(log, from)..Below(log, to + 1)]
  {
    BelowGrows(log, from, to + 1);
    forall k | 0 <= k < |log| ensures from <= log[k].block <= to <==> Below(log, from) <= k < Below(log, to + 1) {
      BelowSplits(log, from, k);
      BelowSplits(log, to + 1, k);
    }
    FilterCut(log, Below(log, from), Below(log, to + 1), from, to);
  }

  lemma {:induction false} FilterCut(log: seq<Log>, a: nat, b: nat, from: nat, to: nat)
    requires a <= b <= |log| && forall k :: 0 <= k < |log| ==> (from <= log[k].block <= to <==> a <= k < b)
    ensures Filter(log, from, to) == log[a..b]
  {
    var upper := log[..b];
    FilterNone(log[b..], from, to);
    FilterConcat(upper, log[b..], from, to);
    assert log == upper + log[b..];
    FilterTail(upper, a, from, to);
    assert upper[a..] == log[a..b];
  }

  lemma {:induction false} FilterTail(log: seq<Log>, a: nat, from: nat, to: nat)
    requires a <= |log| && forall k :: 0 <= k < |log| ==> (from <= log[k].block <= to <==> a <= k)
    ensures Filter(log, from, to) == log[a..]
  {
    FilterNone(log[..a], from, to);
    FilterAll(log[a..], from, to);
    FilterConcat(log[..a], log[a..], from, to);
    assert log == log[..a] + log[a..];
  }

  // ---------- runs ----------

  /** The job in memory. `Sink(from)` handles subscription logs from block `from` on. */
  datatype Memory = Down | History(from: nat) | Sink(from: nat)

  /**
   `done` counts the logs handled since the last restart, from the beginning of the log;
   `top` is the most that was ever handled; `st` is the state the store represents.
   */
  datatype World = World(store: Store, memory: Memory, done: nat, top: nat, st: State)

  datatype Setting = Setting(p: Params, log: seq<Log>, startBlock: uint64)

  ghost predicate Assumed(e: Setting) {
    && Sorted(e.log) && AllReadBack(e.p, OpsOf(e.log))
    && (forall k :: 0 <= k < |e.log| ==> e.startBlock <= e.log[k].block)
  }

  ghost predicate Initial(w: World) {
    w == World(Store(map[], map[], None), Down, 0, 0, NOTHING)
  }

  function Max(a: nat, b: nat): nat {
    if a < b then b else a
  }

  /** The job starts from its stored block if there is one, from the start block otherwise. */
  ghost predicate Start(e: Setting, w: World, w': World) {
    var from: nat := if w.store.progress.Some? then w.store.progress.value else e.startBlock;
    w.memory == Down && w' == w.(memory := History(from), done := Below(e.log, from))
  }

  /** A range is fetched, handled and committed; a log that cannot be read would have stopped the job. */
  ghost predicate CommitRange(e: Setting, w: World, w': World, to: uint64) {
    && w.memory.History? && w.memory.from <= to
    && var logs := Filter(e.log, w.memory.from, to);
       && AllReadable(logs)
       && w' == World(Committed(e.p, w.store, OpsOf(logs), to), History(to + 1), Below(e.log, to + 1),
                      Max(w.top, Below(e.log, to + 1)), ApplyAll(e.p, w.st, OpsOf(logs)))
  }

  ghost predicate Switch(e: Setting, w: World, w': World) {
    w.memory.History? && w' == w.(memory := Sink(w.memory.from))
  }

  /**
   The subscription hands over some logs from before `from`, which are dropped, and then the
   next `n` logs; `block` is the block of the last log handed over, even of a dropped one.
   */
  ghost predicate HandedOver(e: Setting, from: nat, done: nat, stale: seq<Log>, n: nat, block: uint64) {
    && done + n <= |e.log|
    && (forall k :: 0 <= k < |stale| ==> e.startBlock <= stale[k].block < from)
    && var read := stale + e.log[done..done + n];
       read != [] && block == read[|read| - 1].block
  }

  ghost predicate CommitSink(e: Setting, w: World, w': World, stale: seq<Log>, n: nat, block: uint64) {
    && w.memory.Sink? && HandedOver(e, w.memory.from, w.done, stale, n, block)
    && AllReadable(e.log[w.done..w.done + n])
    && var ops := OpsOf(e.log[w.done..w.done + n]);
       w' == World(Committed(e.p, w.store, ops, block), w.memory, w.done + n, Max(w.top, w.done + n),
                   ApplyAll(e.p, w.st, ops))
  }

  ghost predicate Crash(w: World, w': World) {
    w' == w.(memory := Down)
  }

  /** The job is stopped and its progress deleted; the tree stays. */
  ghost predicate Stop(w: World, w': World) {
    w' == w.(memory := Down, store := w.store.(progress := None))
  }

  ghost predicate PollStep(e: Setting, w: World, w': World) {
    Start(e, w, w') || (exists to :: CommitRange(e, w, w', to)) || Crash(w, w')
  }

  ghost predicate Step(e: Setting, w: World, w': World) {
    || PollStep(e, w, w') || Switch(e, w, w')
    || (exists stale, n, block :: CommitSink(e, w, w', stale, n, block)) || Stop(w, w')
  }

  ghost predicate StepAt(e: Setting, tr: seq<World>, k: nat)
    requires k + 1 < |tr|
  {
    Step(e, tr[k], tr[k + 1])
  }

  ghost predicate PollStepAt(e: Setting, tr: seq<World>, k: nat)
    requires k + 1 < |tr|
  {
    PollStep(e, tr[k], tr[k + 1])
  }

  ghost predicate Run(e: Setting, tr: seq<World>) {
    && tr != [] && Initial(tr[0])
    && forall k: nat :: k + 1 < |tr| ==> StepAt(e, tr, k)
  }

  ghost predicate PollRun(e: Setting, tr: seq<World>) {
    && tr != [] && Initial(tr[0])
    && forall k: nat :: k + 1 < |tr| ==> PollStepAt(e, tr, k)
  }

  // ---------- what every step keeps ----------

  /** The in-order fold of the first `n` logs. */
  function Direct(e: Setting, n: nat): State
    requires n <= |e.log|
  {
    ApplyAll(e.p, NOTHING, OpsOf(e.log[..n]))
  }

  /** Where the logs between `done` and `top` do not reach, the state is the fold up to `done`. */
  ghost predicate Settled(e: Setting, st: State, done: nat, top: nat)
    requires done <= top <= |e.log|
  {
    forall c :: !WrittenIn(OpsOf(e.log[done..top]), c) ==> Content(st, c) == Content(Direct(e, done), c)
  }

  ghost predicate Inv(e: Setting, w: World) {
    && w.done <= w.top <= |e.log|
    && Represents(e.p, w.store, w.st) && MadeOf(e.p, OpsOf(e.log), w.st.leaves)
    && Settled(e, w.st, w.done, w.top)
    && (w.memory.History? ==> e.startBlock <= w.memory.from && w.done == Below(e.log, w.memory.from))
    && (w.memory.Sink? ==> e.startBlock <= w.memory.from && Below(e.log, w.memory.from) <= w.done)
    && (w.store.progress.Some? ==>
          e.startBlock <= w.store.progress.value && Below(e.log, w.store.progress.value) <= w.done)
  }

  lemma {:induction false} DirectExtends(e: Setting, a: nat, b: nat)
    requires a <= b <= |e.log|
    ensures Direct(e, b) == ApplyAll(e.p, Direct(e, a), OpsOf(e.log[a..b]))
  {
    assert e.log[..b] == e.log[..a] + e.log[a..b];
    OpsOfConcat(e.log[..a], e.log[a..b]);
    ApplyAllConcat(e.p, NOTHING, OpsOf(e.log[..a]), OpsOf(e.log[a..b]));
  }

  lemma {:induction false} WrittenBetween(e: Setting, a: nat, b: nat, d: nat, c: Cell)
    requires a <= b <= d <= |e.log|
    ensures WrittenIn(OpsOf(e.log[a..d]), c) <==> WrittenIn(OpsOf(e.log[a..b]), c) || WrittenIn(OpsOf(e.log[b..d]), c)
  {
    assert e.log[a..d] == e.log[a..b] + e.log[b..d];
    OpsOfConcat(e.log[a..b], e.log[b..d]);
    WrittenInConcat(OpsOf(e.log[a..b]), OpsOf(e.log[b..d]), c);
  }

  /** Going back to an earlier position keeps the state settled. */
  lemma {:induction false} SettledBack(e: Setting, st: State, done: nat, top: nat, back: nat)
    requires back <= done <= top <= |e.log| && Settled(e, st, done, top)
    ensures Settled(e, st, back, top)
  {
    forall c | !WrittenIn(OpsOf(e.log[back..top]), c) ensures Content(st, c) == Content(Direct(e, back), c) {
      WrittenBetween(e, back, done, top, c);
      DirectExtends(e, back, done);
      Untouched(e.p, Direct(e, back), OpsOf(e.log[back..done]), c);
    }
  }

  /** Handling the next logs, for the first time or again, keeps it settled further on. */
  lemma {:induction false} SettledForth(e: Setting, st: State, done: nat, top: nat, next: nat)
    requires done <= top <= |e.log| && done <= next <= |e.log| && Settled(e, st, done, top)
    ensures Settled(e, ApplyAll(e.p, st, OpsOf(e.log[done..next])), next, Max(top, next))
  {
    var ops, top' := OpsOf(e.log[done..next]), Max(top, next);
    DirectExtends(e, done, next);
    forall c | !WrittenIn(OpsOf(e.log[next..top']), c)
      ensures Content(ApplyAll(e.p, st, ops), c) == Content(Direct(e, next), c)
    {
      if WrittenIn(ops, c) {
        Overwritten(e.p, st, Direct(e, done), ops, c);
      } else {
        Untouched(e.p, st, ops, c);
        Untouched(e.p, Direct(e, done), ops, c);
        WrittenBetween(e, done, next, top', c);
        WrittenBetween(e, done, top, top', c);
      }
    }
  }

  lemma {:induction false} StoreReadsBack(e: Setting, w: World)
    requires AllReadBack(e.p, OpsOf(e.log))
    requires Represents(e.p, w.store, w.st) && MadeOf(e.p, OpsOf(e.log), w.st.leaves)
    ensures ReadsBack(e.p, w.store.nodes) && Consistent(e.p, Live(w.store.nodes))
    ensures Root(e.p, Live(w.store.nodes)) == SpecNode(e.p, w.st.leaves, e.p.depth, 0)
  {
    RepresentsReads(e.p, w.store, w.st);
  }

  /** Once replay has caught up, nothing of the detour is left. */
  lemma {:induction false} SettledIsExact(e: Setting, st: State, n: nat)
    requires n <= |e.log| && Settled(e, st, n, n)
    ensures st == Direct(e, n)
  {
    assert e.log[n..n] == [];
    forall c ensures Content(st, c) == Content(Direct(e, n), c) {
      assert !WrittenIn([], c);
    }
    SameContentIsSame(st, Direct(e, n));
  }

  lemma {:induction false} SliceOfLog(log: seq<Log>, a: nat, b: nat)
    requires a <= b <= |log|
    ensures forall o :: o in OpsOf(log[a..b]) ==> o in OpsOf(log)
  {
    assert log == (log[..a] + log[a..b]) + log[b..];
    OpsOfConcat(log[..a] + log[a..b], log[b..]);
    OpsOfConcat(log[..a], log[a..b]);
  }

  /** The shared part of both commits: the next logs are handled and `block` is stored. */
  lemma {:induction false} CommitKeeps(e: Setting, w: World, next: nat, block: uint64, ops: seq<LeafOperation>,
                                       store': Store, st': State)
    requires Assumed(e) && Inv(e, w) && w.done <= next <= |e.log| && ops == OpsOf(e.log[w.done..next])
    requires store' == Committed(e.p, w.store, ops, block) && st' == ApplyAll(e.p, w.st, ops)
    ensures Represents(e.p, store', st') && store'.progress == Some(block)
    ensures MadeOf(e.p, OpsOf(e.log), st'.leaves) && Settled(e, st', next, Max(w.top, next))
  {
    CommitRepresents(e.p, w.store, w.st, ops, block);
    SliceOfLog(e.log, w.done, next);
    MadeOfKept(e.p, OpsOf(e.log), w.st, ops);
    SettledForth(e, w.st, w.done, w.top, next);
  }

  /** What a commit of the next logs leaves is again in order. */
  lemma {:induction false} CommittedInv(e: Setting, w: World, w': World, next: nat, block: uint64)
    requires Inv(e, w) && w.done <= next <= |e.log| && w'.done == next && w'.top == Max(w.top, next)
    requires Represents(e.p, w'.store, w'.st) && MadeOf(e.p, OpsOf(e.log), w'.st.leaves)
    requires Settled(e, w'.st, next, w'.top)
    requires w'.store.progress == Some(block) && e.startBlock <= block && Below(e.log, block) <= next
    requires w'.memory.History? ==> e.startBlock <= w'.memory.from && next == Below(e.log, w'.memory.from)
    requires w'.memory.Sink? ==> e.startBlock <= w'.memory.from && Below(e.log, w'.memory.from) <= next
    ensures Inv(e, w')
  {
  }

  lemma {:induction false} NextInv(e: Setting, w: World, w': World, next: nat, block: uint64, ops: seq<LeafOperation>)
    requires Assumed(e) && Inv(e, w) && w.done <= next <= |e.log| && ops == OpsOf(e.log[w.done..next])
    requires w'.store == Committed(e.p, w.store, ops, block) && w'.st == ApplyAll(e.p, w.st, ops)
    requires w'.done == next && w'.top == Max(w.top, next)
    requires e.startBlock <= block && Below(e.log, block) <= next
    requires w'.memory.History? ==> e.startBlock <= w'.memory.from && next == Below(e.log, w'.memory.from)
    requires w'.memory.Sink? ==> e.startBlock <= w'.memory.from && Below(e.log, w'.memory.from) <= next
    ensures Inv(e, w') && w'.store.progress == Some(block)
  {
    CommitKeeps(e, w, next, block, ops, w'.store, w'.st);
    CommittedInv(e, w, w', next, block);
  }

  lemma {:induction false} RangeKeeps(e: Setting, w: World, w': World, to: uint64)
    requires Assumed(e) && Inv(e, w) && CommitRange(e, w, w', to)
    ensures Inv(e, w') && w'.store.progress == Some(to)
  {
    FilterIsSlice(e.log, w.memory.from, to);
    BelowGrows(e.log, to, to + 1);
    NextInv(e, w, w', Below(e.log, to + 1), to, OpsOf(Filter(e.log, w.memory.from, to)));
  }

  /** No log lies before the start block. */
  lemma {:induction false} StartIsFirst(e: Setting)
    requires Assumed(e)
    ensures Below(e.log, e.startBlock) == 0
  {
    if Below(e.log, e.startBlock) > 0 {
      BelowSplits(e.log, e.startBlock, 0);
    }
  }

  lemma {:induction false} SinkKeeps(e: Setting, w: World, w': World, stale: seq<Log>, n: nat, block: uint64)
    requires Assumed(e) && Inv(e, w) && CommitSink(e, w, w', stale, n, block)
    ensures Inv(e, w')
  {
    SinkLags(e, w.memory.from, w.done, stale, n, block);
    NextInv(e, w, w', w.done + n, block, OpsOf(e.log[w.done..w.done + n]));
  }

  /** The block a sink commit stores may lag, but never lies beyond what was handled. */
  lemma {:induction false} SinkLags(e: Setting, from: nat, done: nat, stale: seq<Log>, n: nat, block: uint64)
    requires Assumed(e) && Below(e.log, from) <= done && HandedOver(e, from, done, stale, n, block)
    ensures e.startBlock <= block && Below(e.log, block) <= done + n
  {
    if n > 0 {
      assert block == e.log[done + n - 1].block;
      BelowSplits(e.log, block, done + n - 1);
    } else {
      BelowGrows(e.log, block, from);
    }
  }

  lemma {:induction false} StepKeeps(e: Setting, w: World, w': World)
    requires Assumed(e) && Inv(e, w) && Step(e, w, w')
    ensures Inv(e, w')
  {
    if to: uint64 :| CommitRange(e, w, w', to) {
      RangeKeeps(e, w, w', to);
    } else if stale, n: nat, block: uint64 :| CommitSink(e, w, w', stale, n, block) {
      SinkKeeps(e, w, w', stale, n, block);
    } else if Start(e, w, w') {
      StartIsFirst(e);
      SettledBack(e, w.st, w.done, w.top, w'.done);
    }
  }

  lemma {:induction false} InitialInv(e: Setting, w: World)
    requires Initial(w)
    ensures Inv(e, w)
  {
    UpdatesNone(e.p, map[]);
    assert e.log[..0] == [];
  }

  lemma {:induction false} RunInv(e: Setting, tr: seq<World>, k: nat)
    requires Assumed(e) && Run(e, tr) && k < |tr|
    ensures Inv(e, tr[k])
  {
    if k == 0 {
      InitialInv(e, tr[0]);
    } else {
      RunInv(e, tr, k - 1);
      assert StepAt(e, tr, k - 1);
      StepKeeps(e, tr[k - 1], tr[k]);
    }
  }

  // ---------- the theorems ----------

  /**
   Suffix absorption: in any run, with any number of crashes, replays, lagging stored blocks
   and stops, whenever the job has again handled as much as was ever handled, the whole
   store is the direct fold of the logs up to that point.
   */
  lemma {:induction false} CaughtUpIsExact(e: Setting, tr: seq<World>, k: nat)
    requires Assumed(e) && Run(e, tr) && k < |tr| && tr[k].done == tr[k].top
    ensures tr[k].done <= |e.log| && Represents(e.p, tr[k].store, Direct(e, tr[k].done))
    ensures Consistent(e.p, Live(tr[k].store.nodes))
    ensures Root(e.p, Live(tr[k].store.nodes)) == SpecNode(e.p, Direct(e, tr[k].done).leaves, e.p.depth, 0)
  {
    RunInv(e, tr, k);
    SettledIsExact(e, tr[k].st, tr[k].done);
    StoreReadsBack(e, tr[k]);
  }

  /** In poll mode the stored block and the store always move together. */
  ghost predicate PollInv(e: Setting, w: World) {
    && Inv(e, w) && !w.memory.Sink?
    && w.st == Direct(e, w.top)
    && (w.store.progress.Some? ==> w.top == Below(e.log, w.store.progress.value + 1))
    && (w.store.progress.None? ==> w.top == 0)
    && (w.memory.History? ==> w.store.progress.Some? ==> w.store.progress.value <= w.memory.from)
  }

  lemma {:induction false} PollStepKeeps(e: Setting, w: World, w': World)
    requires Assumed(e) && PollInv(e, w) && PollStep(e, w, w')
    ensures PollInv(e, w')
  {
    StepKeeps(e, w, w');
    if to: uint64 :| CommitRange(e, w, w', to) {
      RangeKeeps(e, w, w', to);
      PollRangeKeeps(e, w, w', w.memory.from, to);
    } else if Start(e, w, w') {
      PollStartKeeps(e, w, w');
    }
  }

  lemma {:induction false} PollStartKeeps(e: Setting, w: World, w': World)
    requires PollInv(e, w) && Start(e, w, w') && Inv(e, w')
    ensures PollInv(e, w')
  {
  }

  /** After a range, nothing lies beyond what is handled: the store is exact again. */
  lemma {:induction false} PollRangeKeeps(e: Setting, w: World, w': World, from: nat, to: uint64)
    requires PollInv(e, w) && w.memory == History(from) && from <= to
    requires Inv(e, w') && w'.memory == History(to + 1) && w'.store.progress == Some(to)
    requires w'.done == Below(e.log, to + 1) && w'.top == Max(w.top, w'.done)
    ensures PollInv(e, w')
  {
    if w.store.progress.Some? {
      BelowGrows(e.log, w.store.progress.value + 1, to + 1);
    }
    CaughtUp(e, w');
  }

  lemma {:induction false} CaughtUp(e: Setting, w: World)
    requires w.done == w.top <= |e.log| && Settled(e, w.st, w.done, w.top)
    ensures w.st == Direct(e, w.top)
  {
    SettledIsExact(e, w.st, w.done);
  }

  lemma {:induction false} PollRunInv(e: Setting, tr: seq<World>, k: nat)
    requires Assumed(e) && PollRun(e, tr) && k < |tr|
    ensures PollInv(e, tr[k])
  {
    if k == 0 {
      InitialInv(e, tr[0]);
      assert e.log[..0] == [];
    } else {
      PollRunInv(e, tr, k - 1);
      assert PollStepAt(e, tr, k - 1);
      PollStepKeeps(e, tr[k - 1], tr[k]);
    }
  }

  /** The logs of all blocks up to `b` are the first ones, so their fold is the direct one. */
  lemma {:induction false} FilterIsDirect(e: Setting, b: nat)
    requires Assumed(e) && e.startBlock <= b
    ensures ApplyAll(e.p, NOTHING, OpsOf(Filter(e.log, e.startBlock, b))) == Direct(e, Below(e.log, b + 1))
  {
    FilterIsSlice(e.log, e.startBlock, b);
    StartIsFirst(e);
    assert e.log[0..Below(e.log, b + 1)] == e.log[..Below(e.log, b + 1)];
  }

  /**
   Crash safety in poll mode: whenever the stored block is b, whatever crashed and restarted
   before, leaves, inner nodes and value index are the direct in-order fold of all logs of
   blocks startBlock..b.
   */
  lemma {:induction false} StoredBlockIsExact(e: Setting, tr: seq<World>, k: nat)
    requires Assumed(e) && PollRun(e, tr) && k < |tr| && tr[k].store.progress.Some?
    ensures var b := tr[k].store.progress.value;
            Represents(e.p, tr[k].store, ApplyAll(e.p, NOTHING, OpsOf(Filter(e.log, e.startBlock, b))))
    ensures ReadsBack(e.p, tr[k].store.nodes) && Consistent(e.p, Live(tr[k].store.nodes))
  {
    PollRunInv(e, tr, k);
    PollExact(e, tr[k]);
  }

  lemma {:induction false} PollExact(e: Setting, w: World)
    requires Assumed(e) && PollInv(e, w) && w.store.progress.Some?
    ensures Represents(e.p, w.store, ApplyAll(e.p, NOTHING, OpsOf(Filter(e.log, e.startBlock, w.store.progress.value))))
    ensures ReadsBack(e.p, w.store.nodes) && Consistent(e.p, Live(w.store.nodes))
  {
    ExactAt(e, w, w.store.progress.value, w.st);
  }

  lemma {:induction false} ExactAt(e: Setting, w: World, b: nat, st: State)
    requires Assumed(e) && e.startBlock <= b && st == w.st == Direct(e, Below(e.log, b + 1))
    requires Represents(e.p, w.store, st) && MadeOf(e.p, OpsOf(e.log), st.leaves)
    ensures Represents(e.p, w.store, ApplyAll(e.p, NOTHING, OpsOf(Filter(e.log, e.startBlock, b))))
    ensures ReadsBack(e.p, w.store.nodes) && Consistent(e.p, Live(w.store.nodes))
  {
    FilterIsDirect(e, b);
    StoreReadsBack(e, w);
  }

  lemma {:induction false} OpsPrefix(log: seq<Log>, n: nat)
    requires n <= |log|
    ensures OpsOf(log[..n]) <= OpsOf(log)
  {
    assert log == log[..n] + log[n..];
    OpsOfConcat(log[..n], log[n..]);
  }

  lemma {:induction false} LegalIsInverse(e: Setting, n: nat)
    requires LegalLog(e.p, NOTHING, OpsOf(e.log)) && n <= |e.log|
    ensures Inverse(e.p, Direct(e, n))
  {
    var all, ops := OpsOf(e.log), OpsOf(e.log[..n]);
    OpsPrefix(e.log, n);
    InverseUpTo(e.p, NOTHING, all, |ops|);
    assert all[..|ops|] == ops;
  }

  /**
   What callers of the service see: in every poll run over a legal log, whenever block b is
   stored, a certificate is found exactly when the logs up to b leave it in a leaf, and the proof
   that is given carries it and verifies under the reference root of those logs.
   */
  lemma {:induction false} StoredBlockAnswers(e: Setting, tr: seq<World>, k: nat, v: Word)
    requires Assumed(e) && LegalLog(e.p, NOTHING, OpsOf(e.log))
    requires PollRun(e, tr) && k < |tr| && tr[k].store.progress.Some?
    ensures var b := tr[k].store.progress.value;
            Answers(e.p, tr[k].store, ApplyAll(e.p, NOTHING, OpsOf(Filter(e.log, e.startBlock, b))), v)
  {
    var b: nat := tr[k].store.progress.value;
    StoredBlockIsExact(e, tr, k);
    PollRunInv(e, tr, k);
    FilterIsDirect(e, b);
    LegalIsInverse(e, Below(e.log, b + 1));
    LookupProves(e.p, tr[k].store, Direct(e, Below(e.log, b + 1)), v);
  }

  /** Nothing stored. */
  const EMPTY_STORE: Store := Store(map[], map[], None)

  /**
   The same in the logs' own terms: whenever block b is stored, every leaf reads as the last log on
   it up to b says, and every hash is found exactly where its last log up to b put it.
   */
  lemma {:induction false} StoredBlockTells(e: Setting, tr: seq<World>, k: nat)
    requires Assumed(e) && PollRun(e, tr) && k < |tr| && tr[k].store.progress.Some?
    ensures var s := tr[k].store;
            var logs := Filter(e.log, e.startBlock, s.progress.value);
            && (forall i: nat, j: nat :: LastOnLeaf(logs, i, j) ==>
                  Read(e.p, Live(s.nodes), Node(0, i))
                  == if logs[j].operation == 0 then logs[j].leafHash else e.p.empty)
            && (forall i: nat :: NoneOnLeaf(logs, i) ==> Read(e.p, Live(s.nodes), Node(0, i)) == e.p.empty)
            && (forall v: Word, j: nat :: LastWithHash(logs, v, j) ==>
                  if logs[j].operation == 0 then v in s.index && s.index[v] == logs[j].leafIndex % 0x1_0000_0000
                  else v !in s.index)
            && (forall v: Word :: NoneWithHash(logs, v) ==> v !in s.index)
  {
    var s := tr[k].store;
    var logs := Filter(e.log, e.startBlock, s.progress.value);
    StoredBlockIsExact(e, tr, k);
    ReadsTell(e.p, s, logs);
  }

  lemma {:induction false} ReadsTell(p: Params, s: Store, logs: seq<Log>)
    requires Represents(p, s, ApplyAll(p, NOTHING, OpsOf(logs))) && ReadsBack(p, s.nodes)
    ensures forall i: nat, j: nat :: LastOnLeaf(logs, i, j) ==>
              Read(p, Live(s.nodes), Node(0, i)) == if logs[j].operation == 0 then logs[j].leafHash else p.empty
    ensures forall i: nat :: NoneOnLeaf(logs, i) ==> Read(p, Live(s.nodes), Node(0, i)) == p.empty
    ensures forall v: Word, j: nat :: LastWithHash(logs, v, j) ==>
              if logs[j].operation == 0 then v in s.index && s.index[v] == logs[j].leafIndex % 0x1_0000_0000
              else v !in s.index
    ensures forall v: Word :: NoneWithHash(logs, v) ==> v !in s.index
  {
    var leaves := ApplyAll(p, NOTHING, OpsOf(logs)).leaves;
    LeavesOfUpdate(p, map[], leaves);
    TellsBy(p, EMPTY_STORE, s, logs, leaves);
    RepresentsReads(p, s, ApplyAll(p, NOTHING, OpsOf(logs)));
    forall i: nat ensures Read(p, Live(s.nodes), Node(0, i)) == if i in leaves then leaves[i] else p.empty {
      assert Read(p, Live(s.nodes), Node(0, i)) == LeafAt(p, leaves, i);
    }
    forall i: nat | NoneOnLeaf(logs, i) ensures i !in leaves {
      assert Node(0, i) !in EMPTY_STORE.nodes;
    }
  }
}
