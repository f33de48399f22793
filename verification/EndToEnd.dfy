/** From the block-range loop to the stored tree: what the loop commits continues a run of the job. */
module EndToEnd {
  import opened Words
  import opened MerkleSpec
  import opened LeafStorage
  import opened Job
  import opened Replay
  import opened Indexer
  import Registry

  ghost function Last(tr: seq<World>): World
    requires tr != []
  {
    tr[|tr| - 1]
  }

  lemma {:induction false} RangeExtends(e: Setting, tr: seq<World>, to: uint64) returns (longer: seq<World>)
    requires PollRun(e, tr) && Last(tr).memory.History? && Last(tr).memory.from <= to
    requires AllReadable(Filter(e.log, Last(tr).memory.from, to))
    ensures PollRun(e, longer) && tr <= longer && |longer| == |tr| + 1
    ensures CommitRange(e, Last(tr), Last(longer), to)
  {
    var w := Last(tr);
    var ops := OpsOf(Filter(e.log, w.memory.from, to));
    var w' := World(Registry.Committed(e.p, w.store, ops, to), History(to + 1), Below(e.log, to + 1),
                    Max(w.top, Below(e.log, to + 1)), Registry.ApplyAll(e.p, w.st, ops));
    assert CommitRange(e, w, w', to);
    longer := tr + [w'];
    forall k: nat | k + 1 < |longer| ensures PollStepAt(e, longer, k) {
      assert k + 1 < |tr| ==> PollStepAt(e, tr, k);
    }
  }

  /** Every range of a trace was handled, as its commit says: all its logs could be read. */
  ghost predicate Handled(e: Setting, trace: seq<Event>) {
    forall k :: 0 <= k < |trace| && trace[k].Range? ==> AllReadable(Filter(e.log, trace[k].from, trace[k].to))
  }

  /** The ranges of a trace, handled in order, continue any run that has come to where the trace starts. */
  lemma {:induction false} TraceIsRun(e: Setting, tr: seq<World>, start: nat, d: nat, trace: seq<Event>)
    returns (longer: seq<World>)
    requires PollRun(e, tr) && Last(tr).memory == History(start)
    requires Tiles(start, d, trace) && Reached(start, trace) < TWO_64 && Handled(e, trace)
    ensures PollRun(e, longer) && tr <= longer && |longer| == |tr| + Ranges(trace)
    ensures Last(longer).memory == History(Reached(start, trace))
    ensures Ranges(trace) > 0 ==> Last(longer).store.progress == Some(Reached(start, trace) - 1)
    decreases |trace|
  {
    longer := tr;
    if trace != [] {
      var n, front := |trace| - 1, trace[..|trace| - 1];
      TilesFront(start, d, trace);
      ReachedGrows(start, d, trace, n);
      forall k | 0 <= k < |front| && front[k].Range? ensures AllReadable(Filter(e.log, front[k].from, front[k].to)) {
        assert front[k] == trace[k];
      }
      longer := TraceIsRun(e, tr, start, d, front);
      if trace[n].Range? {
        assert trace[n].from == Reached(start, front);
        var before := Last(longer);
        longer := RangeExtends(e, longer, trace[n].to);
        RangeStores(e, before, Last(longer), trace[n].to);
      }
    }
  }

  lemma {:induction false} RangeStores(e: Setting, w: World, w': World, to: uint64)
    requires CommitRange(e, w, w', to)
    ensures w'.store.progress == Some(to)
  {
    var ops := OpsOf(Filter(e.log, w.memory.from, to));
    Registry.ProgressLast(w.store, if ops == [] then [] else Registry.CommitBatch(e.p, Live(w.store.nodes), ops), to);
  }

  /**
   End to end in poll mode: whatever crashed and restarted before, and whatever the node answers
   to the loop, after its commits the stored leaves, inner nodes and value index are the direct
   in-order fold of the logs of all blocks before `next`.
   */
  lemma {:induction false} IndexedIsExact(e: Setting, tr: seq<World>, c: Config, start: nat, replies: seq<Reply>,
                                          next: uint64, head: nat, used: nat, trace: seq<Event>)
    returns (longer: seq<World>)
    requires Assumed(e) && PollRun(e, tr) && Last(tr).memory == History(start)
    requires LoopOk(c, start, replies, next, head, used, trace) && NoWrap(c, replies) && Handled(e, trace)
    ensures PollRun(e, longer) && tr <= longer && |longer| == |tr| + Commits(replies[..used])
    ensures Commits(replies[..used]) > 0 ==>
              && next > 0
              && Registry.Represents(e.p, Last(longer).store,
                                     Registry.ApplyAll(e.p, Registry.NOTHING,
                                                       OpsOf(Filter(e.log, e.startBlock, next - 1))))
              && Consistent(e.p, Live(Last(longer).store.nodes))
  {
    longer := TraceIsRun(e, tr, start, Distance(c), trace);
    if Commits(replies[..used]) > 0 {
      ExactBefore(e, longer, next);
    }
  }

  lemma {:induction false} ExactBefore(e: Setting, tr: seq<World>, next: uint64)
    requires Assumed(e) && PollRun(e, tr) && next > 0 && Last(tr).store.progress == Some(next - 1)
    ensures Registry.Represents(e.p, Last(tr).store,
                                Registry.ApplyAll(e.p, Registry.NOTHING, OpsOf(Filter(e.log, e.startBlock, next - 1))))
    ensures Consistent(e.p, Live(Last(tr).store.nodes))
  {
    StoredBlockIsExact(e, tr, |tr| - 1);
  }
}
