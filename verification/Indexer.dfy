/** The block-range loop of the indexer, in poll and subscription mode, and the hand-off filter of the subscription. */
module Indexer {
  import opened Words
  import opened Job
  import opened Replay

  const TWO_64: nat := 0x1_0000_0000_0000_0000
  const DEFAULT_DISTANCE: uint64 := 10000

  datatype Mode = Poll | Ws | Unknown

  datatype Config = Config(maxBlocksDistance: uint64, mode: Mode)

  /** A distance of zero means the default. */
  function Distance(c: Config): (d: uint64)
    ensures d > 0
  {
    if c.maxBlocksDistance == 0 then DEFAULT_DISTANCE else c.maxBlocksDistance
  }

  /** What the outside answers, call by call: a head block, a range fetched and committed, or a failure. */
  datatype Reply = Head(block: uint64) | Committed | Failed

  datatype Event = HistoryMode | Range(from: nat, to: nat) | OnHead | SinkMode(from: nat)

  datatype Outcome = Stopped | StartBeyondHead | UnknownMode | Subscribed

  /** A 64-bit sum: what overflows wraps around. */
  function Wrap(x: nat): uint64
    requires x < 2 * TWO_64
  {
    if x < TWO_64 then x else x - TWO_64
  }

  /** The end of the next range. */
  function RangeEnd(c: Config, from: uint64, head: uint64): uint64 {
    var end := Wrap(from + Distance(c) - 1);
    if end < head then end else head
  }

  /** The next range is nonempty exactly when its end does not overflow. */
  lemma {:induction false} RangeEndExactly(c: Config, from: uint64, head: uint64)
    requires from <= head
    ensures from <= RangeEnd(c, from, head) <==> from + Distance(c) - 1 < TWO_64
    ensures from + Distance(c) - 1 < TWO_64 ==>
              RangeEnd(c, from, head) <= head && RangeEnd(c, from, head) - from < Distance(c)
  {
  }

  /** With a distance near 2^64 the next range ends before it begins. */
  lemma {:induction false} RangeEndWraps()
    ensures RangeEnd(Config(0xFFFF_FFFF_FFFF_FFFF, Poll), 2, 5) == 0
  {
  }

  // ---------- what a trace covers ----------

  /** The first block not covered by the ranges of a trace that began at `start`. */
  function Reached(start: nat, trace: seq<Event>): nat {
    if trace == [] then start
    else if trace[|trace| - 1].Range? then trace[|trace| - 1].to + 1
    else Reached(start, trace[..|trace| - 1])
  }

  /** Every range begins where the ones before it end, is nonempty, and is at most `d` blocks long. */
  ghost predicate Tiles(start: nat, d: nat, trace: seq<Event>) {
    forall k :: 0 <= k < |trace| && trace[k].Range? ==>
      trace[k].from == Reached(start, trace[..k]) && trace[k].from <= trace[k].to < trace[k].from + d
  }

  predicate Covers(e: Event, b: nat) {
    e.Range? && e.from <= b <= e.to
  }

  lemma {:induction false} TilesSnoc(start: nat, d: nat, trace: seq<Event>, e: Event)
    requires Tiles(start, d, trace)
    requires e.Range? ==> e.from == Reached(start, trace) && e.from <= e.to < e.from + d
    ensures Tiles(start, d, trace + [e])
    ensures Reached(start, trace + [e]) == if e.Range? then e.to + 1 else Reached(start, trace)
  {
    var longer := trace + [e];
    assert longer[..|trace|] == trace;
    forall k | 0 <= k < |longer| && longer[k].Range?
      ensures longer[k].from == Reached(start, longer[..k]) && longer[k].from <= longer[k].to < longer[k].from + d
    {
      assert longer[..k] == trace[..k];
    }
  }

  lemma {:induction false} ReachedGrows(start: nat, d: nat, trace: seq<Event>, k: nat)
    requires Tiles(start, d, trace) && k <= |trace|
    ensures start <= Reached(start, trace[..k]) <= Reached(start, trace)
    decreases |trace|
  {
    if trace != [] {
      var front := trace[..|trace| - 1];
      TilesFront(start, d, trace);
      ReachedGrows(start, d, front, if k < |trace| then k else k - 1);
      assert k < |trace| ==> front[..k] == trace[..k];
      assert k == |trace| ==> trace[..k] == trace && front[..k - 1] == front;
      if trace[|trace| - 1].Range? {
        assert trace[|trace| - 1].from == Reached(start, trace[..|trace| - 1]);
      }
    } else {
      assert trace[..k] == [];
    }
  }

  lemma {:induction false} TilesFront(start: nat, d: nat, trace: seq<Event>)
    requires Tiles(start, d, trace) && trace != []
    ensures Tiles(start, d, trace[..|trace| - 1])
  {
    var front := trace[..|trace| - 1];
    forall j | 0 <= j < |front| && front[j].Range?
      ensures front[j].from == Reached(start, front[..j]) && front[j].from <= front[j].to < front[j].from + d
    {
      assert front[j] == trace[j] && front[..j] == trace[..j];
    }
  }

  /** No gap: a block is fetched by some range exactly when it lies between the start and the reached block ... */
  lemma {:induction false} TilesCover(start: nat, d: nat, trace: seq<Event>, b: nat)
    requires Tiles(start, d, trace)
    ensures (exists k :: 0 <= k < |trace| && Covers(trace[k], b)) <==> start <= b < Reached(start, trace)
    decreases |trace|
  {
    if trace != [] {
      var n, front := |trace| - 1, trace[..|trace| - 1];
      TilesFront(start, d, trace);
      TilesCover(start, d, front, b);
      ReachedGrows(start, d, front, 0);
      assert trace[n].Range? ==> trace[n].from == Reached(start, front);
      assert (exists k :: 0 <= k < |trace| && Covers(trace[k], b))
        <==> Covers(trace[n], b) || exists k :: 0 <= k < |front| && Covers(front[k], b);
    }
  }

  /** ... and no overlap: never by two. */
  lemma {:induction false} TilesOnce(start: nat, d: nat, trace: seq<Event>, b: nat, j: nat, k: nat)
    requires Tiles(start, d, trace) && j < k < |trace| && Covers(trace[j], b)
    ensures !Covers(trace[k], b)
    decreases |trace|
  {
    if k < |trace| - 1 {
      TilesFront(start, d, trace);
      TilesOnce(start, d, trace[..|trace| - 1], b, j, k);
    } else {
      TilesFront(start, d, trace);
      TilesCover(start, d, trace[..k], b);
      assert trace[..k][j] == trace[j];
    }
  }

  /**
   The indexer reports being on head only past the head it saw at the start, and hands over to
   the subscription at the first block it has not fetched; that block lies past the first head
   too, unless a later head was reported lower (`steady` false).
   */
  ghost predicate Gated(start: nat, head: nat, steady: bool, trace: seq<Event>) {
    forall k :: 0 <= k < |trace| ==> GatedAt(start, head, steady, trace[k], trace[..k])
  }

  ghost predicate GatedAt(start: nat, head: nat, steady: bool, e: Event, before: seq<Event>) {
    && (e.OnHead? ==> head < Reached(start, before))
    && (e.SinkMode? ==> e.from == Reached(start, before) && (steady ==> head < Reached(start, before)))
  }

  /** What the loop knows: the trace so far, and that `from` is the next block. */
  ghost predicate TraceOk(start: nat, head: nat, d: nat, steady: bool, from: nat, trace: seq<Event>) {
    Tiles(start, d, trace) && Gated(start, head, steady, trace) && from == Reached(start, trace)
  }

  lemma {:induction false} TraceSnoc(start: nat, head: nat, d: nat, steady: bool, from: nat, trace: seq<Event>,
                                     e: Event)
    requires TraceOk(start, head, d, steady, from, trace)
    requires e.Range? ==> e.from == from && from <= e.to < from + d
    requires e.OnHead? ==> head < from
    requires e.SinkMode? ==> e.from == from && (steady ==> head < from)
    ensures TraceOk(start, head, d, steady, if e.Range? then e.to + 1 else from, trace + [e])
  {
    TilesSnoc(start, d, trace, e);
    var longer := trace + [e];
    assert longer[..|trace|] == trace;
    forall k | 0 <= k < |longer| ensures GatedAt(start, head, steady, longer[k], longer[..k]) {
      if k < |trace| {
        assert longer[..k] == trace[..k] && GatedAt(start, head, steady, trace[k], trace[..k]);
      }
    }
  }

  /** No head comes so close to the end of the 64-bit range that a range could wrap around. */
  ghost predicate NoWrap(c: Config, replies: seq<Reply>) {
    forall k :: 0 <= k < |replies| && replies[k].Head? ==> replies[k].block + Distance(c) < TWO_64
  }

  ghost predicate Steady(replies: seq<Reply>) {
    forall k :: 0 <= k < |replies| && replies[k].Head? && replies[0].Head? ==> replies[0].block <= replies[k].block
  }

  function Ranges(trace: seq<Event>): nat {
    if trace == [] then 0 else Ranges(trace[..|trace| - 1]) + if trace[|trace| - 1].Range? then 1 else 0
  }

  function Commits(replies: seq<Reply>): nat {
    if replies == [] then 0 else Commits(replies[..|replies| - 1]) + if replies[|replies| - 1].Committed? then 1 else 0
  }

  /** Every range is as long as it may be, or ends at a head that was reported. */
  ghost predicate Full(d: nat, replies: seq<Reply>, trace: seq<Event>) {
    forall k :: 0 <= k < |trace| && trace[k].Range? ==>
      trace[k].to == trace[k].from + d - 1 || Reported(replies, trace[k].to)
  }

  ghost predicate Reported(replies: seq<Reply>, block: nat) {
    exists j :: 0 <= j < |replies| && replies[j].Head? && replies[j].block == block
  }

  /** The last head reported. */
  function LastHead(replies: seq<Reply>): nat {
    if replies == [] then 0
    else if replies[|replies| - 1].Head? then replies[|replies| - 1].block
    else LastHead(replies[..|replies| - 1])
  }

  /**
   What the loop knows after taking `used` answers: one commit per range, `current` is the
   last head, and, unless ranges can wrap, the trace is in order and `from` is the next block.
   */
  ghost predicate LoopOk(c: Config, start: nat, replies: seq<Reply>, from: nat, current: nat, used: nat,
                         trace: seq<Event>) {
    && 0 < used <= |replies| && replies[0].Head? && trace != []
    && Ranges(trace) == Commits(replies[..used])
    && current == LastHead(replies[..used]) && Reported(replies, current)
    && (NoWrap(c, replies) ==>
          && TraceOk(start, replies[0].block, Distance(c), Steady(replies), from, trace)
          && Full(Distance(c), replies, trace)
          && current + Distance(c) < TWO_64)
  }

  lemma {:induction false} LoopStart(c: Config, start: nat, replies: seq<Reply>)
    requires replies != [] && replies[0].Head?
    ensures LoopOk(c, start, replies, start, replies[0].block, 1, [HistoryMode])
  {
    var trace := [HistoryMode];
    var first := replies[..1];
    assert first == [replies[0]] && first[..|first| - 1] == [] && trace[..|trace| - 1] == [];
    assert Commits(first) == 0;
    assert Ranges(trace) == 0;
  }

  lemma {:induction false} LoopRange(c: Config, start: nat, replies: seq<Reply>, from: uint64, current: uint64,
                                     used: nat, trace: seq<Event>)
    requires LoopOk(c, start, replies, from, current, used, trace)
    requires from <= current && used < |replies| && replies[used].Committed?
    ensures var to := RangeEnd(c, from, current);
            && LoopOk(c, start, replies, Wrap(to + 1), current, used + 1, trace + [Range(from, to)])
            && (NoWrap(c, replies) ==> from < Wrap(to + 1) <= current + 1)
  {
    var to := RangeEnd(c, from, current);
    RangeEndExactly(c, from, current);
    assert replies[..used + 1][..used] == replies[..used] && (trace + [Range(from, to)])[..|trace|] == trace;
    if NoWrap(c, replies) {
      TraceSnoc(start, replies[0].block, Distance(c), Steady(replies), from, trace, Range(from, to));
    }
  }

  lemma {:induction false} LoopEvent(c: Config, start: nat, replies: seq<Reply>, from: nat, current: nat, used: nat,
                                     trace: seq<Event>, e: Event)
    requires LoopOk(c, start, replies, from, current, used, trace) && !e.Range?
    requires NoWrap(c, replies) && e.OnHead? ==> replies[0].block < from
    requires NoWrap(c, replies) && e.SinkMode? ==> e.from == from && (Steady(replies) ==> replies[0].block < from)
    ensures LoopOk(c, start, replies, from, current, used, trace + [e])
  {
    assert (trace + [e])[..|trace|] == trace;
    if NoWrap(c, replies) {
      TraceSnoc(start, replies[0].block, Distance(c), Steady(replies), from, trace, e);
    }
  }

  lemma {:induction false} LoopHeads(c: Config, start: nat, replies: seq<Reply>, from: nat, current: nat, used: nat,
                                     more: nat, trace: seq<Event>)
    requires LoopOk(c, start, replies, from, current, used, trace) && used < more <= |replies|
    requires forall j :: used <= j < more ==> replies[j].Head?
    ensures LoopOk(c, start, replies, from, replies[more - 1].block, more, trace)
    decreases more
  {
    assert replies[..more][..more - 1] == replies[..more - 1] && replies[..more][more - 1] == replies[more - 1];
    if used < more - 1 {
      LoopHeads(c, start, replies, from, current, used, more - 1, trace);
    }
  }

  // ---------- in the terms of the configuration ----------

  /** Every range has at most `limit` blocks, and fewer only if it ends at a head that was reported. */
  ghost predicate Fits(limit: nat, replies: seq<Reply>, trace: seq<Event>) {
    forall k :: 0 <= k < |trace| && trace[k].Range? ==>
      && trace[k].from <= trace[k].to && trace[k].to - trace[k].from < limit
      && (trace[k].to == trace[k].from + limit - 1 || Reported(replies, trace[k].to))
  }

  /** The ranges keep to the configured limit, and to 10000 blocks if none is configured. */
  lemma {:induction false} RangesFit(c: Config, start: nat, replies: seq<Reply>, from: nat, current: nat, used: nat,
                                     trace: seq<Event>)
    requires LoopOk(c, start, replies, from, current, used, trace) && NoWrap(c, replies)
    ensures c.maxBlocksDistance > 0 ==> Fits(c.maxBlocksDistance, replies, trace)
    ensures c.maxBlocksDistance == 0 ==> Fits(10000, replies, trace)
  {
  }

  /** The trace begins with the history mode, reports the head at most once, and a hand-over ends it. */
  ghost predicate Shape(trace: seq<Event>) {
    && trace != [] && trace[0] == HistoryMode
    && (forall k :: 0 < k < |trace| ==> trace[k] != HistoryMode)
    && (forall j, k :: 0 <= j < k < |trace| ==> !(trace[j] == OnHead && trace[k] == OnHead) && !trace[j].SinkMode?)
  }

  lemma {:induction false} ShapeSnoc(trace: seq<Event>, e: Event)
    requires Shape(trace) && !trace[|trace| - 1].SinkMode? && e != HistoryMode && (e == OnHead ==> OnHead !in trace)
    ensures Shape(trace + [e])
  {
  }

  /** No head was asked for beyond the first. */
  ghost predicate OneHead(replies: seq<Reply>, used: nat)
    requires used <= |replies|
  {
    forall j :: 1 <= j < used ==> !replies[j].Head?
  }

  /** `next` is within the configured distance of the head; the difference is one of 64-bit numbers. */
  predicate WithinReach(c: Config, next: uint64, head: uint64) {
    var limit := if c.maxBlocksDistance == 0 then 10000 else c.maxBlocksDistance;
    if next <= head then head - next <= limit else head + 0x1_0000_0000_0000_0000 - next <= limit
  }

  /** After a range, the subscription has just been started, and the head is to be asked for once more. */
  ghost predicate HeadDue(c: Config, replies: seq<Reply>, next: uint64, head: uint64, used: nat, trace: seq<Event>)
    requires used <= |replies| && trace != []
  {
    trace[|trace| - 1].Range? && OneHead(replies, used) && WithinReach(c, next, head)
  }

  /** The subscription was started exactly if a second head was asked for; if not, the head is out of reach. */
  ghost predicate WsOk(c: Config, replies: seq<Reply>, next: uint64, head: uint64, used: nat, trace: seq<Event>,
                       started: bool)
    requires used <= |replies| && trace != []
  {
    (started <==> !OneHead(replies, used)) && !HeadDue(c, replies, next, head, used, trace)
  }

  /**
   The loop. For every sequence of answers from outside, as far as it goes, `LoopOk` holds: the
   ranges that were committed tile the blocks from the start block up to `next`, one range per
   commit and none shorter than it must be, and the head gate holds. In poll mode the indexer
   is on head exactly when it has passed the first head. The loop stops only when the answers end
   or what it asks for, the next range or a head, is refused; in subscription mode it otherwise
   goes on to hand over at the first block past the head, and an unknown mode ends it after the
   first range.
   */
  method IndexEVMLogs(c: Config, startBlock: uint64, replies: seq<Reply>)
    returns (trace: seq<Event>, outcome: Outcome, next: uint64, head: uint64, used: nat)
    ensures trace != [] ==> LoopOk(c, startBlock, replies, next, head, used, trace) && Shape(trace)
    ensures trace == [] <==> replies == [] || !replies[0].Head? || replies[0].block < startBlock
    ensures outcome == StartBeyondHead <==> replies != [] && replies[0].Head? && replies[0].block < startBlock
    ensures outcome == Subscribed <==> trace != [] && trace[|trace| - 1].SinkMode?
    ensures trace != [] && NoWrap(c, replies) && c.maxBlocksDistance > 0 ==> Fits(c.maxBlocksDistance, replies, trace)
    ensures trace != [] && NoWrap(c, replies) && c.maxBlocksDistance == 0 ==> Fits(10000, replies, trace)
    ensures trace != [] && c.mode == Poll ==> outcome == Stopped
    ensures trace != [] && c.mode == Poll && used < |replies| ==>
              if next <= head then !replies[used].Committed? else !replies[used].Head?
    ensures trace != [] && c.mode == Poll && NoWrap(c, replies) ==> (OnHead in trace <==> replies[0].block < next)
    ensures trace != [] && c.mode == Ws && outcome == Subscribed ==> head < next && trace[|trace| - 1] == SinkMode(next)
    ensures trace != [] && c.mode == Ws && outcome != Subscribed ==>
              && outcome == Stopped
              && if HeadDue(c, replies, next, head, used, trace) then used == |replies| || !replies[used].Head?
                 else next <= head && (used == |replies| || !replies[used].Committed?)
    ensures trace != [] && c.mode == Unknown ==>
              if |replies| > 1 && replies[1].Committed? then
                outcome == UnknownMode && used == 2 && |trace| == 2 && trace[1].Range? && trace[1].from == startBlock
              else outcome == Stopped && used == 1 && trace == [HistoryMode]
  {
    trace, outcome, next, head, used := [], Stopped, startBlock, 0, 0;
    if replies == [] || !replies[0].Head? {
      return;
    }
    head := replies[0].block;
    if startBlock > head {
      outcome := StartBeyondHead;
      return;
    }
    var isOnHead, subscriptionStarted := false, false;
    trace, used := [HistoryMode], 1;
    LoopStart(c, startBlock, replies);
    while next <= head
      invariant LoopOk(c, startBlock, replies, next, head, used, trace)
      invariant BetweenRanges(c, replies, next, head, trace, isOnHead)
      invariant c.mode == Ws ==> WsOk(c, replies, next, head, used, trace, subscriptionStarted)
      invariant c.mode == Poll ==> next <= head
      invariant c.mode == Unknown ==> next == startBlock <= head && used == 1 && trace == [HistoryMode]
      invariant outcome == Stopped
      decreases |replies| - used
    {
      if used == |replies| || !replies[used].Committed? {
        LimitKept(c, startBlock, replies, next, head, used, trace);
        return;
      }
      var ok;
      ok, next, head, used, trace, isOnHead, subscriptionStarted :=
        Round(c, startBlock, replies, next, head, used, trace, isOnHead, subscriptionStarted);
      if !ok {
        LimitKept(c, startBlock, replies, next, head, used, trace);
        outcome := if c.mode == Unknown then UnknownMode else Stopped;
        return;
      }
    }
    if c.mode != Ws {
      assert false;  // polling never leaves the loop
    }
    LoopEvent(c, startBlock, replies, next, head, used, trace, SinkMode(next));
    ShapeSnoc(trace, SinkMode(next));
    trace, outcome := trace + [SinkMode(next)], Subscribed;
    LimitKept(c, startBlock, replies, next, head, used, trace);
  }

  lemma {:induction false} LimitKept(c: Config, start: nat, replies: seq<Reply>, from: nat, current: nat, used: nat,
                                     trace: seq<Event>)
    requires LoopOk(c, start, replies, from, current, used, trace)
    ensures NoWrap(c, replies) && c.maxBlocksDistance > 0 ==> Fits(c.maxBlocksDistance, replies, trace)
    ensures NoWrap(c, replies) && c.maxBlocksDistance == 0 ==> Fits(10000, replies, trace)
  {
    if NoWrap(c, replies) {
      RangesFit(c, start, replies, from, current, used, trace);
    }
  }

  /** Where the loop stands when it is about to fetch: in poll mode, on head exactly past the first head. */
  ghost predicate BetweenRanges(c: Config, replies: seq<Reply>, next: nat, head: nat, trace: seq<Event>, isOnHead: bool)
    requires replies != [] && replies[0].Head? && trace != []
  {
    && Shape(trace) && !trace[|trace| - 1].SinkMode? && (isOnHead <==> OnHead in trace)
    && (c.mode == Poll || Steady(replies) ==> replies[0].block <= head)
    && (c.mode == Poll && NoWrap(c, replies) ==>
          if isOnHead then replies[0].block < next else head == replies[0].block)
  }

  /** The next range, fetched and committed. */
  method FetchRange(c: Config, ghost start: nat, replies: seq<Reply>, from: uint64, head: uint64, used: nat,
                    trace: seq<Event>, ghost isOnHead: bool)
    returns (next: uint64, trace': seq<Event>)
    requires LoopOk(c, start, replies, from, head, used, trace)
    requires BetweenRanges(c, replies, from, head, trace, isOnHead)
    requires from <= head && used < |replies| && replies[used].Committed?
    ensures trace' == trace + [Range(from, RangeEnd(c, from, head))] && next == Wrap(RangeEnd(c, from, head) + 1)
    ensures LoopOk(c, start, replies, next, head, used + 1, trace')
    ensures BetweenRanges(c, replies, next, head, trace', isOnHead)
    ensures NoWrap(c, replies) && c.maxBlocksDistance > 0 ==>
              next == if from + c.maxBlocksDistance <= head then from + c.maxBlocksDistance else head + 1
    ensures NoWrap(c, replies) && c.maxBlocksDistance == 0 ==>
              next == if from + 10000 <= head then from + 10000 else head + 1
  {
    var to: nat := RangeEnd(c, from, head);
    LoopRange(c, start, replies, from, head, used, trace);
    ShapeSnoc(trace, Range(from, to));
    next, trace' := Wrap(to + 1), trace + [Range(from, to)];
  }

  /** One round of the loop: a range, and then what the mode asks for. Without `ok` the loop ends there. */
  method Round(c: Config, ghost start: nat, replies: seq<Reply>, from: uint64, head: uint64, used: nat,
               trace: seq<Event>, isOnHead: bool, started: bool)
    returns (ok: bool, next: uint64, head': uint64, used': nat, trace': seq<Event>, isOnHead': bool, started': bool)
    requires LoopOk(c, start, replies, from, head, used, trace)
    requires BetweenRanges(c, replies, from, head, trace, isOnHead)
    requires from <= head && used < |replies| && replies[used].Committed?
    requires c.mode == Ws ==> (started <==> !OneHead(replies, used))
    ensures LoopOk(c, start, replies, next, head', used', trace') && used < used'
    ensures Shape(trace') && !trace'[|trace'| - 1].SinkMode?
    ensures ok ==> BetweenRanges(c, replies, next, head', trace', isOnHead') && (c.mode == Poll ==> next <= head')
    ensures c.mode == Unknown ==> !ok && used' == used + 1 && trace' == trace + [Range(from, RangeEnd(c, from, head))]
    ensures !ok && c.mode == Poll ==> head' < next && (used' == |replies| || !replies[used'].Head?)
    ensures !ok && c.mode == Poll && NoWrap(c, replies) ==> OnHead in trace' && replies[0].block < next
    ensures ok && c.mode == Ws ==> WsOk(c, replies, next, head', used', trace', started')
    ensures !ok && c.mode == Ws ==>
              HeadDue(c, replies, next, head', used', trace') && (used' == |replies| || !replies[used'].Head?)
  {
    isOnHead', started', head', used' := isOnHead, started, head, used + 1;
    next, trace' := FetchRange(c, start, replies, from, head, used, trace, isOnHead);
    match c.mode
    case Poll =>
      trace', isOnHead', head', used' := PollMode(c, start, replies, next, head, used', trace', isOnHead);
      ok := next <= head';
    case Ws =>
      ok, started', head', used' := WsMode(c, start, replies, next, head, used', trace', started);
    case Unknown =>
      ok := false;
  }

  /** Poll mode after a range: nothing while behind the head, otherwise on head and asking for a newer one. */
  method PollMode(ghost c: Config, ghost start: nat, replies: seq<Reply>, next: uint64, head: uint64, used: nat,
                  trace: seq<Event>, isOnHead: bool)
    returns (trace': seq<Event>, isOnHead': bool, head': uint64, used': nat)
    requires c.mode == Poll && LoopOk(c, start, replies, next, head, used, trace)
    requires BetweenRanges(c, replies, next, head, trace, isOnHead)
    ensures LoopOk(c, start, replies, next, head', used', trace') && used <= used'
    ensures Shape(trace') && !trace'[|trace'| - 1].SinkMode? && (isOnHead' <==> OnHead in trace')
    ensures next <= head ==> trace' == trace && isOnHead' == isOnHead && head' == head && used' == used
    ensures head < next ==> isOnHead' && trace' == if isOnHead then trace else trace + [OnHead]
    ensures next <= head' ==> BetweenRanges(c, replies, next, head', trace', isOnHead')
    ensures head' < next ==> used' == |replies| || !replies[used'].Head?
    ensures head' < next && NoWrap(c, replies) ==> isOnHead' && replies[0].block < next
  {
    trace', isOnHead', head', used' := trace, isOnHead, head, used;
    if next > head {
      if !isOnHead {
        isOnHead' := true;
        LoopEvent(c, start, replies, next, head, used, trace, OnHead);
        ShapeSnoc(trace, OnHead);
        trace' := trace + [OnHead];
      }
      head', used' := PollHead(c, start, replies, next, head, used, trace');
    }
  }

  /** Subscription mode after a range: within reach of the head, subscribe once and ask for the head again. */
  method WsMode(c: Config, ghost start: nat, replies: seq<Reply>, next: uint64, head: uint64, used: nat,
                ghost trace: seq<Event>, started: bool)
    returns (ok: bool, started': bool, head': uint64, used': nat)
    requires c.mode == Ws && LoopOk(c, start, replies, next, head, used, trace)
    requires Steady(replies) ==> replies[0].block <= head
    requires started <==> !OneHead(replies, used)
    ensures LoopOk(c, start, replies, next, head', used', trace) && used <= used'
    ensures Steady(replies) ==> replies[0].block <= head'
    ensures started' <==> started || WithinReach(c, next, head)
    ensures next <= head && c.maxBlocksDistance > 0 ==> (started' <==> started || head - next <= c.maxBlocksDistance)
    ensures next <= head && c.maxBlocksDistance == 0 ==> (started' <==> started || head - next <= 10000)
    ensures ok ==> (started' <==> !OneHead(replies, used'))
    ensures started == started' ==> ok && used' == used && head' == head
    ensures !started && started' && ok ==> used < |replies| && replies[used] == Head(head') && used' == used + 1
    ensures !ok ==> used' == used && head' == head && (used == |replies| || !replies[used].Head?)
  {
    ok, started', head', used' := true, started, head, used;
    var distance := if next <= head then head - next else head + TWO_64 - next;
    if !started && distance <= Distance(c) {
      started' := true;
      if used == |replies| || !replies[used].Head? {
        return false, true, head, used;
      }
      LoopHeads(c, start, replies, next, head, used, used + 1, trace);
      head', used' := replies[used].block, used + 1;
    }
  }

  /** Asks for the head until it reaches `from`, or until the answers end or fail. */
  method PollHead(ghost c: Config, ghost start: nat, replies: seq<Reply>, from: uint64, head: uint64, first: nat,
                  ghost trace: seq<Event>)
    returns (current: uint64, used: nat)
    requires LoopOk(c, start, replies, from, head, first, trace) && head < from
    ensures LoopOk(c, start, replies, from, current, used, trace) && first <= used
    ensures forall j :: first <= j < used ==> replies[j].Head? && (j < used - 1 ==> replies[j].block < from)
    ensures current < from ==> used == |replies| || !replies[used].Head?
  {
    current, used := head, first;
    while used < |replies| && replies[used].Head?
      invariant LoopOk(c, start, replies, from, current, used, trace) && current < from && first <= used
      invariant forall j :: first <= j < used ==> replies[j].Head? && replies[j].block < from
    {
      LoopHeads(c, start, replies, from, current, used, used + 1, trace);
      current, used := replies[used].block, used + 1;
      if current >= from {
        return;
      }
    }
  }

  // ---------- the hand-off to the subscription ----------

  /** The logs at or after block `from`, in order. */
  function From(logs: seq<Log>, from: nat): seq<Log> {
    if logs == [] then []
    else if logs[|logs| - 1].block >= from then From(logs[..|logs| - 1], from) + [logs[|logs| - 1]]
    else From(logs[..|logs| - 1], from)
  }

  /** What the subscription delivered in one go: what is handled, and the block that is stored. */
  method SinkBatch(logs: seq<Log>, from: uint64) returns (handled: seq<Log>, progress: uint64)
    requires logs != []
    ensures handled == From(logs, from) && progress == logs[|logs| - 1].block
  {
    progress := logs[|logs| - 1].block;
    handled := [];
    for k := 0 to |logs|
      invariant handled == From(logs[..k], from)
    {
      assert logs[..k + 1][..k] == logs[..k];
      if logs[k].block >= from {
        handled := handled + [logs[k]];
      }
    }
    assert logs[..|logs|] == logs;
  }

  lemma {:induction false} FromIsLate(logs: seq<Log>, from: nat, k: nat)
    requires k < |From(logs, from)|
    ensures From(logs, from)[k].block >= from
  {
    var front := logs[..|logs| - 1];
    if k < |From(front, from)| {
      FromIsLate(front, from, k);
    }
  }

  /** In subscription mode no log is handled twice: what the sink handles lies in no range fetched before. */
  lemma {:induction false} HandledOnce(start: nat, d: nat, trace: seq<Event>, from: nat, logs: seq<Log>, k: nat, j: nat)
    requires Tiles(start, d, trace) && from == Reached(start, trace)
    requires k < |From(logs, from)| && j < |trace|
    ensures !Covers(trace[j], From(logs, from)[k].block)
  {
    FromIsLate(logs, from, k);
    TilesCover(start, d, trace, From(logs, from)[k].block);
  }

  /** The filter drops exactly the logs a run has already handled, so a sink batch is a step of the run. */
  lemma {:induction false} SinkBatchIsStep(e: Setting, from: nat, done: nat, stale: seq<Log>, n: nat, block: uint64)
    requires Sorted(e.log) && Below(e.log, from) <= done && HandedOver(e, from, done, stale, n, block)
    ensures From(stale + e.log[done..done + n], from) == e.log[done..done + n]
  {
    forall k | done <= k < done + n ensures e.log[k].block >= from {
      BelowSplits(e.log, from, k);
    }
    StaleThenNew(stale, e.log[done..done + n], from);
  }

  lemma {:induction false} StaleThenNew(stale: seq<Log>, next: seq<Log>, from: nat)
    requires forall k :: 0 <= k < |stale| ==> stale[k].block < from
    requires forall k :: 0 <= k < |next| ==> next[k].block >= from
    ensures From(stale + next, from) == next
  {
    FromConcat(stale, next, from);
    StaleDropped(stale, from);
    NewKept(next, from);
  }

  lemma {:induction false} FromConcat(a: seq<Log>, b: seq<Log>, from: nat)
    ensures From(a + b, from) == From(a, from) + From(b, from)
  {
    if b == [] {
      assert a + b == a;
    } else {
      FromConcat(a, b[..|b| - 1], from);
      assert (a + b)[..|a + b| - 1] == a + b[..|b| - 1];
    }
  }

  lemma {:induction false} NewKept(logs: seq<Log>, from: nat)
    requires forall k :: 0 <= k < |logs| ==> logs[k].block >= from
    ensures From(logs, from) == logs
  {
    if logs != [] {
      NewKept(logs[..|logs| - 1], from);
    }
  }

  lemma {:induction false} StaleDropped(stale: seq<Log>, from: nat)
    requires forall k :: 0 <= k < |stale| ==> stale[k].block < from
    ensures From(stale, from) == []
  {
    if stale != [] {
      StaleDropped(stale[..|stale| - 1], from);
    }
  }
}
