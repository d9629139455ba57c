/** The publish stage of dataReceived: one block of sample lines per successful call, either
    published at once or collected into stacks, with the dictionary and the header message
    sent every metacnt data messages. */
module Aggregator {
  import opened Wrappers
  import opened FrameLayout

  /** The lines decoded from one frame (dataarray). */
  type Block = seq<Sample>

  /** The three topics: data lines, the sensor dictionary (which carries the current
      NTP delay estimate) and the binary-format header. */
  datatype Message = Data(lines: seq<Sample>) | Dict(timeDelay: real) | Meta

  datatype Agg = Agg(dataList: seq<Block>, dataCount: nat, count: nat, metaCount: nat)

  /** metacnt as __init__ sets it. */
  const DefaultMetaCount: nat := 10

  const InitialAgg: Agg := Agg([], 0, 0, DefaultMetaCount)

  datatype Publication = Publication(agg: Agg, messages: seq<Message>)

  /** Publish a data message; the dictionary and the header follow when count is 0;
      count then advances and wraps at metacnt. */
  function Send(a: Agg, lines: seq<Sample>, timeDelay: real): (p: Publication)
    ensures p.messages != [] && p.messages[0] == Data(lines)
    ensures |p.messages| == (if a.count == 0 then 3 else 1)
    ensures a.count == 0 ==> p.messages[1..] == [Dict(timeDelay), Meta]
    ensures p.agg.count == if a.count + 1 >= a.metaCount then 0 else a.count + 1
    ensures p.agg.(count := a.count) == a
  {
    var header := if a.count == 0 then [Dict(timeDelay), Meta] else [];
    var next := if a.count + 1 >= a.metaCount then 0 else a.count + 1;
    Publication(a.(count := next), [Data(lines)] + header)
  }

  /** One successful call's block, as lines 366-391 are written: once stack blocks are held, the
      next call publishes them and its own block is dropped (see StackCycle). */
  function PublishStepAsWritten(a: Agg, stack: int, block: Block, timeDelay: real): (p: Publication)
  {
    if stack > 1 then
      var a1 := a.(metaCount := 1);
      if a1.dataCount < stack then
        Publication(a1.(dataList := a1.dataList + [block], dataCount := a1.dataCount + 1), [])
      else Send(a1.(dataList := [], dataCount := 0), Flatten(a1.dataList), timeDelay)
    else Send(a, block, timeDelay)
  }

  /** The blocks of successive calls, each with the delay estimate at that call, as written. */
  function PublishAllAsWritten(a: Agg, stack: int, events: seq<(Block, real)>): (p: Publication)
    decreases |events|
  {
    if events == [] then Publication(a, [])
    else
      var p := PublishAllAsWritten(a, stack, events[..|events| - 1]);
      var e := events[|events| - 1];
      var q := PublishStepAsWritten(p.agg, stack, e.0, e.1);
      Publication(q.agg, p.messages + q.messages)
  }

  /** One successful call's block with the flush corrected: the block joins the collection
      first, and the call that brings it to stack blocks publishes them all. */
  function PublishStep(a: Agg, stack: int, block: Block, timeDelay: real): (p: Publication)
  {
    if stack > 1 then
      var a1 := a.(metaCount := 1, dataList := a.dataList + [block], dataCount := a.dataCount + 1);
      if a1.dataCount < stack then Publication(a1, [])
      else Send(a1.(dataList := [], dataCount := 0), Flatten(a1.dataList), timeDelay)
    else Send(a, block, timeDelay)
  }

  /** The blocks of successive calls, each with the delay estimate at that call. */
  function PublishAll(a: Agg, stack: int, events: seq<(Block, real)>): (p: Publication)
    decreases |events|
  {
    if events == [] then Publication(a, [])
    else
      var p := PublishAll(a, stack, events[..|events| - 1]);
      var e := events[|events| - 1];
      var q := PublishStep(p.agg, stack, e.0, e.1);
      Publication(q.agg, p.messages + q.messages)
  }

  /** The state every publish step keeps: the collected blocks are counted by datacnt and
      never more than stack; without stacking nothing is collected, metacnt stays 10 and
      count runs below it; with stacking count stays 0. */
  predicate AggInvariant(a: Agg, stack: int)
  {
    && |a.dataList| == a.dataCount
    && a.count < a.metaCount
    && (stack > 1 ==> a.dataCount <= stack && a.count == 0)
    && (stack <= 1 ==> a.dataList == [] && a.metaCount == DefaultMetaCount)
  }

  lemma InitialAggInvariant(stack: int)
    ensures AggInvariant(InitialAgg, stack)
  {
  }

  lemma PublishStepInvariant(a: Agg, stack: int, block: Block, timeDelay: real)
    requires AggInvariant(a, stack)
    ensures AggInvariant(PublishStep(a, stack, block, timeDelay).agg, stack)
    ensures stack > 1 ==> PublishStep(a, stack, block, timeDelay).agg.metaCount == 1
  {
  }

  lemma AsWrittenStepInvariant(a: Agg, stack: int, block: Block, timeDelay: real)
    requires AggInvariant(a, stack)
    ensures AggInvariant(PublishStepAsWritten(a, stack, block, timeDelay).agg, stack)
    ensures stack > 1 ==> PublishStepAsWritten(a, stack, block, timeDelay).agg.metaCount == 1
  {
  }

  /** Without stacking every block is published at once, followed by the dictionary and the
      header exactly when count is 0; count advances modulo 10. */
  lemma UnstackedPublishesEveryBlock(a: Agg, stack: int, block: Block, timeDelay: real)
    requires stack <= 1 && AggInvariant(a, stack)
    ensures var p := PublishStep(a, stack, block, timeDelay);
      && p.messages == (if a.count == 0 then [Data(block), Dict(timeDelay), Meta] else [Data(block)])
      && p.agg == a.(count := (a.count + 1) % DefaultMetaCount)
  {
  }

  /** The data payloads of a message sequence, in order. */
  function DataPayloads(ms: seq<Message>): (r: seq<seq<Sample>>)
    decreases |ms|
  {
    if ms == [] then []
    else DataPayloads(ms[..|ms| - 1]) + (if ms[|ms| - 1].Data? then [ms[|ms| - 1].lines] else [])
  }

  /** The number of dictionary messages. */
  function DictCount(ms: seq<Message>): (r: nat)
    decreases |ms|
  {
    if ms == [] then 0 else DictCount(ms[..|ms| - 1]) + (if ms[|ms| - 1].Dict? then 1 else 0)
  }

  /** The number of header messages. */
  function MetaCount(ms: seq<Message>): (r: nat)
    decreases |ms|
  {
    if ms == [] then 0 else MetaCount(ms[..|ms| - 1]) + (if ms[|ms| - 1].Meta? then 1 else 0)
  }

  function Blocks(events: seq<(Block, real)>): (r: seq<Block>)
    decreases |events|
  {
    if events == [] then [] else Blocks(events[..|events| - 1]) + [events[|events| - 1].0]
  }

  lemma DataPayloadsAppend(ms: seq<Message>, ns: seq<Message>)
    ensures DataPayloads(ms + ns) == DataPayloads(ms) + DataPayloads(ns)
    ensures DictCount(ms + ns) == DictCount(ms) + DictCount(ns)
    ensures MetaCount(ms + ns) == MetaCount(ms) + MetaCount(ns)
    decreases |ns|
  {
    if ns == [] {
      assert ms + ns == ms;
    } else {
      var init := ns[..|ns| - 1];
      assert (ms + ns)[..|ms + ns| - 1] == ms + init;
      DataPayloadsAppend(ms, init);
    }
  }

  lemma HeaderedPayloads(lines: seq<Sample>, timeDelay: real)
    ensures DataPayloads([Data(lines), Dict(timeDelay), Meta]) == [lines]
    ensures DictCount([Data(lines), Dict(timeDelay), Meta]) == 1
    ensures MetaCount([Data(lines), Dict(timeDelay), Meta]) == 1
  {
    PlainPayloads(lines);
    assert [Dict(timeDelay)][..0] == [] && [Meta][..0] == [];
    DataPayloadsAppend([Data(lines)], [Dict(timeDelay)]);
    assert [Data(lines)] + [Dict(timeDelay)] == [Data(lines), Dict(timeDelay)];
    DataPayloadsAppend([Data(lines), Dict(timeDelay)], [Meta]);
    assert [Data(lines), Dict(timeDelay)] + [Meta] == [Data(lines), Dict(timeDelay), Meta];
  }

  lemma PlainPayloads(lines: seq<Sample>)
    ensures DataPayloads([Data(lines)]) == [lines]
    ensures DictCount([Data(lines)]) == 0
    ensures MetaCount([Data(lines)]) == 0
  {
    assert [Data(lines)][..0] == [];
  }

  /** ceil((n + 1) / 10) grows by one exactly when n is a multiple of 10. */
  lemma CeilStep(n: nat)
    ensures (n + 1 + DefaultMetaCount - 1) / DefaultMetaCount
         == (n + DefaultMetaCount - 1) / DefaultMetaCount + (if n % DefaultMetaCount == 0 then 1 else 0)
    ensures (n + 1) % DefaultMetaCount == (n % DefaultMetaCount + 1) % DefaultMetaCount
  {
  }

  /** Without stacking, from the initial state: the data messages carry exactly the blocks, in
      order; after n blocks the dictionary was sent ceil(n / 10) times and count is n mod 10. */
  lemma {:induction false} UnstackedCadence(stack: int, events: seq<(Block, real)>)
    requires stack <= 1
    ensures var p := PublishAll(InitialAgg, stack, events);
      && DataPayloads(p.messages) == Blocks(events)
      && DictCount(p.messages) == (|events| + DefaultMetaCount - 1) / DefaultMetaCount
      && p.agg == InitialAgg.(count := |events| % DefaultMetaCount)
    decreases |events|
  {
    if events != [] {
      var init := events[..|events| - 1];
      var e := events[|events| - 1];
      var p := PublishAll(InitialAgg, stack, init);
      UnstackedCadence(stack, init);
      var q := PublishStep(p.agg, stack, e.0, e.1);
      UnstackedPublishesEveryBlock(p.agg, stack, e.0, e.1);
      DataPayloadsAppend(p.messages, q.messages);
      CeilStep(|init|);
      if p.agg.count == 0 {
        HeaderedPayloads(e.0, e.1);
      } else {
        PlainPayloads(e.0);
      }
    }
  }

  /** As written, with stacking, the first stack blocks after an empty collection are only collected. */
  lemma {:induction false} StackCollects(a: Agg, stack: int, events: seq<(Block, real)>)
    requires stack > 1 && AggInvariant(a, stack) && a.dataCount == 0 && |events| <= stack
    ensures var p := PublishAllAsWritten(a, stack, events);
      && p.messages == []
      && (events == [] ==> p.agg == a)
      && (events != [] ==> p.agg == Agg(Blocks(events), |events|, 0, 1))
    decreases |events|
  {
    if events != [] {
      StackCollects(a, stack, events[..|events| - 1]);
    }
  }

  /** As written, with stacking, stack + 1 successful calls after an empty collection give one data message with the
      first stack blocks joined, then the dictionary and the header; the block of the last call is
      discarded, and the collection is empty again. */
  lemma {:induction false} StackCycle(a: Agg, stack: int, events: seq<(Block, real)>)
    requires stack > 1 && AggInvariant(a, stack) && a.dataCount == 0 && |events| == stack + 1
    ensures var p := PublishAllAsWritten(a, stack, events);
      var e := events[|events| - 1];
      && p.messages == [Data(Flatten(Blocks(events[..stack]))), Dict(e.1), Meta]
      && p.agg == Agg([], 0, 0, 1)
  {
    var init := events[..stack];
    assert events[..|events| - 1] == init;
    StackCollects(a, stack, init);
  }

  /** From count 0, metacnt successive unstacked publications carry the blocks in order, send the
      dictionary and the header exactly once each, and bring count back to 0. */
  lemma {:induction false} SendCycle(a: Agg, stack: int, events: seq<(Block, real)>)
    requires stack <= 1 && a.count == 0 && a.metaCount >= 1 && |events| <= a.metaCount
    ensures var p := PublishAll(a, stack, events);
      && DataPayloads(p.messages) == Blocks(events)
      && DictCount(p.messages) == (if events == [] then 0 else 1)
      && MetaCount(p.messages) == (if events == [] then 0 else 1)
      && p.agg == a.(count := if |events| == a.metaCount then 0 else |events|)
    decreases |events|
  {
    if events != [] {
      var init := events[..|events| - 1];
      var e := events[|events| - 1];
      var p := PublishAll(a, stack, init);
      SendCycle(a, stack, init);
      var q := PublishStep(p.agg, stack, e.0, e.1);
      assert PublishAll(a, stack, events) == Publication(q.agg, p.messages + q.messages);
      assert q.messages == if init == [] then [Data(e.0), Dict(e.1), Meta] else [Data(e.0)];
      DataPayloadsAppend(p.messages, q.messages);
      if init == [] {
        HeaderedPayloads(e.0, e.1);
      } else {
        PlainPayloads(e.0);
      }
    }
  }

  /** The samples one step publishes, followed by those it leaves collected, are those collected
      before it followed by the new block. */
  lemma PublishStepKeepsEverySample(a: Agg, stack: int, block: Block, timeDelay: real)
    requires AggInvariant(a, stack)
    ensures var p := PublishStep(a, stack, block, timeDelay);
      Flatten(DataPayloads(p.messages)) + Flatten(p.agg.dataList) == Flatten(a.dataList) + block
  {
    var p := PublishStep(a, stack, block, timeDelay);
    FlattenAppend(a.dataList, block);
    if stack > 1 && a.dataCount + 1 < stack {
      assert p.messages == [];
    } else {
      var lines := if stack > 1 then Flatten(a.dataList + [block]) else block;
      assert p.agg.dataList == [] && p.messages == if a.count == 0 then [Data(lines), Dict(timeDelay), Meta] else [Data(lines)];
      if a.count == 0 {
        HeaderedPayloads(lines, timeDelay);
      } else {
        PlainPayloads(lines);
      }
      assert Flatten([lines]) == Flatten([lines][..0]) + lines;
    }
  }

  /** No sample is lost or reordered: over any run of calls, the samples published followed by
      those still collected are those collected at the start followed by every block, in order. */
  lemma {:induction false} PublishAllKeepsEverySample(a: Agg, stack: int, events: seq<(Block, real)>)
    requires AggInvariant(a, stack)
    ensures var p := PublishAll(a, stack, events);
      && AggInvariant(p.agg, stack)
      && Flatten(DataPayloads(p.messages)) + Flatten(p.agg.dataList) == Flatten(a.dataList) + Flatten(Blocks(events))
    decreases |events|
  {
    if events != [] {
      var init := events[..|events| - 1];
      var e := events[|events| - 1];
      var p := PublishAll(a, stack, init);
      PublishAllKeepsEverySample(a, stack, init);
      var q := PublishStep(p.agg, stack, e.0, e.1);
      PublishStepInvariant(p.agg, stack, e.0, e.1);
      PublishStepKeepsEverySample(p.agg, stack, e.0, e.1);
      assert PublishAll(a, stack, events) == Publication(q.agg, p.messages + q.messages);
      assert Blocks(events) == Blocks(init) + [e.0];
      SamplesCompose(p.messages, q.messages, a.dataList, p.agg.dataList, q.agg.dataList, Blocks(init), e.0);
    }
  }

  /** Chains the sample balance of a run with that of one more step. */
  lemma SamplesCompose(pm: seq<Message>, qm: seq<Message>, start: seq<Block>, mid: seq<Block>, held: seq<Block>,
                       blocks: seq<Block>, b: Block)
    requires Flatten(DataPayloads(pm)) + Flatten(mid) == Flatten(start) + Flatten(blocks)
    requires Flatten(DataPayloads(qm)) + Flatten(held) == Flatten(mid) + b
    ensures Flatten(DataPayloads(pm + qm)) + Flatten(held) == Flatten(start) + Flatten(blocks + [b])
  {
    DataPayloadsAppend(pm, qm);
    FlattenConcat(DataPayloads(pm), DataPayloads(qm));
    FlattenAppend(blocks, b);
    Rebalance(Flatten(DataPayloads(pm)), Flatten(DataPayloads(qm)), Flatten(mid), Flatten(held),
              Flatten(start), Flatten(blocks), b);
  }

  lemma Rebalance<T>(pub: seq<T>, more: seq<T>, mid: seq<T>, held: seq<T>, start: seq<T>, got: seq<T>, b: seq<T>)
    requires pub + mid == start + got && more + held == mid + b
    ensures (pub + more) + held == start + (got + b)
  {
    calc {
      (pub + more) + held;
      pub + (more + held);
      (pub + mid) + b;
      (start + got) + b;
    }
  }

  /** With stacking, fewer than stack blocks after an empty collection are only collected. */
  lemma {:induction false} StackCollectsBelowStack(a: Agg, stack: int, events: seq<(Block, real)>)
    requires stack > 1 && AggInvariant(a, stack) && a.dataCount == 0 && |events| < stack
    ensures var p := PublishAll(a, stack, events);
      && p.messages == []
      && (events == [] ==> p.agg == a)
      && (events != [] ==> p.agg == Agg(Blocks(events), |events|, 0, 1))
    decreases |events|
  {
    if events != [] {
      StackCollectsBelowStack(a, stack, events[..|events| - 1]);
    }
  }

  /** With stacking, the stack-th call after an empty collection publishes all stack blocks joined in
      order, followed by the dictionary and the header, and empties the collection. */
  lemma {:induction false} StackPublishesEveryStack(a: Agg, stack: int, events: seq<(Block, real)>)
    requires stack > 1 && AggInvariant(a, stack) && a.dataCount == 0 && |events| == stack
    ensures var p := PublishAll(a, stack, events);
      var e := events[|events| - 1];
      && p.messages == [Data(Flatten(Blocks(events))), Dict(e.1), Meta]
      && p.agg == Agg([], 0, 0, 1)
  {
    var init := events[..stack - 1];
    var e := events[stack - 1];
    assert events[..|events| - 1] == init;
    StackCollectsBelowStack(a, stack, init);
    var p := PublishAll(a, stack, init);
    assert p.agg == Agg(Blocks(init), stack - 1, 0, 1);
    assert Blocks(events) == Blocks(init) + [e.0];
    var q := PublishStep(p.agg, stack, e.0, e.1);
    assert q == Send(Agg([], 0, 0, 1), Flatten(Blocks(events)), e.1);
    assert PublishAll(a, stack, events) == Publication(q.agg, [] + q.messages);
  }

  /** As written, the call that flushes a stack loses its own block: the samples published and
      still collected fall short of the blocks received. */
  lemma AsWrittenLosesFlushingBlock(a: Agg, stack: int, events: seq<(Block, real)>)
    requires stack > 1 && AggInvariant(a, stack) && a.dataCount == 0 && |events| == stack + 1
    requires events[stack].0 != []
    ensures var p := PublishAllAsWritten(a, stack, events);
      Flatten(DataPayloads(p.messages)) + Flatten(p.agg.dataList) != Flatten(a.dataList) + Flatten(Blocks(events))
  {
    var p := PublishAllAsWritten(a, stack, events);
    var init := events[..stack];
    StackCycle(a, stack, events);
    HeaderedPayloads(Flatten(Blocks(init)), events[stack].1);
    var lines := Flatten(Blocks(init));
    assert Flatten([lines]) == Flatten([lines][..0]) + lines;
    assert events[..|events| - 1] == init;
    FlattenAppend(Blocks(init), events[stack].0);
    assert a.dataList == [];
  }
}
