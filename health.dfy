/**
 * The health verdict of a node (NodeHealthService.CheckHealth): whether the
 * node is healthy, and the ordered list of messages that explain why.
 *
 * The inputs the service reads from the RPC modules and the block processor
 * (peer count, syncing state, whether blocks are being processed and
 * produced within the configured intervals) are parameters here.
 */
module Health {

  /** One message of a health report; the text of each is fixed apart from the data it carries. */
  datatype Message =
    | StillSyncing(currentBlock: int, highestBlock: int)  // "Still syncing"
    | FullySynced                                          // "Fully synced"
    | NoPeers                                              // "Node is not connected to any peers"
    | Peers(count: int)                                    // "Peers: {count}"
    | StoppedProcessing                                    // "Stopped processing blocks"
    | StoppedProducing                                     // "Stopped producing blocks"

  /** What CheckHealth reads: eth_syncing, net_peerCount and the processor's two interval checks. */
  datatype Observation = Observation(
    isMining: bool,
    isSyncing: bool,
    currentBlock: int,
    highestBlock: int,
    netPeerCount: int,
    isProcessingBlocks: bool,
    isProducingBlocks: bool)

  datatype Report = Report(healthy: bool, messages: seq<Message>)

  /** A message that names a reason for being unhealthy. */
  predicate IsProblem(m: Message)
  {
    m.NoPeers? || m.StoppedProcessing? || m.StoppedProducing?
  }

  // ---------------------------------------------------------------------
  // The helpers, each appending to the message list
  // ---------------------------------------------------------------------

  /** CheckPeers: always one message, the peer count or "no peers"; the node has peers iff the count is positive. */
  method CheckPeers(messages: seq<Message>, netPeerCount: int) returns (messages': seq<Message>, hasPeers: bool)
    ensures hasPeers <==> netPeerCount > 0
    ensures |messages'| == |messages| + 1 && messages'[..|messages|] == messages
    ensures messages'[|messages|] == if hasPeers then Peers(netPeerCount) else NoPeers
  {
    hasPeers := netPeerCount > 0;
    if !hasPeers {
      messages' := messages + [NoPeers];
    } else {
      messages' := messages + [Peers(netPeerCount)];
    }
  }

  /** IsProducingBlocks: a message only when production has stopped; answers its input. */
  method IsProducingBlocks(messages: seq<Message>, producingBlocks: bool) returns (messages': seq<Message>, producing: bool)
    ensures producing == producingBlocks
    ensures messages' == messages + (if producingBlocks then [] else [StoppedProducing])
  {
    messages' := messages;
    if !producingBlocks {
      messages' := messages' + [StoppedProducing];
    }
    producing := producingBlocks;
  }

  /** IsProcessingBlocks: a message only when processing has stopped; answers its input. */
  method IsProcessingBlocks(messages: seq<Message>, processingBlocks: bool) returns (messages': seq<Message>, processing: bool)
    ensures processing == processingBlocks
    ensures messages' == messages + (if processingBlocks then [] else [StoppedProcessing])
  {
    messages' := messages;
    if !processingBlocks {
      messages' := messages' + [StoppedProcessing];
    }
    processing := processingBlocks;
  }

  // ---------------------------------------------------------------------
  // The verdict table
  // ---------------------------------------------------------------------

  /**
   * The verdict table, stated by condition rather than by branch: a node that
   * syncs without mining is never healthy; otherwise it needs peers, a synced
   * node must be processing blocks, and a synced miner must also be producing.
   * Messages: the sync state, the peer line, then one line per stopped activity
   * that is checked in that state.
   */
  function Expected(o: Observation): Report
  {
    var checksProcessing := !o.isSyncing;
    var checksProducing := o.isMining && !o.isSyncing;
    Report(
      !(!o.isMining && o.isSyncing)
        && o.netPeerCount > 0
        && (checksProcessing ==> o.isProcessingBlocks)
        && (checksProducing ==> o.isProducingBlocks),
      [if o.isSyncing then StillSyncing(o.currentBlock, o.highestBlock) else FullySynced]
        + [if o.netPeerCount > 0 then Peers(o.netPeerCount) else NoPeers]
        + (if checksProcessing && !o.isProcessingBlocks then [StoppedProcessing] else [])
        + (if checksProducing && !o.isProducingBlocks then [StoppedProducing] else []))
  }

  /** CheckHealth: the four branches on (mining, syncing), each appending its messages in turn. */
  method CheckHealth(o: Observation) returns (r: Report)
    ensures r == Expected(o)
  {
    var messages: seq<Message> := [];
    var healthy := false;
    if !o.isMining && o.isSyncing {
      healthy := false;
      messages := messages + [StillSyncing(o.currentBlock, o.highestBlock)];
      var peers;
      messages, peers := CheckPeers(messages, o.netPeerCount);
    } else if !o.isMining && !o.isSyncing {
      messages := messages + [FullySynced];
      var peers, processing;
      messages, peers := CheckPeers(messages, o.netPeerCount);
      messages, processing := IsProcessingBlocks(messages, o.isProcessingBlocks);
      healthy := peers && processing;
    } else if o.isMining && o.isSyncing {
      messages := messages + [StillSyncing(o.currentBlock, o.highestBlock)];
      messages, healthy := CheckPeers(messages, o.netPeerCount);
    } else if o.isMining && !o.isSyncing {
      messages := messages + [FullySynced];
      var peers, processing, producing;
      messages, peers := CheckPeers(messages, o.netPeerCount);
      messages, processing := IsProcessingBlocks(messages, o.isProcessingBlocks);
      messages, producing := IsProducingBlocks(messages, o.isProducingBlocks);
      healthy := peers && processing && producing;
    }
    r := Report(healthy, messages);
  }

  // ---------------------------------------------------------------------
  // Properties of the verdict
  // ---------------------------------------------------------------------

  /** A node that syncs without mining is unhealthy whatever its peers; it reports syncing, then its peers. */
  lemma SyncingNonMinerUnhealthy(o: Observation)
    requires !o.isMining && o.isSyncing
    ensures !Expected(o).healthy
    ensures Expected(o).messages
            == [StillSyncing(o.currentBlock, o.highestBlock), if o.netPeerCount > 0 then Peers(o.netPeerCount) else NoPeers]
  {
  }

  /** The healthy cases, one per branch of the table. */
  lemma HealthyCases(o: Observation)
    ensures !o.isMining && !o.isSyncing ==> (Expected(o).healthy <==> o.netPeerCount > 0 && o.isProcessingBlocks)
    ensures o.isMining && o.isSyncing ==> (Expected(o).healthy <==> o.netPeerCount > 0)
    ensures o.isMining && !o.isSyncing
            ==> (Expected(o).healthy <==> o.netPeerCount > 0 && o.isProcessingBlocks && o.isProducingBlocks)
  {
  }

  /**
   * Every unhealthy verdict is explained by the report: either the node is a
   * syncing non-miner (its first message says it is syncing) or some message
   * names a problem; and a healthy report names no problem.
   */
  lemma VerdictExplained(o: Observation)
    ensures var r := Expected(o);
            r.healthy <==> !(!o.isMining && r.messages[0].StillSyncing?)
                           && forall k :: 0 <= k < |r.messages| ==> !IsProblem(r.messages[k])
  {
    var r := Expected(o);
    var head := [if o.isSyncing then StillSyncing(o.currentBlock, o.highestBlock) else FullySynced]
                + [if o.netPeerCount > 0 then Peers(o.netPeerCount) else NoPeers];
    var processing := if !o.isSyncing && !o.isProcessingBlocks then [StoppedProcessing] else [];
    var producing := if o.isMining && !o.isSyncing && !o.isProducingBlocks then [StoppedProducing] else [];
    assert r.messages == head + processing + producing;
    if !r.healthy && (o.isMining || !o.isSyncing) {
      if o.netPeerCount <= 0 {
        assert IsProblem(r.messages[1]);
      } else if !o.isSyncing && !o.isProcessingBlocks {
        assert IsProblem(r.messages[2]);
      } else {
        assert IsProblem(r.messages[|r.messages| - 1]);
      }
    }
  }

  /** The report always starts with the sync state and the peer line, and holds at most four messages. */
  lemma ReportShape(o: Observation)
    ensures var m := Expected(o).messages;
            2 <= |m| <= 4 && (m[0].StillSyncing? <==> o.isSyncing) && (m[1].Peers? || m[1].NoPeers?)
  {
  }

  // ---------------------------------------------------------------------
  // Interval hints
  // ---------------------------------------------------------------------

  datatype SealEngine = Ethash | Clique | AuRa | NethDev | NoSeal

  datatype Option<T> = None | Some(value: T)

  const TwoTo64: nat := 0x1_0000_0000_0000_0000

  /**
   * GetBlockProcessorIntervalHint, in seconds: a quarter-minute block time
   * times four for Ethash, four Clique periods, ten for AuRa, none otherwise.
   * The Clique product is unsigned 64-bit and wraps.
   */
  function ProcessorIntervalHint(engine: SealEngine, cliquePeriod: nat): (r: Option<nat>)
    requires cliquePeriod < TwoTo64
    ensures r.Some? <==> engine in {Ethash, Clique, AuRa}
    ensures r.Some? ==> r.value < TwoTo64
    ensures engine == Clique && cliquePeriod < TwoTo64 / 4 ==> r == Some(4 * cliquePeriod)
  {
    match engine
    case Ethash => Some(15 * 4)
    case Clique => Some((cliquePeriod * 4) % TwoTo64)
    case AuRa => Some(10)
    case _ => None
  }

  /** GetBlockProducerIntervalHint: ten seconds for AuRa, none otherwise. */
  function ProducerIntervalHint(engine: SealEngine): (r: Option<nat>)
    ensures r.Some? <==> engine == AuRa
  {
    if engine == AuRa then Some(10) else None
  }

  /** Where a producer hint exists, the processor hint exists and is the same. */
  lemma ProducerHintAgrees(engine: SealEngine, cliquePeriod: nat)
    requires cliquePeriod < TwoTo64
    ensures ProducerIntervalHint(engine).Some?
            ==> ProcessorIntervalHint(engine, cliquePeriod) == ProducerIntervalHint(engine)
  {
  }
}
