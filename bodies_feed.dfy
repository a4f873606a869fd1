/**
 * The fast-bodies sync feed (SimpleBodiesSyncFeed): it builds a request from
 * the block infos the status tracker hands out, and on a response inserts
 * every body that matches its header, requeues the rest, reports a protocol
 * breach once a body is invalid, and adapts the request size.
 *
 * The status tracker (FastStatusList) is kept abstract: a ghost map from block
 * number to status that MarkInserted and MarkUnknown set, and a frontier
 * (LowestInsertWithoutGaps) whose movement is not modelled. Hashing of
 * transactions and ommers is done outside: a body carries the roots computed
 * from it, and an info carries the roots of the header it names.
 */
module BodiesFeed {

  const MinRequestSize: int := 4
  const MaxRequestSize: int := 1024

  datatype Option<T> = None | Some(value: T)

  /** A claimed block, with the transaction root and ommers hash of the header its hash names. */
  datatype BlockInfo = BlockInfo(blockNumber: nat, blockHash: nat, txRoot: nat, ommersHash: nat)

  /** A block body, by the transaction root and ommers hash computed from its contents. */
  datatype Body = Body(txRoot: nat, ommersHash: nat)

  datatype Block = Block(number: nat, hash: nat, body: Body)

  /** The root comparison in TryPrepareBlock: as written, or as evidently intended. */
  datatype RootRule = AsWritten | Intended

  /**
   * TryPrepareBlock. As written, the two "valid" flags hold mismatches, so a
   * body is refused only when both its transaction root and its ommers hash
   * differ from the header's; as intended, it is accepted only when both agree.
   */
  function TryPrepareBlock(rule: RootRule, info: BlockInfo, body: Body): (r: Option<Block>)
    ensures r.Some? ==> r.value == Block(info.blockNumber, info.blockHash, body)
    ensures rule == AsWritten ==> (r.Some? <==> body.txRoot == info.txRoot || body.ommersHash == info.ommersHash)
    ensures rule == Intended ==> (r.Some? <==> body.txRoot == info.txRoot && body.ommersHash == info.ommersHash)
  {
    var txRootMismatch := body.txRoot != info.txRoot;
    var ommersMismatch := body.ommersHash != info.ommersHash;
    var refused := match rule
      case AsWritten => txRootMismatch && ommersMismatch
      case Intended => txRootMismatch || ommersMismatch;
    if refused then None else Some(Block(info.blockNumber, info.blockHash, body))
  }

  /** A body whose transactions match the header but whose ommers do not is inserted as written and refused as intended. */
  lemma HalfMatchingBodyAccepted(info: BlockInfo, body: Body)
    requires info == BlockInfo(1, 7, 10, 20) && body == Body(10, 21)
    ensures TryPrepareBlock(AsWritten, info, body).Some?
    ensures TryPrepareBlock(Intended, info, body).None?
  {
  }

  /** Whatever the rule, a body that matches its header in both roots is accepted. */
  lemma MatchingBodyAccepted(rule: RootRule, info: BlockInfo, body: Body)
    requires body.txRoot == info.txRoot && body.ommersHash == info.ommersHash
    ensures TryPrepareBlock(rule, info, body) == Some(Block(info.blockNumber, info.blockHash, body))
  {
  }

  // ---------------------------------------------------------------------
  // What happens to each claimed block
  // ---------------------------------------------------------------------

  /** The fate of one claimed block: inserted, requeued for want of a body, or requeued as a protocol breach. */
  datatype Verdict = Insert(block: Block) | Missing(number: nat) | Breach(number: nat)

  function VerdictNumber(v: Verdict): nat
  {
    match v
    case Insert(b) => b.number
    case Missing(n) => n
    case Breach(n) => n
  }

  /** The body answering the i-th info: the response's i-th entry, none past its end. */
  function BodyAt(response: seq<Option<Body>>, i: nat): Option<Body>
  {
    if i < |response| then response[i] else None
  }

  /**
   * The fate of one claimed block: without a body it is missing; with one, it
   * is inserted if no breach has been seen and the body matches, and is a
   * breach otherwise.
   */
  function VerdictFor(rule: RootRule, info: BlockInfo, body: Option<Body>, breached: bool): (v: Verdict)
    ensures VerdictNumber(v) == info.blockNumber
    ensures v.Insert? <==> body.Some? && !breached && TryPrepareBlock(rule, info, body.value).Some?
    ensures v.Missing? <==> body.None?
  {
    match body
    case None => Missing(info.blockNumber)
    case Some(b) =>
      if !breached && TryPrepareBlock(rule, info, b).Some? then Insert(TryPrepareBlock(rule, info, b).value)
      else Breach(info.blockNumber)
  }

  /**
   * The verdicts of the insertion loop from info `i`, given whether a breach
   * has been seen. An empty slot ends the list: the loop dereferences it and
   * throws.
   */
  function VerdictsFrom(rule: RootRule, infos: seq<Option<BlockInfo>>, response: seq<Option<Body>>, i: nat, breached: bool)
    : (r: seq<Verdict>)
    requires i <= |infos|
    decreases |infos| - i
  {
    if i == |infos| || infos[i].None? then []
    else
      var v := VerdictFor(rule, infos[i].value, BodyAt(response, i), breached);
      [v] + VerdictsFrom(rule, infos, response, i + 1, breached || v.Breach?)
  }

  /** The blocks inserted, in order. */
  function InsertedBlocks(vs: seq<Verdict>): seq<Block>
  {
    if vs == [] then []
    else InsertedBlocks(vs[..|vs| - 1]) + (if vs[|vs| - 1].Insert? then [vs[|vs| - 1].block] else [])
  }

  function CountInserted(vs: seq<Verdict>): nat
  {
    if vs == [] then 0 else CountInserted(vs[..|vs| - 1]) + (if vs[|vs| - 1].Insert? then 1 else 0)
  }

  function CountBreaches(vs: seq<Verdict>): nat
  {
    if vs == [] then 0 else CountBreaches(vs[..|vs| - 1]) + (if vs[|vs| - 1].Breach? then 1 else 0)
  }

  /**
   * The breach report the loop makes at the empty slot ending the verdicts
   * `vs`: once a breach has been seen, an arrived body there is reported
   * before the missing info is dereferenced.
   */
  function ReportAtFault(vs: seq<Verdict>, response: seq<Option<Body>>): (n: nat)
    ensures n <= 1
    ensures n == 1 <==> CountBreaches(vs) > 0 && BodyAt(response, |vs|).Some?
  {
    if CountBreaches(vs) > 0 && BodyAt(response, |vs|).Some? then 1 else 0
  }

  datatype BlockStatus = Inserted | Unknown

  /** The tracker's statuses after the verdicts: MarkInserted for an insert, MarkUnknown otherwise, later marks winning. */
  function Marked(status: map<nat, BlockStatus>, vs: seq<Verdict>): map<nat, BlockStatus>
  {
    if vs == [] then status
    else
      var last := vs[|vs| - 1];
      Marked(status, vs[..|vs| - 1])[VerdictNumber(last) := if last.Insert? then Inserted else Unknown]
  }

  /** The verdicts end exactly at the first missing info, or at the end of the batch. */
  lemma {:induction false} VerdictsLength(rule: RootRule, infos: seq<Option<BlockInfo>>, response: seq<Option<Body>>, i: nat, breached: bool)
    requires i <= |infos|
    ensures var vs := VerdictsFrom(rule, infos, response, i, breached);
            i + |vs| <= |infos| && (i + |vs| == |infos| || infos[i + |vs|].None?)
    decreases |infos| - i
  {
    if i < |infos| && infos[i].Some? {
      var v := VerdictFor(rule, infos[i].value, BodyAt(response, i), breached);
      VerdictsLength(rule, infos, response, i + 1, breached || v.Breach?);
    }
  }

  /** The k-th verdict from info `i` is about info `i + k`, which is present. */
  lemma {:induction false} VerdictAt(rule: RootRule, infos: seq<Option<BlockInfo>>, response: seq<Option<Body>>, i: nat, breached: bool, k: nat)
    requires i <= |infos|
    requires k < |VerdictsFrom(rule, infos, response, i, breached)|
    ensures i + k < |infos| && infos[i + k].Some?
    ensures VerdictNumber(VerdictsFrom(rule, infos, response, i, breached)[k]) == infos[i + k].value.blockNumber
    decreases k
  {
    var v := VerdictFor(rule, infos[i].value, BodyAt(response, i), breached);
    if k > 0 {
      VerdictAt(rule, infos, response, i + 1, breached || v.Breach?, k - 1);
    }
  }

  /** Each claimed block gets one verdict, in order and under its own number, up to the first missing info. */
  lemma OneVerdictPerInfo(rule: RootRule, infos: seq<Option<BlockInfo>>, response: seq<Option<Body>>, i: nat, breached: bool)
    requires i <= |infos|
    ensures var vs := VerdictsFrom(rule, infos, response, i, breached);
            i + |vs| <= |infos| && (i + |vs| == |infos| || infos[i + |vs|].None?)
    ensures var vs := VerdictsFrom(rule, infos, response, i, breached);
            forall j :: i <= j < i + |vs| ==> infos[j].Some? && VerdictNumber(vs[j - i]) == infos[j].value.blockNumber
  {
    VerdictsLength(rule, infos, response, i, breached);
    var vs := VerdictsFrom(rule, infos, response, i, breached);
    forall j | i <= j < i + |vs|
      ensures infos[j].Some? && VerdictNumber(vs[j - i]) == infos[j].value.blockNumber
    {
      VerdictAt(rule, infos, response, i, breached, j - i);
    }
  }

  /** After a breach, the k-th verdict inserts nothing and is a breach exactly when its body arrived. */
  lemma {:induction false} StickyAt(rule: RootRule, infos: seq<Option<BlockInfo>>, response: seq<Option<Body>>, i: nat, k: nat)
    requires i <= |infos|
    requires k < |VerdictsFrom(rule, infos, response, i, true)|
    ensures var v := VerdictsFrom(rule, infos, response, i, true)[k];
            !v.Insert? && (v.Breach? <==> BodyAt(response, i + k).Some?)
    decreases k
  {
    if k > 0 {
      StickyAt(rule, infos, response, i + 1, k - 1);
    }
  }

  /** Once a body has been refused, every later block with a body is refused too. */
  lemma BreachIsSticky(rule: RootRule, infos: seq<Option<BlockInfo>>, response: seq<Option<Body>>, i: nat)
    requires i <= |infos|
    ensures var vs := VerdictsFrom(rule, infos, response, i, true);
            forall k :: 0 <= k < |vs| ==> !vs[k].Insert? && (vs[k].Breach? <==> BodyAt(response, i + k).Some?)
  {
    var vs := VerdictsFrom(rule, infos, response, i, true);
    forall k | 0 <= k < |vs|
      ensures !vs[k].Insert? && (vs[k].Breach? <==> BodyAt(response, i + k).Some?)
    {
      StickyAt(rule, infos, response, i, k);
    }
  }

  /** The first verdict from a filled slot, then the rest. */
  lemma VerdictsUnfold(rule: RootRule, infos: seq<Option<BlockInfo>>, response: seq<Option<Body>>, i: nat, breached: bool)
    requires i < |infos| && infos[i].Some?
    ensures var v := VerdictFor(rule, infos[i].value, BodyAt(response, i), breached);
            VerdictsFrom(rule, infos, response, i, breached) == [v] + VerdictsFrom(rule, infos, response, i + 1, breached || v.Breach?)
  {
  }

  /** One step of the insertion loop on the verdicts: the next verdict moves from the rest to those done. */
  lemma AdvanceVerdicts(rule: RootRule, infos: seq<Option<BlockInfo>>, response: seq<Option<Body>>, i: nat, breached: bool,
                        done: seq<Verdict>, all: seq<Verdict>)
    requires i < |infos| && infos[i].Some?
    requires all == done + VerdictsFrom(rule, infos, response, i, breached)
    requires breached <==> CountBreaches(done) > 0
    ensures var v := VerdictFor(rule, infos[i].value, BodyAt(response, i), breached);
            && all == (done + [v]) + VerdictsFrom(rule, infos, response, i + 1, breached || v.Breach?)
            && (breached || v.Breach? <==> CountBreaches(done + [v]) > 0)
  {
    var v := VerdictFor(rule, infos[i].value, BodyAt(response, i), breached);
    VerdictsUnfold(rule, infos, response, i, breached);
    assert done + ([v] + VerdictsFrom(rule, infos, response, i + 1, breached || v.Breach?))
           == (done + [v]) + VerdictsFrom(rule, infos, response, i + 1, breached || v.Breach?);
    InsertedBlocksAppend(done, v);
  }

  lemma InsertedBlocksAppend(vs: seq<Verdict>, v: Verdict)
    ensures InsertedBlocks(vs + [v]) == InsertedBlocks(vs) + (if v.Insert? then [v.block] else [])
    ensures CountInserted(vs + [v]) == CountInserted(vs) + (if v.Insert? then 1 else 0)
    ensures CountBreaches(vs + [v]) == CountBreaches(vs) + (if v.Breach? then 1 else 0)
  {
    assert (vs + [v])[..|vs|] == vs;
  }

  lemma MarkedAppend(status: map<nat, BlockStatus>, vs: seq<Verdict>, v: Verdict)
    ensures Marked(status, vs + [v]) == Marked(status, vs)[VerdictNumber(v) := if v.Insert? then Inserted else Unknown]
  {
    assert (vs + [v])[..|vs|] == vs;
  }

  /**
   * A refused body followed by an empty slot whose body arrived: two breach
   * reports, the second made just before the fault.
   */
  lemma FaultAfterBreachReportsTwice(info: BlockInfo, bad: Body, other: Body)
    requires bad.txRoot != info.txRoot && bad.ommersHash != info.ommersHash
    ensures var vs := VerdictsFrom(AsWritten, [Some(info), None], [Some(bad), Some(other)], 0, false);
            |vs| == 1 && CountBreaches(vs) + ReportAtFault(vs, [Some(bad), Some(other)]) == 2
  {
    var infos, response := [Some(info), None], [Some(bad), Some(other)];
    var vs := VerdictsFrom(AsWritten, infos, response, 0, false);
    assert VerdictFor(AsWritten, info, Some(bad), false) == Breach(info.blockNumber);
    assert VerdictsFrom(AsWritten, infos, response, 1, true) == [];
    assert vs == [Breach(info.blockNumber)];
    assert vs[..0] == [];
  }

  /** The breach reports of one response, the one before a fault included, are at most one per claimed slot. */
  lemma ReportsAtMostOnePerSlot(rule: RootRule, infos: seq<Option<BlockInfo>>, response: seq<Option<Body>>)
    ensures var vs := VerdictsFrom(rule, infos, response, 0, false);
            CountBreaches(vs) + (if |vs| < |infos| then ReportAtFault(vs, response) else 0) <= |infos|
  {
    var vs := VerdictsFrom(rule, infos, response, 0, false);
    VerdictsLength(rule, infos, response, 0, false);
    CountsBounded(vs);
  }

  /** Every verdict is counted once: inserted plus breaches never exceeds the verdicts. */
  lemma {:induction false} CountsBounded(vs: seq<Verdict>)
    ensures CountInserted(vs) + CountBreaches(vs) <= |vs|
    ensures CountInserted(vs) == |InsertedBlocks(vs)|
    decreases |vs|
  {
    if vs != [] {
      CountsBounded(vs[..|vs| - 1]);
    }
  }

  /** A block number that only one verdict carries ends Inserted if that verdict inserted it, Unknown otherwise. */
  lemma {:induction false} MarkedStatus(status: map<nat, BlockStatus>, vs: seq<Verdict>, k: nat)
    requires k < |vs|
    requires forall m :: 0 <= m < |vs| && m != k ==> VerdictNumber(vs[m]) != VerdictNumber(vs[k])
    ensures var n := VerdictNumber(vs[k]);
            n in Marked(status, vs) && Marked(status, vs)[n] == (if vs[k].Insert? then Inserted else Unknown)
    decreases |vs|
  {
    if k < |vs| - 1 {
      var init := vs[..|vs| - 1];
      assert init[k] == vs[k];
      forall m | 0 <= m < |init| && m != k
        ensures VerdictNumber(init[m]) != VerdictNumber(init[k])
      {
        assert init[m] == vs[m];
      }
      MarkedStatus(status, init, k);
    }
  }

  // ---------------------------------------------------------------------
  // The request size
  // ---------------------------------------------------------------------

  /**
   * The request size after a response: doubled (capped at 1024) when every
   * claimed block was inserted, then halved (floored at 4) when none was. An
   * empty batch meets both conditions.
   */
  function NextRequestSize(size: int, inserted: nat, claimed: nat): (r: int)
    ensures MinRequestSize <= size <= MaxRequestSize ==> MinRequestSize <= r <= MaxRequestSize
    ensures 0 < inserted < claimed ==> r == size
  {
    var grown := if inserted == claimed then (if 1024 <= size * 2 then 1024 else size * 2) else size;
    if inserted == 0 then (if 4 >= grown / 2 then 4 else grown / 2) else grown
  }

  /** Growth and shrinkage: a full response doubles up to 1024, an empty one halves down to 4. */
  lemma RequestSizeAdapts(size: int, inserted: nat, claimed: nat)
    requires MinRequestSize <= size <= MaxRequestSize
    ensures 0 < inserted == claimed ==> NextRequestSize(size, inserted, claimed) == if 2 * size <= 1024 then 2 * size else 1024
    ensures inserted == 0 < claimed ==> NextRequestSize(size, inserted, claimed) == if size / 2 >= 4 then size / 2 else 4
    ensures claimed == 0 ==> NextRequestSize(size, 0, claimed) == if size <= 512 then size else 512
  {
  }

  // ---------------------------------------------------------------------
  // The tracker and the feed
  // ---------------------------------------------------------------------

  /** The status tracker, abstract: which blocks are inserted or to be fetched again. */
  class FastStatusList {
    ghost var status: map<nat, BlockStatus>
    var lowestInsertWithoutGaps: int

    constructor (lowest: int)
      ensures status == map[] && lowestInsertWithoutGaps == lowest
    {
      status := map[];
      lowestInsertWithoutGaps := lowest;
    }

    /** Records that a block was inserted; how the frontier moves is not modelled. */
    method MarkInserted(number: nat)
      modifies this
      ensures status == old(status)[number := Inserted]
    {
      status := status[number := Inserted];
      lowestInsertWithoutGaps := *;
    }

    /** Puts a block back to be fetched again. */
    method MarkUnknown(number: nat)
      modifies this
      ensures status == old(status)[number := Unknown]
    {
      status := status[number := Unknown];
      lowestInsertWithoutGaps := *;
    }
  }

  /** A request: the claimed block infos (a `None` is an empty slot) and the bodies that came back. */
  datatype Batch = Batch(infos: seq<Option<BlockInfo>>, response: seq<Option<Body>>)

  /** What PrepareRequest yields: no batch, a batch, or an index fault on an empty claim. */
  datatype Prepared = NoBatch | Ready(batch: Batch) | EmptyClaim

  datatype SyncResponseHandlingResult = OK | NoProgress | Faulted

  class SimpleBodiesSyncFeed {
    var requestSize: int
    var finished: bool
    /** The blocks inserted into the block tree, in order. */
    var inserted: seq<Block>
    var breachReports: nat
    const downloadBodies: bool
    const tracker: FastStatusList

    constructor (downloadBodies: bool, maxBodyFetch: int, tracker: FastStatusList)
      ensures this.downloadBodies == downloadBodies && this.tracker == tracker
      ensures requestSize == maxBodyFetch && !finished && inserted == [] && breachReports == 0
    {
      this.downloadBodies := downloadBodies;
      this.tracker := tracker;
      requestSize := maxBodyFetch;
      finished := false;
      inserted := [];
      breachReports := 0;
    }

    /** Whether to build another batch; when not, the feed finishes. */
    method ShouldBuildANewBatch() returns (build: bool)
      modifies this
      ensures build <==> downloadBodies && tracker.lowestInsertWithoutGaps != 1
      ensures finished == (old(finished) || !build)
      ensures requestSize == old(requestSize) && inserted == old(inserted) && breachReports == old(breachReports)
    {
      var allBodiesDownloaded := tracker.lowestInsertWithoutGaps == 1;
      var shouldFinish := !downloadBodies || allBodiesDownloaded;
      if shouldFinish {
        finished := true;
        return false;
      }
      return true;
    }

    /**
     * PrepareRequest, given the infos the tracker claims for the current
     * request size: a batch only when one should be built and the first slot
     * is filled.
     */
    method PrepareRequest(claimed: seq<Option<BlockInfo>>) returns (r: Prepared)
      modifies this
      ensures var build := downloadBodies && tracker.lowestInsertWithoutGaps != 1;
              (r.Ready? <==> build && |claimed| > 0 && claimed[0].Some?)
              && (r.EmptyClaim? <==> build && |claimed| == 0)
      ensures r.Ready? ==> r.batch == Batch(claimed, [])
      ensures finished == (old(finished) || !(downloadBodies && tracker.lowestInsertWithoutGaps != 1))
      ensures requestSize == old(requestSize) && inserted == old(inserted) && breachReports == old(breachReports)
    {
      r := NoBatch;
      var build := ShouldBuildANewBatch();
      if build {
        if |claimed| == 0 {
          return EmptyClaim;
        }
        if claimed[0].Some? {
          r := Ready(Batch(claimed, []));
        }
      }
    }

    /**
     * InsertBodies: each claimed block is inserted and marked, or marked
     * unknown (with a breach report when its body was refused); then the
     * request size adapts. Returns the number inserted, or faults at the
     * first empty slot, keeping what was done before it.
     */
    method InsertBodies(rule: RootRule, batch: Batch) returns (faulted: bool, count: nat)
      modifies this, tracker
      ensures var vs := VerdictsFrom(rule, batch.infos, batch.response, 0, false);
              && inserted == old(inserted) + InsertedBlocks(vs)
              && tracker.status == Marked(old(tracker.status), vs)
              && breachReports == old(breachReports) + CountBreaches(vs) + (if faulted then ReportAtFault(vs, batch.response) else 0)
              && (faulted <==> |vs| < |batch.infos|)
              && (!faulted ==> count == CountInserted(vs) && requestSize == NextRequestSize(old(requestSize), count, |batch.infos|))
              && (faulted ==> requestSize == old(requestSize))
      ensures finished == old(finished)
    {
      faulted, count := SettleAll(rule, batch);
      if !faulted {
        requestSize := NextRequestSize(requestSize, count, |batch.infos|);
      }
    }

    /** The feed and the tracker after the verdicts `done`, from the given starting state. */
    ghost predicate Accounts(done: seq<Verdict>, inserted0: seq<Block>, status0: map<nat, BlockStatus>, breaches0: nat, count: nat)
      reads this, tracker
    {
      && inserted == inserted0 + InsertedBlocks(done)
      && tracker.status == Marked(status0, done)
      && breachReports == breaches0 + CountBreaches(done)
      && count == CountInserted(done)
    }

    /**
     * The insertion loop of InsertBodies: settles the blocks up to the first
     * empty slot, where it faults.
     */
    method SettleAll(rule: RootRule, batch: Batch) returns (faulted: bool, count: nat)
      modifies this, tracker
      ensures var vs := VerdictsFrom(rule, batch.infos, batch.response, 0, false);
              && inserted == old(inserted) + InsertedBlocks(vs)
              && tracker.status == Marked(old(tracker.status), vs)
              && breachReports == old(breachReports) + CountBreaches(vs) + (if faulted then ReportAtFault(vs, batch.response) else 0)
              && (faulted <==> |vs| < |batch.infos|)
              && count == CountInserted(vs)
      ensures requestSize == old(requestSize) && finished == old(finished)
    {
      var settled, breached;
      settled, breached, count := SettleUntilGap(rule, batch);
      faulted := settled < |batch.infos|;
      // At an empty slot the breach check short-circuits, so an arrived body is
      // reported before the missing info is read.
      if faulted && breached && BodyAt(batch.response, settled).Some? {
        ReportBreach();
      }
    }

    /** The passes of the insertion loop over the filled slots before the first empty one. */
    method SettleUntilGap(rule: RootRule, batch: Batch) returns (settled: nat, breached: bool, count: nat)
      modifies this, tracker
      ensures var vs := VerdictsFrom(rule, batch.infos, batch.response, 0, false);
              && settled == |vs|
              && (breached <==> CountBreaches(vs) > 0)
              && Accounts(vs, old(inserted), old(tracker.status), old(breachReports), count)
      ensures requestSize == old(requestSize) && finished == old(finished)
    {
      breached := false;
      count := 0;
      ghost var done: seq<Verdict> := [];
      ghost var all := VerdictsFrom(rule, batch.infos, batch.response, 0, false);
      var i := 0;
      while i < |batch.infos| && batch.infos[i].Some?
        invariant 0 <= i <= |batch.infos|
        invariant all == done + VerdictsFrom(rule, batch.infos, batch.response, i, breached)
        invariant |done| == i
        invariant Accounts(done, old(inserted), old(tracker.status), old(breachReports), count)
        invariant breached <==> CountBreaches(done) > 0
        invariant requestSize == old(requestSize) && finished == old(finished)
      {
        var info := batch.infos[i].value;
        var body := BodyAt(batch.response, i);
        var v := SettleBlock(rule, info, body, breached);
        AdvanceVerdicts(rule, batch.infos, batch.response, i, breached, done, all);
        InsertedBlocksAppend(done, v);
        MarkedAppend(old(tracker.status), done, v);
        breached := breached || v.Breach?;
        if v.Insert? {
          count := count + 1;
        }
        done := done + [v];
        i := i + 1;
      }
      assert VerdictsFrom(rule, batch.infos, batch.response, i, breached) == [];
      assert all == done;
      settled := i;
    }

    /** ReportBreachOfProtocol against the peer that sent the response. */
    method ReportBreach()
      modifies this
      ensures breachReports == old(breachReports) + 1
      ensures requestSize == old(requestSize) && finished == old(finished) && inserted == old(inserted)
    {
      breachReports := breachReports + 1;
    }

    /**
     * One pass of the insertion loop: a block with a matching body and no
     * earlier breach is inserted and marked; a refused body is reported and
     * marked unknown; a missing body is marked unknown.
     */
    method SettleBlock(rule: RootRule, info: BlockInfo, body: Option<Body>, breached: bool) returns (v: Verdict)
      modifies this, tracker
      ensures v == VerdictFor(rule, info, body, breached)
      ensures inserted == old(inserted) + (if v.Insert? then [v.block] else [])
      ensures tracker.status == old(tracker.status)[VerdictNumber(v) := if v.Insert? then Inserted else Unknown]
      ensures breachReports == old(breachReports) + (if v.Breach? then 1 else 0)
      ensures requestSize == old(requestSize) && finished == old(finished)
    {
      if body.Some? {
        var block := TryPrepareBlock(rule, info, body.value);
        var isValid := !breached && block.Some?;
        if isValid {
          inserted := inserted + [block.value];
          tracker.MarkInserted(block.value.number);
          v := Insert(block.value);
        } else {
          ReportBreach();
          tracker.MarkUnknown(info.blockNumber);
          v := Breach(info.blockNumber);
        }
      } else {
        tracker.MarkUnknown(info.blockNumber);
        v := Missing(info.blockNumber);
      }
    }

    /** HandleResponse: no progress exactly when nothing was inserted; a fault leaves the request size alone. */
    method HandleResponse(rule: RootRule, batch: Batch) returns (result: SyncResponseHandlingResult)
      modifies this, tracker
      ensures var vs := VerdictsFrom(rule, batch.infos, batch.response, 0, false);
              && (result == Faulted <==> |vs| < |batch.infos|)
              && (result == NoProgress <==> |vs| == |batch.infos| && CountInserted(vs) == 0)
              && inserted == old(inserted) + InsertedBlocks(vs)
              && tracker.status == Marked(old(tracker.status), vs)
              && breachReports == old(breachReports) + CountBreaches(vs) + (if result == Faulted then ReportAtFault(vs, batch.response) else 0)
              && requestSize == (if result == Faulted then old(requestSize)
                                 else NextRequestSize(old(requestSize), CountInserted(vs), |batch.infos|))
      ensures finished == old(finished)
    {
      var faulted, added := InsertBodies(rule, batch);
      OneVerdictPerInfo(rule, batch.infos, batch.response, 0, false);
      if faulted {
        return Faulted;
      }
      result := if added == 0 then NoProgress else OK;
    }
  }
}
