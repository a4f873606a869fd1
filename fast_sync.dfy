/**
 * The sequential decision logic of the fast synchronizer (FastSynchronizer):
 * the batch-size controller, one iteration of the per-peer sync loop, and the
 * driver's decisions about when to sync, what to do with a finished session
 * and when to switch to node-data download.
 *
 * What the loop learns from outside (the peer's answer to a header request,
 * whether the first block's parent is known, the seal and header validators,
 * the block tree's answer to each suggestion, and when cancellation is
 * observed) is an `Environment` value. Headers stand for whole blocks: the
 * loop builds every block from its header alone and never asks for bodies.
 */
module FastSync {

  const MinBatchSize: int := 8
  const MaxBatchSize: int := 512
  const InitialBatchSize: int := 256
  /** The deepest the search for a common ancestor may go, twice the largest batch. */
  const MaxReorganizationLength: int := 2 * MaxBatchSize
  const IntMin: int := -0x8000_0000
  const IntMax: int := 0x7FFF_FFFF
  const TwoTo256: nat := 0x1_0000_0000_0000_0000_0000_0000_0000_0000_0000_0000_0000_0000_0000_0000_0000_0000

  datatype Option<T> = None | Some(value: T)

  /** A block header; hashes are opaque numbers. */
  datatype Header = Header(number: nat, hash: nat, parentHash: nat)

  /** The block tree's answer to SuggestBlock. */
  datatype AddBlockResult = Added | AlreadyKnown | CannotAccept | InvalidBlock | UnknownParent

  /** How the peer answered GetBlockHeaders. `None` entries are missing headers. */
  datatype Fetch = Headers(headers: seq<Option<Header>>) | Timeout | Faulted | Canceled

  /** Why a session fails; each is an exception thrown out of the sync loop. */
  datatype Failure =
    | NoCommonAncestor        // "Peer with inconsistent chain in sync"
    | EmptyHeaderList         // "Peer sent an empty header list"
    | InconsistentBlockList   // "Peer sent an inconsistent block list"
    | InvalidSeal             // "Peer sent a block with an invalid seal"
    | OrphanedBlocks          // "Peer sent orphaned blocks inside the batch"
    | InconsistentBatch       // "Peer sent an inconsistent batch of block headers"
    | InvalidBlockSent        // "Peer sent an invalid block"
    | HeadersUnavailable      // the header request faulted or timed out

  /** What one iteration leads to: another iteration from a new position, a clean return, or a failure. */
  datatype Step = Next(currentNumber: nat, ancestorLookupLevel: nat) | Return | Fail(reason: Failure)

  /**
   * Everything the iteration learns from outside. `respond(from, count)` is the
   * peer's answer to a request for `count` headers from `from`;
   * `suggest(i)` is the block tree's answer to the i-th block of the batch;
   * cancellation is observed by every check numbered `cancelAfter` or later.
   */
  datatype Environment = Environment(
    peerAhead: bool,
    cancelAfter: nat,
    respond: (nat, nat) -> Fetch,
    parentKnown: bool,
    sealValid: Header -> bool,
    headerValid: Header -> bool,
    suggest: nat -> AddBlockResult)

  /** Whether the cancellation check numbered `point` sees the cancellation. */
  predicate CancelSeen(env: Environment, point: nat)
  {
    point >= env.cancelAfter
  }

  // ---------------------------------------------------------------------
  // The batch-size controller
  // ---------------------------------------------------------------------

  /** The sizes the controller can hold: the powers of two from 8 to 512. */
  predicate IsBatchSize(s: int)
  {
    s in {8, 16, 32, 64, 128, 256, 512}
  }

  /** IncreaseBatchSize: double, capped at 512. */
  function Increased(s: int): (r: int)
    ensures r <= MaxBatchSize
    ensures s <= MaxBatchSize && s >= 0 ==> s <= r
    ensures IsBatchSize(s) ==> IsBatchSize(r)
  {
    if MaxBatchSize <= s * 2 then MaxBatchSize else s * 2
  }

  /** DecreaseBatchSize: halve, floored at 8. */
  function Decreased(s: int): (r: int)
    ensures r >= MinBatchSize
    ensures s >= MinBatchSize ==> r <= s
    ensures IsBatchSize(s) ==> IsBatchSize(r)
  {
    if MinBatchSize >= s / 2 then MinBatchSize else s / 2
  }

  /** Halving undoes a doubling that was not capped. */
  lemma DecreaseUndoesIncrease(s: int)
    requires IsBatchSize(s) && s < MaxBatchSize
    ensures Decreased(Increased(s)) == s
  {
  }

  /** Doubling undoes a halving that was not floored. */
  lemma IncreaseUndoesDecrease(s: int)
    requires IsBatchSize(s) && s > MinBatchSize
    ensures Increased(Decreased(s)) == s
  {
  }

  /** C#'s unchecked `++` on an int. */
  function Int32Increment(x: int): (r: int)
    requires IntMin <= x <= IntMax
    ensures IntMin <= r <= IntMax
    ensures x < IntMax ==> r == x + 1
    ensures x == IntMax ==> r == IntMin
  {
    if x == IntMax then IntMin else x + 1
  }

  /** The two fields the controller updates. */
  datatype Control = Control(batchSize: int, sinceLastTimeout: int)

  predicate ControlValid(c: Control)
  {
    IsBatchSize(c.batchSize) && IntMin <= c.sinceLastTimeout <= IntMax
  }

  /** What a controller event does to the fields. */
  datatype ControlEvent = BatchArrived | HeadersTimedOut | HeadersFaulted

  /** A non-empty batch arrived: count it, and double the batch once three batches have come in since the last timeout. */
  function AfterBatch(c: Control): (r: Control)
    requires ControlValid(c)
    ensures ControlValid(r)
    ensures r.sinceLastTimeout == Int32Increment(c.sinceLastTimeout)
    ensures r.batchSize != c.batchSize <==> r.sinceLastTimeout > 2 && c.batchSize != MaxBatchSize
    ensures r.batchSize >= c.batchSize
  {
    var since := Int32Increment(c.sinceLastTimeout);
    Control(if since > 2 && c.batchSize != MaxBatchSize then Increased(c.batchSize) else c.batchSize, since)
  }

  /**
   * The controller as the code is written: the header request is awaited
   * before its status is inspected, and awaiting a faulted request throws, so
   * the fault branch that resets the counter and halves the batch on a timeout
   * is never reached. A failed request changes nothing.
   */
  function StepAsWritten(c: Control, e: ControlEvent): (r: Control)
    requires ControlValid(c)
    ensures ControlValid(r)
    ensures e.BatchArrived? ==> r == AfterBatch(c)
    ensures !e.BatchArrived? ==> r == c
    ensures r.batchSize >= c.batchSize
  {
    match e
    case BatchArrived => AfterBatch(c)
    case _ => c
  }

  /** The controller as evidently intended: any fault resets the counter, a timeout also halves the batch. */
  function StepIntended(c: Control, e: ControlEvent): (r: Control)
    requires ControlValid(c)
    ensures ControlValid(r)
    ensures e.HeadersTimedOut? ==> r == Control(Decreased(c.batchSize), 0)
    ensures e.HeadersFaulted? ==> r == Control(c.batchSize, 0)
  {
    match e
    case BatchArrived => AfterBatch(c)
    case HeadersTimedOut => Control(Decreased(c.batchSize), 0)
    case HeadersFaulted => Control(c.batchSize, 0)
  }

  function RunAsWritten(c: Control, events: seq<ControlEvent>): (r: Control)
    requires ControlValid(c)
    ensures ControlValid(r)
    decreases |events|
  {
    if events == [] then c else RunAsWritten(StepAsWritten(c, events[0]), events[1..])
  }

  function RunIntended(c: Control, events: seq<ControlEvent>): (r: Control)
    requires ControlValid(c)
    ensures ControlValid(r)
    decreases |events|
  {
    if events == [] then c else RunIntended(StepIntended(c, events[0]), events[1..])
  }

  /** As written, no run of events ever lowers the batch size: once at 512 it stays there. */
  lemma {:induction false} AsWrittenNeverShrinks(c: Control, events: seq<ControlEvent>)
    requires ControlValid(c)
    ensures RunAsWritten(c, events).batchSize >= c.batchSize
    decreases |events|
  {
    if events != [] {
      AsWrittenNeverShrinks(StepAsWritten(c, events[0]), events[1..]);
    }
  }

  /** A run that ends in a timeout: as written the size stays 512, as intended it drops to 256. */
  lemma TimeoutAfterGrowth(events: seq<ControlEvent>)
    requires events == [BatchArrived, BatchArrived, BatchArrived, HeadersTimedOut]
    ensures RunAsWritten(Control(InitialBatchSize, 0), events).batchSize == MaxBatchSize
    ensures RunIntended(Control(InitialBatchSize, 0), events) == Control(InitialBatchSize, 0)
  {
    var c0, c1, c2, c3 := Control(InitialBatchSize, 0), Control(InitialBatchSize, 1), Control(InitialBatchSize, 2), Control(MaxBatchSize, 3);
    assert AfterBatch(c0) == c1 && AfterBatch(c1) == c2 && AfterBatch(c2) == c3;
    assert events[1..] == [BatchArrived, BatchArrived, HeadersTimedOut];
    assert events[1..][1..] == [BatchArrived, HeadersTimedOut];
    assert events[1..][1..][1..] == [HeadersTimedOut];
    calc {
      RunAsWritten(c0, events);
      RunAsWritten(c1, events[1..]);
      RunAsWritten(c2, events[1..][1..]);
      RunAsWritten(c3, [HeadersTimedOut]);
      { assert [HeadersTimedOut][1..] == []; }
      RunAsWritten(c3, []);
    }
    calc {
      RunIntended(c0, events);
      RunIntended(c1, events[1..]);
      RunIntended(c2, events[1..][1..]);
      RunIntended(c3, [HeadersTimedOut]);
      { assert [HeadersTimedOut][1..] == []; }
      RunIntended(Control(InitialBatchSize, 0), []);
    }
  }

  /** As intended, every timeout leaves the size halved (floored at 8) and the counter at zero. */
  lemma {:induction false} IntendedTimeoutHalves(c: Control, events: seq<ControlEvent>)
    requires ControlValid(c)
    ensures var before := RunIntended(c, events);
            RunIntended(c, events + [HeadersTimedOut]) == Control(Decreased(before.batchSize), 0)
    decreases |events|
  {
    if events == [] {
      assert RunIntended(c, [HeadersTimedOut]) == RunIntended(StepIntended(c, HeadersTimedOut), []);
    } else {
      assert (events + [HeadersTimedOut])[1..] == events[1..] + [HeadersTimedOut];
      IntendedTimeoutHalves(StepIntended(c, events[0]), events[1..]);
    }
  }

  // ---------------------------------------------------------------------
  // The request window
  // ---------------------------------------------------------------------

  /**
   * Where a session starts: the lower of our best known block and the block
   * before the peer's head, in 256-bit unsigned arithmetic (a head of 0 wraps).
   */
  function InitialNumber(bestKnown: nat, peerHead: nat): (r: nat)
    requires bestKnown < TwoTo256 && peerHead < TwoTo256
    ensures r <= bestKnown && (peerHead >= 1 ==> r <= peerHead - 1)
    ensures r == bestKnown || r == peerHead - 1
    ensures peerHead == 0 ==> r == bestKnown
  {
    var beforeHead := (peerHead - 1) % TwoTo256;
    if bestKnown <= beforeHead then bestKnown else beforeHead
  }

  /** How many headers one request asks for: the blocks up to the peer's head, at most a batch. */
  function RequestSize(peerHead: nat, currentNumber: nat, batchSize: int): (r: int)
    requires currentNumber <= peerHead
    ensures r <= batchSize && r <= peerHead - currentNumber + 1
    ensures r == batchSize || r == peerHead - currentNumber + 1
    ensures batchSize >= 1 ==> r >= 1
  {
    if peerHead - currentNumber + 1 <= batchSize then peerHead - currentNumber + 1 else batchSize
  }

  /** RunSyncLoop starts a session only when blocks can be accepted and the current peer is more than one block ahead. */
  predicate SessionStarts(canAcceptNewBlocks: bool, peerHead: Option<nat>, bestSuggested: Option<nat>)
    ensures SessionStarts(canAcceptNewBlocks, peerHead, bestSuggested)
            ==> canAcceptNewBlocks && peerHead.Some? && peerHead.value >= 2
                && (bestSuggested.Some? ==> bestSuggested.value + 2 <= peerHead.value)
  {
    canAcceptNewBlocks && peerHead.Some? && peerHead.value > (if bestSuggested.Some? then bestSuggested.value else 0) + 1
  }

  /** When a session starts, its first request is inside the window and asks for at least two headers. */
  lemma FirstRequestAsksForTwo(peerHead: nat, bestSuggested: Option<nat>, bestKnown: nat, batchSize: int)
    requires SessionStarts(true, Some(peerHead), bestSuggested)
    requires bestKnown < TwoTo256 && peerHead < TwoTo256 && IsBatchSize(batchSize)
    ensures InitialNumber(bestKnown, peerHead) < peerHead
    ensures RequestSize(peerHead, InitialNumber(bestKnown, peerHead), batchSize) >= 2
  {
  }

  // ---------------------------------------------------------------------
  // One batch
  // ---------------------------------------------------------------------

  /** Every block's parent hash is the hash of the block before it. */
  predicate Contiguous(blocks: seq<Header>)
  {
    forall i :: 1 <= i < |blocks| ==> blocks[i].parentHash == blocks[i - 1].hash
  }

  /** The blocks the header validator passes, in order. */
  function Accepted(blocks: seq<Header>, valid: Header -> bool): (r: seq<Header>)
    ensures |r| <= |blocks|
  {
    if blocks == [] then []
    else (if valid(blocks[0]) then [blocks[0]] else []) + Accepted(blocks[1..], valid)
  }

  /** The accepted blocks are exactly the valid blocks of the batch. */
  lemma {:induction false} AcceptedExactly(blocks: seq<Header>, valid: Header -> bool)
    ensures forall b :: b in Accepted(blocks, valid) <==> b in blocks && valid(b)
    decreases |blocks|
  {
    if blocks != [] {
      AcceptedExactly(blocks[1..], valid);
      assert blocks == [blocks[0]] + blocks[1..];
    }
  }

  /** `s` is an initial segment of `t`. */
  predicate IsPrefix(s: seq<Header>, t: seq<Header>)
  {
    |s| <= |t| && s == t[..|s|]
  }

  lemma PrefixMembers(s: seq<Header>, t: seq<Header>)
    requires IsPrefix(s, t)
    ensures forall b :: b in s ==> b in t
  {
    forall b | b in s
      ensures b in t
    {
      var k :| 0 <= k < |s| && s[k] == b;
      assert t[k] == b;
    }
  }

  lemma PrefixCons(x: Header, s: seq<Header>, t: seq<Header>)
    requires IsPrefix(s, t)
    ensures IsPrefix([x] + s, [x] + t) && IsPrefix([x], [x] + t) && IsPrefix([], t)
  {
    assert ([x] + t)[..|[x] + s|] == [x] + t[..|s|];
  }

  /** The number of headers present from `from` on, up to the first missing one. */
  function PresentRun(headers: seq<Option<Header>>, from: nat): (n: nat)
    requires from <= |headers|
    ensures from + n <= |headers|
    ensures forall j :: from <= j < from + n ==> headers[j].Some?
    ensures from + n < |headers| ==> headers[from + n].None?
    decreases |headers| - from
  {
    if from == |headers| || headers[from].None? then 0 else 1 + PresentRun(headers, from + 1)
  }

  /** A run of `n` present headers from `from`, ended by a missing header or the end, is the present run there. */
  lemma {:induction false} PresentRunIs(headers: seq<Option<Header>>, from: nat, n: nat)
    requires from + n <= |headers|
    requires forall j :: from <= j < from + n ==> headers[j].Some?
    requires from + n < |headers| ==> headers[from + n].None?
    ensures PresentRun(headers, from) == n
    decreases n
  {
    if n > 0 {
      PresentRunIs(headers, from + 1, n - 1);
    }
  }

  /**
   * The hashes of the headers after the first, up to the first missing one,
   * and the headers by hash (a later header with the same hash wins).
   */
  method ExtractHashes(headers: seq<Option<Header>>) returns (hashes: seq<nat>, byHash: map<nat, Header>)
    ensures |headers| <= 1 ==> hashes == []
    ensures hashes == [] || |hashes| < |headers|
    ensures forall j :: 1 <= j <= |hashes| ==> headers[j].Some? && hashes[j - 1] == headers[j].value.hash
    ensures |headers| > 1 + |hashes| ==> headers[1 + |hashes|].None?
    ensures forall h :: h in byHash <==> h in hashes
    ensures forall h :: h in byHash ==> byHash[h].hash == h && Some(byHash[h]) in headers[1..|hashes| + 1]
  {
    hashes := [];
    byHash := map[];
    if |headers| <= 1 {
      return;
    }
    var i := 1;
    while i < |headers| && headers[i].Some?
      invariant 1 <= i <= |headers|
      invariant |hashes| == i - 1
      invariant forall j :: 1 <= j < i ==> headers[j].Some? && hashes[j - 1] == headers[j].value.hash
      invariant forall h :: h in byHash <==> h in hashes
      invariant forall h :: h in byHash ==> byHash[h].hash == h && Some(byHash[h]) in headers[1..i]
    {
      var header := headers[i].value;
      hashes := hashes + [header.hash];
      byHash := byHash[header.hash := header];
      i := i + 1;
    }
    assert i == |headers| || headers[i].None?;
  }

  /**
   * Builds the batch from the headers by hash, one block per hash, watching
   * for cancellation at the checks numbered `firstCheck` onwards.
   */
  method BuildBlocks(hashes: seq<nat>, byHash: map<nat, Header>, env: Environment, firstCheck: nat)
    returns (blocks: seq<Header>, canceled: bool)
    requires forall h :: h in hashes ==> h in byHash
    ensures canceled <==> |hashes| > 0 && env.cancelAfter < firstCheck + |hashes|
    ensures !canceled ==> |blocks| == |hashes| && forall i :: 0 <= i < |hashes| ==> blocks[i] == byHash[hashes[i]]
  {
    blocks := [];
    var i := 0;
    while i < |hashes|
      invariant 0 <= i <= |hashes| && |blocks| == i
      invariant forall j :: 0 <= j < i ==> blocks[j] == byHash[hashes[j]]
      invariant i > 0 ==> env.cancelAfter >= firstCheck + i
    {
      if CancelSeen(env, firstCheck + i) {
        return blocks, true;
      }
      blocks := blocks + [byHash[hashes[i]]];
      i := i + 1;
    }
    canceled := false;
  }

  /**
   * The hash list of a non-empty answer and the batch built from it, watching
   * for cancellation from check 2 on: one check per hash, so the build is
   * cancelled exactly when the cancellation comes by the last of them.
   */
  method BatchFromHeaders(headers: seq<Option<Header>>, env: Environment) returns (blocks: seq<Header>, canceled: bool)
    requires HasBatch(Headers(headers))
    ensures !canceled ==> BatchOf(Headers(headers), blocks)
    ensures canceled <==> CancelSeen(env, 1 + PresentRun(headers, 1))
  {
    var hashes, byHash := ExtractHashes(headers);
    PresentRunIs(headers, 1, |hashes|);
    blocks, canceled := BuildBlocks(hashes, byHash, env, 2);
  }

  /** The contiguity check of the batch: false at the first block whose parent is not the block before it. */
  method CheckContiguity(blocks: seq<Header>) returns (ok: bool)
    ensures ok <==> Contiguous(blocks)
  {
    var i := 0;
    while i < |blocks|
      invariant 0 <= i <= |blocks|
      invariant forall k :: 1 <= k < i ==> blocks[k].parentHash == blocks[k - 1].hash
    {
      if i != 0 && blocks[i].parentHash != blocks[i - 1].hash {
        return false;
      }
      i := i + 1;
    }
    return true;
  }

  /** How inserting a batch ends: every block went through, the loop returned, or the session failed. */
  datatype Insertion = Inserted | Stopped | Rejected(reason: Failure)

  /**
   * The insertion loop from block `i`: a cancelled check returns; a block the
   * header validator rejects is skipped; otherwise the block is suggested and
   * the tree's answer decides.
   */
  function InsertFrom(blocks: seq<Header>, env: Environment, firstCheck: nat, i: nat): (r: (Insertion, seq<Header>))
    requires i <= |blocks|
    decreases |blocks| - i
  {
    if i == |blocks| then (Inserted, [])
    else if CancelSeen(env, firstCheck + i) then (Stopped, [])
    else if !env.headerValid(blocks[i]) then InsertFrom(blocks, env, firstCheck, i + 1)
    else match env.suggest(i)
      case UnknownParent => (Rejected(if i == 0 then OrphanedBlocks else InconsistentBatch), [blocks[i]])
      case CannotAccept => (Stopped, [blocks[i]])
      case InvalidBlock => (Rejected(InvalidBlockSent), [blocks[i]])
      case _ =>
        var rest := InsertFrom(blocks, env, firstCheck, i + 1);
        (rest.0, [blocks[i]] + rest.1)
  }

  /** The insertion loop; returns how it ended and the blocks passed to SuggestBlock, in order. */
  method InsertBatch(blocks: seq<Header>, env: Environment, firstCheck: nat) returns (outcome: Insertion, suggested: seq<Header>)
    ensures (outcome, suggested) == InsertFrom(blocks, env, firstCheck, 0)
  {
    suggested := [];
    var i := 0;
    while i < |blocks|
      invariant 0 <= i <= |blocks|
      invariant InsertFrom(blocks, env, firstCheck, 0).0 == InsertFrom(blocks, env, firstCheck, i).0
      invariant InsertFrom(blocks, env, firstCheck, 0).1 == suggested + InsertFrom(blocks, env, firstCheck, i).1
    {
      if CancelSeen(env, firstCheck + i) {
        assert InsertFrom(blocks, env, firstCheck, i) == (Stopped, []);
        assert suggested + [] == suggested;
        return Stopped, suggested;
      }
      if !env.headerValid(blocks[i]) {
        i := i + 1;
        continue;
      }
      suggested := suggested + [blocks[i]];
      match env.suggest(i)
      case UnknownParent =>
        return Rejected(if i == 0 then OrphanedBlocks else InconsistentBatch), suggested;
      case CannotAccept =>
        return Stopped, suggested;
      case InvalidBlock =>
        return Rejected(InvalidBlockSent), suggested;
      case Added =>
        i := i + 1;
      case AlreadyKnown =>
        i := i + 1;
    }
    assert InsertFrom(blocks, env, firstCheck, i) == (Inserted, []);
    assert suggested + [] == suggested;
    outcome := Inserted;
  }

  /** Block `j` gets through the loop: its check is not cancelled, and if valid the tree adds it or knows it. */
  predicate Taken(blocks: seq<Header>, env: Environment, firstCheck: nat, j: nat)
    requires j < |blocks|
  {
    !CancelSeen(env, firstCheck + j)
    && (env.headerValid(blocks[j]) ==> env.suggest(j) == Added || env.suggest(j) == AlreadyKnown)
  }

  /** A batch goes through iff no check from `i` on is cancelled and the tree takes every valid block. */
  lemma {:induction false} InsertedIffAllTaken(blocks: seq<Header>, env: Environment, firstCheck: nat, i: nat)
    requires i <= |blocks|
    ensures InsertFrom(blocks, env, firstCheck, i).0 == Inserted
            <==> forall j :: i <= j < |blocks| ==> Taken(blocks, env, firstCheck, j)
    decreases |blocks| - i
  {
    if i < |blocks| {
      InsertedIffAllTaken(blocks, env, firstCheck, i + 1);
      if Taken(blocks, env, firstCheck, i) {
        assert InsertFrom(blocks, env, firstCheck, i).0 == InsertFrom(blocks, env, firstCheck, i + 1).0;
      } else {
        assert InsertFrom(blocks, env, firstCheck, i).0 != Inserted;
      }
    }
  }

  /** Only blocks the header validator passes are suggested, in batch order: the suggestions are a prefix of the valid blocks. */
  lemma {:induction false} SuggestedAreAccepted(blocks: seq<Header>, env: Environment, firstCheck: nat, i: nat)
    requires i <= |blocks|
    ensures IsPrefix(InsertFrom(blocks, env, firstCheck, i).1, Accepted(blocks[i..], env.headerValid))
    decreases |blocks| - i
  {
    if i < |blocks| {
      SuggestedAreAccepted(blocks, env, firstCheck, i + 1);
      AcceptedUnfold(blocks, env.headerValid, i);
      var rest := Accepted(blocks[i + 1..], env.headerValid);
      var r' := InsertFrom(blocks, env, firstCheck, i + 1);
      PrefixCons(blocks[i], r'.1, rest);
    }
  }

  /** A batch that goes through suggests every valid block. */
  lemma {:induction false} InsertedSuggestsAll(blocks: seq<Header>, env: Environment, firstCheck: nat, i: nat)
    requires i <= |blocks|
    ensures InsertFrom(blocks, env, firstCheck, i).0 == Inserted
            ==> InsertFrom(blocks, env, firstCheck, i).1 == Accepted(blocks[i..], env.headerValid)
    decreases |blocks| - i
  {
    if i < |blocks| {
      InsertedSuggestsAll(blocks, env, firstCheck, i + 1);
      AcceptedUnfold(blocks, env.headerValid, i);
    }
  }

  lemma AcceptedUnfold(blocks: seq<Header>, valid: Header -> bool, i: nat)
    requires i < |blocks|
    ensures Accepted(blocks[i..], valid) == (if valid(blocks[i]) then [blocks[i]] else []) + Accepted(blocks[i + 1..], valid)
  {
    assert blocks[i..][1..] == blocks[i + 1..];
  }

  /** The orphan failure is reported exactly when the first block is valid and its suggestion finds no parent. */
  lemma OrphanedMeansFirstBlock(blocks: seq<Header>, env: Environment, firstCheck: nat)
    ensures InsertFrom(blocks, env, firstCheck, 0).0 == Rejected(OrphanedBlocks)
            <==> |blocks| > 0 && !CancelSeen(env, firstCheck) && env.headerValid(blocks[0]) && env.suggest(0) == UnknownParent
  {
    if |blocks| > 0 && !CancelSeen(env, firstCheck + 0) {
      if !env.headerValid(blocks[0]) {
        OrphanOnlyAtZero(blocks, env, firstCheck, 1);
        assert InsertFrom(blocks, env, firstCheck, 0) == InsertFrom(blocks, env, firstCheck, 1);
      } else if env.suggest(0).Added? || env.suggest(0).AlreadyKnown? {
        OrphanOnlyAtZero(blocks, env, firstCheck, 1);
        assert InsertFrom(blocks, env, firstCheck, 0).0 == InsertFrom(blocks, env, firstCheck, 1).0;
      }
    }
  }

  /** From the second block on, the loop never reports the orphan failure. */
  lemma {:induction false} OrphanOnlyAtZero(blocks: seq<Header>, env: Environment, firstCheck: nat, i: nat)
    requires 1 <= i <= |blocks|
    ensures InsertFrom(blocks, env, firstCheck, i).0 != Rejected(OrphanedBlocks)
    decreases |blocks| - i
  {
    if i < |blocks| {
      OrphanOnlyAtZero(blocks, env, firstCheck, i + 1);
    }
  }

  /** The loop takes every block of the batch. */
  predicate AllTaken(blocks: seq<Header>, env: Environment, firstCheck: nat)
  {
    forall j :: 0 <= j < |blocks| ==> Taken(blocks, env, firstCheck, j)
  }

  /** The first block from `i` on that the insertion loop does not take, or `|blocks|` when it takes them all. */
  function FirstUntaken(blocks: seq<Header>, env: Environment, firstCheck: nat, i: nat): (j: nat)
    requires i <= |blocks|
    ensures i <= j <= |blocks|
    ensures forall k :: i <= k < j ==> Taken(blocks, env, firstCheck, k)
    ensures j < |blocks| ==> !Taken(blocks, env, firstCheck, j)
    decreases |blocks| - i
  {
    if i == |blocks| || !Taken(blocks, env, firstCheck, i) then i else FirstUntaken(blocks, env, firstCheck, i + 1)
  }

  /**
   * How the loop ends when block `j` is the first one it does not take: a
   * cancelled check or CannotAccept returns, UnknownParent and InvalidBlock
   * fail the session; past the last block the batch is inserted.
   */
  function EndAt(blocks: seq<Header>, env: Environment, firstCheck: nat, j: nat): Insertion
    requires j <= |blocks|
  {
    if j == |blocks| then Inserted
    else if CancelSeen(env, firstCheck + j) then Stopped
    else match env.suggest(j)
      case UnknownParent => Rejected(if j == 0 then OrphanedBlocks else InconsistentBatch)
      case CannotAccept => Stopped
      case InvalidBlock => Rejected(InvalidBlockSent)
      case _ => Inserted
  }

  /** The insertion loop ends as the first block it does not take decides. */
  lemma {:induction false} InsertionEndsAtFirstUntaken(blocks: seq<Header>, env: Environment, firstCheck: nat, i: nat)
    requires i <= |blocks|
    ensures InsertFrom(blocks, env, firstCheck, i).0 == EndAt(blocks, env, firstCheck, FirstUntaken(blocks, env, firstCheck, i))
    decreases |blocks| - i
  {
    if i < |blocks| && Taken(blocks, env, firstCheck, i) {
      InsertionEndsAtFirstUntaken(blocks, env, firstCheck, i + 1);
      assert InsertFrom(blocks, env, firstCheck, i).0 == InsertFrom(blocks, env, firstCheck, i + 1).0;
    }
  }

  /** Some block's seal is invalid and the seal check was not cancelled. */
  predicate SealFailure(blocks: seq<Header>, env: Environment, sealCheck: nat)
  {
    !CancelSeen(env, sealCheck) && exists b :: b in blocks && !env.sealValid(b)
  }

  /** The step an insertion outcome leads to: an inserted batch moves to its last block. */
  function StepOf(outcome: Insertion, blocks: seq<Header>, level: nat): Step
    requires |blocks| > 0
  {
    match outcome
    case Inserted => Next(blocks[|blocks| - 1].number, level)
    case Stopped => Return
    case Rejected(reason) => Fail(reason)
  }

  /**
   * The rest of an iteration once the batch is built, with the step and the
   * blocks suggested: retreat if the first block's parent is unknown;
   * otherwise check contiguity, then the seals (unless cancelled at check
   * `sealCheck`), then insert from check `sealCheck + 1` on.
   */
  function Settled(blocks: seq<Header>, currentNumber: nat, level: nat, batchSize: int, env: Environment, sealCheck: nat)
    : (r: (Step, seq<Header>))
    requires |blocks| > 0 && IsBatchSize(batchSize)
    ensures !env.parentKnown
            ==> r == (Next(if currentNumber >= batchSize then currentNumber - batchSize else 0, level + batchSize), [])
    ensures env.parentKnown && !Contiguous(blocks) ==> r == (Fail(InconsistentBlockList), [])
    ensures r.0 == Fail(InvalidSeal) <==> env.parentKnown && Contiguous(blocks) && SealFailure(blocks, env, sealCheck)
    // past the checks, the insertion loop decides, through the first block it does not take
    ensures env.parentKnown && Contiguous(blocks) && !SealFailure(blocks, env, sealCheck)
            ==> r.1 == InsertFrom(blocks, env, sealCheck + 1, 0).1
                && r.0 == StepOf(EndAt(blocks, env, sealCheck + 1, FirstUntaken(blocks, env, sealCheck + 1, 0)), blocks, level)
    // a batch advances to its last block exactly when it passes every check and the loop takes every block
    ensures r.0.Next? && env.parentKnown
            <==> env.parentKnown && Contiguous(blocks) && !SealFailure(blocks, env, sealCheck)
                 && AllTaken(blocks, env, sealCheck + 1)
    ensures r.0.Next? && env.parentKnown
            ==> r.1 == Accepted(blocks, env.headerValid) && r.0 == Next(blocks[|blocks| - 1].number, level)
    ensures r.1 != [] ==> env.parentKnown && Contiguous(blocks) && forall b :: b in blocks ==> env.sealValid(b)
    ensures forall b :: b in r.1 ==> b in blocks && env.headerValid(b)
    ensures r.0.Fail? ==> r.0.reason in {InconsistentBlockList, InvalidSeal, OrphanedBlocks, InconsistentBatch, InvalidBlockSent}
  {
    if !env.parentKnown then
      (Next(if currentNumber >= batchSize then currentNumber - batchSize else 0, level + batchSize), [])
    else if !Contiguous(blocks) then (Fail(InconsistentBlockList), [])
    else if SealFailure(blocks, env, sealCheck) then (Fail(InvalidSeal), [])
    else
      var inserted := InsertFrom(blocks, env, sealCheck + 1, 0);
      InsertionEndsAtFirstUntaken(blocks, env, sealCheck + 1, 0);
      InsertedIffAllTaken(blocks, env, sealCheck + 1, 0);
      SuggestedAreAccepted(blocks, env, sealCheck + 1, 0);
      InsertedSuggestsAll(blocks, env, sealCheck + 1, 0);
      assert blocks[0..] == blocks;
      PrefixMembers(inserted.1, Accepted(blocks, env.headerValid));
      AcceptedExactly(blocks, env.headerValid);
      SuggestingStartsUncanceled(blocks, env, sealCheck + 1);
      RejectionReasons(blocks, env, sealCheck + 1, 0);
      (StepOf(inserted.0, blocks, level), inserted.1)
  }

  /** The rest of an iteration once the batch is built, as `Settled` describes it. */
  method SettleBatch(blocks: seq<Header>, currentNumber: nat, level: nat, batchSize: int, env: Environment, sealCheck: nat)
    returns (step: Step, suggested: seq<Header>)
    requires |blocks| > 0 && IsBatchSize(batchSize)
    ensures (step, suggested) == Settled(blocks, currentNumber, level, batchSize, env, sealCheck)
  {
    if !env.parentKnown {
      var back := if currentNumber >= batchSize then currentNumber - batchSize else 0;
      return Next(back, level + batchSize), [];
    }
    var contiguous := CheckContiguity(blocks);
    if !contiguous {
      return Fail(InconsistentBlockList), [];
    }
    if !CancelSeen(env, sealCheck) && exists b :: b in blocks && !env.sealValid(b) {
      return Fail(InvalidSeal), [];
    }
    var outcome;
    outcome, suggested := InsertBatch(blocks, env, sealCheck + 1);
    match outcome
    case Inserted =>
      step := Next(blocks[|blocks| - 1].number, level);
    case Stopped =>
      step := Return;
    case Rejected(reason) =>
      step := Fail(reason);
  }

  /** The insertion loop fails only for the block tree's verdicts: an orphan, a broken batch or an invalid block. */
  lemma {:induction false} RejectionReasons(blocks: seq<Header>, env: Environment, firstCheck: nat, i: nat)
    requires i <= |blocks|
    ensures InsertFrom(blocks, env, firstCheck, i).0.Rejected?
            ==> InsertFrom(blocks, env, firstCheck, i).0.reason in {OrphanedBlocks, InconsistentBatch, InvalidBlockSent}
    decreases |blocks| - i
  {
    if i < |blocks| {
      RejectionReasons(blocks, env, firstCheck, i + 1);
    }
  }

  // ---------------------------------------------------------------------
  // The synchronizer
  // ---------------------------------------------------------------------

  datatype SyncStatus = Started | Failed | Cancelled | Completed

  datatype SynchronizationMode = Blocks | NodeData

  /** The outcome of a finished session as the driver handles it. */
  datatype SessionVerdict = SessionVerdict(removePeer: bool, status: Option<SyncStatus>, betterPeerFlag: bool)

  /**
   * The driver's handling of a finished session: a fault removes the peer; a
   * cancellation removes it unless it was cancelled for a better peer, in
   * which case only the flag is cleared; anything else completed.
   */
  function AfterSession(betterPeerFlag: bool, faulted: bool, canceled: bool): (r: SessionVerdict)
    ensures faulted ==> r.removePeer && r.status == Some(Failed) && r.betterPeerFlag == betterPeerFlag
    ensures !faulted && canceled ==> !r.betterPeerFlag && (r.removePeer <==> !betterPeerFlag)
    ensures r.removePeer <==> faulted || (canceled && !betterPeerFlag)
    ensures r.status == Some(Completed) <==> !faulted && !canceled
  {
    if faulted then SessionVerdict(true, Some(Failed), betterPeerFlag)
    else if canceled then
      if betterPeerFlag then SessionVerdict(false, None, false)
      else SessionVerdict(true, Some(Cancelled), betterPeerFlag)
    else SessionVerdict(false, Some(Completed), betterPeerFlag)
  }

  /**
   * A replacement with a previous peer sets the flag (OnAllocationReplaced),
   * so the session it cancels keeps its peer, reports nothing and clears the
   * flag; a second cancellation then removes the peer.
   */
  lemma ReplacementKeepsPeer(betterPeerFlag: bool, hadPrevious: bool)
    requires hadPrevious
    ensures var v := AfterSession(betterPeerFlag || hadPrevious, false, true);
            !v.removePeer && v.status == None && !v.betterPeerFlag
            && AfterSession(v.betterPeerFlag, false, true).removePeer
  {
  }

  /** At the end of a sync round: our best block is past 131072 and the current peer, if any, is at most 1024 blocks ahead. */
  predicate SwitchesToNodeData(bestSuggested: Option<nat>, currentHead: Option<nat>)
    ensures SwitchesToNodeData(bestSuggested, currentHead)
            ==> bestSuggested.Some? && bestSuggested.value > 131072
                && (currentHead.Some? ==> currentHead.value <= bestSuggested.value + 1024)
    ensures bestSuggested.Some? && bestSuggested.value > 131072 && currentHead.None?
            ==> SwitchesToNodeData(bestSuggested, currentHead)
  {
    var best := if bestSuggested.Some? then bestSuggested.value else 0;
    best > 131072 && (if currentHead.Some? then currentHead.value else 0) <= best + 1024
  }

  /** Whether an iteration gets as far as asking the peer for headers: the loop goes on, the ancestor search is in bounds and no cancellation is seen. */
  predicate Requests(peerHead: nat, currentNumber: nat, ancestorLookupLevel: nat, env: Environment)
  {
    env.peerAhead && currentNumber <= peerHead && ancestorLookupLevel <= MaxReorganizationLength && !CancelSeen(env, 0)
  }

  /** The peer's answer to the iteration's header request, made with batch size `batchSize`. */
  function Answer(peerHead: nat, currentNumber: nat, batchSize: int, env: Environment): Fetch
    requires currentNumber <= peerHead && batchSize >= 1
  {
    env.respond(currentNumber, RequestSize(peerHead, currentNumber, batchSize))
  }

  /** The answer holds a second header, so the hash list and the batch are not empty. */
  predicate HasBatch(f: Fetch)
  {
    f.Headers? && |f.headers| > 1 && f.headers[1].Some?
  }

  /**
   * `blocks` is the batch built from the answer: one block per header after
   * the first, up to the first missing one, each carrying that header's hash
   * (a later header with the same hash stands for both).
   */
  predicate BatchOf(f: Fetch, blocks: seq<Header>)
  {
    HasBatch(f) && 0 < |blocks| < |f.headers|
    && (forall i :: 0 <= i < |blocks| ==> f.headers[i + 1].Some? && blocks[i].hash == f.headers[i + 1].value.hash)
    && (forall i :: 0 <= i < |blocks| ==> Some(blocks[i]) in f.headers[1..|blocks| + 1])
    && (|f.headers| > |blocks| + 1 ==> f.headers[|blocks| + 1].None?)
  }

  class FastSynchronizer {
    var currentBatchSize: int
    var sinceLastTimeout: int
    var requestedSyncCancelDueToBetterPeer: bool
    var mode: SynchronizationMode

    predicate Valid()
      reads this
    {
      ControlValid(Control(currentBatchSize, sinceLastTimeout))
    }

    function Controls(): Control
      reads this
    {
      Control(currentBatchSize, sinceLastTimeout)
    }

    constructor ()
      ensures Valid()
      ensures currentBatchSize == InitialBatchSize && sinceLastTimeout == 0
      ensures !requestedSyncCancelDueToBetterPeer && mode == Blocks
    {
      currentBatchSize := InitialBatchSize;
      sinceLastTimeout := 0;
      requestedSyncCancelDueToBetterPeer := false;
      mode := Blocks;
    }

    method IncreaseBatchSize()
      requires Valid()
      modifies this
      ensures Valid()
      ensures currentBatchSize == Increased(old(currentBatchSize))
      ensures sinceLastTimeout == old(sinceLastTimeout)
      ensures requestedSyncCancelDueToBetterPeer == old(requestedSyncCancelDueToBetterPeer) && mode == old(mode)
    {
      currentBatchSize := if MaxBatchSize <= currentBatchSize * 2 then MaxBatchSize else currentBatchSize * 2;
    }

    method DecreaseBatchSize()
      requires Valid()
      modifies this
      ensures Valid()
      ensures currentBatchSize == Decreased(old(currentBatchSize))
      ensures sinceLastTimeout == old(sinceLastTimeout)
      ensures requestedSyncCancelDueToBetterPeer == old(requestedSyncCancelDueToBetterPeer) && mode == old(mode)
    {
      currentBatchSize := if MinBatchSize >= currentBatchSize / 2 then MinBatchSize else currentBatchSize / 2;
    }

    /** A non-empty batch arrived: count it and double the batch after the third. */
    method OnBatchArrived()
      requires Valid()
      modifies this
      ensures Valid()
      ensures Controls() == AfterBatch(old(Controls()))
      ensures requestedSyncCancelDueToBetterPeer == old(requestedSyncCancelDueToBetterPeer) && mode == old(mode)
    {
      sinceLastTimeout := Int32Increment(sinceLastTimeout);
      if sinceLastTimeout > 2 && currentBatchSize != MaxBatchSize {
        IncreaseBatchSize();
      }
    }

    /** The header request failed: reset the counter, and halve the batch on a timeout. */
    method OnHeadersFailed(timedOut: bool)
      requires Valid()
      modifies this
      ensures Valid()
      ensures Controls() == StepIntended(old(Controls()), if timedOut then HeadersTimedOut else HeadersFaulted)
      ensures requestedSyncCancelDueToBetterPeer == old(requestedSyncCancelDueToBetterPeer) && mode == old(mode)
    {
      sinceLastTimeout := 0;
      if timedOut {
        DecreaseBatchSize();
      }
    }

    /**
     * One iteration of the per-peer sync loop, from `currentNumber` with the
     * ancestor search `ancestorLookupLevel` deep. Returns the step taken, the
     * batch built from the headers, and the blocks passed to SuggestBlock.
     */
    method SyncIteration(peerHead: nat, currentNumber: nat, ancestorLookupLevel: nat, env: Environment)
      returns (step: Step, blocks: seq<Header>, suggested: seq<Header>)
      requires Valid()
      modifies this
      ensures Valid()
      ensures requestedSyncCancelDueToBetterPeer == old(requestedSyncCancelDueToBetterPeer) && mode == old(mode)
      // the loop condition and the bound on the ancestor search
      ensures !env.peerAhead || currentNumber > peerHead ==> step == Return && suggested == []
      ensures env.peerAhead && currentNumber <= peerHead && ancestorLookupLevel > MaxReorganizationLength
              ==> step == Fail(NoCommonAncestor) && suggested == []
      // the batch size is halved only on a timeout, and otherwise never shrinks
      ensures currentBatchSize >= old(currentBatchSize)
              || (currentBatchSize == Decreased(old(currentBatchSize)) && sinceLastTimeout == 0)
      // nothing is suggested unless the whole batch hangs together and every seal is valid
      ensures suggested != [] ==> |blocks| > 0 && env.parentKnown && Contiguous(blocks)
                                  && forall b :: b in blocks ==> env.sealValid(b)
      ensures forall b :: b in suggested ==> b in blocks && env.headerValid(b)
      // the ancestor retreat
      ensures step.Next? && !env.parentKnown
              ==> suggested == []
                  && step.ancestorLookupLevel == ancestorLookupLevel + currentBatchSize
                  && step.currentNumber == (if currentNumber >= currentBatchSize then currentNumber - currentBatchSize else 0)
      // a batch that went through
      ensures step.Next? && env.parentKnown
              ==> |blocks| > 0 && suggested == Accepted(blocks, env.headerValid)
                  && step == Next(blocks[|blocks| - 1].number, ancestorLookupLevel)
      // the controller: a batch counts towards growth, a failed request resets it (and a timeout halves the size)
      ensures !Requests(peerHead, currentNumber, ancestorLookupLevel, env) ==> Controls() == old(Controls())
      ensures Requests(peerHead, currentNumber, ancestorLookupLevel, env)
              ==> var f := Answer(peerHead, currentNumber, old(currentBatchSize), env);
                  Controls() == (if f.Timeout? then StepIntended(old(Controls()), HeadersTimedOut)
                                 else if f.Faulted? then StepIntended(old(Controls()), HeadersFaulted)
                                 else if HasBatch(f) && !CancelSeen(env, 1) then AfterBatch(old(Controls()))
                                 else old(Controls()))
      // how the answer decides the step before the batch is built
      ensures Requests(peerHead, currentNumber, ancestorLookupLevel, env)
              ==> var f := Answer(peerHead, currentNumber, old(currentBatchSize), env);
                  (f.Timeout? || f.Faulted? ==> step == Fail(HeadersUnavailable) && suggested == [])
                  && (f.Canceled? || (f.Headers? && CancelSeen(env, 1)) ==> step == Return && suggested == [])
                  && (f.Headers? && !CancelSeen(env, 1) && !HasBatch(f)
                      ==> step == (if |f.headers| == 1 then Return else Fail(EmptyHeaderList)) && suggested == [])
      ensures env.peerAhead && currentNumber <= peerHead && ancestorLookupLevel <= MaxReorganizationLength && CancelSeen(env, 0)
              ==> step == Return && suggested == []
      // a batch built from the answer: one block per leading header after the first, up to the first gap
      ensures step.Next?
              ==> Requests(peerHead, currentNumber, ancestorLookupLevel, env)
                  && BatchOf(Answer(peerHead, currentNumber, old(currentBatchSize), env), blocks)
      // cancellation while the batch is built returns; otherwise the batch is settled as `Settled` says
      ensures Requests(peerHead, currentNumber, ancestorLookupLevel, env)
              ==> var f := Answer(peerHead, currentNumber, old(currentBatchSize), env);
                  (HasBatch(f) && !CancelSeen(env, 1) && CancelSeen(env, 1 + PresentRun(f.headers, 1))
                   ==> step == Return && suggested == [])
                  && (HasBatch(f) && !CancelSeen(env, 1 + PresentRun(f.headers, 1))
                      ==> BatchOf(f, blocks)
                          && (step, suggested) == Settled(blocks, currentNumber, ancestorLookupLevel, currentBatchSize, env, 2 + |blocks|))
    {
      blocks, suggested := [], [];
      if !env.peerAhead || currentNumber > peerHead {
        return Return, blocks, suggested;
      }
      if ancestorLookupLevel > MaxReorganizationLength {
        return Fail(NoCommonAncestor), blocks, suggested;
      }
      if CancelSeen(env, 0) {
        return Return, blocks, suggested;
      }
      var request := RequestSize(peerHead, currentNumber, currentBatchSize);
      var headers;
      match env.respond(currentNumber, request) {
        case Timeout =>
          OnHeadersFailed(true);
          return Fail(HeadersUnavailable), blocks, suggested;
        case Faulted =>
          OnHeadersFailed(false);
          return Fail(HeadersUnavailable), blocks, suggested;
        case Canceled =>
          return Return, blocks, suggested;
        case Headers(hs) =>
          headers := hs;
      }
      assert Answer(peerHead, currentNumber, currentBatchSize, env) == Headers(headers);
      step, blocks, suggested := TakeHeaders(headers, currentNumber, ancestorLookupLevel, env);
    }

    /**
     * The part of an iteration after the headers arrived: the hash list, the
     * batch built from it, and the batch settled against the block tree.
     */
    method TakeHeaders(headers: seq<Option<Header>>, currentNumber: nat, ancestorLookupLevel: nat, env: Environment)
      returns (step: Step, blocks: seq<Header>, suggested: seq<Header>)
      requires Valid()
      modifies this
      ensures Valid()
      ensures requestedSyncCancelDueToBetterPeer == old(requestedSyncCancelDueToBetterPeer) && mode == old(mode)
      ensures Controls() == if HasBatch(Headers(headers)) && !CancelSeen(env, 1) then AfterBatch(old(Controls())) else old(Controls())
      ensures CancelSeen(env, 1) ==> step == Return && suggested == []
      ensures !CancelSeen(env, 1) && !HasBatch(Headers(headers))
              ==> step == (if |headers| == 1 then Return else Fail(EmptyHeaderList)) && suggested == []
      // cancellation while the batch is built returns; otherwise the batch is settled
      ensures HasBatch(Headers(headers)) && !CancelSeen(env, 1) && CancelSeen(env, 1 + PresentRun(headers, 1))
              ==> step == Return && suggested == []
      ensures HasBatch(Headers(headers)) && !CancelSeen(env, 1 + PresentRun(headers, 1))
              ==> BatchOf(Headers(headers), blocks)
                  && (step, suggested) == Settled(blocks, currentNumber, ancestorLookupLevel, currentBatchSize, env, 2 + |blocks|)
      ensures step.Next? ==> BatchOf(Headers(headers), blocks)
    {
      blocks, suggested := [], [];
      if CancelSeen(env, 1) {
        return Return, blocks, suggested;
      }
      // The hash list is empty exactly when the second header is missing.
      if !HasBatch(Headers(headers)) {
        if |headers| == 1 {
          return Return, blocks, suggested;
        }
        return Fail(EmptyHeaderList), blocks, suggested;
      }
      step, blocks, suggested := TakeBatch(headers, currentNumber, ancestorLookupLevel, env);
    }

    /**
     * An answer holding a batch: it counts towards the controller, the batch
     * is built, and unless cancellation came meanwhile it is settled.
     */
    method TakeBatch(headers: seq<Option<Header>>, currentNumber: nat, ancestorLookupLevel: nat, env: Environment)
      returns (step: Step, blocks: seq<Header>, suggested: seq<Header>)
      requires Valid() && HasBatch(Headers(headers))
      modifies this
      ensures Valid()
      ensures requestedSyncCancelDueToBetterPeer == old(requestedSyncCancelDueToBetterPeer) && mode == old(mode)
      ensures Controls() == AfterBatch(old(Controls()))
      ensures CancelSeen(env, 1 + PresentRun(headers, 1)) ==> step == Return && suggested == []
      ensures !CancelSeen(env, 1 + PresentRun(headers, 1))
              ==> BatchOf(Headers(headers), blocks)
                  && (step, suggested) == Settled(blocks, currentNumber, ancestorLookupLevel, currentBatchSize, env, 2 + |blocks|)
    {
      // The batch has one block per hash, so the empty-block-list branches cannot be taken.
      OnBatchArrived();
      var canceled;
      blocks, canceled := BatchFromHeaders(headers, env);
      if canceled {
        return Return, blocks, [];
      }
      step, suggested := SettleBatch(blocks, currentNumber, ancestorLookupLevel, currentBatchSize, env, 2 + |blocks|);
    }

    /** The driver's handling of a finished session (the continuation in RunSyncLoop). */
    method FinishSession(faulted: bool, canceled: bool) returns (removePeer: bool, status: Option<SyncStatus>)
      modifies this
      ensures AfterSession(old(requestedSyncCancelDueToBetterPeer), faulted, canceled)
              == SessionVerdict(removePeer, status, requestedSyncCancelDueToBetterPeer)
      ensures currentBatchSize == old(currentBatchSize) && sinceLastTimeout == old(sinceLastTimeout) && mode == old(mode)
    {
      removePeer, status := false, None;
      if faulted {
        removePeer, status := true, Some(Failed);
      } else if canceled {
        if requestedSyncCancelDueToBetterPeer {
          requestedSyncCancelDueToBetterPeer := false;
        } else {
          removePeer, status := true, Some(Cancelled);
        }
      } else {
        status := Some(Completed);
      }
    }

    /** AllocationOnReplaced: replacing a previous peer cancels the running session and sets the flag; a heavier new peer requests a sync. */
    method OnAllocationReplaced(hadPrevious: bool, newPeerHeavier: bool) returns (cancelSession: bool, requestSync: bool)
      modifies this
      ensures requestedSyncCancelDueToBetterPeer == (old(requestedSyncCancelDueToBetterPeer) || hadPrevious)
      ensures cancelSession == hadPrevious && requestSync == newPeerHeavier
      ensures currentBatchSize == old(currentBatchSize) && sinceLastTimeout == old(sinceLastTimeout) && mode == old(mode)
    {
      cancelSession := false;
      if hadPrevious {
        requestedSyncCancelDueToBetterPeer := true;
        cancelSession := true;
      }
      requestSync := newPeerHeavier;
    }

    /** The end of a sync round: switch to node-data download once near the head; the switch is never undone. */
    method AfterSyncRound(bestSuggested: Option<nat>, currentHead: Option<nat>)
      modifies this
      ensures mode == (if SwitchesToNodeData(bestSuggested, currentHead) then NodeData else old(mode))
      ensures old(mode) == NodeData ==> mode == NodeData
      ensures currentBatchSize == old(currentBatchSize) && sinceLastTimeout == old(sinceLastTimeout)
      ensures requestedSyncCancelDueToBetterPeer == old(requestedSyncCancelDueToBetterPeer)
    {
      var best := if bestSuggested.Some? then bestSuggested.value else 0;
      if best > 131072 {
        if (if currentHead.Some? then currentHead.value else 0) <= best + 1024 {
          mode := NodeData;
        }
      }
    }
  }

  /** The insertion loop suggests nothing once its first check is cancelled. */
  lemma SuggestingStartsUncanceled(blocks: seq<Header>, env: Environment, firstCheck: nat)
    ensures InsertFrom(blocks, env, firstCheck, 0).1 != [] ==> |blocks| > 0 && !CancelSeen(env, firstCheck)
  {
  }
}
