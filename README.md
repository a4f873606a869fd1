# Nethermind core components in Dafny

This project models five sequential components of the Nethermind Ethereum
client and proves properties of them:

- **RLP** (`rlp.dfy`, module `Rlp`). This is the Recursive Length Prefix
  serialisation of Appendix B of the Ethereum Yellow Paper, as written in
  `RecursiveLengthPrefix`.
  - The encoder is a family of pure functions.
  - The decoder is a cursor object (`DeserializationContext`) driven by a
    recursive method. That method is proved against a pure decoding function.
  - The decoder's two prefix boundaries are a parameter: `AsWritten` (183 and
    247, the code's) or `YellowPaper` (184 and 248).
- **EVM memory** (`evm_memory.dfy`, module `EvmMemory`). `EvmPooledMemory` is a
  class over a byte `array`, with the fields `Size`, `Length` and
  `_lastZeroedSize`. It covers:
  - the word-aligned growth;
  - the zero-fill of newly exposed bytes;
  - the rent and regrow of the pooled buffer;
  - the access checks, the loads and saves;
  - the memory-expansion gas formula C(a) = 3·a + ⌊a²/512⌋.
- **Fast synchronizer** (`fast_sync.dfy`, module `FastSync`). `FastSynchronizer`
  is a class holding the batch-size controller and the driver's flags. It
  models:
  - one iteration of the per-peer header sync loop, over an `Environment` value
    that stands for the peer, the validators and the block tree;
  - the driver's decisions about sessions, peer replacement and the switch to
    node-data download.
- **Fast bodies feed** (`bodies_feed.dfy`, module `BodiesFeed`).
  `SimpleBodiesSyncFeed` is a class holding:
  - the request size;
  - the blocks it has inserted;
  - the breach reports it has sent;
  - an abstract status tracker (`FastStatusList`) with a ghost status map.
- **Health checks** (`health.dfy`, module `Health`). The health verdict of a
  node and its ordered message list are built step by step by `CheckHealth`.
  They are proved equal to a verdict table stated by condition. The module
  also has the two interval-hint functions.

Environment inputs are parameters:
- RPC answers;
- the block processor's interval checks;
- the peer's responses;
- the validators' verdicts;
- the block tree's answers;
- when cancellation is observed.

## Model

| member | source | states |
|---|---|---|
| Rlp.MinimalBigEndian | src/Nevermind/Nevermind.Core/Encoding/RecursiveLengthPrefix.cs:268-298 | the length bytes are empty exactly for 0, never start with a zero byte, and read back as the value |
| Rlp.SerializeLength | src/Nevermind/Nevermind.Core/Encoding/RecursiveLengthPrefix.cs:268-298 | the result is the minimal big-endian form of the value, as a 64-bit two's-complement number, and is at most 8 bytes; a positive value reads back exactly and has no leading zero byte |
| Rlp.ShiftedBytes | src/Nevermind/Nevermind.Core/Encoding/RecursiveLengthPrefix.cs:270-280 | the eight shifted bytes are the value's fixed-width 8-byte big-endian form |
| Rlp.StripLeadingZeros | src/Nevermind/Nevermind.Core/Encoding/RecursiveLengthPrefix.cs:282-297 | the counting loop and the copy return the input without its leading zero bytes |
| Rlp.FixedIsPaddedMinimal | src/Nevermind/Nevermind.Core/Encoding/RecursiveLengthPrefix.cs:270-297 | a value below 256^n has a fixed n-byte form that is its minimal form padded with zeros, so stripping gives the minimal form |
| Rlp.LengthOfLength | src/Nevermind/Nevermind.Core/Encoding/RecursiveLengthPrefix.cs:268-298 | a positive length takes at least one byte, and at most 8 when below 2^64 |
| Rlp.DeserializeLength | src/Nevermind/Nevermind.Core/Encoding/RecursiveLengthPrefix.cs:119-130 | up to four bytes are read as a big-endian signed 32-bit number (values from 2^31 read negative); more than four bytes fail |
| Rlp.LengthRoundTrip | src/Nevermind/Nevermind.Core/Encoding/RecursiveLengthPrefix.cs:119-130 | every length below 2^31 serialises to at most 4 bytes and deserialises to itself |
| Rlp.EncodeBytes | src/Nevermind/Nevermind.Core/Encoding/RecursiveLengthPrefix.cs:250-266 | a lone byte below 128 encodes as itself; any other string shorter than 56 bytes encodes as 128+length followed by the bytes |
| Rlp.EncodeBytesLong | src/Nevermind/Nevermind.Core/Encoding/RecursiveLengthPrefix.cs:263-265 | a string of 56 bytes or more encodes as 183+|L|, then L (the minimal length bytes, 1 to 8 of them), then the bytes |
| Rlp.EncodeList | src/Nevermind/Nevermind.Core/Encoding/RecursiveLengthPrefix.cs:134-151 | a payload shorter than 56 bytes encodes as 192+length followed by the payload; every list encoding is longer than its payload |
| Rlp.EncodeListLong | src/Nevermind/Nevermind.Core/Encoding/RecursiveLengthPrefix.cs:148-150 | a payload of 56 bytes or more encodes as 247+|L|, then L, then the payload |
| Rlp.OfEmptySequence | src/Nevermind/Nevermind.Core/Encoding/RecursiveLengthPrefix.cs:132 | the empty sequence encodes as the single byte 192 |
| Rlp.EncodeInteger | src/Nevermind/Nevermind.Core/Encoding/RecursiveLengthPrefix.cs:205-230 | a negative value fails in the byte conversion; 0 to 255 encode as the string of their minimal big-endian bytes (0 as 128, 1..127 as themselves, 128..255 as 129 then the byte) |
| Rlp.Encode | src/Nevermind/Nevermind.Core/Encoding/RecursiveLengthPrefix.cs:186-248 | every successful encoding is non-empty |
| Rlp.Take | src/Nevermind/Nevermind.Core/Encoding/RecursiveLengthPrefix.cs:106-112 | taking n bytes succeeds exactly when n is not negative and the input holds n more bytes, and yields exactly those bytes |
| Rlp.DeserializationContext.constructor | src/Nevermind/Nevermind.Core/Encoding/RecursiveLengthPrefix.cs:95-99 | a new context holds the data with the cursor at 0 |
| Rlp.DeserializationContext.Pop | src/Nevermind/Nevermind.Core/Encoding/RecursiveLengthPrefix.cs:101-104 | a pop succeeds exactly when the cursor is inside the data; it returns the byte there and advances by one |
| Rlp.DeserializationContext.PopMany | src/Nevermind/Nevermind.Core/Encoding/RecursiveLengthPrefix.cs:106-112 | a pop of n bytes is `Take` at the cursor and advances the cursor by n when it succeeds |
| Rlp.ReadLength | src/Nevermind/Nevermind.Core/Encoding/RecursiveLengthPrefix.cs:65-66 | popping the length bytes and deserialising them agrees with the pure long-length reading, and so does the new cursor |
| Rlp.Deserialize | src/Nevermind/Nevermind.Core/Encoding/RecursiveLengthPrefix.cs:34-90 | the cursor-driven decoder returns what the pure decoder `DecodeAt` returns at the starting cursor and leaves the cursor where `DecodeAt` ends |
| Rlp.DeserializeBytes | src/Nevermind/Nevermind.Core/Encoding/RecursiveLengthPrefix.cs:29-32 | decoding a byte array is `DecodeAt` from position 0 |
| Rlp.DecodeAt | src/Nevermind/Nevermind.Core/Encoding/RecursiveLengthPrefix.cs:34-90 | a successful decode consumes at least one byte and stays inside the input |
| Rlp.DecodeSingleByte | src/Nevermind/Nevermind.Core/Encoding/RecursiveLengthPrefix.cs:48-53 | a byte below 128 decodes to a one-element array holding that byte and consumes one byte, under any boundaries |
| Rlp.DecodeSingletonList | src/Nevermind/Nevermind.Core/Encoding/RecursiveLengthPrefix.cs:36-44 | with the Yellow Paper boundaries, a list with exactly one item decodes to that item itself, not to an array |
| Rlp.DecodeEncodedBytes | src/Nevermind/Nevermind.Core/Encoding/RecursiveLengthPrefix.cs:55-70 | an encoded string found at any position decodes to the string and consumes exactly its encoding, under any boundaries that read its short form as short |
| Rlp.DecodeItemsEncoded | src/Nevermind/Nevermind.Core/Encoding/RecursiveLengthPrefix.cs:83-87 | with the Yellow Paper boundaries, the list loop over an encoded concatenation decodes every item in order and stops exactly at the end of the payload |
| Rlp.DecodeEncoded | src/Nevermind/Nevermind.Core/Encoding/RecursiveLengthPrefix.cs:34-90 | with the Yellow Paper boundaries, any encoded item found at any position decodes to the expected value and consumes exactly its encoding |
| Rlp.SerializeDeserialize | src/Nevermind/Nevermind.Core/Encoding/RecursiveLengthPrefix.cs:29-32 | with the Yellow Paper boundaries, deserialising a serialised item gives the expected value and consumes the whole encoding |
| Rlp.ByteStringRoundTrip | src/Nevermind/Nevermind.Core/Encoding/RecursiveLengthPrefix.cs:55-70 | with the code's boundaries, every byte string of any length except 55 decodes back from its encoding, consuming all of it |
| Rlp.FiftyFiveByteStringMisread | src/Nevermind/Nevermind.Core/Encoding/RecursiveLengthPrefix.cs:55-61 | with the code's boundaries, a 55-byte string is encoded with prefix 183 and decoded as an empty string after one byte |
| Rlp.FiftyFiveByteListMisread | src/Nevermind/Nevermind.Core/Encoding/RecursiveLengthPrefix.cs:73-76 | with the code's boundaries, a list with a 55-byte payload is encoded with prefix 247 and decoded as an empty array after one byte |
| EvmMemory.Div32Ceiling | src/Nethermind/Nethermind.Evm/EvmPooledMemory.cs:211-223 | the result is the least number of 32-byte words covering the length; it fails (out of gas) exactly when that count exceeds 2^31−1 |
| EvmMemory.AccessViolationExact | src/Nethermind/Nethermind.Evm/EvmPooledMemory.cs:72-80 | for 256-bit operands, the check fails exactly when location+length exceeds 2^63−1; the wrap-around test is then subsumed |
| EvmMemory.SizeCoversAccess | src/Nethermind/Nethermind.Evm/EvmPooledMemory.cs:225-239 | when the end fits in 32 bits, the new size is word-aligned, covers the access, never shrinks, and grows by less than a word past the end |
| EvmMemory.SizeWrapsBelowFourGiB | src/Nethermind/Nethermind.Evm/EvmPooledMemory.cs:227-233 | an access ending at 2^32−1 rounds the 32-bit size up to 2^32, which wraps to 0 |
| EvmMemory.InBufferIffCovered | src/Nethermind/Nethermind.Evm/EvmPooledMemory.cs:225-239 | once the buffer holds the new size, any range ending at an index congruent modulo 2^32 to the end of the access lies inside the buffer exactly when it lies inside the new size |
| EvmMemory.Int32Of | src/Nethermind/Nethermind.Evm/EvmPooledMemory.cs:45-48 | the `(int)` cast is the low 32 bits read as a signed int: it lies in [−2^31, 2^31−1], agrees with the value modulo 2^32, and is the value itself up to 2^31−1 |
| EvmMemory.Int64Of | src/Nethermind/Nethermind.Evm/EvmPooledMemory.cs:56 | the `(long)` cast is the low 64 bits read as a signed long: it lies in [−2^63, 2^63−1], agrees with the value modulo 2^64, and is the value itself up to 2^63−1 |
| EvmMemory.CastIndexWraps | src/Nethermind/Nethermind.Evm/EvmPooledMemory.cs:45-48 | the cast index of location 2^32 is 0, of 2^32+8 is 8, and of 2^32+2^31 is negative |
| EvmMemory.SaveWordAtFourGiB | src/Nethermind/Nethermind.Evm/EvmPooledMemory.cs:38-49 | a word saved at 2^32 into empty memory grows it to one word, starts its copy at index 0, and succeeds |
| EvmMemory.LoadPastFourGiB | src/Nethermind/Nethermind.Evm/EvmPooledMemory.cs:131-148 | a load of 2^32+8 bytes from location 0 of empty memory grows it to one word and copies out 8 bytes, which fit |
| EvmMemory.WordStart | src/Nethermind/Nethermind.Evm/EvmPooledMemory.cs:48 | the copy of a word starts so that the word (or the 32 bytes, for a short word) ends exactly 32 bytes after the index |
| EvmMemory.WordImage | src/Nethermind/Nethermind.Evm/EvmPooledMemory.cs:43-48 | the bytes written from the start are the word behind zeros up to 32 bytes, or a longer word as it is |
| EvmMemory.WriteThenRead | src/Nethermind/Nethermind.Evm/EvmPooledMemory.cs:82-93 | after a write, reading the written range gives the value back and every other byte is unchanged |
| EvmMemory.ExtendKeepsAndZeroes | src/Nethermind/Nethermind.Evm/EvmPooledMemory.cs:241-261 | growing the view keeps the old bytes and makes every new byte zero |
| EvmMemory.WriteAdjacent | src/Nethermind/Nethermind.Evm/EvmPooledMemory.cs:105-107 | writing data and then its padding just after it is the same as writing the padded data at once |
| EvmMemory.ExpansionCost | src/Nethermind/Nethermind.Evm/EvmPooledMemory.cs:160-178 | the code's cost expression equals C(new words) − C(old words); it is positive and fits in a signed 64-bit integer |
| EvmMemory.MemoryCostBound | src/Nethermind/Nethermind.Evm/EvmPooledMemory.cs:166-174 | the cost of up to 2^31−1 words never exceeds 2^63−1, so the cap at long.MaxValue never applies |
| EvmMemory.MemoryCostIncreasing | src/Nethermind/Nethermind.Evm/EvmPooledMemory.cs:150-182 | the memory cost strictly increases with the number of words |
| EvmMemory.EvmPooledMemory.constructor | src/Nethermind/Nethermind.Evm/EvmPooledMemory.cs:25-35 | a new memory has size and length 0 and no buffer |
| EvmMemory.EvmPooledMemory.UpdateSize | src/Nethermind/Nethermind.Evm/EvmPooledMemory.cs:225-263 | Length becomes the 32-bit truncated end and Size the word-rounded growth; with renting, the view is the old one zero-extended to Size and the zeroed mark reaches Size, or it faults when the pooled buffer is too small; without renting, the buffer is untouched |
| EvmMemory.EvmPooledMemory.RentForSize | src/Nethermind/Nethermind.Evm/EvmPooledMemory.cs:241-262 | renting succeeds exactly when the capacity rule holds, and then exposes Size zeroed bytes beyond the old view |
| EvmMemory.EvmPooledMemory.FirstRent | src/Nethermind/Nethermind.Evm/EvmPooledMemory.cs:243-247 | the first rent gives a fresh 256-byte buffer; clearing Size bytes succeeds exactly when Size is at most 256 |
| EvmMemory.EvmPooledMemory.Regrow | src/Nethermind/Nethermind.Evm/EvmPooledMemory.cs:248-255 | a regrow doubles the buffer, copies the zeroed prefix and zeroes up to Size; it succeeds exactly when twice the old length covers Size |
| EvmMemory.EvmPooledMemory.ClearUpToSize | src/Nethermind/Nethermind.Evm/EvmPooledMemory.cs:256-259 | clearing within the buffer zero-extends the view to Size |
| EvmMemory.EvmPooledMemory.Save | src/Nethermind/Nethermind.Evm/EvmPooledMemory.cs:82-93 | the byte-array save: an empty value changes nothing; otherwise the access is checked, the size grows, and the new view is the extended old view with the value written at the `(long)` location |
| EvmMemory.EvmPooledMemory.SaveSpan | src/Nethermind/Nethermind.Evm/EvmPooledMemory.cs:59-70 | the span save: as the byte-array save, but the value is written at the `(int)` location, which wraps modulo 2^32; a negative index faults |
| EvmMemory.EvmPooledMemory.Store | src/Nethermind/Nethermind.Evm/EvmPooledMemory.cs:92 | the copy succeeds exactly when it fits the buffer and then writes the value at the location |
| EvmMemory.EvmPooledMemory.SaveByte | src/Nethermind/Nethermind.Evm/EvmPooledMemory.cs:51-57 | checks a whole word's access but grows for one byte, then writes the byte |
| EvmMemory.EvmPooledMemory.SaveWord | src/Nethermind/Nethermind.Evm/EvmPooledMemory.cs:38-49 | the access and the growth are for 32 bytes at the location; the word is written so that it ends 32 bytes after the `(int)` location, behind zeros when shorter and reaching back before the location when longer; success exactly when that range fits the grown memory |
| EvmMemory.EvmPooledMemory.StoreWord | src/Nethermind/Nethermind.Evm/EvmPooledMemory.cs:43-48 | the clear and the copy succeed exactly when the written range lies inside the buffer, and then write the word image from its start |
| EvmMemory.EvmPooledMemory.StoreShortWord | src/Nethermind/Nethermind.Evm/EvmPooledMemory.cs:43-48 | for a word shorter than 32 bytes, clearing the gap and copying the word writes the word left-padded with zeros to 32 bytes |
| EvmMemory.EvmPooledMemory.SavePadded | src/Nethermind/Nethermind.Evm/EvmPooledMemory.cs:95-108 | an empty padded value changes nothing; otherwise the access is checked and the size grown for the location, and the data followed by its zero padding is written at the `(int)` location, succeeding exactly when that range fits |
| EvmMemory.EvmPooledMemory.StorePadded | src/Nethermind/Nethermind.Evm/EvmPooledMemory.cs:105-107 | the copy and the clear write the data and then the zero padding |
| EvmMemory.EvmPooledMemory.LoadWord | src/Nethermind/Nethermind.Evm/EvmPooledMemory.cs:110-116 | after the check and the growth, the 32 bytes returned are the view's bytes at the `(int)` location, succeeding exactly when that range fits the grown memory |
| EvmMemory.EvmPooledMemory.LoadSpan | src/Nethermind/Nethermind.Evm/EvmPooledMemory.cs:118-129 | a zero length returns nothing and changes nothing; otherwise the bytes returned are the extended view's `(int)` length of bytes at the `(int)` location, succeeding exactly when that range fits |
| EvmMemory.EvmPooledMemory.Load | src/Nethermind/Nethermind.Evm/EvmPooledMemory.cs:131-148 | zero length returns nothing; a location beyond 2^63−1 returns the `(long)` length of zeros without growing, and faults when that length is negative or over 2^31−1; otherwise the size grows unchecked and the `(int)` length of bytes at the location is returned, succeeding exactly when the pool holds the new size, the cast length is not negative and the range lies inside the new size |
| EvmMemory.EvmPooledMemory.Fetch | src/Nethermind/Nethermind.Evm/EvmPooledMemory.cs:145-146 | the copy out succeeds exactly when it fits the buffer and returns the view's bytes |
| EvmMemory.EvmPooledMemory.CalculateMemoryCost | src/Nethermind/Nethermind.Evm/EvmPooledMemory.cs:150-182 | the cost is 0 and nothing changes for zero length or no growth; it fails on an access violation or a word count over 2^31−1; otherwise it is C(new words) − C(old words) and the size grows without renting |
| FastSync.Increased | src/Nethermind/Nethermind.Blockchain/Synchronization/FastSynchronizer.cs:59-63 | doubling never exceeds 512, never shrinks a size, and keeps a size within [8, 512] |
| FastSync.Decreased | src/Nethermind/Nethermind.Blockchain/Synchronization/FastSynchronizer.cs:65-69 | halving never goes below 8, never grows a size, and keeps a size within [8, 512] |
| FastSync.DecreaseUndoesIncrease | src/Nethermind/Nethermind.Blockchain/Synchronization/FastSynchronizer.cs:59-69 | below the maximum, halving undoes doubling |
| FastSync.IncreaseUndoesDecrease | src/Nethermind/Nethermind.Blockchain/Synchronization/FastSynchronizer.cs:59-69 | above the minimum, doubling undoes halving |
| FastSync.Int32Increment | src/Nethermind/Nethermind.Blockchain/Synchronization/FastSynchronizer.cs:497 | the counter's increment is 32-bit: +1 below 2^31−1, then it wraps to −2^31 |
| FastSync.AfterBatch | src/Nethermind/Nethermind.Blockchain/Synchronization/FastSynchronizer.cs:495-499 | after a batch the counter is incremented, and the size doubles exactly when the new counter exceeds 2 and the size is not already 512 |
| FastSync.StepIntended | src/Nethermind/Nethermind.Blockchain/Synchronization/FastSynchronizer.cs:414-427 | a timeout halves the size and resets the counter; another fault only resets the counter |
| FastSync.StepAsWritten | src/Nethermind/Nethermind.Blockchain/Synchronization/FastSynchronizer.cs:405-428 | as written, a failed request leaves the controller unchanged and a batch steps it as `AfterBatch`; the batch size never drops |
| FastSync.AsWrittenNeverShrinks | src/Nethermind/Nethermind.Blockchain/Synchronization/FastSynchronizer.cs:405-428 | as written, no sequence of batches and failures ever lowers the batch size |
| FastSync.TimeoutAfterGrowth | src/Nethermind/Nethermind.Blockchain/Synchronization/FastSynchronizer.cs:405-428 | three batches and then a timeout leave the size at 512 as written, but back at 256 with the counter at 0 as intended |
| FastSync.IntendedTimeoutHalves | src/Nethermind/Nethermind.Blockchain/Synchronization/FastSynchronizer.cs:414-427 | as intended, whatever came before, a timeout leaves the size halved (floored at 8) and the counter at 0 |
| FastSync.InitialNumber | src/Nethermind/Nethermind.Blockchain/Synchronization/FastSynchronizer.cs:384 | the session starts at the lower of our best known block and the block before the peer's head; a peer head of 0 wraps, so the start is then the best known block |
| FastSync.RequestSize | src/Nethermind/Nethermind.Blockchain/Synchronization/FastSynchronizer.cs:401-402 | a request asks for the lesser of the blocks left (inclusive) and the batch size, and for at least one block |
| FastSync.SessionStarts | src/Nethermind/Nethermind.Blockchain/Synchronization/FastSynchronizer.cs:235-241 | a session starts only when the tree accepts blocks and there is a current peer whose head is at least two past our best suggested block (at least 2 when there is none) |
| FastSync.FirstRequestAsksForTwo | src/Nethermind/Nethermind.Blockchain/Synchronization/FastSynchronizer.cs:235-242 | when a session starts, the first position is below the peer's head and the first request asks for at least two headers |
| FastSync.ExtractHashes | src/Nethermind/Nethermind.Blockchain/Synchronization/FastSynchronizer.cs:436-447 | hashes are taken from the second header on, in order, up to the first missing header; the map's keys are exactly those hashes, each naming a header that came back |
| FastSync.PresentRun | src/Nethermind/Nethermind.Blockchain/Synchronization/FastSynchronizer.cs:438-447 | the count of headers present from a position up to the first missing one: all of them are present and the one after is missing or past the end |
| FastSync.PresentRunIs | src/Nethermind/Nethermind.Blockchain/Synchronization/FastSynchronizer.cs:438-447 | any run of present headers ended by a missing header or the end is exactly the present run |
| FastSync.BuildBlocks | src/Nethermind/Nethermind.Blockchain/Synchronization/FastSynchronizer.cs:501-517 | one block per hash, looked up in order, unless cancellation is seen inside the loop |
| FastSync.CheckContiguity | src/Nethermind/Nethermind.Blockchain/Synchronization/FastSynchronizer.cs:534-541 | the check passes exactly when each block's parent hash is its predecessor's hash |
| FastSync.AcceptedExactly | src/Nethermind/Nethermind.Blockchain/Synchronization/FastSynchronizer.cs:586-590 | the blocks kept by the header check are exactly the blocks of the batch that pass it |
| FastSync.InsertBatch | src/Nethermind/Nethermind.Blockchain/Synchronization/FastSynchronizer.cs:576-623 | the insertion loop returns the outcome and the suggested blocks of the per-block specification `InsertFrom` |
| FastSync.InsertedIffAllTaken | src/Nethermind/Nethermind.Blockchain/Synchronization/FastSynchronizer.cs:576-623 | the whole batch goes through exactly when every block is either skipped by the header check or added or already known, with no cancellation seen |
| FastSync.SuggestedAreAccepted | src/Nethermind/Nethermind.Blockchain/Synchronization/FastSynchronizer.cs:576-623 | the suggested blocks are always a prefix of the valid blocks in batch order |
| FastSync.InsertedSuggestsAll | src/Nethermind/Nethermind.Blockchain/Synchronization/FastSynchronizer.cs:576-623 | when the whole batch goes through, every valid block was suggested, in order |
| FastSync.OrphanedMeansFirstBlock | src/Nethermind/Nethermind.Blockchain/Synchronization/FastSynchronizer.cs:596-600 | an unknown-parent answer fails the session exactly when it is the first block's, the block is valid and no cancellation was seen |
| FastSync.OrphanOnlyAtZero | src/Nethermind/Nethermind.Blockchain/Synchronization/FastSynchronizer.cs:596-606 | past the first block, an unknown parent fails with "inconsistent batch", never with "orphaned blocks" |
| FastSync.RejectionReasons | src/Nethermind/Nethermind.Blockchain/Synchronization/FastSynchronizer.cs:576-623 | insertion only ever fails with orphaned blocks, an inconsistent batch or an invalid block |
| FastSync.SuggestingStartsUncanceled | src/Nethermind/Nethermind.Blockchain/Synchronization/FastSynchronizer.cs:576-584 | nothing is suggested when cancellation is seen before the first block |
| FastSync.FirstUntaken | src/Nethermind/Nethermind.Blockchain/Synchronization/FastSynchronizer.cs:576-623 | the first block the insertion loop does not take: every block before it is taken, and it is not |
| FastSync.InsertionEndsAtFirstUntaken | src/Nethermind/Nethermind.Blockchain/Synchronization/FastSynchronizer.cs:576-623 | the insertion loop ends as its first untaken block decides: a cancelled check or CannotAccept returns, UnknownParent fails as orphaned at the first block and as inconsistent later, InvalidBlock fails; with none, the batch is inserted |
| FastSync.Settled | src/Nethermind/Nethermind.Blockchain/Synchronization/FastSynchronizer.cs:519-625 | an unknown parent retreats by one batch (floored at 0) at a deeper search level and suggests nothing; a non-contiguous batch fails; an invalid seal fails exactly when the seal check is not cancelled; otherwise the step follows the insertion loop's first untaken block, so the batch advances to its last block exactly when every block is taken, CannotAccept or cancellation returns, and UnknownParent or InvalidBlock fail; only valid blocks of a checked batch are suggested |
| FastSync.SettleBatch | src/Nethermind/Nethermind.Blockchain/Synchronization/FastSynchronizer.cs:519-625 | the step and the suggested blocks are exactly those of `Settled` |
| FastSync.AfterSession | src/Nethermind/Nethermind.Blockchain/Synchronization/FastSynchronizer.cs:267-304 | a fault removes the peer and reports failure; a cancellation removes the peer only without the better-peer flag and clears the flag; only a clean finish reports completion |
| FastSync.ReplacementKeepsPeer | src/Nethermind/Nethermind.Blockchain/Synchronization/FastSynchronizer.cs:348-363 | a cancellation caused by replacing a peer keeps that peer once, clears the flag, and a later plain cancellation removes the peer |
| FastSync.FastSynchronizer.constructor | src/Nethermind/Nethermind.Blockchain/Synchronization/FastSynchronizer.cs:51-57 | a new synchronizer starts with batch size 256, counter 0, no better-peer flag and in block mode |
| FastSync.FastSynchronizer.IncreaseBatchSize | src/Nethermind/Nethermind.Blockchain/Synchronization/FastSynchronizer.cs:59-63 | the batch size becomes its doubling capped at 512; nothing else changes |
| FastSync.FastSynchronizer.DecreaseBatchSize | src/Nethermind/Nethermind.Blockchain/Synchronization/FastSynchronizer.cs:65-69 | the batch size becomes its halving floored at 8; nothing else changes |
| FastSync.FastSynchronizer.OnBatchArrived | src/Nethermind/Nethermind.Blockchain/Synchronization/FastSynchronizer.cs:495-499 | the controller moves as `AfterBatch` says |
| FastSync.FastSynchronizer.OnHeadersFailed | src/Nethermind/Nethermind.Blockchain/Synchronization/FastSynchronizer.cs:414-427 | the controller moves as `StepIntended` says for a timeout or another fault |
| FastSync.FastSynchronizer.SyncIteration | src/Nethermind/Nethermind.Blockchain/Synchronization/FastSynchronizer.cs:385-625 | the loop returns when the peer is no longer ahead or the position passes its head; a search deeper than 1024 fails with no common ancestor; cancellation before the request returns; a timeout or fault fails with headers unavailable and steps the controller; a cancelled request or cancellation after it returns; a lone header returns; more headers with no hash fail with an empty header list; only a real batch advances the controller; cancellation while the batch is built returns; otherwise the blocks are exactly the leading headers of the peer's answer and the step and suggestions are those of `Settled`: a fully taken batch moves to its last block, an unknown parent retreats, a broken chain, a bad seal, an orphan or an invalid block fails, CannotAccept returns; the batch size only shrinks on a timeout |
| FastSync.FastSynchronizer.TakeHeaders | src/Nethermind/Nethermind.Blockchain/Synchronization/FastSynchronizer.cs:429-500 | cancellation returns; a lone header returns; more headers with no hash fail with an empty header list; otherwise the controller advances as `AfterBatch`, cancellation while the batch is built returns, and otherwise the blocks are exactly the leading headers of the response and the step and suggestions are those of `Settled` |
| FastSync.FastSynchronizer.TakeBatch | src/Nethermind/Nethermind.Blockchain/Synchronization/FastSynchronizer.cs:461-625 | an answer holding a batch advances the controller as `AfterBatch`; cancellation seen by the last build check returns with nothing suggested; otherwise the blocks are the leading headers of the answer and the step and suggestions are those of `Settled` |
| FastSync.BatchFromHeaders | src/Nethermind/Nethermind.Blockchain/Synchronization/FastSynchronizer.cs:436-517 | the build is cancelled exactly when cancellation is seen by its last check, one per leading present header; otherwise there is one block per leading present header after the first, each with that header's hash and taken from the response, and the batch stops at the first missing header |
| FastSync.FastSynchronizer.FinishSession | src/Nethermind/Nethermind.Blockchain/Synchronization/FastSynchronizer.cs:267-304 | the peer removal, the status and the new flag are those `AfterSession` gives |
| FastSync.FastSynchronizer.OnAllocationReplaced | src/Nethermind/Nethermind.Blockchain/Synchronization/FastSynchronizer.cs:348-370 | replacing a previous peer sets the flag and cancels the session; a heavier new peer requests a sync |
| FastSync.FastSynchronizer.AfterSyncRound | src/Nethermind/Nethermind.Blockchain/Synchronization/FastSynchronizer.cs:320-336 | the mode switches to node data exactly when `SwitchesToNodeData` holds; the switch is never undone |
| FastSync.SwitchesToNodeData | src/Nethermind/Nethermind.Blockchain/Synchronization/FastSynchronizer.cs:322-325 | the switch needs a best suggested block past 131072 and a current peer, if any, at most 1024 blocks ahead of it; with no current peer it always happens past 131072 |
| BodiesFeed.TryPrepareBlock | src/Nethermind/Nethermind.Synchronization/FastBlocks/SimpleBodiesSyncFeed.cs:130-145 | as written, a body is accepted when either root matches its header; as intended, only when both do; an accepted block carries the header's number and hash |
| BodiesFeed.HalfMatchingBodyAccepted | src/Nethermind/Nethermind.Synchronization/FastBlocks/SimpleBodiesSyncFeed.cs:130-145 | a body with the right transaction root and a wrong ommers hash is accepted as written and refused as intended |
| BodiesFeed.MatchingBodyAccepted | src/Nethermind/Nethermind.Synchronization/FastBlocks/SimpleBodiesSyncFeed.cs:130-145 | under either rule, a body matching both roots is accepted |
| BodiesFeed.VerdictFor | src/Nethermind/Nethermind.Synchronization/FastBlocks/SimpleBodiesSyncFeed.cs:157-180 | each block's verdict is about its own number, and it is inserted exactly when its body arrived, no breach came before, and the body matches |
| BodiesFeed.VerdictsLength | src/Nethermind/Nethermind.Synchronization/FastBlocks/SimpleBodiesSyncFeed.cs:152-155 | the verdicts stop exactly at the first empty slot or at the end of the batch |
| BodiesFeed.VerdictAt | src/Nethermind/Nethermind.Synchronization/FastBlocks/SimpleBodiesSyncFeed.cs:152-181 | the k-th verdict is about the k-th claimed info, which is present |
| BodiesFeed.OneVerdictPerInfo | src/Nethermind/Nethermind.Synchronization/FastBlocks/SimpleBodiesSyncFeed.cs:150-181 | every claimed info up to the first empty slot gets exactly one verdict, in order, under its own block number |
| BodiesFeed.StickyAt | src/Nethermind/Nethermind.Synchronization/FastBlocks/SimpleBodiesSyncFeed.cs:162-175 | after a breach, the k-th later verdict inserts nothing and is a breach exactly when its body arrived |
| BodiesFeed.BreachIsSticky | src/Nethermind/Nethermind.Synchronization/FastBlocks/SimpleBodiesSyncFeed.cs:149-175 | after the first refused body, no later block is inserted, and every later body that arrived is reported as a breach |
| BodiesFeed.CountsBounded | src/Nethermind/Nethermind.Synchronization/FastBlocks/SimpleBodiesSyncFeed.cs:150-201 | the inserted count is the number of inserted blocks, and inserted plus breaches never exceed the verdicts |
| BodiesFeed.ReportAtFault | src/Nethermind/Nethermind.Synchronization/FastBlocks/SimpleBodiesSyncFeed.cs:162-174 | at the empty slot a breach is reported before the fault exactly when an earlier breach happened and a body arrived there, and at most once |
| BodiesFeed.FaultAfterBreachReportsTwice | src/Nethermind/Nethermind.Synchronization/FastBlocks/SimpleBodiesSyncFeed.cs:162-179 | a refused first body followed by a body at an empty second slot yields one verdict and two breach reports |
| BodiesFeed.ReportsAtMostOnePerSlot | src/Nethermind/Nethermind.Synchronization/FastBlocks/SimpleBodiesSyncFeed.cs:152-181 | the breach reports of one batch, including the one at a fault, never exceed the number of claimed slots |
| BodiesFeed.AdvanceVerdicts | src/Nethermind/Nethermind.Synchronization/FastBlocks/SimpleBodiesSyncFeed.cs:152-181 | settling one present slot appends its verdict to those done, and the breach flag keeps telling whether a breach happened |
| BodiesFeed.MarkedStatus | src/Nethermind/Nethermind.Synchronization/FastBlocks/SimpleBodiesSyncFeed.cs:161-179 | a block number carried by a single verdict ends Inserted in the tracker if it was inserted, Unknown otherwise |
| BodiesFeed.NextRequestSize | src/Nethermind/Nethermind.Synchronization/FastBlocks/SimpleBodiesSyncFeed.cs:188-199 | a size in [4, 1024] stays in [4, 1024]; a partly successful response leaves it unchanged |
| BodiesFeed.RequestSizeAdapts | src/Nethermind/Nethermind.Synchronization/FastBlocks/SimpleBodiesSyncFeed.cs:188-199 | all inserted doubles the size up to 1024; none inserted halves it down to 4; an empty batch doubles and then halves |
| BodiesFeed.SimpleBodiesSyncFeed.constructor | src/Nethermind/Nethermind.Synchronization/FastBlocks/SimpleBodiesSyncFeed.cs:34 | the feed starts with the maximal body fetch as its request size and nothing inserted |
| BodiesFeed.SimpleBodiesSyncFeed.ShouldBuildANewBatch | src/Nethermind/Nethermind.Synchronization/FastBlocks/SimpleBodiesSyncFeed.cs:75-89 | a new batch is built exactly when bodies are downloaded and the tracker's frontier is not 1; otherwise the feed finishes |
| BodiesFeed.SimpleBodiesSyncFeed.PrepareRequest | src/Nethermind/Nethermind.Synchronization/FastBlocks/SimpleBodiesSyncFeed.cs:97-112 | a batch is produced exactly when one should be built and the first claimed info is present; an empty claim faults on the index |
| BodiesFeed.SimpleBodiesSyncFeed.SettleBlock | src/Nethermind/Nethermind.Synchronization/FastBlocks/SimpleBodiesSyncFeed.cs:157-180 | one block is inserted and marked, or marked unknown, with a breach report exactly for a refused body, as `VerdictFor` says |
| BodiesFeed.SimpleBodiesSyncFeed.SettleAll | src/Nethermind/Nethermind.Synchronization/FastBlocks/SimpleBodiesSyncFeed.cs:150-181 | the loop inserts, marks and reports exactly as the verdicts say, counts the insertions, and faults at the first empty slot, after reporting a breach there when a body arrived after an earlier breach |
| BodiesFeed.SimpleBodiesSyncFeed.SettleUntilGap | src/Nethermind/Nethermind.Synchronization/FastBlocks/SimpleBodiesSyncFeed.cs:152-181 | the loop up to the first empty slot settles one block per verdict, knows whether a breach happened, and leaves the inserted blocks, the statuses and the reports as the verdicts say |
| BodiesFeed.SimpleBodiesSyncFeed.ReportBreach | src/Nethermind/Nethermind.Synchronization/FastBlocks/SimpleBodiesSyncFeed.cs:171-173 | one breach report more and nothing else about the feed changes |
| BodiesFeed.SimpleBodiesSyncFeed.InsertBodies | src/Nethermind/Nethermind.Synchronization/FastBlocks/SimpleBodiesSyncFeed.cs:147-202 | the inserted blocks, the tracker's statuses and the breach reports follow the verdicts, with one more report at a fault when a body arrived at the empty slot after a breach; the count is the insertions; the request size adapts only when no fault happened |
| BodiesFeed.SimpleBodiesSyncFeed.HandleResponse | src/Nethermind/Nethermind.Synchronization/FastBlocks/SimpleBodiesSyncFeed.cs:114-128 | no progress exactly when every claimed info was handled and none was inserted; a fault exactly at an empty slot; the inserted blocks, statuses and breach reports (including the one at a fault) follow the verdicts; the request size adapts after a handled batch and is kept after a fault; the finished flag is unchanged |
| Health.CheckPeers | src/Nethermind/Nethermind.HealthChecks/NodeHealthService.cs:137-150 | exactly one message is appended (the peer count, or "no peers"), and the node has peers exactly when the count is positive |
| Health.IsProducingBlocks | src/Nethermind/Nethermind.HealthChecks/NodeHealthService.cs:152-160 | a message is appended only when production stopped; the input is returned |
| Health.IsProcessingBlocks | src/Nethermind/Nethermind.HealthChecks/NodeHealthService.cs:162-170 | a message is appended only when processing stopped; the input is returned |
| Health.CheckHealth | src/Nethermind/Nethermind.HealthChecks/NodeHealthService.cs:64-107 | the four branches on mining and syncing produce exactly the verdict and messages of the condition table `Expected` |
| Health.SyncingNonMinerUnhealthy | src/Nethermind/Nethermind.HealthChecks/NodeHealthService.cs:75-80 | a syncing non-miner is unhealthy whatever its peers; its messages are "still syncing" then the peer line |
| Health.HealthyCases | src/Nethermind/Nethermind.HealthChecks/NodeHealthService.cs:81-100 | a synced non-miner is healthy iff it has peers and processes; a syncing miner iff it has peers; a synced miner iff it has peers, processes and produces |
| Health.VerdictExplained | src/Nethermind/Nethermind.HealthChecks/NodeHealthService.cs:64-107 | a report is healthy exactly when it names no problem and is not a syncing non-miner's |
| Health.ReportShape | src/Nethermind/Nethermind.HealthChecks/NodeHealthService.cs:64-107 | every report starts with the sync state and the peer line, and holds two to four messages |
| Health.ProcessorIntervalHint | src/Nethermind/Nethermind.HealthChecks/NodeHealthService.cs:109-122 | a hint exists exactly for Ethash, Clique and AuRa; it is an unsigned 64-bit value, four periods for Clique when that does not wrap |
| Health.ProducerIntervalHint | src/Nethermind/Nethermind.HealthChecks/NodeHealthService.cs:124-135 | a hint exists exactly for AuRa |
| Health.ProducerHintAgrees | src/Nethermind/Nethermind.HealthChecks/NodeHealthService.cs:109-135 | wherever a producer hint exists, the processor hint is the same |

## Left out

- RLP integers: values of 256 and more are not modelled. Their encoding goes
  through `short.ToBigEndianByteArray` and `BigInteger`, which are not part of
  this model. They yield the `Unmodelled` error.
- RLP inputs not modelled: `BigInteger` items, strings (ASCII encoding) and the
  `NotSupportedException` for other types.
- Rlp.SerializeDeserialize: the general round trip is proved for the Yellow
  Paper boundaries only. With the code's boundaries it fails at length 55 (see
  Findings). The byte-string round trip with the code's boundaries is
  `ByteStringRoundTrip`.
- Rlp.DecodeSingletonList: proved for the Yellow Paper boundaries only. With
  the code's boundaries a 55-byte payload is misread (see Findings).
- Rlp.DecodeItemsEncoded: proved for the Yellow Paper boundaries only, for the
  same reason.
- RLP lengths: lengths of 2^31 and more are not modelled. `DeserializeLength`
  reads them as negative `int` values.
- Rlp.Encode: its contract states only that an encoding is non-empty. The exact
  shapes are stated on `EncodeBytes`, `EncodeList`, `EncodeInteger` and their
  lemmas.
- EVM array limit: the largest .NET array is taken to be 2^31−1 bytes. The
  runtime's own limit is slightly lower, and that difference is not modelled.
- EVM pool: a rented buffer is a `new` array of exactly the requested length
  with arbitrary contents. The shared pool may hand out a longer array, which
  would let the first rent and a regrow cover a larger size; that is not
  modelled. Only the bytes up to the zeroed size are ever read, so the
  arbitrary contents never show. `Pool.Return` is not modelled.
- EVM span lengths: the lengths of spans and byte arrays are .NET `int`s, so
  they are required to be at most 2^31−1.
- EVM, not modelled:
  - `GetTrace` (hex formatting);
  - `Dispose`;
  - `Metrics` counters.
- EVM gas constant: `GasCostOf.Memory` is the constant 3.
- Fast sync concurrency: tasks, the timer, the reset event and the
  cancellation-token plumbing are not modelled.
- Fast sync seals: the parallel seal checks are one pass with one cancellation
  point. Cancellation is an `Environment` number: the index of the first
  cancellation check that sees it.
- Fast sync peer state: the total-difficulty comparison of the loop condition is
  an input flag (`peerAhead`). The peer's and block tree's answers are
  functions in `Environment`.
- Fast sync headers: a header's hash is a given number. Two headers with the
  same hash keep the last one in the lookup map, as the dictionary indexer does.
  The model only states that each entry names a header that came back.
- FastSync.FastSynchronizer.SyncIteration: a cancelled header request ends the
  iteration with `Return`. As written, `await headersTask` rethrows the
  cancellation, so the session task ends Canceled instead. The driver's
  continuation treats a cancelled task and a requested token alike, so the
  session ends the same way.
- FastSync.FastSynchronizer.SyncIteration: a faulted or timed-out request fails
  the session in both the code and the model, and the driver removes the peer.
  The model steps the controller through `OnHeadersFailed`, the corrected
  controller of Findings row 2. As written the controller is unchanged
  (`StepAsWritten`); the difference is only in the batch size carried into
  later requests.
- Fast sync, not modelled:
  - the commented-out second synchronizer at the end of the file (dead code);
  - the outer `RunSyncLoop` loop;
  - `_lastSyncNumber` reporting;
  - logging.
- Bodies status tracker: `FastStatusList` is abstract. `GetInfosForBatch` is the
  `claimed` parameter of `PrepareRequest`. How `LowestInsertWithoutGaps` moves
  after a mark is left unconstrained.
- Bodies headers: `FindHeader` is assumed to return the header the info names.
  Its transaction root and ommers hash are fields of the info. The hashing of
  the transaction trie and the ommers is done outside the model.
- BodiesFeed.SimpleBodiesSyncFeed.HandleResponse: an empty slot in a batch
  dereferences null and throws. This is modelled as a `Faulted` result, and the
  request size is then left unchanged. The breach report sent just before the
  throw is modelled; the state of the peer pool after it is not.
- Bodies, not modelled:
  - the `ISyncReport` updates;
  - logging;
  - the lock;
  - `MarkHandlingStart`/`MarkHandlingEnd`.
- Bodies request size: `GethSyncLimits.MaxBodyFetch` is a constructor
  parameter. `_requestSize * 2` is not checked for 32-bit overflow; it only
  matters for a starting size above 2^30.
- Health RPC: the RPC module renting and the RPC calls are left out. Their
  answers are the `Observation` value.
- Health production flag: "producing" is an input flag. The code computes it
  with the processor's interval check.
- The peer information DTO (`PeerInfo`) is not part of this model.

## Findings

| source | as written | input that shows it | evidently intended | confidence | as-written member | corrected member |
|---|---|---|---|---|---|---|
| src/Nevermind/Nevermind.Core/Encoding/RecursiveLengthPrefix.cs:55 | the decoder treats prefixes below 183 as short strings and below 247 as short lists (:73), but the encoder writes a 55-byte string with prefix 183 and a 55-byte list payload with prefix 247 | any 55-byte string: it encodes as 183 followed by the bytes and decodes as an empty string after one byte | short forms up to 0xb7 and 0xf7 inclusive, as in Appendix B of the Yellow Paper | high (not executed) | Rlp.FiftyFiveByteStringMisread | Rlp.SerializeDeserialize |
| src/Nethermind/Nethermind.Blockchain/Synchronization/FastSynchronizer.cs:405-428 | the header task is awaited before its status is checked, and awaiting a faulted task throws, so the timeout branch never runs and a timeout never halves the batch | a session whose fourth header request times out after three batches: the size stays 512 | a timeout halves the batch size and resets the counter | medium (not executed) | FastSync.TimeoutAfterGrowth | FastSync.IntendedTimeoutHalves |
| src/Nethermind/Nethermind.Synchronization/FastBlocks/SimpleBodiesSyncFeed.cs:133-135 | the flags named `txRootIsValid` and `ommersHashIsValid` hold mismatches, so a body is refused only when both roots are wrong | a body whose transaction root matches its header and whose ommers hash does not: it is inserted | a body is accepted only when both roots match | high (not executed) | BodiesFeed.HalfMatchingBodyAccepted | BodiesFeed.MatchingBodyAccepted |
