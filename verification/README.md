# Load-generator model

The repository generates synthetic blockchain traffic (transactions, subtrees, blocks, control frames) and
offers a sink that classifies and relays such streams. This project models its five hard cores and proves
what they promise:

- **Token protocol** (`SenderTokens`): dispatcher, bounded channel, workers and the wrapping `issued` counter
  as a step relation. Every statement is about every interleaving.
- **Sequence numbers** (`SeqAlloc`, `SeqRuns`, `FlowRuns`): the gap-injecting allocator as a class with its
  pending queue compacted in place; its atomic steps interleaved among any number of goroutines; and many
  flows at once.
- **Exact-size objects** (`Numbers`, `Bytes`, `Buffers`, `WireFormat`, `ObjFmt`, `TxBuilder`, `HashLists`, `BlockHdr`,
  `BlockPush`, `SubtreePush`, `SubtreeData`, `BlockAnnounce`): the builders write real arrays at a moving
  offset. Their counterpart is one walker and one printer for a small language of self-delimiting formats
  (`WireFormat`), in which transactions (BRC-12 raw and BRC-30 Extended Format), BRC-143 subtrees and
  BRC-144 blocks are terms (`ObjFmt`).
- **Merkle root** (`Merkle`): the level loop against a plain recursive tree.
- **Classification and relay** (`Frames`, `Objects`, `Classify`, `Relay`, `Lanes`): candidate elimination over a growing
  prefix, the framed grammar, and both pumps over arbitrarily chunked input.

`Announce` and `AnnounceRuns` add the group-id parser, the phase ramp and the announcement rounds.

Hash functions, the ChaCha8 word stream and the proof-of-work gate are parameters. Nothing is assumed about
them, so every theorem holds for each choice.

## Reading guide

A value of a format is a `WireFormat.Value`; `Fits(f, v)` says that it is one, `Print(f, v)` is its bytes and
`Parse(f, s)` walks one at the front of `s`, answering `Got`, `Short` (more bytes could complete it) or `Bad`
(none could). `WalkAll` repeats that over a buffer. `Wrote(before, after, off, b)` says that exactly the bytes
`b` were written at `off`. `Relay.Event` is one `conn.Read`: some bytes, or a deadline that fired. `Sink.good`
is the number of writes that still succeed.

Lemmas whose names end in `Bytes` state a layout by offset, without the functions that build it.

In the step relations, `Runs(…, acts)` says that the actions can happen in that order and `Exec` is where they
lead.

## Where the code differs from its comments

- `internal/sender/sender.go:436-437` says that releasing a slot on an error still makes the run emit exactly
  Count. It does so exactly when no slot comes back after the dispatcher has left and no token is dropped by
  the `ErrClosed` return: `SenderTokens.ExactlyCount`. `SenderTokens.LateReleaseLosesTheSlot` is, for every Count
  and number of workers, a run without cancellation that ends one frame short.
- `internal/sender/sender.go:187` says that Run blocks until it is canceled, Count is reached or Duration elapses.
  Without a Duration it can block for good, Count never reached, when every worker has left and the channel is
  full. That can happen exactly when Count exceeds twice the number of workers: `SenderTokens.HangsExactly`.
- `internal/sender/sender.go:221-224` says that the gate reads the tokens issued. It does at the gate
  (`SenderTokens.GateReadsExactly`), while in between the counter can be 2^64 - 1
  (`SenderTokens.IssuedWrapsBelowZero`).
- `cmd/tunnel-sink/main.go:382-389` logs `io.EOF` as an orderly close. `io.ReadFull` also returns it for a
  stream cut right after a header: `Frames.EofExactly` says when, and `Frames.CutAfterHeader` finds it on every
  frame this repository sends.
- `internal/announce/sender.go:98-101` ramps in `int32`, which is the documented ramp exactly under the condition of
  `Announce.RampExactly`; for a PhaseSize below 2^31 it is that PhaseSize plus the pool length stays below 2^31.

## Model

| member | source | states |
|---|---|---|
| `SenderTokens.StepInv` | internal/sender/sender.go:217-238 | every atomic step of dispatcher or worker keeps: each token put is queued, held, sent, burnt or released; issued equals tokens put minus releases modulo 2^64, one behind between send and Add; errors count releases and burns |
| `SenderTokens.RunInv` | internal/sender/sender.go:363-386 | the same along every interleaving |
| `SenderTokens.SentWithinCount` | internal/sender/sender.go:221-227 | in every reachable state queued + held + sent + burnt tokens never exceed Count, and at most one token per worker is burnt |
| `SenderTokens.GateReadsExactly` | internal/sender/sender.go:221-233 | wherever the dispatcher reads it, the wrapping counter is exactly tokens put minus slots given back, at most Count, and below Count once the gate let it pass |
| `SenderTokens.CancelStops` | internal/sender/sender.go:217-220 | once the context has ended at most one more token is put, and none if the dispatcher had yet to check |
| `SenderTokens.FinalAccount` | internal/sender/sender.go:433-473 | when all have left without cancellation, sent + released too late + burnt + stranded = Count, and nothing is stranded once some worker drained the channel |
| `SenderTokens.ExactlyCount` | internal/sender/sender.go:433-439 | such a run sends exactly Count if and only if no slot was released after the dispatcher left and none was burnt; in particular when there was no error |
| `SenderTokens.LateReleaseLosesTheSlot` | internal/sender/sender.go:436-437 | for every Count and every number of workers there is a run, never canceled and drained, in which one late write error leaves Count - 1 frames sent |
| `SenderTokens.IssuedWrapsBelowZero` | internal/sender/sender.go:232-233 | for every Count and worker number there is a run in which issued reads 2^64 - 1 |
| `SenderTokens.StuckExactly` | internal/sender/sender.go:231-236 | a reachable state in which nobody can move has everyone gone, or is the hang: all workers gone, the channel full and the dispatcher waiting to send; both directions |
| `SenderTokens.HangsExactly` | internal/sender/sender.go:209-238 | a configuration has a run that ends in that hang if and only if Count exceeds twice the number of workers, the channel capacity |
| `SenderTokens.StepMeasure` | internal/sender/sender.go:334-342 | a measure over tokens to issue, queued and held falls on every step; giving a slot back adds eight |
| `SenderTokens.RunLength` | internal/sender/sender.go:209-253 | no livelock: a run has at most 8 (Count + releases) + 2 workers + 6 steps |
| `SenderTokens.ErrorFreeFinish` | internal/sender/sender.go:209-253 | without errors or cancellation and with one worker that started, a run that cannot go on has all gone and exactly Count sent |
| `SeqAlloc.Allocator.constructor` | internal/seq/seq.go:50-62 | numbering starts at Start, or at 1 when Start is 0, with nothing pending |
| `SeqAlloc.Allocator.Next` | internal/seq/seq.go:67-88 | a call returns the number it found; on every gapEvery-th call it takes gapSize more, modulo 2^64, and with a delay queues one group of exactly these numbers, due at now plus the delay; otherwise the queue stays; and the k-th call returns the number its count determines |
| `SeqAlloc.CallDoes` | internal/seq/seq.go:71-86 | the numbers the call count determines have that effect |
| `SeqAlloc.CallsPartition` | internal/seq/seq.go:67-88 | with a delay and no wrap, the numbers n calls return and those in all groups they queue are, as a multiset, exactly those from the start (1 for Start 0) to the next |
| `SeqAlloc.EachOnce` | internal/seq/seq.go:67-88 | so each of them is returned or queued once, and no other number |
| `SeqAlloc.Allocator.Reserve` | internal/seq/seq.go:74-77 | the loop takes gapSize consecutive numbers and leaves the counter right behind them |
| `SeqAlloc.Allocator.Append` | internal/seq/seq.go:78-85 | the queue grows by one group at its end, in its own array or a larger one |
| `SeqAlloc.Allocator.DueRetransmits` | internal/seq/seq.go:92-109 | compaction inside the array being read yields the due numbers in queue order and keeps the others in order |
| `SeqAlloc.DuePartition` | internal/seq/seq.go:99-107 | due and kept groups together are the queue as a multiset: nothing lost, nothing twice; due exactly means dueAt not after now |
| `SeqAlloc.DueAppend` | internal/seq/seq.go:100-106 | one more group goes to the end of exactly one of the two lists, so the partition is stable |
| `SeqAlloc.GapsExact` | internal/seq/seq.go:72 | the number of injections in n calls is n divided by gapEvery, until the counter wraps |
| `SeqAlloc.KthNumber` | internal/seq/seq.go:67-88 | call k returns start + (k-1) + gapSize * floor((k-1) / gapEvery), until the numbers wrap |
| `SeqAlloc.NextAtStep` | internal/seq/seq.go:68-77 | with uint64 wrap-around, one call moves the counter by one, and by gapSize more on an injection |
| `SeqAlloc.PerFlowAllocator.Next` | internal/seq/seq.go:165-174 | each flow gets the numbers, and queues the gaps, that a private allocator would: they depend on that flow's call count alone, and no other flow's count or queue moves |
| `SeqAlloc.PerFlowAllocator.Find` | internal/seq/seq.go:166-172 | the allocator of a flow seen before is kept, a new flow gets a fresh one with an empty queue, and no other entry changes |
| `SeqRuns.StepPlaces` | internal/seq/seq.go:67-109 | an atomic step only moves numbers between places (returned, resent, lost, pending, held); the two that take a number add just the next one |
| `SeqRuns.StepInv` | internal/seq/seq.go:67-109 | every step keeps the partition and the count of begun, counted and reserving calls |
| `SeqRuns.RunInv` | internal/seq/seq.go:67-109 | the same along every interleaving |
| `SeqRuns.NumbersPartitioned` | internal/seq/seq.go:67-109 | under every interleaving each number of [start, next) is in exactly one place and no other number is anywhere |
| `SeqRuns.LostOnlyWithoutDelay` | internal/seq/seq.go:78-85 | under every interleaving no number is lost when a delay is configured, and none is queued or resent when none is |
| `SeqRuns.NeverTwice` | internal/seq/seq.go:67-109 | Next and DueRetransmits together never hand out a number twice |
| `SeqRuns.QuiescentNext` | internal/seq/seq.go:67-88 | whenever no call is in progress, next = start + n + gapSize * floor(n / gapEvery) for the n completed calls, whatever the interleaving |
| `FlowRuns.FlowsIndependent` | internal/seq/seq.go:146-174 | in every interleaving of all flows' steps, each flow's allocator does what it would do on its own steps alone |
| `FlowRuns.FlowNumbers` | internal/seq/seq.go:140-174 | so within a flow no number is handed out twice, and a flow at rest has used what its own call count says |
| `Merkle.Root` | internal/merkle/merkle.go:15-41 | the level loop over array levels computes the root of the recursive perfect tree over the nodes padded with absent ones, for every n of at least one and every hash |
| `Merkle.NextLevel` | internal/merkle/merkle.go:21-39 | one pass of the loop builds the level above and keeps the root |
| `Merkle.PairUp` | internal/merkle/merkle.go:23-36 | a parent is absent when its left child is, and pairs the left child with itself when the right is missing or absent |
| `Merkle.PairRoot` | internal/merkle/merkle.go:32-36 | the root of two present nodes is the double hash of the first followed by the second |
| `Merkle.HalvesHashed` | internal/merkle/merkle.go:23-36 | the root of a perfect tree is the double hash of its left half's root followed by its right half's; of the left one twice when the right is absent; absent when the left is |
| `Merkle.RootHashed` | internal/merkle/merkle.go:15-41 | the same for any list of two or more nodes, split at the largest power of two below its length |
| `Merkle.ThreeNodes` | internal/merkle/merkle.go:5-7 | three nodes: the last is paired with itself and the two pairs are hashed in order |
| `Merkle.LevelUpPad` | internal/merkle/merkle.go:5-7 | going up a level commutes with padding by absent nodes |
| `Merkle.TreeRootLevelUp` | internal/merkle/merkle.go:21-39 | a perfect tree has the root of its second-lowest level |
| `Merkle.RootLevelUp` | internal/merkle/merkle.go:21-39 | any list of two or more nodes has the root of the level above it |
| `Merkle.StrideIrrelevant` | internal/merkle/merkle.go:12-19 | records with the same hashes have the same root, whatever the strides and the bytes after each hash |
| `Merkle.OddLevelTail` | internal/merkle/merkle.go:5-7 | for an odd n of at least 3, appending a copy of the last node or an absent node leaves the root unchanged |
| `Merkle.SingleNodeRoots` | internal/merkle/merkle.go:5-7 | a single node is its own root, while two copies of it (or it and an absent node) are hashed |
| `Bytes.LeUndone` | internal/tx/tx.go:62-73 | reading undoes little-endian writing of any value that fits |
| `Bytes.FromLeUndone` | internal/tx/tx.go:62-73 | and writing undoes reading, for every byte string |
| `Bytes.BeUndone` | cmd/send-block-push/main.go:204-208 | the same for big-endian |
| `Bytes.FromBeUndone` | cmd/send-block-push/main.go:204-208 | and its converse |
| `Bytes.LeByte` | internal/tx/tx.go:62-73 | byte i of a little-endian field is digit i to the base 256 |
| `Bytes.BeByte` | cmd/send-block-push/main.go:204-208 | byte i of a big-endian field is digit i from the top |
| `Buffers.Put` | internal/tx/tx.go:125-148 | writing a field in place changes its bytes and no others |
| `Buffers.FillRand` | internal/tx/tx.go:157-167 | fills exactly the given range with the next bytes of the word stream, cutting the last word, and draws one word per eight bytes |
| `Buffers.RandByte` | internal/tx/tx.go:157-167 | byte i of the stream is byte i mod 8, little-endian, of word i div 8 |
| `WireFormat.CountPrintParse` | internal/tx/tx.go:55-75 | a canonical CompactSize, or a 64-bit count, is read back with its own width whatever follows |
| `WireFormat.CountParsePrint` | internal/tx/tx.go:55-75 | and only canonical bytes are accepted |
| `WireFormat.CompactSizeBytes` | internal/tx/tx.go:57-75 | the bytes of a count: itself below 0xFD, else the marker of its width and the little-endian value |
| `WireFormat.CountBadExactly` | internal/tx/tx.go:55-56 | a count is condemned if and only if a shorter encoding would do, in bytes |
| `WireFormat.PrintParse` | internal/tx/tx.go:1-13 | parsing a printed object, whatever follows it, returns the object and its exact length, for every format |
| `WireFormat.ParsePrint` | internal/tx/tx.go:1-13 | every accepted prefix is the printing of what was parsed, for every format |
| `WireFormat.AtLeastMinSize` | internal/tx/tx.go:22-27 | an accepted object is at least the format minimum, so walks make progress |
| `WireFormat.Stable` | cmd/tunnel-sink/main.go:473-486 | a verdict once reached is the verdict on every extension of the buffer |
| `WireFormat.ProperPrefixShort` | cmd/tunnel-sink/main.go:481-483 | every proper prefix of an object is short: neither accepted early nor condemned |
| `WireFormat.Decides` | cmd/tunnel-sink/main.go:474-484 | no bytes stay undecided for good: every buffer has an extension that is accepted or condemned |
| `WireFormat.WalkSound` | cmd/tunnel-sink/main.go:473-486 | the objects walked, printed again, and the tail are the buffer, and no object starts in the tail |
| `WireFormat.WalkSplits` | internal/tx/exactsize_test.go:76-125 | a back-to-back stream of printed objects is split into exactly those objects, whatever follows |
| `WireFormat.WalkGrows` | cmd/tunnel-sink/main.go:473-486 | more bytes only add objects, and a walk that met a malformed object stays where it was |
| `WireFormat.WalkOfPrefix` | cmd/tunnel-sink/main.go:473-486 | a printed stream cut anywhere walks to a prefix of its objects and meets nothing malformed |
| `WireFormat.WalkOfPrefixTail` | cmd/tunnel-sink/main.go:473-486 | and leaves over less than the next object |
| `WireFormat.WalkOfPrefixCount` | cmd/tunnel-sink/main.go:473-486 | so it counts exactly the objects that end within the cut |
| `ObjFmt.FormatsUsable` | internal/tx/ef.go:24-30 | the three object formats are ones both directions hold for, with their minimum sizes |
| `ObjFmt.KindNeverConfused` | internal/tx/ef.go:8-10 | the EF marker test on the bytes answers which kind was written, whatever follows |
| `ObjFmt.MarkerOrBad` | internal/tx/ef.go:8-10 | a zero where the input count would be, not followed by the rest of the marker, is no transaction |
| `ObjFmt.DropExtrasFits` | internal/tx/ef.go:26-29 | an EF input without amount and spent script is a raw input, shorter by just those bytes |
| `ObjFmt.DropAllFits` | internal/tx/ef.go:26-29 | the same for a whole input list |
| `ObjFmt.StandardFits` | internal/sender/sender.go:373-381 | dropping marker and extras from any EF transaction with at least one input leaves a well-formed raw one, shorter by six bytes and the extras |
| `ObjFmt.StandardScripts` | internal/sender/sender.go:373-381 | and with the same unlocking and locking script |
| `ObjFmt.StandardKeeps` | internal/sender/sender.go:373-381 | input by input, the standard serialisation is outpoint, length-prefixed script and sequence, and version, outputs and locktime stay |
| `ObjFmt.TxIdExactly` | internal/sender/sender.go:373-381 | the id of a raw transaction is the double hash of its bytes, and an EF transaction has the id of its standard serialisation |
| `TxBuilder.VarintSize` | internal/tx/tx.go:42-53 | the width is the length of the canonical encoding |
| `TxBuilder.PutVarint` | internal/tx/tx.go:57-75 | writes the canonical encoding in place and nothing else |
| `TxBuilder.SplitSlack` | internal/tx/tx.go:88-103 | succeeds exactly for a slack of 0 to 2^32 - 1 + 6, with the shim and bulk the next row characterises |
| `TxBuilder.SplitExactAndLeast` | internal/tx/tx.go:77-87 | that split absorbs the slack exactly with the widths really written, and no smaller shim goes with a bulk of at most five length bytes |
| `TxBuilder.NoSplit` | internal/tx/tx.go:86-87 | where it fails no shim of up to two bytes goes with a bulk of at most five length bytes |
| `TxBuilder.PutInput` | internal/tx/tx.go:127-137 | count, outpoint, script and sequence land as one laid-out input, each field from the next words of the stream |
| `TxBuilder.PutOutput` | internal/tx/tx.go:138-148 | the same for count, value, script and locktime |
| `TxBuilder.PutRaw` | internal/tx/tx.go:125-148 | the field writes amount to printing one raw transaction at the front of the buffer |
| `TxBuilder.PutEF` | internal/tx/ef.go:52-79 | the same for one Extended Format transaction |
| `TxBuilder.Builder.Build` | internal/tx/tx.go:112-154 | succeeds exactly from the minimum to the largest representable size; then the buffer holds one well-formed raw transaction of exactly that size, determined by size and stream position alone, and bytes beyond it are untouched; on failure nothing changes |
| `TxBuilder.Builder.BuildEF` | internal/tx/ef.go:39-85 | the same for Extended Format |
| `TxBuilder.RawAtSize` | internal/tx/tx.go:8-13 | what a size and a stream position determine is well formed and prints to exactly that size |
| `TxBuilder.EFAtSize` | internal/tx/ef.go:22-38 | the same for Extended Format |
| `TxBuilder.RawBytes` | internal/tx/tx.go:125-148 | the raw bytes by offset: version 2, one input and one output whose fields are the next words of the stream in order, canonical script lengths, locktime 0 |
| `TxBuilder.EFBytes` | internal/tx/ef.go:52-79 | the EF bytes by offset: marker, input, spent amount and spent script zero, output value zero, locktime 0 |
| `TxBuilder.BuiltFits` | internal/tx/exactsize_test.go:46-73 | each transaction of a list of orders has the ordered size and kind |
| `TxBuilder.BuiltStreamSplits` | internal/tx/exactsize_test.go:76-125 | a stream of Build and BuildEF outputs of any sizes in any mix walks to exactly the transactions built, each of the ordered size and kind |
| `TxBuilder.EFToRaw` | internal/tx/ef.go:32-36 | marker and extras dropped, an EF transaction of size t is a well-formed raw one of t - 15 with the same scripts, of the lengths Build picks at t - 15 |
| `HashLists.ItemsPrint` | cmd/send-subtree-push/main.go:137-147 | hashes one after the other are the printing of a list of 32-byte items |
| `HashLists.JoinHashes` | cmd/send-subtree-push/main.go:148 | the root function reads such a list back as the hashes it was made from |
| `HashLists.SplitJoin` | cmd/send-block-push/main.go:157-158 | any run of 32-byte records is the joining of the hashes cut from it |
| `HashLists.JoinUndone` | cmd/send-block-announce/main.go:143-145 | cutting undoes joining |
| `BlockHdr.SetBits` | internal/blockhdr/blockhdr.go:46-48 | changes bytes 72 to 75 only, to the little-endian bits |
| `BlockHdr.Grind` | internal/blockhdr/blockhdr.go:64-74 | changes only the nonce, stops at the first passing one in cyclic order from start, and fails only if none of the 2^32 passes; returns the double hash |
| `BlockHdr.GroundPasses` | internal/blockhdr/blockhdr.go:66-73 | a header the search leaves passes the gate if and only if some nonce does |
| `BlockHdr.GroundOnce` | internal/blockhdr/blockhdr.go:52-54 | front, start and gate determine the ground header, so a run is reproducible |
| `BlockHdr.GroundBytes` | internal/blockhdr/blockhdr.go:64-73 | the nonce bytes are start plus tries modulo 2^32, and no nonce before it passes |
| `BlockHdr.EveryNonceTried` | internal/blockhdr/blockhdr.go:52-54 | the cyclic search meets every nonce |
| `BlockPush.FillHeader` | cmd/send-block-push/main.go:161-172 | the in-place writes lay out version, previous hash, Merkle stand-in, time and bits in bytes 0 to 75 |
| `BlockPush.HeaderBytes` | cmd/send-block-push/main.go:162-172 | the header bytes by offset: version 2, previous hash, Merkle stand-in, time, regtest bits |
| `BlockPush.GrindHeader` | cmd/send-block-push/main.go:161-173 | the ground header keeps those bytes, and its nonce is the first passing one from the block height on, or the last of all |
| `BlockPush.BuildBlock` | cmd/send-block-push/main.go:155-202 | succeeds exactly when the coinbase size is representable; the object then prints a block value with these fields, SizeInBytes its own length, its header ground from the height, its hash the double hash of the header and the coinbase id that of the coinbase; both random streams end where the drawn bytes end |
| `BlockPush.BuildCoinbase` | cmd/send-block-push/main.go:176-183 | the coinbase is the raw transaction that size and stream position determine, and its id the one of its standard serialisation |
| `BlockPush.AppendFields` | cmd/send-block-push/main.go:189-200 | nine appends give the nested layout, and the total computed beforehand is its length |
| `BlockPush.Assemble` | cmd/send-block-push/main.go:189-201 | and that layout is the printing of the block value |
| `BlockPush.BlockPrints` | cmd/send-block-push/main.go:7-9 | every block value of well-formed parts is a value of the format and prints to that layout |
| `ObjFmt.BlockFrontBytes` | cmd/send-block-push/main.go:7-8 | the fields of any block by offset, up to the roots |
| `ObjFmt.BlockTailBytes` | cmd/send-block-push/main.go:8-9 | coinbase, height, BUMP length and BUMP by offset |
| `BlockPush.SelfCheck` | cmd/send-block-push/main.go:110-112 | every such object parses back to its fields and its own length, so the fatal self-check cannot fire |
| `BlockPush.NextBlock` | cmd/send-block-push/main.go:107-112 | a built block sits on the given hash at the given height, its Merkle stand-in the double hash of the roots it carries |
| `BlockPush.PushBlocks` | cmd/send-block-push/main.go:101-149 | whatever writes and dials fail, the blocks written form one chain of consecutive heights; sent counts exactly them, is what the failure pattern determines, and stops at -count |
| `BlockPush.ChainGrows` | cmd/send-block-push/main.go:117-126 | one more block on the last written hash extends the chain |
| `BlockPush.ChainLinks` | cmd/send-block-push/main.go:102-126 | in such a chain each header carries the double hash of the header before it, zero in the first |
| `BlockPush.ChainHeights` | cmd/send-block-push/main.go:107-108 | in such a chain block i has height height-start + i modulo 2^64, in the value and in the eight bytes behind the coinbase; the count and size fields are right |
| `BlockPush.ChainHeaders` | cmd/send-block-push/main.go:161-172 | its header has version 2, the double hash of the root bytes in the object, a time 1700000000 seconds above the height, and the regtest bits |
| `BlockPush.ChainNonce` | cmd/send-block-push/main.go:173 | its nonce is the first from the height on that passes the gate, in bytes, or the last of all |
| `BlockPush.WritesExactly` | cmd/send-block-push/main.go:120-149 | while dialling succeeds and the context lasts, the blocks written are the successful writes, up to -count |
| `BlockPush.WritesWhere` | cmd/send-block-push/main.go:114-149 | for any pattern: where the loop ends settles what was written; a connection is needed at the start without one and after each failed write, and a failed dial, an ended context or -count ends it |
| `SubtreePush.FillNodes` | cmd/send-subtree-push/main.go:138-147 | the loop fills the records with the placeholder and the stream, node after node, leaves the header bytes alone and draws four words per random node |
| `SubtreePush.BuildSubtree` | cmd/send-subtree-push/main.go:136-152 | the array patched last with root and count prints a subtree value whose root is the tree root of its own nodes; the stream ends where the next subtree starts |
| `SubtreePush.SubtreePrints` | cmd/send-subtree-push/main.go:148-151 | root, count and hashes are the printing of that value |
| `SubtreePush.SubtreeBytes` | cmd/send-subtree-push/main.go:4-6 | root, count and each node by offset |
| `SubtreePush.NodeBytes` | cmd/send-subtree-push/main.go:138-147 | the placeholder is 32 bytes 0xFF and only node 0; every other node is the next four words |
| `SubtreeData.FillRecords` | cmd/send-subtree-data/main.go:143-150 | the loop writes one record per hash and nothing outside the records |
| `SubtreeData.NewSubtree` | cmd/send-subtree-data/main.go:140-157 | the root is the tree root of the drawn hashes in both payload types, and the payload has matching totals, the records and a zero conflict count |
| `SubtreeData.FullPayloadBytes` | cmd/send-subtree-data/main.go:143-156 | a full-node payload by offset: total fees n, total size 250 n, count, each record's hash, fee 1 and size 250, zero conflicts |
| `SubtreeData.HashesPayloadBytes` | cmd/send-subtree-data/main.go:143-156 | a hashes-only payload by offset: zero totals, count, each hash, zero conflicts |
| `SubtreeData.HashesOfRecords` | cmd/send-subtree-data/main.go:142-150 | the root function finds the same hashes at stride 48 and stride 32 |
| `BlockAnnounce.EncodeBlockAnnounce` | cmd/send-block-announce/main.go:137-147 | the in-place writes give header, coinbase id, count and hashes |
| `BlockAnnounce.AnnouncementUndone` | cmd/send-block-announce/main.go:138-146 | a receiver reading the fixed offsets gets every field back, for any list the 32-bit count can hold |
| `Frames.EncodeAnchorFrame` | cmd/send-anchor-frame/main.go:111-124 | the array is the anchor frame for the id and payload, unused fields zero |
| `Frames.EncodeBlockFrame` | cmd/send-block-announce/main.go:121-134 | the array is the block control frame for type, id and payload |
| `Frames.EncodeSubtreeDataFrame` | cmd/send-subtree-data/main.go:160-175 | the array is the subtree data frame, the id in both of its fields |
| `Frames.EncodedWellFormed` | cmd/send-anchor-frame/main.go:111-124 | an encoded frame is one the sink's grammar accepts whole, when its length field can hold the payload length |
| `Frames.EncodedInjective` | cmd/send-subtree-data/main.go:160-175 | the frame determines kind, type, id and payload |
| `Frames.EncodedBytes` | cmd/send-anchor-frame/main.go:112-122 | every header field by offset |
| `Frames.SentBytes` | cmd/send-subtree-data/main.go:160-175 | version, type, id and SubtreeID field of the three kinds of frame by offset |
| `Frames.FrameReadBack` | cmd/tunnel-sink/main.go:302-326 | a well-formed frame is read as itself whatever follows |
| `Frames.FramesReadBack` | cmd/tunnel-sink/main.go:298-337 | and so are any number of them back to back |
| `Frames.FramesSound` | cmd/tunnel-sink/main.go:298-337 | the frames of any stream and the rest are the stream, and no complete frame starts in the rest |
| `Frames.RoundExactly` | cmd/tunnel-sink/main.go:302-326 | in bytes: lost sync, legacy version, oversized payload, or a whole frame with its exact extent, each if and only if |
| `Frames.EofExactly` | cmd/tunnel-sink/main.go:302-326 | io.EOF comes back exactly for an empty rest, a bare header with a payload to follow, or the first 92 bytes of a longer version 3 header |
| `Frames.CutAfterHeader` | cmd/tunnel-sink/main.go:324-326 | every frame of the three encoders with a payload, cut right after its header, ends that way |
| `Frames.SentFramesReadBack` | cmd/tunnel-sink/main.go:298-337 | frames of the three encoders in any mix come out as the list that was sent, ending orderly |
| `Frames.SentFramesMagic` | cmd/tunnel-sink/main.go:414-416 | and are recognised by the network magic |
| `Objects.NextExactly` | cmd/tunnel-sink/main.go:253-256 | within the size limit an object comes out exactly when one starts here; a longer one is refused |
| `Objects.ObjectsExactly` | cmd/tunnel-sink/main.go:252-267 | a lane yields exactly the whole objects of its stream up to the first over the limit, and objects and rest are the stream |
| `Objects.ObjectsReadBack` | cmd/tunnel-sink/main.go:252-267 | a stream of objects within the limit comes out whole and ends orderly |
| `Classify.WalkCandidate` | cmd/tunnel-sink/main.go:448-487 | the offset loop gives a candidate nothing once a field is out of its limits or an object is malformed, else the whole objects of the walk |
| `Classify.LimitsExactly` | cmd/tunnel-sink/main.go:450-471 | the field checks of each class, spelled out in bytes |
| `Classify.MalformedEliminates` | cmd/tunnel-sink/main.go:484 | whole objects followed by malformed bytes eliminate the class |
| `Classify.WholeObjectsCount` | cmd/tunnel-sink/main.go:476-483 | whole objects followed by nothing or an unfinished one are all credited to a class within its limits |
| `Classify.ViableExactly` | cmd/tunnel-sink/main.go:448-487 | a class is viable if and only if its fields are within their limits and no malformed object follows whole ones |
| `Classify.BestCandidate` | cmd/tunnel-sink/main.go:529-541 | the first class in sniff order among the viable ones with the most whole objects, or nothing if none qualifies |
| `Classify.TiesInOrder` | cmd/tunnel-sink/main.go:529-541 | a subtree pick has strictly more whole objects than a viable tx, a block pick than both |
| `Classify.Candidates` | cmd/tunnel-sink/main.go:497-508 | the lists of viable classes and of those with whole objects, each class once |
| `Classify.ClassifyBuffer` | cmd/tunnel-sink/main.go:496-525 | decides for the only viable class, else the only one with whole objects, else the best once at the end or past 64 KiB; past that it is undecided only when no class is viable |
| `Classify.EliminationIsFinal` | cmd/tunnel-sink/main.go:448-487 | an eliminated class stays eliminated for every extension, and while viable its object count never drops |
| `Classify.HopelessStays` | cmd/tunnel-sink/main.go:496-525 | a buffer with no viable class stays undecided for every extension |
| `Classify.TrueClassViable` | cmd/tunnel-sink/main.go:489-495 | any prefix of a stream of well-formed objects, the first plausible, keeps the true class viable with exactly its whole objects counted |
| `Classify.SingleViableIsTrue` | cmd/tunnel-sink/main.go:514-516 | so the single-viable decision is right on such a stream |
| `Relay.Source.ReadFull` | cmd/tunnel-sink/main.go:302 | however the bytes were chunked, exactly the next n are taken, or everything when fewer are left |
| `Relay.SniffClass` | cmd/tunnel-sink/main.go:405-441 | for any chunking the consumed prefix is kept for replay; framed exactly when the stream starts with the magic; a lane only for a viable class with the evidence required on that prefix; giving up only when no class is viable on the whole stream |
| `Relay.MagicFront` | cmd/tunnel-sink/main.go:414 | framed means the four magic bytes in front |
| `Relay.ReadHeader` | cmd/tunnel-sink/main.go:302-315 | the one or two header reads find the header the grammar has there, or its reason to stop |
| `Relay.ReadFrame` | cmd/tunnel-sink/main.go:302-326 | one round reads exactly the next frame of the grammar, or its reason to stop |
| `Relay.Forward` | cmd/tunnel-sink/main.go:327-334 | both writes done, the frame is out verbatim; otherwise a prefix of it is |
| `Relay.PumpFramed` | cmd/tunnel-sink/main.go:298-337 | while writes succeed, exactly the complete frames of the input are forwarded, in order and unchanged, and the end reported is the input's; whatever is written is a prefix of the input |
| `Relay.ReadObject` | cmd/tunnel-sink/main.go:253-259 | reading until decided, or past the size limit, gives the verdict on the whole remaining stream, whatever the chunking |
| `Relay.PumpClassStream` | cmd/tunnel-sink/main.go:252-267 | while writes succeed, exactly the objects the lane yields within the size limit are forwarded, in order and unchanged, and the end reported is the input's; whatever is written is a prefix of the input |
| `Relay.RelayConnection` | cmd/tunnel-sink/main.go:202-246 | sniffing, dialling, replay and pumping together: the class relayed is one the prefix read gave the evidence for, on that class's port; complete frames or its whole objects come out verbatim, only a prefix of the input is ever written, and an unclassifiable stream or a failed dial writes nothing |
| `Lanes.BuiltStreamIsTx` | cmd/tunnel-sink/main.go:489-495 | any prefix of a stream of Build and BuildEF outputs keeps tx viable, and a sole viable class is tx |
| `Lanes.SubtreeStreamIsSubtree` | cmd/tunnel-sink/main.go:457-460 | the same for buildSubtree outputs of at most 2^24 nodes |
| `Lanes.BlockStreamIsBlock` | cmd/tunnel-sink/main.go:461-470 | the same for block objects within the sink's limits |
| `Lanes.PushedStreamIsBlock` | cmd/send-block-push/main.go:101-149 | in particular, whatever writes failed, any prefix of what the push loop wrote, for at most 2^20 subtrees and a first object of at most 2^40 bytes |
| `Lanes.PushedStreamNotTx` | cmd/tunnel-sink/main.go:484 | and eliminates tx after ten bytes, although the version of such a header passes |
| `Lanes.BlockFront` | cmd/tunnel-sink/main.go:463-465 | the count fields the sink reads at fixed offsets are the block's own |
| `Lanes.FirstDecides` | cmd/tunnel-sink/main.go:450-471 | plausibility of the first object is plausibility of the stream |
| `Lanes.RelaySentFrames` | cmd/tunnel-sink/main.go:202-246 | frames of the three encoders in any mix and any chunking are relayed verbatim, all of them |
| `Lanes.TrueLaneDeliversAll` | cmd/tunnel-sink/main.go:252-267 | on the lane of its true class a stream of objects within the size limit is delivered whole |
| `Lanes.RelayObjects` | cmd/tunnel-sink/main.go:202-267 | a stream of well-formed objects within the limit always gets a lane; when the prefix read leaves its own class alone viable, or no other class ever has evidence, that is its own, and all of it is relayed to that lane's port, however chunked |
| `Announce.SplitComma` | internal/announce/sender.go:228-239 | the parts between commas, one more than there are commas |
| `Announce.PartsExactly` | internal/announce/sender.go:228-239 | no part has a comma, and joined by commas they are the string |
| `Announce.NibbleExactly` | internal/announce/sender.go:216-226 | a character has the value n if and only if it is the lower-case or upper-case hexadecimal digit for n |
| `Announce.HexDecode` | internal/announce/sender.go:200-214 | succeeds exactly for an even number of hexadecimal digits, with the bytes they spell |
| `Announce.HexSpells` | internal/announce/sender.go:205-212 | byte i is digit 2i times 16 plus digit 2i + 1 |
| `Announce.ParseGroupIDs` | internal/announce/sender.go:174-192 | the ids of the non-empty parts in order, or the first part that is not an id |
| `Announce.ParsesExactly` | internal/announce/sender.go:172-186 | parsing succeeds if and only if every non-empty part is 32 hexadecimal digits, and the error names the first that is not |
| `Announce.IDsInOrder` | internal/announce/sender.go:179-190 | parts of 32 digits give their ids, each one and in order |
| `Announce.EmptyPartsSkipped` | internal/announce/sender.go:180-182 | empty parts anywhere make no difference |
| `Announce.JoinUndone` | internal/announce/sender.go:172-192 | parsing undoes comma-joined hexadecimal printing of every non-empty id list |
| `Announce.RampWithoutOverflow` | internal/announce/sender.go:97-102 | after k ticks min(k * PhaseSize, pool) subtrees are active while nothing overflows |
| `Announce.RampExactly` | internal/announce/sender.go:97-102 | for every positive PhaseSize and every pool length, the int32 ramp is that one at every tick if and only if the int32 value of PhaseSize plus the pool length is below 2^31, and that value is PhaseSize itself or at least the pool length |
| `AnnounceRuns.SendUpTo` | internal/announce/sender.go:142-170 | a call writes the whole round in order, or a proper prefix of it and reports the error |
| `AnnounceRuns.RoundAt` | internal/announce/sender.go:151-165 | a round lists pool[0..limit) times all groups, each pair once and in order |
| `AnnounceRuns.NeverInterleaved` | internal/announce/sender.go:140-170 | under every scheduling of concurrent callers the log is what the finished calls wrote, one after the other: the whole round of each that returned nil, a proper prefix of each that failed; then the part of the call in progress |

## Left out

- Sockets, dialling, deadlines, backoff, multicast options, TCP flush policy, signals, CLI flags, logging and summaries: I/O. Reads are arbitrary chunks, writes succeed or fail, and a round of the block loop is a triple of outcomes.
- shard-common is not part of this model. The walkers are written from the layouts this repository documents; they refuse non-canonical CompactSize counts and a raw transaction without inputs (its count would be read as the EF marker). The object reader is modelled as reading until its bytes decide or exceed the object size limit, and HeaderSizeV3 is any number of at least 92.
- SHA-256, ChaCha8, XXH64 and compact-target expansion: parameters; no collision or randomness claim.
- Rates: the pacer's wait always returns true (it returns false only once stopped, which Run does after everyone has left); `internal/rate/pacer.go` and `internal/subtree/pool.go` would only add easy members.
- The sender with Count 0 (no limit), payload filling and encoding inside a worker, `groupIdx`, the lazy creation of `r.pfa` in direct-multicast mode, and a second Run on the same Runner.
- Retransmission end to end: nothing here calls DueRetransmits; the queue is proved.
- Classification when several classes have walked whole objects: the heuristic may guess wrong, and no claim is made.
- Statistics, per-frame log fields and the subtree pool cycling of the push senders: printing and indexing only.
- NeverTwice: over unbounded counters, because a number repeats once the 64-bit counter has wrapped; SeqAlloc models the wrap-around for a single caller.
- NumbersPartitioned: over unbounded counters, as NeverTwice.
- QuiescentNext: over unbounded counters, as NeverTwice.
- FlowNumbers: over unbounded counters, as NeverTwice.
- KthNumber: up to the first wrap of either counter; NextAtStep has the wrapping step.
- CallsPartition: up to the first wrap, as KthNumber; Allocator.Next has the wrapping effect of each call.
- EncodedWellFormed: for payloads below 2^32 bytes; a longer one does not fit the 32-bit length field the encoders write.
- FillRecords: the random node hashes are an argument, because crypto/rand is outside the model.
- SplitComma: strings are sequences of characters; the byte offsets of multi-byte characters are not modelled.
- BuildBlock: object fields are values appended to a sequence, as the source appends to a slice with sufficient capacity; the header is an array ground in place.
- ReadObject: an idle read only waits, because the pump has no deadline; whether a length that announces an object over the limit is refused before its bytes arrive is not modelled.
