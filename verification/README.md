# A model of the repository's core algorithms

Four independent parts are modelled, each close to the code and proved against a small reference definition:

- **The Merkle history tree** (`include/merklecpp.h`). Nodes are objects in memory, changed in place by the loops of
  the original; ghost snapshots say what a tree and a half-finished insertion stand for. Every operation is tied to
  functions of the list of leaves: the root of a list split at the largest power of two below its length (the tree of
  section 2.1 of RFC 6962, without the prefixes that RFC hashes in), the audit path, and a byte form. The hash
  function is a parameter. Modules `Powers` and `Merkle*`.
- **The consensus core** (`src/consensus.cpp`). A replica is an object; each handler is proved equal to a function on
  its state, and runs of a whole group are sequences of these steps. Modules `Consensus*`.
- **Arithmetic** (`depends/ate-pairing`, `depends/xbyak/sample/quantize.cpp`): limb loops, long division, modular
  inverses, Montgomery reduction, signed-digit recoding, scalar multiplication, exponentiation, the tower of fields,
  the Miller loops, and the division code generator. Field elements are Montgomery forms of values; products in the
  tower stay double numbers of 512 bits until they are reduced, and no step may overflow or borrow. Modules
  `Arithmetic`, `Quantize*`, `Modular`, `ZmZ`, `Limbs`, `Vuint*`, `Power`, `Montgomery`, `F*`, `Naf`, `ScalarMult`,
  `Tower*`, `Miller*`.
- **Jump patching and a small compiler** (`depends/xbyak`): labels, forward references, the growing code buffer, and
  the Brainfuck compiler of the samples, down to the bytes of the function it makes for 64-bit System V systems. A
  model of the processor, with the instruction encoding of the Intel 64 architecture, decodes these bytes and says
  what they do. Modules `Xbyak*`, `X86` and `Brainfuck*`.

`dafny verify dfyconfig.toml` checks the whole project.

## What the consensus results assume

`ConsensusRun.Allowed` states the assumptions step by step:

- At most `nfaulty` replicas behave arbitrarily, and `2 * nfaulty <= nreplicas`.
- A certificate for a block and a view exists only if `nresponsive` replicas voted for that block in that view. This
  is how the code makes certificates (src/consensus.cpp:299-318); the verifier itself counts only `nmajority`
  signatures (src/crypto.cpp:32), which `ConsensusBlocks.MajorityQuorums` shows to be enough only if
  `3 * nfaulty < nreplicas`.
- An honest replica casts one vote per view. The guard in the code is per height; `ConsensusOrder.VotesOncePerView`
  says exactly when it gives one vote per view, and `ConsensusOrder.VotesTwice` is a case where it does not.
- A proposer extends its own highest certified block, as include/hotstuff/liveness.h:61-62 documents, and the block it
  proposes is new.
- For the results about execution order only: no block below `b_exec` is committed.
  `ConsensusOrder.CommitsTwice` shows what happens otherwise.

A run starts with the replicas entering view 1 and sending its transcripts (src/hotstuff.cpp:732-733).

## Where the code and what it says differ

- `_3z_add_2xC` computes 2z + 3x, not 3z + 2x (`FpReduction.PromisedOnlyWhenEqual`).
- `fast_modp` is right for moduli just above 2^253 only (`FpReduction.FastModpReduces`).
- The portable `Fp2T::squareC` of the build without SNARK support is right, modulo a prime, exactly if both
  coefficients are equal (`TowerField.SquareC`); the square of 1 is always wrong (`Tower.SquareOfOne`).
- `FpDbl::subOpt1` of the header adds half of p * 2^256, the generated code a quarter. Products in Fp6 need the
  quarter (`TowerProducts.HalfBorrowsWhen`, `TowerProducts.HalfBorrows`).
- The note that 7p < 2^256 at `Fp2T::mulC` holds of neither modulus, as the note at depends/ate-pairing/src/zm2.cpp:36
  says of one of them. With the SNARK modulus not even 6p is (`TowerProducts.CurveModuli`), so that one coefficient of
  a product in Fp6 can pass the range of the reduction (`TowerProducts.FitsAlways`). Its value is right all the same,
  and it is reduced exactly if what the reduction leaves before its last subtraction is below 2p
  (`TowerProducts.Mul6C`); `TowerProducts.NotReduced` is a case where it is not.
- A path whose direction bytes are neither 0 nor 1 is accepted but not written back the same
  (`MerklePath.PathReserialises`, `MerklePath.DirectionTwoIsLost`).
- `convertToNAF` leaves a run of ones that reaches up to the third digit as it is, so that its result need not be
  non-adjacent. The condition in `Naf.ConvertToNaf` says of every bit string whether it is; 1011 comes back unchanged
  (`Naf.ElevenStays`).
- `VsintT::div` returns a zero with a minus sign as its quotient exactly if the dividend is zero and the signs differ
  (`VuintDivide.DivideSigned`, `VuintDivide.MinusZero`).
- The rounded-up branch of the add form in `udiv` is never taken (`QuantizeMultiplier.AddFormRoundsDown`).
- The handler of certificate messages does not wait for their view (src/hotstuff.cpp:397-408). A certificate of a later
  view that comes early keeps the replica in its view for good (`ConsensusViews.StuckInView`).
- A replica's own transcript is noted without a look at how many there are (src/consensus.cpp:912-914). Where it is the
  nmajority-th for its view no aggregate is made (`ConsensusAggregates.AggregateMade`).
- A proposal that is refused for its transcript may have raised `vheight` before (`ConsensusProposals.HeightKept`).

## Model

| member | source | states |
|---|---|---|
| `MerkleNode.Node.Leaf` | include/merklecpp.h:531-540 | A new leaf is a linked tree of one node: size 1, height 1, clean. |
| `MerkleNode.Node.Inner` | include/merklecpp.h:545-556 | A new inner node is dirty, and its size and height are those of its children. |
| `MerkleNode.Node.UpdateSizes` | include/merklecpp.h:637-650 | Size and height follow from the children; hash, pointers and dirty flag stay. |
| `MerkleNode.FullIsPow2` | include/merklecpp.h:629-632 | The test `size == (1 << height) - 1` holds of a left-balanced tree exactly if its number of leaves is a power of two. |
| `MerkleSpec.AuditPathFolds` | include/merklecpp.h:316-346 | Folding the audit path of any leaf of any list of leaves gives the root of the list. |
| `MerkleSpec.PathsAgree` | include/merklecpp.h:316-353 | Two paths with the same turns and the same root are the same path, or at one step they hash two different pairs to one digest. |
| `MerkleSpec.LeftSiblingsAreExtras` | include/merklecpp.h:1228-1236 | The left siblings met on the way to leaf i are exactly the roots of the full blocks that the set bits of i name. |
| `MerkleInsert.InsertRepresents` | include/merklecpp.h:1686-1722 | Going down to the full subtree and forking there keeps stack and tree the left-balanced tree, now of one leaf more. |
| `MerkleInsert.InsertWaits` | include/merklecpp.h:1686-1790 | After a whole insertion the stack and the tree on top of it stand for the left-balanced tree of the old leaves and the new one, and wait below a subtree with room left. |
| `MerkleInsert.CompleteWaits` | include/merklecpp.h:1726-1774 | Completing the stack leaves one left-balanced tree of the same leaves and an empty path. |
| `MerkleTree.TreeT.ContinueInsertionStack` | include/merklecpp.h:1686-1722 | The loop stacks exactly the nodes on the way to the full subtree, marks them dirty and makes the fork there; memory is otherwise as before. |
| `MerkleTree.TreeT.ProcessInsertionStack` | include/merklecpp.h:1726-1774 | The loop gives subtrees back to the nodes on the stack, up to the first with room left or all of them, and corrects sizes and heights. |
| `MerkleTree.TreeT.InsertLeaf` | include/merklecpp.h:1776-1790 | Inserting keeps the tree invariant and appends exactly one leaf. |
| `MerkleTree.TreeT.InsertLeaves` | include/merklecpp.h:1794-1809 | All queued leaves are inserted in order, the queue is empty, and with `complete` no insertion is suspended. |
| `MerkleTree.TreeT.Insert` | include/merklecpp.h:745-753 | Appends one leaf to the contents. |
| `MerkleHashing.HashedGood` | include/merklecpp.h:1629-1664 | Recomputing dirty hashes makes every hash of a left-balanced tree the root of its leaves, and keeps the shape. |
| `MerkleHashing.PendingCountsDirtyNodes` | include/merklecpp.h:1629-1664 | The number of hashes computed is the number of dirty nodes. |
| `MerkleTree.TreeT.Hash` | include/merklecpp.h:1629-1664 | The worklist loop ends with the tree whose dirty hashes were computed children first, having hashed each dirty node once. |
| `MerkleTree.TreeT.ComputeRoot` | include/merklecpp.h:1667-1680 | Refused exactly for the empty tree; otherwise everything is inserted, nothing suspended and no hash out of date, with the same contents. |
| `MerkleTree.TreeT.GetRoot` | include/merklecpp.h:918-930 | The root of the list of all leaves ever inserted, flushed ones included, whatever was done to the tree before. |
| `MerkleWalk.StartSteers` | include/merklecpp.h:964-1010 | The shifted index word starts as the bits of the leaf index, leading bit on top. |
| `MerkleWalk.AtFork` | include/merklecpp.h:964-1010 | Where the node is as high as the walk expects, the top bit says on which side of the fork the leaf lies. |
| `MerkleWalk.AtShort` | include/merklecpp.h:964-1010 | Where the right spine is shorter than the walk expects, the top bit is zero and the node stays. |
| `MerkleWalk.Advance` | include/merklecpp.h:964-1010 | One round of the bit-steered walk keeps the leaf below the node reached. |
| `MerkleWalk.AtEnd` | include/merklecpp.h:964-1010 | The walk ends at the leaf asked for. |
| `MerkleWalk.LeafNode` | include/merklecpp.h:1013-1033 | The node list holds, for every leaf that is not flushed, its node with its hash. |
| `MerkleQueries.WalkPath` | include/merklecpp.h:1015-1033 | The elements collected on the walk are the audit path of the leaf. |
| `MerkleTree.TreeT.GetPath` | include/merklecpp.h:1015-1033 | Refused exactly outside the flush point and the last leaf; otherwise the audit path of the leaf in the tree of all leaves. |
| `MerklePast.FoldLeftIsPastRoot` | include/merklecpp.h:937-955 | Folding the left siblings only gives the root the tree had when the leaf was its last. |
| `MerkleTree.TreeT.GetPastRoot` | include/merklecpp.h:937-955 | The root of the first index + 1 leaves. |
| `MerklePast.PastPathRight` | include/merklecpp.h:1040-1202 | Right of the fork the past path keeps the left subtree as a sibling. |
| `MerklePast.PastPathFork` | include/merklecpp.h:1040-1202 | Where leaf and past end part, the sibling in the past path is a past root. |
| `MerklePast.AfterForkEnd` | include/merklecpp.h:1164-1198 | The three segments put together are the past path. |
| `MerkleQueries.WalkPast` | include/merklecpp.h:1055-1144 | The loop over both ways down records three segments that make the path in the tree of the first asOf + 1 leaves. |
| `MerkleQueries.JoinSegments` | include/merklecpp.h:1164-1201 | The segments are put together in the order of the path. |
| `MerkleTree.TreeT.GetPastPath` | include/merklecpp.h:1040-1202 | Equals element for element the path of the leaf in the tree that holds only the first asOf + 1 leaves; refused exactly outside the bounds. |
| `MerkleFlush.FlushedGood` | include/merklecpp.h:774-803 | A clean tree cut off left of leaf index is the left-balanced tree with that flush point, still clean. |
| `MerkleFlush.FlushedTips` | include/merklecpp.h:774-803 | Flushing keeps the nodes of all later leaves. |
| `MerkleTree.TreeT.WalkFlush` | include/merklecpp.h:774-803 | The walk cuts off exactly the maximal subtrees left of the leaf. |
| `MerkleTree.TreeT.FlushTo` | include/merklecpp.h:774-803 | The contents, and with them the root and all paths, past roots and later insertions, are as before; the flush point is the index. |
| `MerkleRetract.RetractedGood` | include/merklecpp.h:809-886 | Replacing nodes by their left child along the walk leaves the left-balanced tree of the leaves up to index. |
| `MerkleRetract.RetractedTips` | include/merklecpp.h:809-886 | All leaf nodes but the last kept one stay in place. |
| `MerkleRetract.WalkRetract` | include/merklecpp.h:809-886 | The walk with its in-place replacement and the size updates on the way back leaves exactly that tree, and returns its last leaf. |
| `MerkleHeap.Eliminate` | include/merklecpp.h:843-851 | Moving the content of the left child into a node keeps memory a tree, apart from the rest. |
| `MerkleTree.TreeT.RetractTo` | include/merklecpp.h:809-886 | The contents are the first index + 1 leaves, as if the others had never been inserted; nothing happens past the end, and flushed leaves refuse. |
| `MerkleTree.TreeT.Leaf` | include/merklecpp.h:1381-1393 | The hash of the leaf, in the tree or still queued; refused exactly past the last leaf. |
| `MerkleTree.SameLeavesSameForm` | include/merklecpp.h:1290-1360 | Two trees with the same leaves and flush point have the same shape, sizes, heights and computed hashes, however they were made. |
| `MerkleBytes.SerialiseWord` | include/merklecpp.h:71-77 | Appends the eight bytes of a word, most significant first. |
| `MerkleBytes.DeserialiseWord` | include/merklecpp.h:79-87 | Reads the number that eight bytes stand for. |
| `MerkleBytes.ValueOfWord` | include/merklecpp.h:71-87 | A word read back is the word written. |
| `MerklePath.PathRoot` | include/merklecpp.h:316-346 | The fold of the path from its leaf. |
| `MerklePath.Verify` | include/merklecpp.h:351-354 | True exactly if the path folds to the expected root. |
| `MerklePath.VerifiedPathIsGenuine` | include/merklecpp.h:351-354 | A path with the turns of leaf i verifies against the root exactly if it is the audit path of leaf i, unless it exhibits a collision with it. |
| `MerklePath.Serialise` | include/merklecpp.h:358-372 | The byte form of the path is appended. |
| `MerklePath.Deserialise` | include/merklecpp.h:375-393 | The path that the bytes spell is read, and the position moves past it; refused exactly if the path is not there as a whole, with the position at the first digest missing. |
| `MerklePath.PathRoundTrip` | include/merklecpp.h:358-393 | Reading what was written gives the path back, whatever follows. |
| `MerklePath.PathReserialises` | include/merklecpp.h:375-393 | Writing what was read gives the bytes back exactly if every direction byte is 0 or 1. |
| `MerklePath.DirectionTwoIsLost` | include/merklecpp.h:384-385 | A path with a direction byte of 2 is read and not written back the same. |
| `MerkleTree.TreeT.Serialise` | include/merklecpp.h:1206-1237 | The byte form of the contents and flush point; the contents stay. |
| `MerkleTree.TreeT.SerialiseSegment` | include/merklecpp.h:1243-1277 | The byte form of the tree retracted to `to` and flushed to `from`; refused exactly outside the bounds. |
| `MerkleQueries.WalkExtras` | include/merklecpp.h:1228-1232 | The nodes collected hold the left siblings of the way down. |
| `MerkleRebuild.PairUp` | include/merklecpp.h:1327-1334 | Pairing up a level makes the blocks of the next level, the last of which may be short. |
| `MerkleRebuild.AddExtra` | include/merklecpp.h:1313-1324 | A restored flushed block is put in front of a level whose start bit asks for one. |
| `MerkleRebuild.Rebuild` | include/merklecpp.h:1309-1348 | The bottom-up loop ends with one left-balanced tree of all leaves and the flush point, and uses up exactly the extra hashes. |
| `MerkleTree.TreeT.Deserialise` | include/merklecpp.h:1290-1360 | From the byte form of any leaves and flush point: the same contents, the same flush point, an invariant tree, and the position after it. |
| `ConsensusBlocks.WalkFinds` | src/consensus.cpp:244-252 | Walking from a block down to the height of another ends at that other exactly if it is an ancestor. |
| `ConsensusBlocks.ResponsiveQuorums` | src/consensus.cpp:738-739 | Two quorums of nresponsive replicas share an honest one whenever at most half are faulty. |
| `ConsensusBlocks.MajorityQuorums` | src/crypto.cpp:32 | The nmajority signatures the verifier asks for have that property exactly below a third of faulty replicas. |
| `ConsensusBlocks.TooFewShare` | src/crypto.cpp:32 | Below the bound there are two quorums that share only faulty replicas. |
| `ConsensusCore.HotStuffCore.constructor` | src/consensus.cpp:737-760 | The fields after set-up, with the vector of set-up transcripts queued by replica and by view. |
| `ConsensusCore.HotStuffCore.UpdateHqc` | src/consensus.cpp:112-119 | Only a certificate of a higher view replaces the highest one. |
| `ConsensusCore.HotStuffCore.CheckCommit` | src/consensus.cpp:121-144 | Fails exactly if the walk down neither meets the last executed block nor a decided one; otherwise the blocks above it are decided and executed, parents first. |
| `ConsensusCore.HotStuffCore.OnPropose` | src/consensus.cpp:161-212 | The new block carries the highest certificate; throws exactly if it is not higher than vheight, which ConsensusProposals ties to the votes. |
| `ConsensusCore.HotStuffCore.OnReceiveProposal` | src/consensus.cpp:214-283 | The new state, with the vote cast or not, is that of the functional handler, about which the lemmas below speak. |
| `ConsensusCore.HotStuffCore.OnReceiveVote` | src/consensus.cpp:285-319 | The vote that completes nresponsive makes the certificate, locks on it and acknowledges. |
| `ConsensusCore.HotStuffCore.OnReceiveStatus` | src/consensus.cpp:321-345 | Locks on the certificate reported, and asks for a proposal exactly at the nmajority-th sender when the last view is certified. |
| `ConsensusCore.HotStuffCore.OnReceiveQc` | src/consensus.cpp:347-364 | The new state, with lock and acknowledgement, is that of the functional handler; exact failure of the commit it may start. |
| `ConsensusCore.HotStuffCore.OnReceiveAck` | src/consensus.cpp:366-390 | The ack that completes nresponsive commits the block and sends the share; ConsensusShares and ConsensusViews say when and from what. |
| `ConsensusCore.HotStuffCore.OnReceiveShare` | src/consensus.cpp:454-501 | The share that completes nmajority ends the view when its certificate is there; ConsensusViews says so over runs. |
| `ConsensusCore.HotStuffCore.TryEnterView` | src/consensus.cpp:503-510 | The view advances by one exactly when certificate and beacon are there, after the queue was updated; ConsensusViews says from the messages when that is. |
| `ConsensusCore.HotStuffCore.UpdateAggQueue` | src/consensus.cpp:392-398 | The transcript of the view nmajority - 1 back is queued for its proposer. |
| `ConsensusCore.HotStuffCore.OnReceiveTranscript` | src/consensus.cpp:679-707 | The nmajority-th valid transcript for a view makes its aggregate. |
| `ConsensusCore.HotStuffCore.OnEnterView` | src/consensus.cpp:899-926 | One transcript is appended, for the replica and the view that rotation gives; one for the sender itself is kept. |
| `ConsensusSafety.OneCertificate` | src/consensus.cpp:285-319 | In every reachable state two certificates of one view, or for one block, are the same. |
| `ConsensusSafety.LaterCertificatesExtend` | src/consensus.cpp:214-390 | Once a quorum has acknowledged a block certified in view v, every block certified in a later view extends it. |
| `ConsensusSafety.SettledOneChain` | src/consensus.cpp:366-390 | All acknowledged blocks lie on one chain. |
| `ConsensusSafety.DecidedOneChain` | src/consensus.cpp:121-144 | All blocks decided by any two honest replicas lie on one chain. |
| `ConsensusSteps.CommitSucceeds` | src/consensus.cpp:121-144 | Committing an acknowledged block never finds safety breached. |
| `ConsensusRun.StepKeeps` | src/consensus.cpp:112-510 | Every step that the assumptions allow keeps the invariant, and no handler of a message fails. |
| `ConsensusRun.ProposalMade` | src/consensus.cpp:161-212 | A proposal keeps the invariant; it throws exactly when the block is not higher than vheight. |
| `ConsensusRun.RunKeeps` | src/consensus.cpp:112-510 | Every run keeps the invariant. |
| `ConsensusRun.Agreement` | src/consensus.cpp:121-144 | In every run, what any two honest replicas commit lies on one chain. |
| `ConsensusOrder.LogMeans` | src/consensus.cpp:121-144 | A log that is a chain holds each block once, each right after its parent. |
| `ConsensusOrder.CommitKeepsOrder` | src/consensus.cpp:121-144 | A commit keeps the log a chain exactly if the block extends the last executed one. |
| `ConsensusOrder.CommitsTwice` | src/consensus.cpp:142 | Committing a block below the last executed one makes its descendants execute again. |
| `ConsensusOrder.RunInOrder` | src/consensus.cpp:121-144 | In runs that never commit below the last executed block every honest log is a chain. |
| `ConsensusOrder.SameOrder` | src/consensus.cpp:121-144 | In such runs one of any two honest logs is a prefix of the other. |
| `ConsensusOrder.VotesForFirstOnly` | src/consensus.cpp:228-253 | A received proposal gets a vote exactly if it is valid, not handled before, the only block of its height so far and an extension of the highest certified block; so each height gets one vote at most. |
| `ConsensusOrder.CertificateTakenOnce` | src/consensus.cpp:347-364 | The first certificate of a view is locked on, and until a later view every further one, of whatever block, changes nothing. |
| `ConsensusOrder.VotesOncePerView` | src/consensus.cpp:161-253 | A proposal made or received leaves at most one vote per view exactly if it gets no vote or there was none in this view yet. |
| `ConsensusOrder.VotesTwice` | src/consensus.cpp:228-239 | The guard is per height: two proposals of different heights get two votes in one view. |
| `ConsensusOrder.SoleReplicaCommits` | src/consensus.cpp:161-212 | The assumptions can be met: a group of one proposes, certifies and executes a block in one step. |
| `ConsensusLive.AllCommit` | src/consensus.cpp:161-390 | In every group of two or more, with up to half of it faulty, there is an allowed run in which all honest replicas execute the block that one of them proposes. |
| `ConsensusTranscripts.SentAhead` | src/consensus.cpp:905-908 | A transcript goes to the proposer of its view, n + 1 to 3n - 1 views ahead. |
| `ConsensusTranscripts.SentOnce` | src/consensus.cpp:899-926 | After any sequence of events, from the start on: a replica in view v has sent v transcripts. For w > 2n exactly the one of view SentIn is for w, and goes to the proposer of w, for w up to 2n none is. |
| `ConsensusTranscripts.QueueAdvances` | src/consensus.cpp:392-398 | Queueing one more transcript keeps what every slot has to hold. |
| `ConsensusTranscripts.AlwaysRotates` | src/consensus.cpp:392-398 | So it stays after any sequence of events, whatever the other replicas do. |
| `ConsensusTranscripts.TranscriptForView` | include/hotstuff/consensus.h:296-299 | In every view v the slot of its proposer holds the set-up transcript if v <= n and the one queued for view v - n after that. |
| `ConsensusTranscripts.QueuedWhen` | src/consensus.cpp:392-398 | In every run, what is queued for a view w is what the replica held for it after the event with which it reached view w + nmajority. |
| `ConsensusTranscripts.TranscriptHeld` | include/hotstuff/consensus.h:296-299 | So in every view v > n the slot of its proposer holds what the replica held for view v - n at that point. |
| `ConsensusAggregates.AggregateMade` | src/consensus.cpp:679-707 | In every run, a transcript that arrives makes an aggregate exactly if it is valid and, counted from the messages and the own transcripts so far, the nmajority-th for its view; where the own one is the nmajority-th, none is ever made. |
| `ConsensusAggregates.HeldFrom` | src/consensus.cpp:268-275 | Whatever a replica holds for a view comes from the set-up, from such an aggregate, or from a block handled in that view. |
| `ConsensusGate.HandlePasses` | src/consensus.cpp:347-510 | Every event changes the view, and what ends it, through the same gate: by a certificate, at most one share, and the attempt to enter the next view. |
| `ConsensusShares.SendsShare` | src/consensus.cpp:366-390 | A replica sends its share exactly with an event that makes the acks for a block a quorum and whose commit does not fail; it is one share, of its view, from the slot of the proposer of its view. |
| `ConsensusViews.SharesSourced` | src/consensus.cpp:430-451 | In every run, every share sent for view v is decrypted from the set-up transcript of proposer v - 1 if v <= n, and after that from what the replica held for view v - n when its time came. |
| `ConsensusViews.ViewAdvances` | src/consensus.cpp:503-510 | After any event the view is the same or the next, and the next exactly if the first certificate handled in the view that was not out of date is one of this view, and an event in the view brought the last share that it or a later view needs. Told from the messages alone. |
| `ConsensusViews.ViewEnds` | src/consensus.cpp:454-510 | In runs without early messages the view ends exactly if a certificate of it and nmajority valid shares of it, own ones included, have been received by then. |
| `ConsensusViews.ViewIs` | src/consensus.cpp:454-510 | So in such a run the view is the first one without a certificate or without enough shares. |
| `ConsensusViews.EarlySharesCount` | src/consensus.cpp:454-501 | Shares of a later view that are handled early end a view that has no share of its own. |
| `ConsensusViews.EarlyCertificateBlocks` | src/consensus.cpp:347-351 | A certificate of a later view that is handled early keeps a view from ending that has a certificate and all its shares. |
| `ConsensusViews.StuckInView` | src/consensus.cpp:347-351 | After such a certificate the replica stays in its view for good, whatever follows. |
| `ConsensusProgress.Projects` | src/consensus.cpp:737-760 | A replica of a group is where the events that it handles itself bring it. |
| `ConsensusProgress.ViewInRun` | src/consensus.cpp:454-510 | In an allowed run of a group, an honest replica without early messages is in the first view of which it lacks the certificate or shares. |
| `ConsensusProgress.AllAdvance` | src/consensus.cpp:347-510 | In every group of two or more there is an allowed run in which every honest replica ends view 1. |
| `ConsensusProposals.HandleHeight` | src/consensus.cpp:161-283 | An event changes vheight exactly with a vote, to the height of its block, or with a proposal whose transcript is refused only after the replica has made up its mind to vote for it. |
| `ConsensusProposals.HeightOfLastVote` | src/consensus.cpp:199-201 | In runs without such proposals vheight is the height of the last block voted for, or 0. |
| `ConsensusProposals.HeightKept` | src/consensus.cpp:250 | That stays so exactly if no proposal of another height is refused late. |
| `ConsensusProposals.ProposesWhen` | src/consensus.cpp:321-345 | In every run, a status message asks for a proposal exactly if it is the first of its sender and the nmajority-th of those that counted for the view, and the view before is certified. |
| `QuantizeMultiplier.ILog2` | depends/xbyak/sample/quantize.cpp:54-59 | The exponent of the largest power of two not above x. |
| `QuantizeMultiplier.NarrowStart` | depends/xbyak/sample/quantize.cpp:83-90 | The two multipliers start below and above the exact one, the upper one near enough. |
| `QuantizeMultiplier.NarrowStep` | depends/xbyak/sample/quantize.cpp:92-94 | Halving both keeps that while they differ. |
| `QuantizeMultiplier.NarrowFits` | depends/xbyak/sample/quantize.cpp:96-98 | Narrowed even once, the upper multiplier fits a word. |
| `QuantizeMultiplier.NarrowExact` | depends/xbyak/sample/quantize.cpp:97-98 | Multiplying by it and shifting divides every word exactly. |
| `QuantizeMultiplier.AddFormRoundsDown` | depends/xbyak/sample/quantize.cpp:99-106 | When the add form is chosen the remainder is at most half the divisor, so its rounded-up branch is never taken. |
| `QuantizeMultiplier.AddFormExact` | depends/xbyak/sample/quantize.cpp:99-106 | In the add form multiplying x + 1 by the rounded-down multiplier divides every word exactly. |
| `QuantizeMultiplier.HalvedFewZeros` | depends/xbyak/sample/quantize.cpp:107-109 | Stripping zeros off the multiplier never makes the shift negative. |
| `QuantizeGenerator.NarrowMultipliers` | depends/xbyak/sample/quantize.cpp:83-94 | The loop narrows the multipliers as far as they stay apart. |
| `QuantizeGenerator.RoundDown` | depends/xbyak/sample/quantize.cpp:99-106 | The multiplier of the add form is the one rounded down, and exact. |
| `QuantizeGenerator.ChooseMultiplier` | depends/xbyak/sample/quantize.cpp:83-106 | For every odd divisor from 3 below 2^30 multiplier, form and shift divide every word exactly. |
| `QuantizeGenerator.StripZeros` | depends/xbyak/sample/quantize.cpp:107-109 | Dropping trailing zeros keeps the quotients; the multiplier ends odd. |
| `QuantizeGenerator.MultiplyCodeDivides` | depends/xbyak/sample/quantize.cpp:112-121 | The emitted instructions, with their 32-bit wrap-around and carry, leave the quotient. |
| `QuantizeGenerator.Generator.UDiv` | depends/xbyak/sample/quantize.cpp:66-122 | For every divisor from 1 below 2^30 and every word, the emitted code leaves x / d and writes no memory. |
| `QuantizeGenerator.Generator.Quantize` | depends/xbyak/sample/quantize.cpp:126-140 | The generated routine writes all 64 quotients and nothing else. |
| `QuantizeGenerator.QuantizeReference` | depends/xbyak/sample/quantize.cpp:143-148 | The reference routine computes the same quotients. |
| `ZmZ.Inv` | depends/ate-pairing/include/zm.h:1292-1323 | For every modulus, prime or not: the result is an inverse exactly if argument and modulus are coprime. |
| `Limbs.AddN` | depends/ate-pairing/src/zm.cpp:16-32 | The carry loop adds, in place or not: limbs, carry and the rest of the array. |
| `Limbs.SubN` | depends/ate-pairing/src/zm.cpp:57-73 | The borrow loop subtracts, in place or not. |
| `Limbs.Mul1` | depends/ate-pairing/src/zm.cpp:124-137 | A number times one limb, in place or not. |
| `Vuint.Mul` | depends/ate-pairing/include/zm.h:904-925 | The exact product for all lengths. |
| `Vuint.NextProduct` | depends/ate-pairing/include/zm.h:921-924 | The carry that each addition throws away is zero. |
| `VuintDivision.Compare` | depends/ate-pairing/include/zm.h:183-191 | Longer numbers first, then the topmost differing limb decides. |
| `VuintDivision.DigitFits` | depends/ate-pairing/include/zm.h:935-943 | The floor of the quotient of approximations is never above the true quotient of the limbs looked at. |
| `VuintDivision.NoBorrow` | depends/ate-pairing/include/zm.h:945-948 | Taking the product off never borrows. |
| `VuintDivision.AddDigit` | depends/ate-pairing/include/zm.h:949 | A quotient limb never overflows when it is added to. |
| `VuintDivision.Digit` | depends/ate-pairing/include/zm.h:935-943 | Each round finds a quotient limb between 1 and the true one. |
| `VuintDivision.TakeOff` | depends/ate-pairing/include/zm.h:944-949 | Each round keeps x0 = q * y + x, and makes x smaller. |
| `VuintDivision.Div` | depends/ate-pairing/include/zm.h:926-955 | The loop ends with x0 = q * y + x and the remainder below y, whether the quotient is stored or not. |
| `VuintDivide.InDiv` | depends/ate-pairing/src/zm.cpp:169-176 | Division by one limb, also when quotient and dividend are the same buffer. |
| `VuintDivide.InMod` | depends/ate-pairing/src/zm.cpp:178-185 | The remainder by one limb. |
| `Limbs.Add1` | depends/ate-pairing/src/zm.cpp:37-53 | The sum with one limb. |
| `Limbs.Sub1` | depends/ate-pairing/src/zm.cpp:77-91 | The difference with one limb. |
| `VuintSum.AddUnit` | depends/ate-pairing/include/zm.h:574-583 | The trimmed sum with one limb. |
| `VuintSum.Minus` | depends/ate-pairing/include/zm.h:584-604 | The trimmed difference; refused exactly if the second number is the greater one. |
| `VuintDivide.Divide` | depends/ate-pairing/include/zm.h:661-727 | For all lengths: refused exactly for a zero divisor, else trimmed quotient and remainder. |
| `VuintDivide.DivideSigned` | depends/ate-pairing/include/zm.h:1073-1094 | Signed division on limbs rounds down; the remainder has the sign of the divisor. The quotient is a zero with a minus sign exactly if the dividend is zero and the signs differ. |
| `VuintDivide.MinusZero` | depends/ate-pairing/include/zm.h:1073-1094 | Dividing 0 by -5 gives a zero with a minus sign. |
| `Power.Raise` | depends/ate-pairing/include/zm.h:1388-1413 | Square-and-multiply from the lowest bit gives the power in any monoid. |
| `Montgomery.InverseOfModulus` | depends/ate-pairing/src/zm2.cpp:3614-3621 | pp_mont is -1/p modulo the limb, for every odd p. |
| `Montgomery.Mod` | depends/ate-pairing/src/zm2.cpp:194-211 | For every x the result is x plus the multiple of p that clears the lower 256 bits, without these, and less one p if it is p or more; below p for every x below p * 2^256. |
| `Montgomery.ClearedOnce` | depends/ate-pairing/src/zm2.cpp:194-211 | There is only one such multiple below p * 2^256. |
| `Montgomery.ClearedBy` | depends/ate-pairing/src/zm2.cpp:194-211 | It is -x/p modulo 2^256 times p. |
| `Montgomery.ModUnique` | depends/ate-pairing/src/zm2.cpp:194-211 | There is only one number below p that is x / 2^256 modulo p. |
| `Montgomery.Mul` | depends/ate-pairing/src/zm2.cpp:186-211 | The Montgomery product. |
| `FpInverse.SetUpTable` | depends/ate-pairing/src/zm2.cpp:3678-3684 | Entry k is 2^(512 - k) in Montgomery form. |
| `FpInverse.LoopCount` | depends/ate-pairing/include/zm2.h:177-199 | The number of rounds lies between the bit length of p and twice that. |
| `FpInverse.RoundTakeU` | depends/ate-pairing/include/zm2.h:185-190 | One of the four rounds: p = u * s + v * r and both congruences are kept, and no sum reaches 2^256. |
| `FpInverse.RoundTakeV` | depends/ate-pairing/include/zm2.h:190-196 | The round that takes v from u keeps the same. |
| `FpInverse.Ended` | depends/ate-pairing/include/zm2.h:199-204 | When v is 0, u is 1 and r is the negated inverse of x times 2^k, between 0 and 2p. |
| `FpInverse.Inv` | depends/ate-pairing/include/zm2.h:165-210 | The loop ends, indexes the table in range, and returns the inverse in Montgomery form. |
| `FpReduction.FastModpReduces` | depends/ate-pairing/include/zm2.h:230-235 | The shortcut reduces every z of 256 bits up to 6p exactly if and only if 2^253 <= p and 6p < 7 * 2^253, for every p of 256 bits. |
| `FpReduction.AddTwiceThrice` | depends/ate-pairing/include/zm2.h:95-114 | _3z_add_2xC and _2z_add_3x both compute 2z + 3x modulo p. |
| `FpReduction.PromisedOnlyWhenEqual` | depends/ate-pairing/include/zm2.h:95-104 | So the 3z + 2x that the comment of _3z_add_2xC promises is computed exactly if z equals x. |
| `FpReduction.DivBy2` | depends/ate-pairing/include/zm2.h:216-221 | The half modulo p, below p. |
| `FpReduction.DivBy4` | depends/ate-pairing/include/zm2.h:223-228 | The quarter modulo p, below p, for p that leaves 3 when divided by 4. |
| `Naf.GetContinuousVal` | depends/ate-pairing/include/bn.h:111-119 | The end of a run of equal digits. |
| `Naf.RunReplaced` | depends/ate-pairing/include/bn.h:136-140 | Replacing a run of ones keeps the number and does not raise the count of non-zero digits. |
| `Naf.ConvertToNaf` | depends/ate-pairing/include/bn.h:120-143 | For every bit string of length at least 2: the same number, digits -1, 0 and 1, no more of them non-zero, and non-adjacent below a leading run. Non-adjacent as a whole exactly if the leading bits are not both 1 and three times the rest fits below them. |
| `Naf.ElevenStays` | depends/ate-pairing/include/bn.h:120-143 | 1011 comes back as it is. |
| `Naf.GetGoodRepl` | depends/ate-pairing/include/bn.h:158-174 | The recoding is taken exactly if it has fewer non-zero digits. |
| `ScalarMult.Multiply` | depends/ate-pairing/include/bn.h:2590-2647 | Word by word double-and-add gives the m-fold sum in any group. |
| `FieldNumbers.SubOpt1` | depends/ate-pairing/src/zm2.cpp:1797-1813 | Adding a quarter of p * 2^256 before subtracting keeps the value and never borrows. |
| `FieldNumbers.Mod` | depends/ate-pairing/src/zm2.cpp:194-211 | The reduction keeps the value that a double number stands for, and reduces every one below p * 2^256. |
| `TowerField.MulOpt1` | depends/ate-pairing/include/bn.h:725-748 | Three products give the product in Fp2 as double numbers, with bounds on both coefficients and no borrow. |
| `TowerField.MulOpt2` | depends/ate-pairing/include/bn.h:725-753 | The same for operands that are sums not reduced. |
| `TowerField.Mul2` | depends/ate-pairing/include/bn.h:412-427 | Three products, each coefficient reduced once, give the reduced product in Fp2. |
| `TowerField.MulXi2` | depends/ate-pairing/include/bn.h:447-475 | Additions only give the reduced product with xi, in both builds. |
| `TowerField.MulXiDbl` | depends/ate-pairing/include/bn.h:701-722 | The same on double numbers. |
| `TowerField.Square2` | depends/ate-pairing/src/zm2.cpp:1717-1772 | Two products, one with a + p - b, give the reduced square in Fp2, in both builds. |
| `TowerField.SquareC` | depends/ate-pairing/include/bn.h:481-500 | The portable square is right in the SNARK build; in the other one, modulo any prime, exactly if both coefficients are equal. |
| `Tower.SquareOfOne` | depends/ate-pairing/include/bn.h:492-498 | Whatever the modulus, the portable square of 1 comes out as 2. |
| `TowerProducts.Mul6Dbl` | depends/ate-pairing/include/bn.h:1268-1327 | Six products on double numbers, added and subtracted without carry or borrow, give the product in Fp6; all coefficients but one are below p * 2^256. |
| `TowerProducts.Mul6C` | depends/ate-pairing/include/bn.h:904-909 | The product in Fp6, always of the right value and below 2p; reduced exactly if the reduction brings the remaining coefficient below p. Without SNARK support it always does. |
| `TowerProducts.NotReduced` | depends/ate-pairing/src/zm2.cpp:194-211 | With the SNARK modulus: operands with coefficients p - 1 and one p - 17 whose product is left unreduced. |
| `TowerProducts.FitsAlways` | depends/ate-pairing/include/bn.h:1268-1327 | All coefficients are below p * 2^256 for all operands exactly if 6(p - 1)^2 < p * 2^256. |
| `TowerProducts.CurveModuli` | depends/ate-pairing/src/zm2.cpp:32-38 | 6p < 2^256 < 7p for the modulus of the build without SNARK support; for the other modulus 4p < 2^256 and six products of p - 1 do not fit. |
| `TowerProducts.HalfBorrowsWhen` | depends/ate-pairing/include/zm2.h:382-388 | With half of p * 2^256 instead of a quarter, as the header has it, a subtraction of the product in Fp6 has a borrow exactly if the coefficient without u of the product of sums is not negative and smaller than that of the two products. |
| `TowerProducts.HalfBorrows` | depends/ate-pairing/include/zm2.h:382-388 | Operands of that kind. |
| `TowerProducts.Square6` | depends/ate-pairing/include/bn.h:914-935 | The reduced square in Fp6. |
| `TowerProducts.MulGammaAdd` | depends/ate-pairing/include/bn.h:332-339 | x * v + y, reduced. |
| `TowerProducts.Mul12C` | depends/ate-pairing/include/bn.h:1450-1469 | Three products on double numbers give the reduced product in Fp12; the assertions of their sums and differences refuse exactly those operands of which one product does not fit. |
| `TowerProducts.Square12C` | depends/ate-pairing/include/bn.h:1476-1491 | Two products give the square in Fp12: reduced exactly if the first product is and the last difference brings the second below p. Without SNARK support it always is. |
| `TowerProducts.MulSparse` | depends/ate-pairing/include/bn.h:1964-2039 | Thirteen products, overwriting the coefficients one after the other, give the reduced product with a line. |
| `TowerProducts.MulTwoSparse` | depends/ate-pairing/include/bn.h:2065-2108 | Six products give the reduced product of two lines. |
| `Miller.Curve.PrecomputeG2` | depends/ate-pairing/include/bn.h:2997-3055 | The lines are those of the one-pass loop, in its order; MillerLines says which these are. |
| `Miller.Curve.MillerLoop` | depends/ate-pairing/include/bn.h:3060-3106 | The loop over precomputed lines gives the value of the lines and uses each once, the index always in step. |
| `Miller.Curve.OptAtePairing` | depends/ate-pairing/include/bn.h:2720-2785 | The one-pass loop gives the value of the same lines; MillerLines says which lines and what value. |
| `Miller.Curve.SquareBoth` | depends/ate-pairing/include/bn.h:3133-3153 | Squaring and multiplying the product of two loops does both at once. |
| `Miller.Curve.MillerLoop2` | depends/ate-pairing/include/bn.h:3108-3178 | The split loop gives the product of the two separate loops. |
| `MillerLines.LinesReach` | depends/ate-pairing/include/bn.h:2740-2765 | If doubling, adding and negating are those of a commutative group, then after i digits the point is the number they spell times Q; digit j has the tangent at the multiple spelled before it and, if it is not zero, the line through twice that and Q or -Q. |
| `MillerLines.LinesOfPairing` | depends/ate-pairing/include/bn.h:2767-2782 | Both builds of the pairing use these lines, and then the lines through the multiple that all digits spell, negated for a negative parameter, and the two images of Q, one added after the other. |
| `MillerLines.FoldWeighs` | depends/ate-pairing/include/bn.h:2740-2765 | Squaring and multiplying gives the product of the lines of all digits, each to the power of two of its place. |
| `MillerLines.ValueOfPairing` | depends/ate-pairing/include/bn.h:2767-2782 | The value of the loop is that product, conjugated for a negative parameter, times the last two lines. |
| `MillerTower.ConjugateKeepsProducts` | depends/ate-pairing/include/bn.h:2773-2777 | Changing the sign of the second half keeps products. |
| `MillerTower.TowerIsLawful` | depends/ate-pairing/include/bn.h:1450-1469 | The product of the tower is commutative and associative, as the split loop needs. |
| `TowerResidues.ResiduesAreLawful` | depends/ate-pairing/include/bn.h:1450-1469 | So is the product of residues modulo p, with the conjugation reduced as well. |
| `TowerResidues.ProductOfResidues` | depends/ate-pairing/include/bn.h:1450-1469 | The products on reduced numbers multiply residues. |
| `TowerResidues.NumbersAreResidues` | depends/ate-pairing/src/zm2.cpp:194-211 | Reduced elements have the same numbers exactly if they stand for the same residues. |
| `XbyakJumps.SignedBack` | depends/xbyak/xbyak/xbyak.h:363-364 | k bytes give a displacement back exactly if it is in their signed range. |
| `Xbyak.CodeGenerator.GrowMemory` | depends/xbyak/xbyak/xbyak.h:1009-1018 | Moving to a larger buffer keeps the code. |
| `Xbyak.CodeGenerator.Db` | depends/xbyak/xbyak/xbyak.h:1073-1083 | One byte is appended; refused exactly if the buffer is full and may not grow. |
| `Xbyak.CodeGenerator.Rewrite` | depends/xbyak/xbyak/xbyak.h:1135-1143 | Overwrites the bytes of a displacement and nothing else. |
| `Xbyak.CodeGenerator.DefineInner` | depends/xbyak/xbyak/xbyak.h:1361-1393 | Defining a label settles exactly the jumps that wait for it; refused if it is defined already or a jump is too far away. |
| `Xbyak.CodeGenerator.Define` | depends/xbyak/xbyak/xbyak.h:1469-1492 | "@@" goes under the name that is free; afterwards exactly the jumps meant have it as their target. Refused exactly for "@b" and "@f", a label that is defined, and a waiting jump that is too far away. |
| `Xbyak.CodeGenerator.SameMeaning` | depends/xbyak/xbyak/xbyak.h:1469-1488 | The jumps to the next "@@" are those that wait under the name it will get. |
| `Xbyak.CodeGenerator.GetOffset` | depends/xbyak/xbyak/xbyak.h:1503-1523 | "@b" is the last "@@", an error if there is none; "@f" is never found and waits for the next one. |
| `Xbyak.CodeGenerator.MakeJmp` | depends/xbyak/xbyak/xbyak.h:1891-1903 | A jump to a known label: a short one succeeds exactly if the label is within -128 to 127 of the end of two bytes and there is room; an automatic one has two bytes exactly then, and else 5 or 6; a near one is refused only beyond 32 bits or for room. |
| `Xbyak.CodeGenerator.Jmp` | depends/xbyak/xbyak/xbyak.h:1906-1926 | The same for every jump, and for labels not defined yet: two bytes for a short jump or an automatic one, unless jumps are near by default. Which error is given, byte by byte how the instruction begins, and zeros where the displacement will be; the jump is tracked with its target or as waiting. |
| `Xbyak.CodeGenerator.CalcJmpAddress` | depends/xbyak/xbyak/xbyak.h:1022-1030 | Writes every saved displacement; nothing but jump fields changes. |
| `Xbyak.CodeGenerator.Ready` | depends/xbyak/xbyak/xbyak.h:2782-2789 | Fails exactly if a label is undefined; otherwise every jump has its displacement, however often the buffer moved. |
| `XbyakJumps.JumpLands` | depends/xbyak/xbyak/xbyak.h:1022-1030 | The displacement read back with its sign leads from the end of the jump to the label, for every displacement in range. |
| `XbyakJumps.SmallCodeLands` | depends/xbyak/xbyak/xbyak.h:1022-1030 | In code below 2 GB every settled jump lands on its label. |
| `BrainfuckCompiler.Stream.Get` | depends/xbyak/sample/bf.cpp:64-68 | Reading skips white space and fails at the end. |
| `BrainfuckCompiler.GetContinuousChar` | depends/xbyak/sample/bf.cpp:14-24 | Counts a whole run of equal characters and leaves the stream after it. |
| `BrainfuckCompiler.ClosesLast` | depends/xbyak/sample/bf.cpp:122-128 | In a balanced program a closing bracket matches the last one opened, which is on top of the label stacks. |
| `BrainfuckAssembler.Assembler.Put` | depends/xbyak/sample/bf.cpp:68-129 | One instruction is emitted into the code buffer of the generator, a jump with its label; refused exactly if the 100000 bytes are too few for it. |
| `BrainfuckAssembler.Assembler.Label` | depends/xbyak/sample/bf.cpp:111-128 | A label is defined at the end of the code, which never fails here, and the jumps that wait for it get their displacements. |
| `BrainfuckBytes.Reads` | depends/xbyak/sample/bf.cpp:64-133 | Decoded at its place, whatever follows, every instruction put into the buffer is read as itself: the operation, its operands, the immediate as a signed number, and for a jump the condition and the place its label stands for. |
| `BrainfuckBytes.PlainReads` | depends/xbyak/xbyak/xbyak.h:2043-2104 | The bytes of every instruction other than a jump are read as that instruction. |
| `BrainfuckBytes.JumpReads` | depends/xbyak/xbyak/xbyak.h:1891-1926 | The bytes of a settled jump, short or long, are read as a jump on zero, or always, to its label. |
| `BrainfuckBytes.Lockstep` | depends/xbyak/sample/bf.cpp:64-133 | One step of the processor, with its registers, flag and memory, is one instruction; a call may leave anything in the registers that it need not keep, and in the flag. |
| `BrainfuckCompiler.Compiler.constructor` | depends/xbyak/sample/bf.cpp:25-148 | For every balanced program the emitted code is made of the right block for every run, and its bytes, from the prologue to the epilogue, are read as these instructions with every jump at its label; incomplete exactly if the 100000 bytes are too few. |
| `BrainfuckSimulation.RunAdds` | depends/xbyak/sample/bf.cpp:69-81 | A run of additions is one addition of its length. |
| `BrainfuckSimulation.Block` | depends/xbyak/sample/bf.cpp:64-133 | One block of code does what its run of commands does. |
| `BrainfuckSimulation.Follows` | depends/xbyak/sample/bf.cpp:64-133 | Both get equally far after any number of steps, or both are at the end. |
| `BrainfuckSimulation.SameEnd` | depends/xbyak/sample/bf.cpp:64-133 | The code returns exactly if the program ends, with the same tape, cell, input and output. |
| `BrainfuckSimulation.SameOutput` | depends/xbyak/sample/bf.cpp:64-133 | Whatever one has written at some point the other writes too, also in runs that never end. |
| `BrainfuckCalls.PrologueRuns` | depends/xbyak/sample/bf.cpp:53-62 | The prologue, decoded, saves three registers and puts the two functions and the tape where the code wants them. |
| `BrainfuckCalls.EpilogueRuns` | depends/xbyak/sample/bf.cpp:142-147 | The epilogue gives the registers and the stack back and returns. |
| `BrainfuckCalls.CallReturns` | depends/xbyak/sample/bf.cpp:25-148 | A call of the bytes on the processor returns exactly if the program ends, for every input, with its tape, input and output; the stack and all registers that a function has to keep are as before. |
| `BrainfuckCalls.CallWrites` | depends/xbyak/sample/bf.cpp:25-148 | Whatever the program has written at some time such a call writes too, and the other way round, also in runs that never end. |

## Left out

Of the Merkle tree:

- Freeing nodes: what is cut off is only unlinked.
- `walk_to` with its update closures: the walk is written out in each operation that uses it; the walk and hashing stacks are local to a call.
- MerkleBytes.DeserialiseWord: bytes are added where the original ors them into places that are still zero.
- `size()` while insertions are suspended, copying and moving trees, `serialised_size`, printing, and all statistics but the number of hashes.
- Trees of more than 2^29 leaves: `is_full` computes `1 << height` in an int.
- MerkleTree.TreeT.Deserialise: only byte strings that some leaves and flush point have; on others the original reads without checks.
- MerkleTree.TreeT.Leaf: indexes of flushed leaves, which the original does not check for.
- MerklePath.Deserialise: bytes that end within a word or before a direction byte, past which the original reads.
- The computation of SHA-256: the hash function is a parameter.

Of consensus:

- Networking, signatures, erasure-coded echoes, timers and the pacemaker: their effects are the events of a run.
- `view_trans`, `vote_disabled`, blame, the view-change and commit timeouts, `on_receive_beacon`, which can end a view without its shares, `tails`, `prune`, uncles and promises.
- 32-bit wrap-around of views.
- Verification of shares and transcripts: its outcome is a parameter of the step.
- ConsensusCore.HotStuffCore.OnReceiveStatus: the proposal it triggers is a separate event.
- Fields the original keeps in its block objects are kept in a record of each replica; blocks are values, identical if their contents are.
- Liveness beyond the runs of `AllCommit` and `AllAdvance`.

Of arithmetic:

- The prologue and epilogue of the generated division routine, and flags it does not use.
- QuantizeGenerator.QuantizeReference: division by zero in the table.
- VuintDivision.GetApp: any number on the right side of the exact one, not the bits of a double; the division of two such numbers is taken as exact.
- Sums of two whole `VuintT` numbers, shifts, and parsing and printing them.
- Machine-code versions of all field operations; the portable `Fp_subC`, which subtracts p where its second operand is needed.
- FpReduction.AddTwiceThrice: `Fp::sub` is modelled as its machine-code version works; moduli for which `fast_modp` is not right, the SNARK one among them.
- TowerProducts.Mul12C: what comes out of a build without assertions when a product does not fit.
- TowerProducts.Square12C: the value of the first coefficient when the first product is left unreduced.
- TowerProducts.Mul6Dbl: `subOpt1` as the generated code has it, with a quarter of p * 2^256.
- FpInverse.Inv: moduli from 2^255 up, for which its numbers may pass 2^256; both moduli of the library are below 2^254.
- Inverses and cyclotomic squaring in the tower, and the final exponentiation.
- MillerLines.LinesReach: the formulas for doubling, adding and their lines, and points for which these are not defined; what they should compute is assumed.
- ScalarMult.Multiply: the sign of a multiplier, which the original does not look at, and multipliers with zero words on top, which its number types never have.
- Naf.ConvertToNaf: strings of one bit, for which the original reads outside what it means to, and digits that are no bits.

Of jump patching and the compiler:

- 64-bit wrap-around of offsets, absolute and address-relative modes, protection of the buffer, and code emitted after `ready`.
- Local label scopes, reference counts and assignment of `Label` objects.
- Brainfuck programs with unbalanced brackets, for which the original pops an empty stack, and runs of 2^29 and more equal characters, which overflow an int.
- BrainfuckCompiler.Compiler.constructor: the 32-bit and the Windows version of the generated function.
- BrainfuckBytes.Lockstep: 64-bit wrap-around of addresses, a tape that ends, and a tape that overlaps the stack.
