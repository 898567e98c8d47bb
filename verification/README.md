# Kassandra service: a verified model

Kassandra lets users delegate fuzzy message detection (FMD). A **host** downloads all MASP
transactions of the Namada chain from an indexer and keeps them in a table; an **enclave**
holds the users' detection keys, asks the host block by block for flags, and hands back, for
every key, an encrypted list of the transactions its owner should look at. Clients fetch those
lists from one or more services and merge them.

This project models the parts with the most state and proves what they keep:

| files | what they model |
|---|---|
| `Ranges.dfy`, `FetchedRanges.dfy` | the set of fetched heights, kept as one flat vector of interval endpoints that `insert` edits in place |
| `Storage.dfy` | the table and its write-ahead log, and what one successful fetch does to the data |
| `Syncing.dfy`, `SyncRuns.dfy`, `StartStop.dfy`, `Counting.dfy` | the fetch engine as a state machine: concurrent tasks, a bounded channel, a live-task counter, retries, shutdown, restart; and the theorems over all its runs |
| `Fetcher.dfy` | the fetcher object whose methods are the machine's larger steps |
| `Sorting.dfy`, `IndexLists.dfy`, `IndexCodec.dfy` | lists of transaction indices, their in-place merge, their byte form |
| `Cobs.dfy`, `Frames.dfy` | byte-stuffed frames, and the reader that restarts with a bigger buffer |
| `Fmd.dfy` | one detection round: heights, flags, lists, reply, table of results |
| `Relay.dfy` | host and enclave exchanging messages, with arbitrary clients and arbitrary reads of the table; the theorems on lists and stored rows |
| `Pipeline.dfy` | fetcher and detection together: what a round that reads the fetcher's table takes in, and what it loses |
| `Bytes.dfy`, `Options.dfy` | bytes, optional values |

## What is proved

**Fetching.** A height is covered, planned, being fetched, queued or in hand, and in every
reachable state at most one of these, with one exception that is stated exactly: if a task sees a
shutdown that the fetcher does not, an answer can stay behind in the channel, and planning the next
sync then claims a height a second time if and only if such a queued range holds it while it is
missing (`PlanKeepsOnceIff`, with the run `HeldTwiceHappens`). Such doubled claims are never
handled. So, over every interleaving of tasks, failures, shutdowns and restarts: `insert` is never
called where it is wrong, table and log together hold each chain row of a covered height exactly
once, the drain loop ends only when everything has arrived, and the order of completion does not
matter. From every point of a sync without a shutdown, answers and steps alone can bring the loop
to that end (`CanDrain`). A sync starts exactly when a height up to the tip is missing
(`SyncStartsIff`); a received shutdown ends it at the fetcher's next three moves, with the vector
saved and the log in the table, whatever tasks do meanwhile (`ReceivedShutdownStops`,
`ShutdownReachesDrop`), and nothing that fails is fetched again after it
(`InterruptedNeverRetries`).

Some claims one would like are false of the code, and the model says exactly when they hold.
`insert` is the union with the new interval unless that interval ends where a stored range ends
(`InsertIsUnionIff`). `first` is the least missing height only if the first range starts at 1
(`FirstIsLeastMissingIff`); a published height is the end of the complete prefix only if height 1
is covered (`PublishedExactIff`). The published height can fall: by a restart, and by a commit below
the first stored range that leaves a hole before it, and by nothing else (`PublishedFallsIff`, with
the run `PublishedFallHappens`, 90 then 30); once height 1 is covered it cannot fall before a
restart (`PublishedNeverFalls`). A finished sync has everything up to the tip only if it started
from nothing or from 1 (`SyncCompleteIff`), although it will always report itself synced
(`SyncClaimsTip`). `SkippingHappens` is a run that ends in the bad state, and `SkippedForever`
shows that no continuation of such a run ever fetches the skipped heights.

**Detection.** In every round the host may read any rows and any bound. For every run of
registrations, rounds and client behaviour, each key's list is the one-shot filter of the chain from
its birthday (exclusive) on, in order and without repetition, if the detected rows that the host
found for the key's next block were the chain's in every round; on a proper chain (each block's rows
lie at its height, none twice) it is so only then (`ListsAreOneShotIff`). What a client reads back
is, whatever was read and registered, the list of a key of its owner as it was at the block after
the reported height (`QueriesAreOneShot`). The reply pending in a round is the enclave's answer to
the very flags of that round (`ReplyIsOwn`), and when it is stored every advanced key's row is its
current list (`FinishedRoundStores`). The registered keys are the registrations that clients sent,
one by one (`KeysAreRegistrations`), and the list of each is spelled out in the chain's rows
(`ListLaw`). A forwarded acknowledgement gets its reply exactly when the
enclave is waiting and the acknowledgement is a success; otherwise host and enclave are stuck for
good (`FinalReplyIff`). The comment on the relay in host/src/main.rs:155-163 promises an
acknowledgement of receipt as the last step; the model follows the code.

**Both together.** The hypothesis on the reads is not met by itself. `get_height` reads the table
only, while a height is published before its rows enter the log, and the log reaches the table when
it holds 1000 rows by default. The table holds the whole of a covered block if and only if no row of
the block is in the log (`TableHoldsBlockIff`); a round takes in a detected transaction if and only
if it is covered and has left the log, and then once (`TakenInIff`), so that a block with no row in
the log is read whole, and right if the table keeps its rows in order (`WrittenBlockIsRead`); one that it passes while it is in the log is
lost for the key for good (`LoggedIsLost`), and `RowLost` is a run with the default limit in which
that happens.

**Lists and frames.** `combine` keeps what every list reaching a height agrees on, loses nothing,
and can be folded in any order when greatest heights differ; with a tie it depends on the order
exactly when an index is listed unequally often (`CombineCommutesIff`). Grouping matters exactly when
different indices slip past the inner merge on either side (`AssociatesIff`), which takes two
neighbours that end at the same height and share nothing there (`AssociatesWithoutBareTies`,
`TiesDoNotAssociate`). Encoding of indices is a bijection. Frames are read back exactly, whatever
the buffer size, and restarting with a bigger buffer is invisible.

## Assumptions

- The indexer answers a range with exactly the chain's rows of that range, or fails.
- Detection is a fixed predicate; the cipher is ideal and fails only beyond a longest plaintext;
  the hash of an encryption key stands for the key. `DistinctOwners`, where a theorem asks for it,
  says that no encryption key is registered twice; clients are free to do that.
- Frames arrive whole and in order between host and enclave.
- The shutdown channel may report late, but never reports a shutdown that was not raised.

## Model

| member | source | states |
|---|---|---|
| Ranges.InsertIsUnionIff | host/src/db/utils.rs:144-161 | for every canonical vector and from <= to, inserting stands for the union with [from, to] if and only if `to` is not the upper end of a stored range, or the interval is one height and the last range is that height |
| Ranges.CoversIff | host/src/db/utils.rs:139-142 | a height is contained if and only if some pair of the vector, by position, encloses it |
| Ranges.InsertIsUnion | host/src/db/utils.rs:144-183 | in the good case the result is canonical (even, ordered, no two ranges touching) and stands for exactly the union |
| Ranges.InsertWrong | host/src/db/utils.rs:150-156 | when `to` is an upper end, a concrete height at or above `from` comes out wrong |
| Ranges.InsertLastPoint | host/src/db/utils.rs:150-160 | re-inserting a one-height last range leaves the vector as it was |
| Ranges.SimplifiedLoose | host/src/db/utils.rs:163-183 | `simplify` makes ordered, non-overlapping pairs canonical without changing the set |
| Ranges.SpliceSkip | host/src/db/utils.rs:150-159 | ranges wholly below the new interval are carried over untouched |
| Ranges.SpliceHere | host/src/db/utils.rs:150-159 | where the interval meets the vector, the parity edit leaves one lower end, `to` unless it was covered, and what lies above |
| Ranges.CanonicalUnique | host/src/db/utils.rs:125-126 | two canonical vectors for the same set are the same vector |
| Ranges.FirstIsLeastMissingIff | host/src/db/utils.rs:129-136 | `first` is the least missing height if and only if nothing is stored or the first range reaches down to 1 |
| Ranges.FirstGrows | host/src/db/utils.rs:129-136 | once height 1 is covered, a larger set never has a smaller `first` |
| Ranges.MaximalGapsUnique | host/src/db/utils.rs:194-232 | there is only one list of maximal gaps of an interval |
| RangeStore.FetchedRanges.Insert | host/src/db/utils.rs:144-161 | the in-place edit computes the specified vector, canonical and the union in the good case |
| RangeStore.FetchedRanges.Simplify | host/src/db/utils.rs:163-183 | the loop computes the specified vector |
| RangeStore.FetchedRanges.BlocksLeftToFetch | host/src/db/utils.rs:194-232 | the height-by-height loop returns exactly the maximal gaps: non-empty, sorted, non-adjacent, their union the missing part of [from, to] |
| Storage.ExtendedSplit | host/src/db/fetch.rs:81-85 | extending the log is the map union with the new items |
| Storage.LoggedStored | host/src/db/fetch.rs:81-104 | extending, with or without a flush, adds each new row once to table and log together |
| Storage.FlushIff | host/src/db/fetch.rs:86-104 | the log is written out if and only if it would hold as many rows as its limit; otherwise the table is untouched |
| Storage.CommitKeepsExactlyOnce | host/src/db/fetch.rs:282-291 | committing a range that was wholly missing keeps every covered chain row stored exactly once and nothing else |
| Storage.PublishedExactIff | host/src/db/fetch.rs:284-288 | the height published by a commit is the end of the complete prefix 1..n if and only if height 1 is covered |
| Storage.CommitLowersIff | host/src/db/fetch.rs:284-288 | a commit publishes a lower height if and only if its range lies below the first stored range and does not touch it |
| Storage.DbConn.Extend | host/src/db/fetch.rs:81-104 | log and table after a batch; the log is below its limit afterwards |
| Storage.DbConn.Drain | host/src/db/fetch.rs:107-128 | the final drop moves every logged row to the table once and empties the log |
| Syncing.TaskHeld | host/src/db/fetch.rs:313-342 | a task's step keeps the number of holders of every height, or drops one after a shutdown |
| Syncing.PollHeld | host/src/db/fetch.rs:44-64 | the three reads of the message poll keep the number of holders of every height |
| Syncing.SpawnHeld | host/src/db/fetch.rs:239-252 | spawning turns a planned range into a running one |
| Syncing.BeginHeld | host/src/db/fetch.rs:215-252 | an idle fetcher without a shutdown that is given a tip it has not reached starts, and claims exactly the missing heights up to the tip, each once, on top of what lies in the channel; any other start claims nothing |
| Syncing.PlanOnceIff | host/src/db/fetch.rs:239-252 | planning leaves a height with one holder if and only if no queued range holds it while it is missing and sought |
| Syncing.CommitHeld | host/src/db/fetch.rs:284-290 | committing turns the claim on a range into coverage |
| Syncing.RetryHeld | host/src/db/fetch.rs:292-309 | a failed range is claimed again by a new task, or, if the fetcher is interrupted or receives the shutdown now, given up with flag and mode set |
| Syncing.HandledIsNew | host/src/db/fetch.rs:282-285 | the range about to be inserted is wholly missing |
| Syncing.NothingLive | host/src/db/utils.rs:22-81 | with the counter at zero every task has exited, and with an empty channel nothing is outstanding |
| Syncing.StepKeepsInv | host/src/db/fetch.rs:194-311 | every step of fetcher, task, signal or restart keeps the invariant |
| Syncing.RunInv | host/src/db/fetch.rs:194-359 | the invariant holds after every list of events |
| SyncRuns.EveryHeightOnce | host/src/db/fetch.rs:239-263 | unless some sync was planned over a missing range still in the channel, a height has at most one holder in every reachable state; without a shutdown, exactly the initially covered and the sought heights have one |
| SyncRuns.PlanKeepsOnceIff | host/src/db/fetch.rs:239-252 | the exception exactly: in every reachable state planning keeps all heights at one holder if and only if no queued range holds a missing height up to the tip |
| SyncRuns.HeldTwiceHappens | host/src/db/fetch.rs:313-352 | a concrete run in which height 31 has two holders |
| SyncRuns.RowsExactlyOnce | host/src/db/fetch.rs:81-128 | after every run table and log hold each chain row of a covered height once and nothing else, after the final drop the table alone does, and the log is below its limit |
| SyncRuns.TableHoldsRow | host/src/db/fetch.rs:81-104 | after every run the table holds a row once if it is on chain, covered and not in the log, and else not |
| SyncRuns.TableHoldsBlockIff | host/src/db.rs:106-142 | what the host can read: the table holds every row of a covered block once if and only if no row of the block is in the log |
| SyncRuns.InsertsAreUnions | host/src/db/fetch.rs:282-290 | every insert of every run is a union with a disjoint range and leaves a canonical vector |
| SyncRuns.DrainedMeansDone | host/src/db/fetch.rs:43-64 | without a shutdown the drain loop ends only with no live task, an empty channel and every planned range inserted |
| SyncRuns.OrderIrrelevant | host/src/db/fetch.rs:224-277 | syncs from the same vector to the same tip end with the same vector and stored rows, whatever the interleaving |
| SyncRuns.SyncCompleteIff | host/src/db/fetch.rs:215-277 | a drained sync covers 1..tip if and only if it started from the empty vector or one that reaches down to 1 |
| SyncRuns.SyncClaimsTip | host/src/db/fetch.rs:224-228 | after a drained sync `first` is beyond the tip, and the tip plus one if and only if the height after the tip was not covered at its start |
| SyncRuns.PublishedStep | host/src/db/fetch.rs:285-288 | once height 1 is covered a step never lowers the published height, and a new one is the end of the complete prefix |
| SyncRuns.PublishedNeverFalls | host/src/db/fetch.rs:285-288 | the same over every continuation of the run without a restart |
| SyncRuns.PublishedFallsIff | host/src/db/fetch.rs:285-288 | in every reachable state a step lowers the published height if and only if it is a restart, or a commit of a range below the first stored one that does not touch it |
| SyncRuns.PublishedFallHappens | host/src/db/fetch.rs:285-288 | a concrete run that publishes 90 and then 30 |
| SyncRuns.SkippedForever | host/src/db/fetch.rs:224-252 | heights below the first stored range that nobody claims are never fetched in any continuation, restarts included |
| SyncRuns.SkippingHappens | host/src/db/fetch.rs:313-357 | a concrete run that ends with 31..60 stored, 61 taken for the first missing height, and 1..30 skipped |
| SyncRuns.NeverStuck | host/src/db/fetch.rs:239-263 | at every point of a sync without a shutdown some step that is no failure brings the end closer, the message in hand counted |
| SyncRuns.CanDrain | host/src/db/fetch.rs:254-263 | from every such state of the invariant there is a list of such steps after which the loop has ended with everything planned inserted |
| StartStop.SyncStartsIff | host/src/db/fetch.rs:224-252 | an idle fetcher without a shutdown starts a sync, with the whole plan before it, if and only if some height from the first missing one to the tip is not stored; otherwise nothing changes |
| StartStop.PlanPartitions | host/src/db/fetch.rs:239-252 | a plan cuts exactly the missing heights up to the tip into disjoint ranges of at most 30 heights |
| StartStop.SendWaitsIff | host/src/db/fetch.rs:333-336 | a task waits with its message if and only if the channel holds 32 |
| StartStop.FailedIsRetried | host/src/db/fetch.rs:292-309 | a failed fetch comes back as a new task for the same range, nothing else changed |
| StartStop.ReceivedShutdownStops | host/src/db/fetch.rs:344-352 | a received shutdown sets flag and mode at each of the three checks; the message in hand is stored if it is an answer, and no task is added |
| StartStop.InterruptedNeverRetries | host/src/db/fetch.rs:292-309 | a failed range is spawned again if and only if the fetcher is not interrupted and receives no shutdown |
| StartStop.ShutdownReachesDrop | host/src/db/fetch.rs:254-277 | from an interrupted message on, the next three moves of the fetcher, with anything in between, lead to the final drop with the current vector saved and the log in the table |
| StartStop.CanGoIdle | host/src/db/fetch.rs:254-277 | from every point of a sync without a shutdown it can come back to its idle place with everything sought stored |
| Fetching.Fetcher.constructor | host/src/db/fetch.rs:153-192 | the fields of a new fetcher are those of a fresh machine state |
| Fetching.Fetcher.PlanBatches | host/src/db/fetch.rs:239-252 | the batch loop partitions the missing part of [first, tip] into ranges none of which crosses a batch of 30 |
| Fetching.Fetcher.CheckExitConditions | host/src/db/fetch.rs:344-352 | a received shutdown sets flag and mode once |
| Fetching.Fetcher.StartSync | host/src/db/fetch.rs:194-252 | the object stops, reports itself synced, or plans, exactly as the machine's start of a sync does |
| Fetching.Fetcher.TakeMessage | host/src/db/fetch.rs:254-263 | the body of the drain loop does to the object what the machine's step does, and hands back the range of the task that step adds |
| Fetching.Fetcher.HandleFetched | host/src/db/fetch.rs:282-311 | a result is committed as specified; a failure is retried unless interrupted |
| Fetching.Fetcher.SaveAndDrop | host/src/db.rs:192-197 | the saved vector is the current one and the log ends up in the table |
| IndexLists.SearchByFinds | shared/src/db.rs:204-214 | binary search by a monotone comparison finds an element if and only if there is one |
| IndexLists.ContainsIsMember | shared/src/db.rs:204-208 | on lists ordered by height and then transaction `contains` is membership |
| IndexLists.ContainsHeightIsMember | shared/src/db.rs:210-214 | on such lists `contains_height` says whether some index has the height |
| IndexLists.CombineMembers | shared/src/db.rs:169-195 | the result is ordered by height and then transaction, keeps freedom from duplicates, and holds an index if and only if one list has it and each list reaching its height has it |
| IndexLists.CombineCounts | shared/src/db.rs:169-195 | an index is kept as often as the list reaching further has it, the first one in a tie |
| IndexLists.CombineCommutesIff | shared/src/db.rs:169-195 | the order of two lists matters if and only if both are non-empty, their greatest heights tie and a common index is listed unequally often |
| IndexLists.CombineCommutes | shared/src/db.rs:169-195 | on duplicate-free lists the order never matters |
| IndexLists.CombineLosesNothing | shared/src/db.rs:162-195 | lists complete up to two heights combine to one complete up to the greater, empty lists included |
| IndexLists.FoldMembers | shared/src/db.rs:169-195 | folding over lists with distinct greatest heights keeps exactly the indices, up to the overall greatest height, that every list reaching them has |
| IndexLists.FoldAnyOrder | shared/src/db.rs:169-195 | any permutation of such lists folds to the same list |
| IndexLists.GroupMembers | shared/src/db.rs:169-195 | a grouped merge of three lists holds what all lists reaching it agree on, and apart from that what slips past the inner merge |
| IndexLists.AssociatesIff | shared/src/db.rs:169-195 | for all lists, the two groupings hold the same indices if and only if one list is empty or the same indices slip past the inner merge on either side |
| IndexLists.AssociatesWithoutBareTies | shared/src/db.rs:169-195 | grouping does not matter when no two neighbours end at one height without sharing an index there |
| IndexLists.TiesDoNotAssociate | shared/src/db.rs:169-195 | three lists with such a tie on which grouping matters |
| IndexLists.UnionIsUnion | shared/src/db.rs:197-202 | `union` is the set union without duplicates, by height and then transaction |
| IndexLists.IndexList.Combine | shared/src/db.rs:169-195 | the in-place merge computes the specified list, by height and then transaction if both lists had something |
| IndexLists.IndexList.RetainListed | shared/src/db.rs:188-194 | the retain loop computes the specified list |
| IndexLists.IndexList.Union | shared/src/db.rs:198-202 | in place, the list becomes the set union of both, free of duplicates, by height and then transaction |
| IndexCodec.DecodeEncode | shared/src/db.rs:97-129 | an index decodes from its 12 bytes |
| IndexCodec.EncodeDecode | shared/src/db.rs:97-129 | every 12 bytes decode, and encode back to themselves |
| IndexCodec.ParseThenEncode | shared/src/db.rs:148-160 | parsing succeeds if and only if the length is a multiple of 12, and re-encoding gives the input back |
| IndexCodec.EncodeThenParse | enclave/src/fmd.rs:79-81 | the concatenated encodings of any list parse to that list |
| IndexCodec.AsBytes | shared/src/db.rs:97-109 | the byte loop fills the array with height and transaction, little-endian |
| IndexCodec.TryFromBytes | shared/src/db.rs:111-129 | the byte loop decodes, and refuses other lengths |
| Cobs.DecodeEncoded | shared/src/communication/mod.rs:240-245 | feeding an encoded message and its sentinel gives the message back, exactly at the sentinel |
| Cobs.EncodeHasNoZero | shared/src/communication/mod.rs:240-245 | the sentinel never occurs inside an encoding |
| Cobs.EncodeOverhead | shared/src/communication/mod.rs:240-245 | an encoding is longer than its data by one byte, and at most one more for each full 254 |
| Frames.Decoder.FeedByte | shared/src/communication/mod.rs:218-234 | a receiver with a bounded buffer does as one without bound, or reports that the next output byte does not fit |
| Frames.Replay | shared/src/communication/mod.rs:211-216 | replaying the bytes read so far into the bigger buffer gives no result and no error |
| Frames.Channel.GetFrame | shared/src/communication/mod.rs:202-236 | result and rest of the stream are those of an unbounded buffer, for every stream and buffer unit; the buffer ends as the least positive multiple of the unit that holds the frame |
| Frames.Channel.WriteFrame | shared/src/communication/mod.rs:240-245 | what is appended to the stream reads back as the frame, whatever follows |
| Frames.FrameRoundTrip | shared/src/communication/mod.rs:202-245 | a frame followed by anything is read back exactly and nothing behind it is consumed |
| Frames.FrameKinds | shared/src/communication/mod.rs:218-234 | what any zero-free bytes before a sentinel are read as: a frame if they are whole groups, a decode error if a group is cut short, nothing yet without the sentinel |
| Frames.ConversationRoundTrip | shared/src/communication/mod.rs:202-245 | any number of frames written one after another is read back in order |
| Fmd.OneShotInOrder | enclave/src/fmd.rs:105-114 | the one-shot list is in height order, within its blocks, and lists nothing twice |
| Fmd.OneShotLaw | enclave/src/fmd.rs:105-114 | on a proper chain the one-shot list holds a transaction if and only if it lies in the blocks and its flag is missing or matches; by height, then row order, none twice |
| Fmd.HeightsFacts | host/src/main.rs:237-241 | the requested heights, in ascending order, each asked height once |
| Fmd.RowsAtCounts | host/src/db.rs:111-119 | the query returns each row of the height as often as the table holds it, and no other |
| Fmd.RowsAtInOrder | host/src/db.rs:111-119 | it returns them in the order of the table |
| Fmd.HitsFlags | enclave/src/fmd.rs:105-115 | of all flags sent, a key takes in the detected rows of its own next height exactly once |
| Fmd.RepeatedHeightDoubles | host/src/main.rs:238-239 | without the dedup two keys at one height would get its rows twice |
| Fmd.RoundKeepsExact | enclave/src/fmd.rs:89-123 | a round on complete reads keeps every key's list equal to the one-shot filter |
| Fmd.RoundExactIff | enclave/src/fmd.rs:101-121 | a round keeps a key's exact list exact if and only if the detected rows read for its next block are the chain's; on a proper chain it repairs no other list |
| Fmd.RoundLowersLag | enclave/src/fmd.rs:101-121 | a round takes exactly one off the lag of each lagging key and nothing else |
| Fmd.RoundsReach | enclave/src/fmd.rs:101-121 | after n rounds with one bound a key below it stands n blocks further or at the bound; others have not moved |
| Fmd.RespondRows | enclave/src/fmd.rs:59-77 | a reply has one row per advanced key in key order, each under its own nonce, and is an error if and only if an advanced key's list exceeds the cipher's longest plaintext |
| Fmd.QueryRow | client/src/query.rs:56-78 | a client decrypts and parses its row to the key's list |
| Fmd.HoldsAdvance | enclave/src/fmd.rs:116-121 | a stored row goes on holding the list of its key as it was at the row's height, when the key moves on |
| Fmd.QueryHolds | client/src/query.rs:56-78 | such a row opens to that list under its key and nonce, and to nothing under any other |
| Fmd.UpdatedFacts | host/src/db.rs:145-161 | after the update each owner has a row of the reply or the one it had |
| Fmd.LastRowStays | host/src/db.rs:145-161 | of several rows for one owner the last stays |
| Fmd.RoundStoresRows | enclave/src/fmd.rs:116-120 | with distinct owners a successful round leaves, for each advanced key, a row that opens to its exact list with height one below its synced height, and leaves all other owners' rows alone |
| Fmd.Enclave.Register | enclave/src/lib.rs:58-66 | the key is added last with the detection key, encryption key and birthday it was sent with, stands at its birthday or 1, and its empty list is exact for every chain and detector |
| Fmd.Enclave.PushHits | enclave/src/fmd.rs:105-115 | the inner loop pushes the specified indices |
| Fmd.Enclave.CheckFlags | enclave/src/fmd.rs:89-123 | the nested loops advance all keys and build the reply as specified |
| Fmd.HostDb.GatherFlags | host/src/main.rs:233-258 | what is gathered holds each row of a requested height as often as the table does and no other, by ascending height |
| Fmd.HostDb.UpdateIndices | host/src/db.rs:145-161 | the loop replaces rows by owner as specified |
| Relay.TurnKept | host/src/main.rs:164-275 | every event keeps the turn: at each point of the host's handlers the only reply pending or on its way is the one it waits for |
| Relay.ToldKept | enclave/src/ratls.rs:75-79 | keys registered equal success messages passed on or on their way |
| Relay.RunInv | enclave/src/lib.rs:46-86 | after every run, whatever the host has read: turn and registrations are right, lists stay within birthday+1..synced_to, stored and arriving rows hold lists of registered keys, and with distinct owners arriving rows are newer |
| Relay.RepliesNeverCross | host/src/main.rs:164-275 | back in its event loop the host has no reply pending and the enclave falls silent; inside a handler it reads the kind of reply it waits for |
| Relay.ReplyIsOwn | host/src/main.rs:233-275 | in every reachable state inside an exchange, what is pending is the reply to the flags the host has read for the heights of this round, made from the keys before it, and the keys have moved by exactly this round |
| Relay.RegisteredIsTold | host/src/main.rs:215-229 | in its event loop the host has told one client of success per registered key |
| Relay.AnswersReachClient | host/src/main.rs:180-229 | in every reachable state the enclave's answer in a registration, an error included, goes to the client and the enclave is sent nothing for it |
| Relay.ConnectsIff | enclave/src/ratls.rs:38-70 | an enclave in its loop answers a connection with a report and waits if and only if the client's key is contributory, else with an error |
| Relay.RegistersIff | enclave/src/ratls.rs:72-86 | a waiting enclave that reads a success it can open adds one key as it was sent, empty, that first asks for the block after its birthday or for block 2; on anything else it adds none, and the wait is over |
| Relay.KeysAreRegistrations | enclave/src/lib.rs:58-66 | in every reachable state the registered keys are, in order, the accepted registrations, but for one that may be on its way |
| Relay.ExchangeIsRound | host/src/main.rs:233-275 | the three events of an exchange, with no other enabled in between, are one atomic round: on all keys, answered from the keys before it, and stored |
| Relay.ListsAreOneShot | enclave/src/lib.rs:58-77 | after every run in which the reads for a key were right, its list is the chain filtered once over birthday+1..synced_to, on a proper chain in order and none twice |
| Relay.ListsAreOneShotIff | enclave/src/lib.rs:58-77 | on a proper chain, outside an exchange, a key's list is the one-shot list if and only if every read for the key was right |
| Relay.ListLaw | enclave/src/lib.rs:58-77 | after every run with right reads on a proper chain, a transaction is listed if and only if it is on chain after the birthday (or 1) and up to the synced height and its flag is missing or matches; by height, then row order, none twice |
| Relay.MissedForever | enclave/src/fmd.rs:101-121 | an index at a height a key has passed without listing it is never listed in any continuation |
| Relay.QueriesAreOneShot | client/src/query.rs:27-78 | whatever was read and registered, what a client reads back is the list of a key of its name as it was at the block after the reported height, and the one-shot list up to there if the reads for that key were right; any other key reads nothing |
| Relay.FinishedRoundStores | host/src/main.rs:262-275 | with distinct owners, when a round's results are stored the row of each key it advanced opens to the key's current list at the height below its synced one, one-shot if the reads were right; other rows stay |
| Relay.StoredHeightsGrow | host/src/db.rs:145-161 | with distinct owners a stored row is only ever replaced by one of a greater height |
| Relay.FinalReplyIff | host/src/main.rs:205-229 | after a forwarded acknowledgement the reply comes if and only if the enclave is waiting and it is a success; otherwise no event changes anything again |
| Relay.EnclaveLoop.Serve | enclave/src/lib.rs:55-83 | the message loop with the wait inside registration does one specified step per message, and registers exactly an awaited success, as it was sent |
| Pipeline.ReadOnce | host/src/db.rs:106-142 | reading the fetcher's table, the host reads a row once if it is on chain, covered and not in the log, and else not |
| Pipeline.TakenInIff | host/src/db.rs:106-142 | so a round takes in a transaction of a key's next block exactly once if it is on chain, detected, covered and not in the log, and else not |
| Pipeline.WrittenBlockIsRead | host/src/main.rs:253-256 | a covered block of which nothing is in the log is read whole, each row once; if the table keeps it in row order the read is right for every key |
| Pipeline.LoggedIsLost | host/src/db/fetch.rs:286-290 | a round that passes a block while one of its detected transactions is in the log leaves the key's list wrong in every continuation |
| Pipeline.RowLost | host/src/config.rs:17 | with the default log limit: one row, height 2 published, the row in the log, the table empty, and the key's list wrong for good |

## Left out

- Width of heights: heights are unbounded here; the overflow panic of `first` at 2^64 - 1 and wrap-around in batch bounds are not modelled. Indices have their 64 and 32 bits.
- Finer steps inside the fetcher: planning a sync, and handling one message, are one step each; tasks and signals interleave between them, not inside. A poll of channel or counter is one step.
- Hard crashes without the final drop, panicking tasks, memory ordering and lost wake-ups of the counter.
- SQLite, files, sockets, CBOR, Borsh, JSON and TOML: tables are sequences, multisets or maps; writes to them succeed.
- Order of rows within one flush of the log: the type of the log is not part of this repository, and `Drain` writes in any order. `get_height` is modelled on whatever order the table has.
- Time: the sleeps between syncs and the client timeout are nondeterministic events.
- Cryptography, attestation reports, and the filling of the report data; the client side of the handshake (clients answer anything at any time); client configuration, logging and the event scheduler.
- Liveness beyond `NeverStuck`, `CanDrain` and `RoundsReach`: an indexer may fail for ever, and fairness of the scheduler is not modelled.
- Registered keys are lost when the enclave process ends; restarts of the enclave are not modelled.
- Reports requested with `RequestReport`: the enclave's answer is a step of the model, but no host path sends the request.
- Encoding of frames: the byte-stuffing library is not part of the repository; `Cobs.dfy` follows Cheshire and Baker, "Consistent Overhead Byte Stuffing".
