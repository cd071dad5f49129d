# Model of the algorithms in the bundled Monero headers

The wallet application is a thin user interface over a library whose headers it carries along. Some of these
headers hold complete algorithms. This project models them in Dafny and proves what they are for:

- `TaskRegion.dfy`, `TaskRegionObjects.dfy`: the fork-join task region. The protocol is a state machine over atomic
  steps of one spawning thread and any number of workers; the classes are `state` and `task_region_handle`, tied to
  the machine step by step.
- `PeerTables.dfy`, `PeerlistManager.dfy`: the white and gray peer tables. The first treats them as values, where the
  theorems are; the second is the class with its two-index containers, each method tied to its function.
- `Varint.dfy`: variable-length integers (unsigned LEB128, section 7.6 of DWARF Version 4) with their range and
  minimality checks.
- `IntUtil.dfy`, `Skein.dfy`: 128-bit products and quotients, rotation, byte swapping, and the portable conversion
  between words and bytes.
- `Amounts.dfy`: splitting an amount into decimal digits and dust, on wrapping 64-bit words.
- `Mnemonics.dfy`: UTF-8 prefixes (section 3 of RFC 3629) and the word indexes of a language.
- `Archives.dfy`: saving and loading of unordered containers, generic in how the archive writes keys and values.
- `BinaryArchives.dfy`, `TxExtra.dfy`: strings and sizes in the binary archive, and the fields of a transaction's
  extra part, padding among them.
- `Bits.dfy`: bitwise operations on natural numbers, on which the word arithmetic rests; `Sequences.dfy`: two shared
  facts about sequences.

Words are natural numbers below a power of two; wherever the source truncates, the model does so explicitly.
Buffers that the source writes in place are arrays, objects are classes, and loops are loops.

Reading notes:

- The comment at the top of `varint.h` gives 0x200 and 0x027f for the bytes 80 02 and ff 02. The code reads 0x100
  and 0x17f; the model follows the code (`Varint.CommentExamples`).
- `get_peerlist_head` tests its counter before increasing it, so it gives up to `depth + 2` entries.
- The joins of the task region hold for each task whose wrapper the group invokes at most once. The header says that
  `thread_group` should never do otherwise; `TaskRegion.LaterCopyReleasesWait`, `TaskRegion.SecondCopyReleasesWait`
  and their partners for the destructor show, from every state with a running or a ready task, what can happen if it
  does.
- A gray peer whose time goes back can push out a newer one (`PeerTables.GrayStepIff`,
  `PeerTables.GoingBackLosesNewer`).
- A `tx_extra_field` loaded at the end of a stream is decided by an uninitialised variable (`TxExtra.LoadField`).
- A peer that is appended to a full white table and is older than everything in it is dropped from the gray table
  as well (`PeerTables.WhiteArrival`).
- The binary archive ignores the result of `read_varint`, so sizes in a broken or non-minimal form are accepted
  (`TxExtra.LoadedFieldsAreCanonical`, `TxExtra.SloppySize`).

`dfyconfig.toml` lists the project: `dafny verify dfyconfig.toml`.

## Main results

Task region: `TaskRegion.Safety`, `TaskRegion.Numbering`, `TaskRegion.NoStartOncePendingIsClear`,
`TaskRegion.NoStartAfterAbort`, `TaskRegion.WaitJoins`, `TaskRegion.DestructorJoins`,
`TaskRegion.LaterCopyReleasesWait`, `TaskRegion.LaterCopyReleasesDestructor`, `TaskRegion.SecondCopyReleasesWait`,
`TaskRegion.SecondCopyReleasesDestructor`, `TaskRegion.JoinCanComplete`, `TaskRegion.WaitGivesBack`,
`TaskRegion.RegionServes`, `TaskRegionObjects.RunMany`.

Peer tables: `PeerTables.EveryRunWellFormed`, `PeerTables.MergeKeepsNewest`, `PeerTables.NewestThroughoutIff`,
`PeerTables.GoingBackLosesNewer`, `PeerTables.WhiteArrival`, `PeerTables.WhiteOthers`, `PeerTables.GrayArrival`,
`PeerTables.FromOldIsUnion`, and the methods of
`PeerlistManagers.PeerlistManager`, which tie the two-index class to these tables.

Integers: `Varint.ReadAll`, `Varint.CompleteIff`, `Varint.TruncatedIff`, `Varint.FailureBlame`, `Varint.WhatIsWritten`,
`Varint.PrefixFree`,
`IntUtil.Mul128Exact`, `IntUtil.Div128By32`, `IntUtil.RolCompose`, `IntUtil.MacroSwap64IsSwap64`,
`Skein.GetAfterPut`, `Skein.PutAfterGet`, `Skein.PutAfterSwap`.

Amounts and words: `Amounts.DecomposeAmountIntoDigits`, `Amounts.Conservation`, `Amounts.DustIsLongestRun`,
`Amounts.ChunksAreDigits`, `Mnemonics.PrefixOfPrefix`, `Mnemonics.ShortenedWordIsFound`.

Archives and extra fields: `Archives.MapRoundTrip`, `Archives.MultimapRoundTrip`, `Archives.MapOfSetsRoundTrip`,
`TxExtra.FieldRoundTrip`, `TxExtra.FieldsRoundTrip`, `TxExtra.LoadedFieldsAreCanonical`.

The table below begins with these; the operations and the lemmas they rest on follow.

## Model

| member | source | states |
|---|---|---|
| `TaskRegion.Safety` | monero/include/common/task_region.h:74-82 | on every interleaving of the spawning thread and any number of workers, with any number of invoked copies of a wrapper: ready bits stay a subset of the pending bits, no task is allowed to run twice, and a task that was allowed never becomes ready again |
| `TaskRegion.Numbering` | monero/include/common/task_region.h:159-172 | after any run, every task k has bit 2^(k mod 32) of the (k div 32)-th chained state, through every wrap of `next_id` to 0; the chain has exactly as many states as that takes; no other task has the same state and bit |
| `TaskRegion.NoStartOncePendingIsClear` | monero/include/common/task_region.h:80-91 | once its pending bit is clear, a task never starts again, whatever `run` adds and whatever copies are invoked later |
| `TaskRegion.NoStartAfterAbort` | monero/include/common/task_region.h:143-148 | once the destructor has aborted the chain, no body starts, whatever copies the workers invoke |
| `TaskRegion.WaitJoins` | monero/include/common/task_region.h:174-179 | when `wait` returns, every body given to `run` has finished whose own wrapper was not invoked twice |
| `TaskRegion.DestructorJoins` | monero/include/common/task_region.h:142-148 | when the destructor returns, a task whose own wrapper was not invoked twice is not running, and has finished or never starts in any continuation |
| `TaskRegion.LaterCopyReleasesWait` | monero/include/common/task_region.h:97-99 | from every reachable state in which a copy is in its body and the spawning thread is free or waiting, a later copy of the same wrapper admits a run in which `wait` returns with that body still running, no other wrapper being invoked a second time for it |
| `TaskRegion.LaterCopyReleasesDestructor` | monero/include/common/task_region.h:97-99 | the same for the destructor, from states in which it is not begun or already joining |
| `TaskRegion.SecondCopyReleasesWait` | monero/include/common/task_region.h:97-99 | so, from every reachable state with the spawning thread free and task k ready, two copies of its wrapper admit a run in which `wait` returns while the body of k is running |
| `TaskRegion.SecondCopyReleasesDestructor` | monero/include/common/task_region.h:97-99 | from the same states, the destructor returns while the body of k is running |
| `TaskRegion.JoinCanComplete` | monero/include/common/task_region.h:90-94 | from every reachable state in which a thread waits or the destructor joins, some continuation lets it return, and no wrapper is invoked a second time for that |
| `TaskRegion.WaitGivesBack` | monero/include/common/task_region.h:174-179 | from every reachable state in which the thread waits, some continuation ends the wait, runs one more task and leaves the thread free with that task ready and all earlier tasks kept, and from there the destructor can run to its end |
| `TaskRegion.RegionServes` | monero/include/common/task_region.h:142-179 | from every reachable state in which the thread is free, any list of `run` and `wait` calls can be served, with no task lost and no wrapper invoked a second time, and then the destructor can run to its end |
| `TaskRegionObjects.RunMany` | monero/include/common/task_region.h:159-172 | for any number of consecutive `run` calls on a region with threads, the k-th wrapper carries body k, bit 2^(k mod 32) and the (k div 32)-th state of the chain |
| `PeerTables.EveryRunWellFormed` | monero/include/p2p/net_peerlist.h:207-237 | after any run of append white, append gray, merge and just-seen requests from empty tables: at most 1000 white and 5000 gray peers, no address twice or in both tables, no loopback address, no local one unless allowed, both time orders sorted |
| `PeerTables.MergeKeepsNewest` | monero/include/p2p/net_peerlist.h:227-237 | merging any list in which no address is seen earlier than before, whether new, gray already, white or repeated: white is unchanged, gray is the newest part, up to the limit, of the table with the last entry of every address, and its times are those of inserting or replacing everything first and trimming once |
| `PeerTables.NewestThroughoutIff` | monero/include/p2p/net_peerlist.h:230-235 | for every list of admissible peers, the gray table holds the newest after each of its entries if and only if no entry goes back in this way |
| `PeerTables.GoingBackLosesNewer` | monero/include/p2p/net_peerlist.h:387-390 | on all well-formed tables with 5000 gray peers, a gray peer put back behind a new one that is older than all is kept while the new one is lost, and the times are not the newest |
| `PeerTables.WhiteArrival` | monero/include/p2p/net_peerlist.h:336-364 | which addresses are white and gray after an append to white; the entry is stored if and only if the address was white, or there was room, or it is not older than the oldest; otherwise the address ends up in neither table |
| `PeerTables.WhiteOthers` | monero/include/p2p/net_peerlist.h:345-361 | of the entries of other addresses, an append to white leaves all gray ones, and all white ones but the oldest of a full table where that is pushed out |
| `PeerTables.GrayArrival` | monero/include/p2p/net_peerlist.h:373-390 | an append to gray does nothing to a white address; else the entry is stored if and only if the address was gray, or there was room for 5000, or it is not older than the oldest; of the others at most that oldest goes |
| `PeerTables.FromOldIsUnion` | monero/include/p2p/net_peerlist.h:193-206 | reading the old format adds exactly the entries whose address was missing, and keeps order and distinctness |
| `Varint.ReadAll` | monero/include/common/varint.h:93-119 | reading repeatedly from a list of encodings and a suffix gives exactly the list, the exact counts, and leaves the suffix |
| `Varint.CompleteIff` | monero/include/common/varint.h:97-118 | a read completes if and only if the stream starts with the encoding of a value in range |
| `Varint.TruncatedIff` | monero/include/common/varint.h:98-100 | a read runs out of input if and only if the stream stops inside such an encoding |
| `Varint.FailureBlame` | monero/include/common/varint.h:104-109 | a read fails at the first byte after which no such encoding fits, with -2 exactly if that byte is a zero that continues a value |
| `Varint.WhatIsWritten` | monero/include/common/varint.h:93-119 | however a read ends, the variable holds the seven-bit groups of all bytes that were not refused; a read that runs out of input returns the number of bytes |
| `Varint.PrefixFree` | monero/include/common/varint.h:68-79 | no encoding starts another one |
| `IntUtil.Mul128Exact` | monero/include/common/int-util.h:71-95 | the two words are the exact product for all inputs; the sum stored to `product_hi` never wraps, and the assertion behind it holds |
| `IntUtil.Div128By32` | monero/include/common/int-util.h:103-119 | quotient and remainder of a 128-bit value by any non-zero 32-bit divisor are exact |
| `IntUtil.RolCompose` | monero/include/common/int-util.h:53-59 | two rotations are one by the sum of the counts |
| `IntUtil.MacroSwap64IsSwap64` | monero/include/common/int-util.h:128-149 | the shift-and-mask macro and the function compute the same word |
| `Skein.GetAfterPut` | monero/include/crypto/skein_port.h:183-212 | get undoes put for arrays of every length |
| `Skein.PutAfterGet` | monero/include/crypto/skein_port.h:183-212 | put undoes get for every whole number of words |
| `Skein.PutAfterSwap` | monero/include/crypto/skein_port.h:183-190 | putting a swapped array gives the original bytes with each block of eight reversed |
| `Amounts.DecomposeAmountIntoDigits` | monero/include/cryptonote_core/cryptonote_format_utils.h:209-248 | with every product and sum cut to 64 bits, the handler calls are those of the digit decomposition, for all amounts and thresholds |
| `Amounts.Conservation` | monero/include/cryptonote_core/cryptonote_format_utils.h:208-248 | dust and chunks add up to the amount |
| `Amounts.DustIsLongestRun` | monero/include/cryptonote_core/cryptonote_format_utils.h:226-247 | dust is the longest run of low digits within the threshold, reported at most once and before every chunk |
| `Amounts.ChunksAreDigits` | monero/include/cryptonote_core/cryptonote_format_utils.h:222-240 | the chunks are the non-zero digits above the dust, each d * 10^k with 1 <= d <= 9, k strictly increasing, none left out |
| `Mnemonics.PrefixOfPrefix` | monero/include/mnemonics/language_base.h:55-66 | cutting twice is cutting once at the smaller count |
| `Mnemonics.ShortenedWordIsFound` | monero/include/mnemonics/language_base.h:84-100 | with different trimmed keys, a word cut to any number of characters from the prefix length on still leads to its own index |
| `Archives.MapRoundTrip` | monero/include/common/unordered_containers_boost_serialization.h:41-67 | a map saved in any iteration order loads as itself and leaves what follows |
| `Archives.MultimapRoundTrip` | monero/include/common/unordered_containers_boost_serialization.h:70-96 | a multimap loads as the same multiset of pairs |
| `Archives.MapOfSetsRoundTrip` | monero/include/common/unordered_containers_boost_serialization.h:41-122 | a map of sets, as the pool keeps it, loads as itself whatever order the map and each of its sets have in memory |
| `TxExtra.FieldRoundTrip` | monero/include/cryptonote_core/tx_extra.h:48-182 | a field that can be stored loads as itself if and only if it is not padding, or is padding of non-zero size at the end of the stream |
| `TxExtra.FieldsRoundTrip` | monero/include/cryptonote_core/tx_extra.h:171-175 | a list of such fields with padding at most at its end loads as itself |
| `TxExtra.LoadedFieldsAreCanonical` | monero/include/cryptonote_core/tx_extra.h:48-182 | fields that load one after the other are stored as the bytes they came from if and only if every size was read without an error |
| `TaskRegion.StepKeeps` | monero/include/common/task_region.h:74-88 | every atomic step (track, claim, complete, abort, join) keeps the invariant that ties masks, numbering, running copies and the spawning thread to each other |
| `TaskRegion.StepStarts` | monero/include/common/task_region.h:120-127 | a body starts only in a claim that finds the ready bit of its task; no step forgets a start |
| `TaskRegion.RunLeavesReady` | monero/include/common/task_region.h:159-172 | an undisturbed `run` leads to such a state from every state in which the spawning thread is free |
| `TaskRegion.StepAccounts` | monero/include/common/task_region.h:74-88 | however often wrappers are invoked, every step keeps: a task that is not pending has a copy that returned, and, until the region is aborted, a dispatched task that is not ready has a copy that was let in |
| `TaskRegion.WaitReturns` | monero/include/common/task_region.h:174-179 | a wait that has seen every state of the chain returns and changes nothing else |
| `TaskRegion.WorkersAreFree` | monero/include/common/task_region.h:120-127 | in every reachable state any dispatched wrapper can be invoked and any copy can take its next step, whatever the spawning thread does |
| `TaskRegion.SpawnerMoves` | monero/include/common/task_region.h:142-179 | in every reachable state the spawning thread can take its next step, except a visit to a state with pending tasks |
| `TaskRegion.BlockedHasWork` | monero/include/common/task_region.h:90-94 | a thread is held back in `wait` or in the destructor only by a pending word that is not zero, and then some task of that state is still to be invoked or one of its copies can take a step |
| `TaskRegion.TestBit` | monero/include/common/task_region.h:81 | the bit test of `can_run` is non-zero exactly if the bit of the id is set |
| `TaskRegionObjects.State.constructor` | monero/include/common/task_region.h:101-103 | a new state is linked in front of the chain it is given, with both masks empty |
| `TaskRegionObjects.State.TrackId` | monero/include/common/task_region.h:74-77 | sets the id in both masks and nothing else |
| `TaskRegionObjects.State.CanRun` | monero/include/common/task_region.h:80-82 | answers whether the ready bit was set, and clears that bit alone |
| `TaskRegionObjects.State.MarkCompleted` | monero/include/common/task_region.h:84-85 | clears the pending bit alone |
| `TaskRegionObjects.State.Abort` | monero/include/common/task_region.h:87-88 | clears `ready` on every state of the chain and leaves every `pending` |
| `TaskRegionObjects.RunStepsKeep` | monero/include/common/task_region.h:159-172 | `run`, as three protocol steps, keeps the invariant and gives its task the next free slot |
| `TaskRegionObjects.TaskRegionHandle.constructor` | monero/include/common/task_region.h:182-184 | a new region is the empty protocol state |
| `TaskRegionObjects.TaskRegionHandle.CreateState` | monero/include/common/task_region.h:186 | chains the old states behind a new empty one and restarts the ids at 1 |
| `TaskRegionObjects.TaskRegionHandle.FindRoom` | monero/include/common/task_region.h:163-165 | a new state is chained exactly if there is none or its ids are used up |
| `TaskRegionObjects.TaskRegionHandle.Fork` | monero/include/common/task_region.h:163-170 | moves the object by the three protocol steps of the spawner and hands over one wrapper |
| `TaskRegionObjects.TaskRegionHandle.Run` | monero/include/common/task_region.h:159-172 | without threads the body runs at once and the masks stay; with threads the object moves exactly by the three protocol steps of the spawner and hands one wrapper to the group |
| `TaskRegionObjects.TaskRegionHandle.AbortAll` | monero/include/common/task_region.h:143-145 | the destructor's abort is the protocol's walk over the whole chain |
| `TaskRegionObjects.TaskRegionHandle.Invoke` | monero/include/common/task_region.h:120-127 | an uninterrupted invocation of a wrapper is the protocol sequence claim, body, complete; it tells whether the body ran |
| `PeerTables.ServeKeeps` | monero/include/p2p/net_peerlist.h:322-394 | each single request keeps all of that |
| `PeerTables.UpsertAllIs` | monero/include/p2p/net_peerlist.h:379-390 | that table holds, of every address, the last admissible entry in the list, or else the old gray entry |
| `PeerTables.GrayStepIff` | monero/include/p2p/net_peerlist.h:379-390 | one more peer leaves a table that holds the newest as one if and only if it is not one of its own that goes back behind something the table is missing |
| `PeerTables.FullGrayTable` | monero/include/p2p/net_peerlist.h:208-215 | such tables and peers exist |
| `PeerTables.MergeOfNewPeers` | monero/include/p2p/net_peerlist.h:227-237 | for distinct addresses, none of them gray, the order itself is that of inserting all and trimming once |
| `PeerTables.AppendAllGrayIs` | monero/include/p2p/net_peerlist.h:230-235 | for these, trimming after every insertion and inserting everything first leave the same newest part |
| `PeerTables.TrimThenInsertAll` | monero/include/p2p/net_peerlist.h:208-215 | trimming a table before inserting more makes no difference to its newest part |
| `PeerTables.RefusedChangesNothing` | monero/include/p2p/net_peerlist.h:339-341 | a loopback address, or a local one without leave, changes neither table, whichever it is appended to |
| `PeerTables.JustSeenArrives` | monero/include/p2p/net_peerlist.h:322-334 | a peer just seen is white afterwards with its address, id and the time given, if and only if its address was white, or there was room for 1000, or the time is not below the oldest; it is not gray |
| `PeerTables.NewEntryStays` | monero/include/p2p/net_peerlist.h:348-350 | on any sorted table, a new entry survives the trim if and only if there is room, or it is not older than the oldest of the newest ones that fit |
| `PeerTables.SameTimeStays` | monero/include/p2p/net_peerlist.h:353-354 | an entry whose time is as before is exchanged where it stands |
| `PeerTables.InsertIntoFull` | monero/include/p2p/net_peerlist.h:348-350 | inserting into a full table drops exactly the oldest of its entries and the new one |
| `PeerTables.ReplaceKeeps` | monero/include/p2p/net_peerlist.h:351-355 | replacing an entry keeps order, distinctness, size and addresses, and exchanges exactly that entry |
| `PeerTables.NewestAreLargest` | monero/include/p2p/net_peerlist.h:217-224 | what trimming drops and keeps is the whole table, and nothing dropped is newer than anything kept |
| `PeerTables.SeenIs` | monero/include/p2p/net_peerlist.h:283-287 | the head listing draws on each entry with a non-zero time as often as it is stored, newest first |
| `PeerTables.FromOldOverLimit` | monero/include/p2p/net_peerlist.h:193-206 | the white limit holds after that if and only if no more entries were missing than there was room for; nothing is trimmed |
| `PeerTables.OldTableOverLimit` | monero/include/p2p/net_peerlist.h:193-206 | 1001 old entries with different addresses all enter an empty white table |
| `PeerTables.WhiteRecovers` | monero/include/p2p/net_peerlist.h:345-355 | a white table over the limit comes back within it by an append if and only if the address was not white; otherwise its size stays |
| `PeerlistManagers.PeersIndexed.constructor` | monero/include/p2p/net_peerlist.h:124-132 | the two indexes start empty and in agreement |
| `PeerlistManagers.PeersIndexed.InsertNew` | monero/include/p2p/net_peerlist.h:348-349 | both indexes get the entry; by time it goes behind all entries that are not newer |
| `PeerlistManagers.PeersIndexed.ReplaceEntry` | monero/include/p2p/net_peerlist.h:353-354 | both indexes exchange the entry of that address |
| `PeerlistManagers.PeersIndexed.EraseOldest` | monero/include/p2p/net_peerlist.h:219-222 | both indexes lose the first entry by time |
| `PeerlistManagers.PeersIndexed.Erase` | monero/include/p2p/net_peerlist.h:357-361 | both indexes lose the entry of that address |
| `PeerlistManagers.PeersIndexed.Size` | monero/include/p2p/net_peerlist.h:124-132 | the map by address and the order by time have the same size and the same addresses |
| `PeerlistManagers.AgreeAfterReplace` | monero/include/p2p/net_peerlist.h:353-354 | wherever the order puts the replaced entry, the two indexes hold the same entries afterwards |
| `PeerlistManagers.PeerlistManager.constructor` | monero/include/p2p/net_peerlist.h:175-177 | a new manager has two empty tables |
| `PeerlistManagers.PeerlistManager.Init` | monero/include/p2p/net_peerlist.h:180-185 | fixes whether local addresses are allowed |
| `PeerlistManagers.PeerlistManager.IsIpAllowed` | monero/include/p2p/net_peerlist.h:263-274 | true if and only if the address is not a loopback one, and not a local one unless these are allowed |
| `PeerlistManagers.PeerlistManager.TrimWhitePeerlist` | monero/include/p2p/net_peerlist.h:217-224 | the loop leaves the newest 1000 |
| `PeerlistManagers.PeerlistManager.TrimGrayPeerlist` | monero/include/p2p/net_peerlist.h:208-215 | the loop leaves the newest 5000 |
| `PeerlistManagers.PeerlistManager.AppendWithPeerWhite` | monero/include/p2p/net_peerlist.h:336-364 | the tables afterwards are those of the theorems; a refused address changes nothing; an allowed one is not gray afterwards, and is stored if and only if it was white, or there was room for 1000, or it is not older than the oldest of the newest 1000 |
| `PeerlistManagers.PeerlistManager.AppendWithPeerGray` | monero/include/p2p/net_peerlist.h:366-394 | likewise for gray; a refused address changes nothing |
| `PeerlistManagers.PeerlistManager.MergePeerlist` | monero/include/p2p/net_peerlist.h:227-237 | the loop of gray appends and the last trim together are the merge of the theorems |
| `PeerlistManagers.PeerlistManager.SetPeerJustSeen` | monero/include/p2p/net_peerlist.h:322-334 | an allowed address is not gray afterwards, and the peer is white with the given time under the same condition; a refused one changes nothing |
| `PeerlistManagers.PeerlistManager.GetWhitePeerByIndex` | monero/include/p2p/net_peerlist.h:239-249 | gives element i of the full white listing, and fails exactly beyond its end |
| `PeerlistManagers.PeerlistManager.GetGrayPeerByIndex` | monero/include/p2p/net_peerlist.h:251-261 | gives element i of the full gray listing, and fails exactly beyond its end |
| `PeerlistManagers.PeerlistManager.GetPeerlistHead` | monero/include/p2p/net_peerlist.h:276-292 | appends the newest `min(depth + 2, M)` of the M white entries with a known time, and all of them for the largest depth, which the wrapping counter never exceeds |
| `PeerlistManagers.PeerlistManager.GetPeerlistFull` | monero/include/p2p/net_peerlist.h:294-311 | appends both tables, newest first |
| `PeerlistManagers.PeersIndexedFromOld` | monero/include/p2p/net_peerlist.h:193-206 | the loop is the union of `FromOldIsUnion` |
| `Varint.WriteVarint` | monero/include/common/varint.h:66-79 | appends the base-128 digits of the value, lowest first, through the masks and shifts of the source |
| `Varint.GetVarintData` | monero/include/common/varint.h:83-89 | gives the encoding on its own |
| `Varint.ReadVarint` | monero/include/common/varint.h:92-119 | returns the code, value and rest of the stream that the reading function gives, for every width up to the size of the variable, a `bool` of one digit included; no shift is by the size of the variable or more, and no bit is shifted out |
| `Varint.ReadOfEncoding` | monero/include/common/varint.h:68-118 | every value in range reads back from its encoding with its exact length, whatever follows |
| `Varint.CompleteIsEncoding` | monero/include/common/varint.h:68-118 | a complete read has consumed exactly the encoding of its result, which is in range |
| `Varint.CompleteIsVisible` | monero/include/common/varint.h:97-118 | a read is complete exactly if the returned count is positive and the last byte consumed has its top bit clear |
| `Varint.ReadBound` | monero/include/common/varint.h:93-119 | a read takes at most max(1, ceil(bits / 7)) bytes and leaves a value below 2^bits |
| `Varint.EncodeDigits` | monero/include/common/varint.h:68-79 | byte i of an encoding is base-128 digit i of the value, lowest first, with the top bit set in all bytes but the last, which is not zero unless the value is |
| `Varint.CommentExamples` | monero/include/common/varint.h:38-50 | the two byte strings of the header comment read as 0x100 and 0x17f, not as the values it names |
| `IntUtil.HiDword` | monero/include/common/int-util.h:63-65 | is the quotient by 2^32 |
| `IntUtil.LoDword` | monero/include/common/int-util.h:67-69 | is the remainder by 2^32 |
| `IntUtil.StepsAreExact` | monero/include/common/int-util.h:85-91 | the two carries repair exactly what the middle and low sums lose |
| `IntUtil.MiddleAndLowSumsWrap` | monero/include/common/int-util.h:85-90 | both of these sums do wrap |
| `IntUtil.DivWithReminder` | monero/include/common/int-util.h:97-101 | one digit of long division: divisor * quotient + new remainder is the old remainder followed by the digit |
| `IntUtil.DivideProduct` | monero/include/common/int-util.h:71-119 | dividing a 128-bit product by its 32-bit factor gives the other factor and remainder 0 |
| `IntUtil.RolBit` | monero/include/common/int-util.h:53-59 | rotation by any count moves the bit from place i - r, counted around the word, to place i |
| `IntUtil.RolRoundTrip` | monero/include/common/int-util.h:53-59 | rotating by the negated count undoes a rotation |
| `IntUtil.Swap64ReversesBytes` | monero/include/common/int-util.h:145-149 | `swap64` reverses the eight bytes |
| `IntUtil.Swap64Twice` | monero/include/common/int-util.h:145-149 | `swap64` undoes itself |
| `IntUtil.Swap32ReversesBytes` | monero/include/common/int-util.h:141-144 | `swap32` reverses the four bytes and undoes itself |
| `IntUtil.MaskLiterals` | monero/include/common/int-util.h:141-148 | the mask literals are the alternating lanes that the bit proof is about |
| `IntUtil.ByteAtIs` | monero/include/crypto/skein_port.h:189 | byte k of a word is its digit k in base 256 |
| `IntUtil.MemInplaceSwap64` | monero/include/common/int-util.h:166-171 | swaps the first n words in place and leaves the others |
| `IntUtil.MemInplaceSwap32` | monero/include/common/int-util.h:160-165 | the same for 32-bit words |
| `IntUtil.MemcpySwap64` | monero/include/common/int-util.h:186-191 | fills the destination with the swapped words, even if it is the source, and leaves the rest |
| `IntUtil.MemcpySwap32` | monero/include/common/int-util.h:180-185 | the same for 32-bit words |
| `IntUtil.Swapped64Twice` | monero/include/common/int-util.h:166-171 | swapping a buffer twice gives it back |
| `Skein.Put64LsbFirst` | monero/include/crypto/skein_port.h:183-190 | writes the bytes of the words, least significant first, for any byte count |
| `Skein.Get64LsbFirst` | monero/include/crypto/skein_port.h:198-212 | reads whole words from such bytes |
| `Skein.SumIsLsbFirst` | monero/include/crypto/skein_port.h:204-211 | the sum of eight shifted bytes is their value in base 256 |
| `Skein.LeastSignificantFirst` | monero/include/crypto/skein_port.h:183-212 | one word and its eight bytes as literals, the least significant first |
| `Amounts.NoWrap` | monero/include/cryptonote_core/cryptonote_format_utils.h:222-228 | while digits are left, `order`, chunk and dust + chunk are exact |
| `Amounts.OrderWrapsAfterTwentyDigits` | monero/include/cryptonote_core/cryptonote_format_utils.h:224 | `order` does wrap after the twentieth digit of the largest amount |
| `Amounts.AtMostTwentyCalls` | monero/include/cryptonote_core/cryptonote_format_utils.h:220-247 | there are never more than twenty handler calls |
| `Amounts.CommentExample` | monero/include/cryptonote_core/cryptonote_format_utils.h:208 | the decomposition in the comment, for every threshold that makes its dust |
| `Mnemonics.ContinuationTest` | monero/include/mnemonics/language_base.h:62 | the mask test of the source holds exactly of the bytes 0x80 to 0xbf |
| `Mnemonics.Utf8Prefix` | monero/include/mnemonics/language_base.h:55-66 | the nested loops give the first `count` characters of the text before its first NUL |
| `Mnemonics.PrefixEndsCharacter` | monero/include/mnemonics/language_base.h:55-66 | the result is a prefix and is cut only where a character ends |
| `Mnemonics.PrefixOfWellFormed` | monero/include/mnemonics/language_base.h:48-54 | on well-formed UTF-8 the result is the first `count` characters, or all |
| `Mnemonics.CharactersJoin` | monero/include/mnemonics/language_base.h:57-65 | the characters divide the text before its first NUL without loss |
| `Mnemonics.TrimmedKeyIsPrefix` | monero/include/mnemonics/language_base.h:91-98 | the branch on the length in bytes files a word under its prefix if and only if the word is longer or has no NUL; words that are not longer are filed whole |
| `Mnemonics.Language.constructor` | monero/include/mnemonics/language_base.h:102-108 | an empty list, empty maps and a prefix length of 4 |
| `Mnemonics.Language.PopulateMaps` | monero/include/mnemonics/language_base.h:84-100 | each map leads from each key to the last index that produces it and keeps what it held under other keys |
| `Mnemonics.OwnIndexIff` | monero/include/mnemonics/language_base.h:84-100 | every word is found at its own index if and only if the keys are pairwise different |
| `Mnemonics.LaterWordWins` | monero/include/mnemonics/language_base.h:84-100 | a key leads to a place that produces it, with none behind that produces it too |
| `Archives.SetRoundTrip` | monero/include/common/unordered_containers_boost_serialization.h:99-122 | a set loads as itself |
| `Archives.SetLawful` | monero/include/common/unordered_containers_boost_serialization.h:99-122 | a set archived as a value obeys the law asked of every value, so containers nest |
| `Archives.LawsCanBeMet` | monero/include/common/varint.h:66-119 | the laws asked of an archive are met by one that writes sizes as varints, throws if `read_varint` reports an error or no complete value, and writes keys as their 32 bytes; this is not the binary archive, which goes on |
| `Archives.PairLawful` | monero/include/common/unordered_containers_boost_serialization.h:48-49 | so does a key followed by its value |
| `Archives.ReadSaved` | monero/include/common/unordered_containers_boost_serialization.h:41-67 | the reading loop gets the saved items one by one and stops behind the last |
| `Archives.FirstWinsIs` | monero/include/common/unordered_containers_boost_serialization.h:65 | of pairs with the same key the first one stays |
| `Archives.ImageLayout` | monero/include/common/unordered_containers_boost_serialization.h:42-51 | the image is the size and then, for each entry in the order of the visit, its key and its value |
| `Archives.NoSizeNoItems` | monero/include/common/unordered_containers_boost_serialization.h:56-58 | a size that cannot be read leaves the container empty and the loading incomplete |
| `Archives.StopsAtFailure` | monero/include/common/unordered_containers_boost_serialization.h:59-66 | an archive that gives out behind some of the items leaves the loading incomplete with exactly these items |
| `Archives.PairFails` | monero/include/common/unordered_containers_boost_serialization.h:63-64 | an entry fails where its key fails, or its value behind the key |
| `Archives.VisitSize` | monero/include/common/unordered_containers_boost_serialization.h:44-45 | the size written in front is the number of entries visited |
| `Archives.UnorderedMap.Save` | monero/include/common/unordered_containers_boost_serialization.h:42-51 | writes the size and every entry once, in some order |
| `Archives.UnorderedMap.Load` | monero/include/common/unordered_containers_boost_serialization.h:54-67 | whatever the archive holds: clears, then holds what was read before the end or the exception |
| `Archives.UnorderedMultimap.Save` | monero/include/common/unordered_containers_boost_serialization.h:71-80 | writes the size and every pair as often as it is held |
| `Archives.UnorderedMultimap.Load` | monero/include/common/unordered_containers_boost_serialization.h:83-96 | clears, then holds all pairs that were read |
| `Archives.UnorderedSet.Save` | monero/include/common/unordered_containers_boost_serialization.h:100-108 | writes the size and every value once |
| `Archives.UnorderedSet.Load` | monero/include/common/unordered_containers_boost_serialization.h:111-122 | clears, then holds all values that were read |
| `BinaryArchives.SizeRoundTrip` | monero/include/serialization/binary_archive.h:145-150 | a size below 2^64 reads back from its varint, whatever follows |
| `BinaryArchives.SizeIsCanonical` | monero/include/serialization/binary_archive.h:145-150 | a size is written as it was read if and only if `read_varint` reported no error, which the archive does not look at |
| `BinaryArchives.StringRoundTrip` | monero/include/serialization/string.h:36-61 | a string reads back, whatever follows; the check of the remaining bytes never rejects it |
| `BinaryArchives.StringIsCanonical` | monero/include/serialization/string.h:36-61 | a string that loads is written as it was read if and only if its size was read without an error |
| `BinaryArchives.StringLayout` | monero/include/serialization/string.h:54-61 | a string is stored as its size, one byte below 128, and its bytes |
| `BinaryArchives.StringNeedsBytes` | monero/include/serialization/string.h:36-51 | a string loads if and only if as many bytes are left as its size says, however that was read, and it is these bytes |
| `BinaryArchives.InStream.SerializeUvarint` | monero/include/serialization/binary_archive.h:145-150 | reads a varint and discards the returned count |
| `BinaryArchives.InStream.SerializeBlob` | monero/include/serialization/binary_archive.h:134-137 | takes exactly so many bytes, or fails |
| `BinaryArchives.InStream.SerializeString` | monero/include/serialization/string.h:36-51 | reads a size and that many bytes, or fails |
| `BinaryArchives.OutStream.SerializeUvarint` | monero/include/serialization/binary_archive.h:209-214 | appends the encoding of the value |
| `BinaryArchives.OutStream.SerializeString` | monero/include/serialization/string.h:55-61 | appends size and bytes |
| `TxExtra.TxExtraPadding.Load` | monero/include/cryptonote_core/tx_extra.h:52-75 | the loop with the field as its counter: result, size and rest of the stream on every stream |
| `TxExtra.TxExtraPadding.Store` | monero/include/cryptonote_core/tx_extra.h:77-92 | writes size - 1 zeros, or refuses above 255 |
| `TxExtra.LoadsIff` | monero/include/cryptonote_core/tx_extra.h:52-75 | padding loads if and only if the stream holds only zeros, fewer than 255; otherwise the size left behind tells where it stopped |
| `TxExtra.ReloadsIff` | monero/include/cryptonote_core/tx_extra.h:52-92 | a size comes back as itself if and only if it is from 1 to 255 |
| `TxExtra.LoadedIsStored` | monero/include/cryptonote_core/tx_extra.h:52-92 | padding that loads is what storing its size writes |
| `TxExtra.PaddingIsLast` | monero/include/cryptonote_core/tx_extra.h:52-75 | followed by anything, padding loads only if all of that is zeros, and then takes it in |
| `TxExtra.StoreField` | monero/include/serialization/variant.h:136-151 | writes the tag and the field, for each of the five alternatives |
| `TxExtra.LoadField` | monero/include/serialization/variant.h:66-121 | finds the alternative by its tag and loads it, or fails; at the end of the stream, where the tag variable is not set, it succeeds exactly if the variable happens to hold the padding tag |
| `TxExtra.LoadMergeMiningTag` | monero/include/cryptonote_core/tx_extra.h:133-145 | loads from a stream of its own, which has to end behind the root |
| `TxExtra.LoadedFieldIsCanonical` | monero/include/cryptonote_core/tx_extra.h:48-182 | the same for one field |
| `TxExtra.FieldLayout` | monero/include/cryptonote_core/tx_extra.h:34-182 | the bytes of each alternative: tag 0x00, 0x01, 0x02, 0x03 or 0xDE and the parts, and the refusals above 255 |
| `TxExtra.FirstByteIsTag` | monero/include/cryptonote_core/tx_extra.h:178-182 | the first stored byte is the tag of the alternative |
| `TxExtra.LoadsByTag` | monero/include/serialization/variant.h:66-121 | the first byte fixes the alternative that loads, with the exact condition of each, and any other first byte fails |
| `TxExtra.SloppySize` | monero/include/serialization/binary_archive.h:149 | bytes with a size not in minimal form that load as a field stored differently |
| `TxExtra.FindTxExtraFieldByType` | monero/include/cryptonote_core/cryptonote_format_utils.h:95-104 | finds a field of the given alternative with exactly `index` such fields in front of it, or fails if and only if there are not so many |

## Left out

- TaskRegionObjects.State.MarkCompleted: its body is not in the header, nor are those of `create_state`, `abort`, `wait` and `do_wait`; the model takes their comments as what they do, and its notification of waiting threads is not modelled.
- TaskRegion.Numbering: for runs with waits it relies on `do_wait`, whose body is not in the header, leaving `st` and `next_id` as they are; `RunMany`, which has no waits, does not.
- TaskRegion.WaitJoins: given for a task whose own wrapper is invoked at most once; a second copy admits a run without the join (`TaskRegion.LaterCopyReleasesWait`, `TaskRegion.SecondCopyReleasesWait`).
- TaskRegion.DestructorJoins: given for a task whose own wrapper is invoked at most once; a second copy admits a run without the join (`TaskRegion.LaterCopyReleasesDestructor`, `TaskRegion.SecondCopyReleasesDestructor`).
- PeerTables.MergeKeepsNewest: given for lists in which no address goes back in time. The exact condition for holding the newest all along is that of `PeerTables.NewestThroughoutIff`; a list can meet it although a time goes back, and `PeerTables.GoingBackLosesNewer` is a family that does not. For the end alone it is sufficient but not necessary, because later entries can push out what was wrongly kept.
- PeerlistManagers.PeerlistManager.IsIpAllowed: loopback and local addresses are two given sets, because `local_ip.h` is not part of this model.
- PeerlistManagers.PeersIndexed.ReplaceEntry: among entries of the same time the container may choose the place of one whose time changes; the model allows every choice.
- TxExtra.FieldsRoundTrip: reads field after field until the stream ends; the body of `parse_tx_extra` is not in the headers.
- Mnemonics.Language.PopulateMaps: for lists of fewer than 2^31 words, the range of the source's `int` counter.
- Waiting and joining as methods: blocking, the mutex and the condition variable appear only as enabled or disabled steps of the protocol; `wait(thread_group&)`, which runs tasks while waiting, is a worker's steps interleaved with the wait.
- The queue of `thread_group`: dispatch adds to a collection from which any worker may invoke any wrapper at any time.
- A wrapper that has been moved from: its state pointer is null and invoking it does nothing.
- Exceptions thrown by task bodies, which end the process, and by user-supplied handlers.
- `set_peer_unreachable`, whose body is not shown, and loading peer tables of the current archive version, which can install tables over the limits.
- Locks and the `TRY_ENTRY` macros of the peer list; the clock is a parameter of `SetPeerJustSeen`.
- How the Boost archive writes single keys, values and sizes: any way that reads back what it wrote will do (`Archives.Lawful`).
- The binary archive's vectors, lists and pairs, and the JSON and debug archives; the error bits of a stream after a failed load.
- Lengths of streams and lists beyond memory; the position of an archive after an exception.
- Rotation by `INT_MIN`, whose negation overflows in the source; the model negates as integers do.
- Variants of the headers for other compilers and byte orders, and the `SWAP32` macro.
- The word lists of the languages and their getters; the proofs are about every list.
- Blockchain, pool, miner, network and protocol classes, which are only declared in these headers.
- The Swift user interface, key chain and user defaults; cryptography, base58, DNS, HTTP, RPC and logging.
