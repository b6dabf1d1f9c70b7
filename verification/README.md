# lfm: a verified model of its core

A Dafny model of the hard parts of the terminal file manager lfm, with proofs of what they promise. One file per
source component; each algorithm that updates a structure in place is a method over arrays, nodes or fields, proved
against a plain specification, and the specification is what the theorems are about.

| file | models |
|---|---|
| HashMap.dfy | the Robin Hood hash map (`hmap.h`): probing, displacing insert, backward-shift erase, rehash |
| AATree.dfy | the array-backed AA-tree map (`smap.h`): trees, their array representation, the map with its free list and iterators |
| Fuzzy.dfy | the fuzzy matcher (`fuzzy.c`): alignments and their scores, both dynamic programs, the backtrace |
| DirLoad.dfy, ResultQueue.dfy | loading directories on worker threads (`async/dir_load.c`, `async/async.c`, the counts of `dir.c`) |
| Loader.dfy | throttled reloading (`loader.c`) |
| DList.dfy, Indexed.dfy, History.dfy | the circular list (`dlist.h`), the list with an index (`pathlist.c`), the history and its file (`history.c`) |
| Path.dfy, NatCmp.dfy | path cleaning (`path.c`), natural ordering (`strnatcmp.c`, `sort.c`) |
| Trie.dfy, Input.dfy | the key trie (`trie.c`) and the key dispatch over two of them (`input.c`) |
| Sha256.dfy, Sha256Constants.dfy, Sha256Example.dfy | streaming SHA-256 (`sha256.c`) against FIPS 180-4: its functions, constants and example |
| Hooks.dfy, Visual.dfy | deferred hook changes (`hooks.c`), the visual selection (`visual.c`, `selection.c`) |

A data structure's snapshot (a sequence of slots, a map of trie nodes, the list of nodes around a circle) is a plain
value; predicates tie it to the array or the objects, and lemmas about the value carry the argument. Threads are
interleaved steps of a transition system, and clocks, directory contents and hash functions are parameters.

## Where the code does less than it says

Each of these names the input or the exact condition in a lemma; the last is a contract.

- `DirLoad.FaultReachable`, `DirLoad.FaultExactly`: after handing its work item to the main thread a worker reads
  the item once more. `src/async/dir_load.c:297-303` copies the directory for that very reason but not the cookie.
- `LoaderSpec.RunningExactly`, `LoaderSpec.OneTickStrands`: `schedule` computes the delay of a timer from a second
  clock read (`src/loader.c:94`). If that read has already come to the scheduled time, the timer gets a zero delay
  and never starts, or one beyond the end of the clock; further requests are then taken for duplicates, and until
  `loader_reschedule` the loader starts no load of that directory (`LoaderSpec.StuckUntilRescheduled`; loads that
  other code starts past the loader, such as `src/fm.c:236`, still happen). With any options one tick of the clock
  between the two reads is enough, and with `inotify_delay` set to 0, which the option accepts, not even that is
  needed (`LoaderSpec.DelayMustBePositive`). A request is served exactly as long as timers are set in time
  (`LoaderSpec.RequestsAreServed`).
- `Fuzzy.TraceIsBestExactly`, `Fuzzy.TraceMissesBest`: the comment at `src/fuzzy.c:291` promises the positions of
  an optimal match; a forced match is tested against the wrong matrix, and the traced alignment is worse exactly
  if it takes a column at which that test loses the gain of a consecutive match. It never does for needles of one
  or two characters, nor if no inner character of the needle is in two places (`Fuzzy.TraceIsBest`).
- `Fuzzy.AlignmentImpliesMatch`: a capital letter in the needle matches only itself in `fzy_has_match`, but either
  case in the scoring.
- `HistoryFile.LoadsBack`: an entry with a newline, or a prefix with a tab, does not survive the history file.
- `VisualSpec.RangeExactly`: a move from the first file to itself, before the anchor, would run past the list. No
  caller makes one: all of them (`src/lua/dir.c:28`, `src/lua/fmlib.c:77-115`) call only after the cursor has moved.
- `Sha256.UpdateEnds`: the loop index of `sha256_update` is narrower than its length.
- `Sort.TieBreakExact`, `Sort.TieBreakCycle`: the inode tie-break has the right sign exactly if the difference fits a
  signed 64 bit number; further apart, files can compare in a circle.
- `HooksSpec.RepliesExactly`, `HooksSpec.RemovedTwice`: within callbacks a reference can be removed twice, as the
  comment at `src/hooks.c:71` admits; the second removal is reported as one again.
- `History.History.AppendOrMove`: the comment above `append_or_move` says it returns true for a new entry; it does
  not, so `num_new_entries` does not count them. The contract follows the code.

## Model

| member | source | states |
|---|---|---|
| BucketRing.Climb | third-party/STC/include/stc/hmap.h:381-391 | Walking forward around the ring from one bucket to another, `dist` climbs by at most the distance walked |
| BucketRing.EarlyStopIsSound | third-party/STC/include/stc/hmap.h:381 | Every bucket on the way from a stored key's home to the key has a `dist` at least as large as the probe's, so stopping at the first smaller one misses nothing |
| BucketRing.EmptyBucket | third-party/STC/include/stc/hmap.h:116-125 | A table with fewer entries than buckets has an empty bucket, so every probe ends |
| BucketRing.ProbeStops | third-party/STC/include/stc/hmap.h:381-392 | When the probe meets an entry closer to home than itself, the key is not in the map |
| BucketRing.CarrySwap | third-party/STC/include/stc/hmap.h:411-419 | Swapping the carried entry with a richer one keeps the probe distances, the placement of every other entry and the set of keys |
| BucketRing.CarryEnds | third-party/STC/include/stc/hmap.h:414-422 | Putting the carried entry into the first empty bucket restores the ring with only the new bucket's entry still to be written |
| BucketRing.OpenHole | third-party/STC/include/stc/hmap.h:491 | Dropping an entry leaves a ring with one hole that indexes exactly the other keys |
| BucketRing.ShiftBack | third-party/STC/include/stc/hmap.h:496-499 | Moving the next bucket's entry back into the hole keeps distances, placement and keys |
| BucketRing.CloseHole | third-party/STC/include/stc/hmap.h:494-501 | Emptying the hole before an empty or at-home bucket leaves a proper ring |
| BucketRing.NextPow2 | third-party/STC/include/stc/hmap.h:456 | The bucket count is the least power of two that is at least the request |
| BucketRing.GrowthLeavesRoom | third-party/STC/include/stc/hmap.h:118-120 | At the load limit the growth request asks for a strictly larger table, and either way an insertion leaves an empty bucket |
| HashMap.HMap.BucketLookup | third-party/STC/include/stc/hmap.h:375-393 | Finds exactly the keys of the map, or the place where the key must go |
| HashMap.HMap.BucketInsert | third-party/STC/include/stc/hmap.h:395-425 | Makes room for a new key by displacing richer entries; an existing key's bucket is returned unchanged |
| HashMap.HMap.Reserve | third-party/STC/include/stc/hmap.h:452-482 | Rehashing changes the bucket count as asked and no entry; too small a request does nothing |
| HashMap.HMap.Rehash | third-party/STC/include/stc/hmap.h:472-476 | The loop over the old buckets moves every entry into the new table |
| HashMap.HMap.GrowAtLimit | third-party/STC/include/stc/hmap.h:118-120 | Below four fifths of the buckets the table stays; from there on it becomes larger, with the least power of two of buckets for half as many entries more, and always leaves an empty bucket |
| HashMap.HMap.InsertEntry | third-party/STC/include/stc/hmap.h:116-125 | Grows exactly at the load limit, then finds or makes the bucket; the size counts exactly the entries |
| HashMap.HMap.InsertOrAssign | third-party/STC/include/stc/hmap.h:346-357 | The map becomes the old one with the key set to the value, whether or not it was there |
| HashMap.HMap.Get | third-party/STC/include/stc/hmap.h:259-262 | Returns exactly the stored value, on an empty table too |
| HashMap.HMap.EraseEntry | third-party/STC/include/stc/hmap.h:484-503 | Removes exactly the key of the bucket |
| HashMap.HMap.ShiftDown | third-party/STC/include/stc/hmap.h:492-501 | The backward-shift loop ends with a proper ring without a hole |
| HashMap.HMap.Erase | third-party/STC/include/stc/hmap.h:268-274 | Removes the key if it is there and says so; the table keeps its size |
| HashMap.HMap.Clear | third-party/STC/include/stc/hmap.h:340-344 | Empties the map and keeps the buffers |
| HashMap.HMap.Seek | third-party/STC/include/stc/hmap.h:239-242 | The unguarded scan of the iterator stops at the next occupied bucket or at the end mark |
| HashMap.HMap.Entries | third-party/STC/include/stc/hmap.h:239-242 | Iteration yields every entry exactly once |
| HashMap.Replay | third-party/STC/include/stc/hmap.h:452-503 | Any run of inserts, assignments, erases, lookups, clears and reserves on a new table, under any hash function, is answered as by a finite map |
| AAShape.InsertKeeps | third-party/STC/include/stc/smap.h:441-449 | Insertion keeps all level rules, and the tree grows by at most one level |
| AAShape.FixSettles | third-party/STC/include/stc/smap.h:488-497 | After an erase below, the rebalancing restores all level rules and the tree sinks by at most one level |
| AAShape.FixNeverSplitsNull | third-party/STC/include/stc/smap.h:490-496 | Every link that the rebalancing follows leads to a node, so neither split is given the null node |
| AAShape.EraseKeeps | third-party/STC/include/stc/smap.h:461-499 | Erasing keeps all level rules, also when the predecessor moves up and is erased a second time |
| AAShape.InsertContent | third-party/STC/include/stc/smap.h:420-450 | Inserting adds exactly the one entry, in key order, in the one new slot |
| AAShape.EraseContent | third-party/STC/include/stc/smap.h:461-499 | Erasing removes exactly the entry of the key and frees exactly one slot: its own or its predecessor's |
| AAShape.EraseMissing | third-party/STC/include/stc/smap.h:464-465 | Erasing a key that is not there changes nothing |
| AAShape.LevelBound | third-party/STC/include/stc/smap.h:421-422 | A tree whose root is at level k has at least 2^k - 1 nodes |
| AAShape.DepthBound | third-party/STC/include/stc/smap.h:425-432 | No path is longer than twice the root's level |
| AAShape.StacksFit | third-party/STC/include/stc/smap.h:422 | With 32 bit slot numbers the descent fits `up[64]` and a stack with one node per level fits `_st[36]` |
| AANodes.SkewAt | third-party/STC/include/stc/smap.h:397-406 | The array rotation represents the skewed tree and touches no slot outside it |
| AANodes.SplitAt | third-party/STC/include/stc/smap.h:408-418 | Likewise for split, which is never called on the null node |
| AANodes.LowerAt | third-party/STC/include/stc/smap.h:490-491 | Lowering the levels of a node and its right child in the array |
| AANodes.RebuildAt | third-party/STC/include/stc/smap.h:492-496 | The three skews and two splits on the array represent the rebalanced tree |
| AANodes.FixAt | third-party/STC/include/stc/smap.h:488-498 | The end of the erase step on the array, with its guard |
| AATree.PopFree | third-party/STC/include/stc/smap.h:325-327 | Taking the first disposed slot gives a slot no node uses, leaves the rest of the disposal list intact under any content written to it, and tree and list still share out 1..head |
| AATree.PushFree | third-party/STC/include/stc/smap.h:481-485 | Disposing of a node's slot moves exactly that slot from the tree's share of 1..head to the front of the disposal list |
| AATree.SMap.Reserve | third-party/STC/include/stc/smap.h:290-302 | A larger buffer with the same slots |
| AATree.SMap.NewNode | third-party/STC/include/stc/smap.h:322-337 | The new slot comes from the disposal list or is the next unused one, and tree, new slot and list still share out 1..head |
| AATree.SMap.InsertKey | third-party/STC/include/stc/smap.h:420-459 | The map gains exactly the new key, an existing key keeps its value; size, order, levels and the partition of the slots are kept |
| AATree.SMap.SearchDown | third-party/STC/include/stc/smap.h:425-432 | The path that fills `up` never outgrows it and ends where the key belongs |
| AATree.SMap.LinkAndClimb | third-party/STC/include/stc/smap.h:440-449 | Linking the leaf and rebalancing upwards represents the tree with the key inserted |
| AATree.SMap.FindMax | third-party/STC/include/stc/smap.h:474-476 | The right spine of the left child ends at its greatest key |
| AATree.SMap.EraseR | third-party/STC/include/stc/smap.h:461-499 | The recursive erase represents the tree without the key and puts the freed slot on the disposal list |
| AATree.SMap.EraseKey | third-party/STC/include/stc/smap.h:501-510 | The map loses exactly the key, and the count says whether it was there; all invariants are kept |
| AATree.SMap.Traverse | third-party/STC/include/stc/smap.h:279-288 | Iteration visits every entry once, in ascending key order |
| AATree.SMap.LowerBound | third-party/STC/include/stc/smap.h:385-395 | The iterator stands at the first key that is not smaller, and what it still yields is exactly the entries from there on |
| AATree.Iter.Next | third-party/STC/include/stc/smap.h:264-277 | One step yields the next entry of the ones pending on the stack, which never outgrows `_st[36]` |
| AATree.Iter.FindIt | third-party/STC/include/stc/smap.h:368-383 | Finds the key exactly if it is there, and leaves the greater keys pending in order |
| FuzzySpec.BonusMarksWords | src/fuzzy.c:59-89 | Exactly where each bonus of the two tables is given: for a letter or digit behind a separator of its kind, for a capital behind a small letter, and nowhere else; never as much as a consecutive match gains |
| FuzzySpec.ScoreAmounts | src/fuzzy.c:32-39 | What a score is made of, in thousandths: 5 off for every character before the first and behind the last, 10 off for every one skipped, 1000 for a consecutive match, else the bonus |
| FuzzySpec.ScoredAlignment | src/fuzzy.c:32-39 | The score of one alignment with every kind of gap and bonus |
| FuzzySpec.BestIsUnique | src/fuzzy.c:217-238 | There is one best score, and it is minus infinity exactly if no alignment exists |
| FuzzySpec.DBounds | src/fuzzy.c:217-220 | `D` bounds the score of every alignment that ends in the column |
| FuzzySpec.DAttained | src/fuzzy.c:217-220 | and is the score of one of them |
| FuzzySpec.MBounds | src/fuzzy.c:217-220 | `M` bounds the score of every alignment that ends no later than the column |
| FuzzySpec.MAttained | src/fuzzy.c:217-220 | and is the score of one of them |
| FuzzySpec.LastEntryIsBest | src/fuzzy.c:238 | The last matrix entry is the best total over all strictly increasing case-folded embeddings |
| Fuzzy.HasMatch | src/fuzzy.c:91-106 | The greedy search succeeds exactly if there is an embedding in the sense of `strcasechr` |
| Fuzzy.MatchImpliesAlignment | src/fuzzy.c:209-214 | A positive answer means an alignment exists, and for equal lengths the strings agree up to case, as the comment assumes |
| Fuzzy.AlignmentImpliesMatch | src/fuzzy.c:91-94 | The converse holds for every haystack exactly if the needle has no capital letter |
| Fuzzy.CapitalMissed | src/fuzzy.c:91-94 | The witness: a needle with a capital aligns with its own lower-cased text but is not matched by it |
| Fuzzy.PrecomputeBonus | src/fuzzy.c:127-136 | Fills in the word bonus of every position |
| Fuzzy.MatchRow | src/fuzzy.c:158-190 | One row of both matrices from the row before |
| Fuzzy.FzyMatch | src/fuzzy.c:192-239 | With two swapped rows: the best total over all alignments, minus infinity if there is none; infinity exactly for strings of the same length up to 1024; minus infinity for an empty needle, and for a haystack shorter than the needle or longer than 1024 |
| Fuzzy.FzyMatchPositions | src/fuzzy.c:241-315 | The same score, infinities included; the positions are an alignment, namely the traced one, score no more than the result, and score as much exactly if the trace loses nothing |
| Fuzzy.BuildRows | src/fuzzy.c:281-289 | All rows of both matrices |
| Fuzzy.FindColumn | src/fuzzy.c:295-313 | The inner loop of the backtrace cannot run out of columns while an alignment is to be found |
| Fuzzy.Backtrace | src/fuzzy.c:291-316 | Fills every slot, with strictly increasing positions of matching characters |
| Fuzzy.TraceIsBestExactly | src/fuzzy.c:291-313 | The positions are an optimal match, as the comment promises, if and only if the backtrace takes no column where a forced match gains from its predecessor but neither of the two is best in its row |
| Fuzzy.TraceIsBest | src/fuzzy.c:291-313 | So they are optimal for needles of one or two characters, and whenever every character of the needle but the first and last is at one place of the haystack only |
| Fuzzy.TraceMissesBest | src/fuzzy.c:304-311 | And not always: for `abc` in `abxabc` the trace loses, and the positions score 1.870 against 1.985 |
| DirLoad.StepKeeps | src/async/dir_load.c:212-340 | Every step of every thread keeps the invariant (references counted, cookies increasing, results in order) and finds what it uses alive |
| DirLoad.RunsAreSafe | src/async/dir_load.c:244-340 | In every interleaving each directory has exactly the references owed, is alive whenever a step uses it, and a batch that passes the cookie check mentions only current files |
| DirLoad.AppliedExactly | src/async/dir_load.c:220-234 | In every interleaving an update is applied if and only if no later load of its directory has been started by the time it is processed; then the directory has its files, else it keeps its own |
| DirLoad.AllReleased | src/async/dir_load.c:193-195 | When all loads have finished and all results are processed, a directory has exactly the references of its other holders |
| DirLoad.ResultAlive | src/async/dir_load.c:48-54 | The directory of whatever result is processed next is alive, although only updates and last batches hold a reference |
| DirLoad.CurrentBatchOwned | src/async/dir_load.c:67-81 | Every file of a batch whose cookie is current belongs to the directory's present files |
| DirLoad.StartCounted | src/async/dir_load.c:319-326 | Starting a load takes exactly the references that its update and its last batch or early exit will release |
| DirLoad.TouchKeeps | src/async/dir_load.c:266-276 | The early exit releases the extra reference while the directory is alive |
| DirLoad.SendKeeps | src/async/dir_load.c:138-145 | Submitting a batch keeps the order of results: after the update, the last batch last |
| DirLoad.DrainUpdateKeeps | src/async/dir_load.c:220-242 | Applying, discarding and destroying an update keeps the invariant, also if the next load starts in between |
| DirLoad.DrainBatchKeeps | src/async/dir_load.c:48-54 | Destroying a batch releases a reference exactly for the last one |
| DirLoad.FaultExactly | src/async/dir_load.c:297-303 | A worker returns to a destroyed work item exactly if its update has already left the queue when it reads the item again |
| DirLoad.FaultReachable | src/async/dir_load.c:297-303 | A run in which that happens: the cookie is read after the item was submitted, drained and destroyed |
| ResultQueue.Queue.Put | src/async/async.c:68-79 | Appends the result at the tail |
| ResultQueue.Queue.Get | src/async/async.c:81-92 | Takes the first result, unlinked, and null exactly if the queue is empty |
| LoaderSpec.StepKeeps | src/loader.c:58-156 | Every event keeps: scheduled exactly if in the timers map, never scheduled and in progress at once, a pending request only while in progress, and everything a full gap behind the last start |
| LoaderSpec.RunInv | src/loader.c:58-156 | So in every run |
| LoaderSpec.StartsApart | src/loader.c:132-138 | Loads that the loader starts for one directory are at least `inotify_timeout` apart |
| LoaderSpec.RequestsAreOwed | src/loader.c:123-147 | No request is discarded: after each one a reload is scheduled, or requested behind a load in flight, at most one gap later, whether or not its timer runs |
| LoaderSpec.OwedUntilStarted | src/loader.c:98-121 | and this stays recorded until a load starts |
| LoaderSpec.RequestedFor | src/loader.c:123-147 | For when: a request is recorded for the earliest time that is `inotify_delay` away from now and `inotify_timeout` and `inotify_delay` away from the last one; where one is recorded already nothing changes |
| LoaderSpec.RescheduledFor | src/loader.c:149-156 | Rescheduling sets every timer for that long from now |
| LoaderSpec.RunningExactly | src/loader.c:79-156 | In every run, under any options and however far the two clock reads of a handler lie apart: a scheduled reload has a timer that runs up to its time if and only if each timer was set before the clock had come to that time, or `loader_reschedule` has set it anew; else the directory is stranded |
| LoaderSpec.AlwaysRunningExactly | src/loader.c:79-156 | Timers run at every point of a run if and only if each was set in time |
| LoaderSpec.RequestsCome | src/loader.c:123-147 | A request leaves a running timer due within a gap, or waits within a gap for a load in flight, if and only if timers were set in time; else the directory is stranded |
| LoaderSpec.RequestsAreServed | src/loader.c:98-156 | In every run, after a request a load has started, or one is still coming within a gap of the request or of the last rescheduling if and only if timers were set in time |
| LoaderSpec.ServedInTime | src/loader.c:98-156 | Then, past that gap, with no timer overdue and no load out, a load has started since the request |
| LoaderSpec.NothingComes | src/loader.c:67-74 | Without a delay the first request past the timeout leaves a reload scheduled and nothing coming, whatever the time allowed |
| LoaderSpec.OneTickStrands | src/loader.c:90-96 | Under any options, also with a positive delay, there is a run in which no two reads of a handler are more than a millisecond apart and which ends with the directory stranded |
| LoaderSpec.ReloadArms | src/loader.c:79-96 | The timer of a scheduled reload runs exactly if the second clock read still lies before the scheduled time; with one instant, it fails to start exactly for a zero delay past the timeout |
| LoaderSpec.CallbackArms | src/loader.c:109-121 | Likewise for a request that waited for a load to finish |
| LoaderSpec.DelayMustBePositive | src/loader.c:67-74 | When both reads of every handler agree, timers are always set in time exactly if `inotify_delay` is not zero, although the option accepts zero |
| LoaderSpec.StuckUntilRescheduled | src/loader.c:123-125 | A stranded directory stays stranded, and the loader starts no load of it, before `loader_reschedule` |
| Loader.LoaderCtx.ScheduleLoad | src/loader.c:76-96 | The assertion on the timers map never fires; one loadable moves and no other |
| Loader.LoaderCtx.LoadTimerCb | src/loader.c:98-107 | The timer step, and its entry leaves the map |
| Loader.LoaderCtx.LoaderCallback | src/loader.c:109-121 | The step when an update has been applied |
| Loader.LoaderCtx.LoaderReload | src/loader.c:123-147 | The step of a reload request, recorded for the earliest admissible time |
| Loader.LoaderCtx.LoaderDirReload | src/loader.c:176-181 | The same for a directory of the cache |
| Loader.LoaderCtx.LoaderReschedule | src/loader.c:149-156 | Every scheduled loadable is moved to the new time and no other changes |
| DList.List.PushBackNode | third-party/STC/include/stc/dlist.h:275-280 | Links a node in at the end of the circle |
| DList.List.PushBack | third-party/STC/include/stc/dlist.h:260-265 | The same with a new node |
| DList.List.UnlinkAfterNode | third-party/STC/include/stc/dlist.h:327-337 | Takes exactly the next node out of the circle, at either end and when it is the only one |
| DList.List.UnlinkNode | third-party/STC/include/stc/dlist.h:118-119 | The same by the node itself |
| DList.List.Drop | third-party/STC/include/stc/dlist.h:254-258 | Erases everything |
| DList.List.Count | third-party/STC/include/stc/dlist.h:175-181 | The walk around the circle counts the nodes |
| DList.List.Following | third-party/STC/include/stc/dlist.h:199-203 | Iteration reaches the nodes in order and ends after the last |
| PathList.PathList.Add | src/pathlist.c:41-49 | Appends a path exactly if it was not listed; list and map agree |
| PathList.PathList.Remove | src/pathlist.c:51-58 | Removes the path and keeps the order of the others |
| PathList.PathList.Contains | src/pathlist.c:37-39 | The map answers for the list |
| PathList.PathList.Clear | src/pathlist.c:32-35 | Empties list and map |
| PathList.PathList.ListedOnce | src/pathlist.c:41-49 | No path is listed twice |
| HistorySpec.KeepsLast | src/history.c:60-83 | However lines are appended, the history is their sequence with every earlier repetition dropped |
| HistorySpec.KeepsFirstPrefix | src/history.c:64-79 | Each entry carries the prefix its line first came with, and the flag of its last append |
| HistorySpec.AfterAnyAppends | src/history.c:249-258 | After any appends to an empty history: each line once and where it came last, with its first prefix |
| History.History.AppendOrMove | src/history.c:60-83 | The list and map operations move or append exactly the one entry |
| History.WasOldExactly | src/history.c:60-83 | It returns true exactly for a line that is there and not new |
| History.History.HistoryAppend | src/history.c:249-258 | Likewise, ignoring empty prefixes and lines |
| History.History.ListedOnce | src/history.c:133 | No line is listed twice |
| History.History.Size | src/history.c:290-292 | The map has as many entries as the list, as the assertion says |
| History.History.HistoryLoad | src/history.c:110-131 | The loop over the lines of a file leaves exactly the parsed, deduplicated entries, none of them new |
| History.History.Merge | src/history.c:200-204 | The disk content with the new entries of this history appended |
| History.History.WriteLines | src/history.c:206-213 | The skip counter writes exactly the last `histsize` entries, all if there are fewer, none if it is not positive |
| History.History.HistoryWrite | src/history.c:173-213 | The file holds the last entries of the merge |
| HistoryFile.Loaded | src/history.c:110-131 | A loaded history has no repetitions and only entries that the format can express |
| HistoryFile.ParsedExactly | src/history.c:114-125 | A line is an entry exactly if it has a tab with text before the first one and behind it; others are skipped |
| HistoryFile.MergeExactly | src/history.c:200-204 | Only new entries are taken over: without any the merge is what is on disk, an entry marked new is a new line of memory, every other is on disk, and every usable new line is there |
| HistoryFile.MergeOrder | src/history.c:200-204 | New lines come in the order of memory |
| HistoryFile.LastOfExactly | src/history.c:206-213 | What is written is the end of the merge, of at most `histsize` entries |
| HistoryFile.LoadsBack | src/history.c:153-171 | A history without repetitions loads back unchanged exactly if no prefix holds a tab or newline, no line a newline, and none is empty |
| HistoryFile.SavedLoads | src/history.c:200-213 | What is saved has the length asked for, each line once and where it came last, and loads back unchanged exactly if the new entries in it can be expressed |
| PathClean.PushAllProper | src/path.c:84-88 | The component stack never holds an empty component, `.` or `..` |
| PathClean.ComponentsOfJoin | src/path.c:109-111 | Splitting a rendered stack gives the stack back |
| PathClean.NormalizeIdempotent | src/path.c:84-88 | Cleaning a clean path changes nothing |
| PathClean.FurtherComponent | src/path.c:84-88 | One component at a time: a further slash or `.` changes nothing, a name goes to the end, and `..` takes the name before it away or stays at the root |
| PathClean.Cancels | src/path.c:84-88 | A name and the `..` behind it cancel out anywhere in a path |
| PathClean.Back | src/path.c:102-107 | The backward scan removes exactly the last component |
| PathClean.CleanStep | src/path.c:93-113 | Each round keeps the output before the write index, the unread input behind the read index, and the write index no further than the read index |
| PathClean.Clean | src/path.c:89-125 | In place: the result is the rendered component stack, no longer than the input |
| NatOrder.CompareLaws | src/strnatcmp.c:98-148 | The order of token lists is antisymmetric, and 0 exactly on equal lists |
| NatOrder.CompareTransitive | src/strnatcmp.c:98-148 | and transitive |
| NatOrder.EqualRunStep | src/strnatcmp.c:115-126 | Two equal runs of digits may be compared character by character, as the loop goes on to do |
| NatMeaning.RightIsNumeric | src/strnatcmp.c:52-77 | Runs of digits without a leading zero compare by their decimal value |
| NatMeaning.LexIsFraction | src/strnatcmp.c:79-96 | Comparing digit by digit is comparing as decimal fractions, equal fractions by length |
| NatMeaning.NumbersDecide | src/strnatcmp.c:98-148 | Names that agree up to a number compare by its value, so `f9` comes before `f10` |
| NatMeaning.FractionsDecide | src/strnatcmp.c:115-126 | With a leading zero in either they compare as decimal fractions |
| NatMeaning.CharactersDecide | src/strnatcmp.c:128-143 | Names that agree up to two other characters compare by these, upper-cased if folding |
| NatMeaning.EndDecides | src/strnatcmp.c:128-143 | A name comes before any that goes on where it ends, except with a character with the high bit set |
| NatMeaning.SpacesAreDropped | src/strnatcmp.c:108-113 | A space anywhere only separates runs of digits |
| NatMeaning.NumberExamples | src/strnatcmp.c:98-148 | `f9` before `f10`, `f01` before `f1` |
| NatCmp.CompareRight | src/strnatcmp.c:52-77 | The longer run wins, for equal lengths the first difference |
| NatCmp.CompareLeft | src/strnatcmp.c:79-96 | The first difference wins, and a longer run beats its prefix |
| NatCmp.StrNatCmp | src/strnatcmp.c:98-157 | The sign of the comparison of the token lists: spaces dropped, runs of digits as single tokens, other bytes as signed characters, upper-cased if folding |
| Sort.CompareNatural | src/sort.c:33-40 | The natural order, and for equal names the sign of the difference of the inode numbers if they are less than 2^63 apart |
| Sort.TieBreakExact | src/sort.c:39 | The tie-break has the right sign exactly if the difference fits a signed 64 bit number |
| Sort.NaturalOrderLaws | src/sort.c:33-40 | For inodes less than 2^63 apart, such as all below 2^63, it is antisymmetric and transitive, and 0 only for the same inode and tokens |
| Sort.TieBreakCycle | src/sort.c:39 | Further apart three files can compare in a circle |
| TrieSpec.WalkUnique | src/trie.c:21-34 | Only one key sequence leads to a node |
| TrieSpec.SetRefMeans | src/trie.c:55-56 | Replacing the reference of a node changes the mapping of its key sequence and no other |
| TrieSpec.AddKidMeans | src/trie.c:46-50 | Linking in an empty node changes no mapping |
| TrieSpec.DropKidMeans | src/trie.c:78-82 | Unlinking a node without reference and children changes no mapping |
| TrieSpec.NodeIffMapped | src/trie.c:78-82 | In a pruned trie a key sequence leads to a node exactly if some mapping extends it |
| Trie.Trie.FindChild | src/trie.c:21-34 | The early stop among descending siblings finds the child, or the place where it belongs |
| Trie.Trie.AddChild | src/trie.c:45-50 | The new node is linked in at its place; siblings stay strictly descending |
| Trie.Trie.Insert | src/trie.c:40-58 | Returns the old reference and maps exactly the one key sequence anew; no node is left without mapping |
| Trie.Trie.Remove | src/trie.c:68-85 | Returns the reference and unmaps exactly the one key sequence; what becomes empty is unlinked |
| Trie.Trie.RemoveBelow | src/trie.c:68-85 | The recursion touches nothing beside or above its node |
| Trie.Trie.Collect | src/trie.c:100-110 | Exactly the mapped nodes, each once; when pruning, exactly those with no mapped proper prefix |
| InputSpec.ContinuesIff | src/input.c:189-213 | Some mapping extends the keys typed exactly if one of the two positions is left |
| InputSpec.ModeTakesPrecedence | src/input.c:194-209 | The mapping of the mode hides that of the base, which holds where the mode has none |
| InputSpec.CountTyped | src/input.c:134-144 | A count is read as the decimal value of its digits |
| InputSpec.CountExample | src/input.c:134-144 | `2`, `0`, `5` count to 205, and no digits to -1 |
| InputSpec.EscapeResets | src/input.c:244-250 | Escape starts over, whatever count and keys are pending, and only at rest does what escape does there |
| InputSpec.Fires | src/input.c:194-209 | Typing on up to the shortest mapping fires it and resets |
| InputSpec.Waits | src/input.c:215-222 | Typing on while some mapping extends the keys waits |
| InputSpec.Resets | src/input.c:211-213 | The first key after which no mapping extends what was typed resets |
| InputSpec.Dispatch | src/input.c:240-284 | From rest, after an optional count: exactly the shortest mapped prefix fires, the mode's mapping before the base's, with the value of the count or -1 |
| Input.Lookup | src/input.c:191-192 | One step down one of the tries |
| Input.InputCtx.InitSequence | src/input.c:111-119 | Both positions at the roots, the base unused if it is the same trie |
| Input.InputCtx.AccumulateDigit | src/input.c:134-144 | The count and the keys shown agree with the digits typed |
| Input.InputCtx.ProcessSequenceKey | src/input.c:189-223 | One key of a sequence, on both tries at once |
| Input.InputCtx.HandleNormalModeKey | src/input.c:240-284 | The code takes exactly the step of the dispatch for every key and state |
| Sha256Words.ChChooses | src/sha256.c:23 | Each bit of `CH` is that of `y` where `x` has a bit, else that of `z` |
| Sha256Words.MajIsMajority | src/sha256.c:24 | Each bit of `MAJ` is the majority of the three |
| Sha256Words.RotrRotates | src/sha256.c:21 | Bit `i` of a rotation by `n` is bit `i + n`, around the end of the word |
| Sha256Words.BigSigmaBits | src/sha256.c:25-26 | Each bit is the parity of three bits at the distances of FIPS 180-4, section 4.1.2 |
| Sha256Words.SmallSigmaBits | src/sha256.c:27-28 | Likewise, with the third bit shifted |
| Sha256Words.BigEndianValue | src/sha256.c:49-51 | The value of a word read from four bytes, the first the most significant |
| Sha256Words.WordByteValue | src/sha256.c:145-156 | The value of a word from its bytes, which read back as the word |
| Sha256Constants.PrimesAre | src/sha256.c:32-42 | The table behind the constants lists exactly the primes up to 311 |
| Sha256Constants.PrimesAscend | src/sha256.c:32-42 | in order |
| Sha256Constants.RoundConstantsAre | src/sha256.c:32-42 | Constant `t` holds the first 32 bits of the fraction of the cube root of prime `t` |
| Sha256Constants.InitialValueIs | src/sha256.c:87-98 | Word `t` of the initial value holds those of the square root |
| Sha256Spec.ScheduleAt | src/sha256.c:49-53 | Each word of the schedule: sixteen from the block, the others by the recurrence of section 6.2.2 |
| Sha256Spec.LengthValue | src/sha256.c:132-140 | The bytes of the length field are the bit count to the base 256 |
| Sha256Spec.PaddedLength | src/sha256.c:116-129 | The padded length is a multiple of the block size (FIPS 180-4, section 5.1.1) |
| Sha256Spec.ZerosLeast | src/sha256.c:116-129 | with as few zeros as possible |
| Sha256Spec.LengthWraps | src/sha256.c:132-140 | The length field is the bit count modulo 2^64 |
| Sha256Spec.OneMoreBlock | src/sha256.c:119-122 | A tail below 56 bytes ends in one block |
| Sha256Spec.TwoMoreBlocks | src/sha256.c:123-129 | A longer tail spills into a second one |
| Sha256.Ctx.Transform | src/sha256.c:46-85 | One block of the hash computation of section 6.2.2 |
| Sha256.Ctx.Expand | src/sha256.c:49-53 | The message schedule |
| Sha256.Ctx.Init | src/sha256.c:87-98 | The initial hash value, and nothing fed yet |
| Sha256.Ctx.Feed | src/sha256.c:104-110 | One byte: the state is the digest of all whole blocks, the buffer holds the rest |
| Sha256.Ctx.Update | src/sha256.c:100-112 | The chunk is appended to the message |
| Sha256.Ctx.Finish | src/sha256.c:114-141 | Padding, length and last blocks give the digest of the padded message |
| Sha256.Ctx.Final | src/sha256.c:114-157 | The 32 bytes are the hash of everything fed |
| Sha256.UpdateEnds | src/sha256.c:101-103 | The loop index, stepped as in `Update`, reaches the length exactly for lengths below 2^32, although the length is a wider type |
| Sha256.HashChunks | src/sha256.c:87-157 | Whatever the chunks, the result is the hash of the whole message |
| Sha256Example.HashOfAbc | src/sha256.c:46-157 | The hash of `abc` is that of the example of FIPS 180-4, followed word by word and round by round |
| HooksSpec.InvalidateErases | src/hooks.c:93-99 | Invalidating the first pending registration has the effect of erasing the reference at the end |
| HooksSpec.DeferredIsImmediate | src/hooks.c:104-124 | Applying the deferred changes gives what executing all operations at once would have given, order included, except for operations about reference 0 |
| HooksSpec.DeferredAsIfNow | src/hooks.c:104-124 | For the references that Lua hands out, which are never 0, applying the deferred changes gives exactly what executing the operations at once would have given, order included |
| HooksSpec.DeferredExactly | src/hooks.c:109-110 | For arbitrary references, where 0 is not yet registered: deferring is exact if and only if, for every hook, the operations remove reference 0 as often as they register it, a removal before any registration not counting |
| Hooks.Hooks.AddHook | src/hooks.c:58-69 | Registers at once, or leaves the vectors as they are inside callbacks; the id tells hook and reference exactly if the reference fits 20 bits |
| HooksSpec.RepliesExactly | src/hooks.c:71-102 | Inside callbacks a removal of a nonzero reference replies what it would reply at once, if and only if the reference was not registered before the callbacks and removed since |
| HooksSpec.RemovedTwice | src/hooks.c:71-102 | A reference removed twice within callbacks is reported as removed both times |
| Hooks.Hooks.RemoveHook | src/hooks.c:72-102 | Removes at once, or defers, or invalidates a pending registration; unknown ids do nothing; the reply is that of the specification |
| Hooks.Hooks.Leave | src/hooks.c:104-124 | The vectors change only when the last callback returns, and then to the outcome of all operations executed in order |
| VisualSpec.RangeExactly | src/visual.c:26-50 | The range stays within the positions, except exactly for a move that stays on the first file before the anchor |
| VisualSpec.RangeIsChange | src/visual.c:26-50 | An index is toggled exactly if it lies between the anchor and one of the two positions but not the other |
| VisualSpec.MoveKeeps | src/visual.c:51-58 | One move turns the files between anchor and old position into those between anchor and new position |
| VisualSpec.RouteIndependent | src/visual.c:23-60 | After any moves the selection is what was kept and the files between anchor and cursor |
| Visual.Fm.TogglePath | src/selection.c:13-24 | Toggles membership |
| Visual.Fm.UpdateSelection | src/visual.c:23-60 | The code does exactly one such move, and nothing outside visual mode |
| Visual.Fm.OnEnter | src/visual.c:62-81 | The file under the cursor is selected and everything selected is kept |
| Visual.Fm.OnExit | src/visual.c:83-91 | Leaves the selection as it is |

## Left out

- HashMap.HMap.BucketInsert: probe distances are unbounded numbers, not 10 bit fields, and positions are reduced by the remainder instead of the equal bit mask.
- BucketRing.GrowthLeavesRoom: the load factor is the rational 4/5, without the rounding of `float`.
- AATree.SMap.InsertKey: where the buffer is full and no slot is free, requires a slot count up to a third of the 32 bit range, beyond which the growth request overflows; failing allocations are not modelled.
- AATree.SMap.NewNode: the value is stored when the slot is taken rather than by the caller afterwards; nothing in between reads it.
- FuzzySpec.BonusMarksWords: characters and case folding are those of ASCII, and scores are exact thousandths.
- NatCmp.StrNatCmp: spaces and upper case are those of the C locale, which UTF-8 locales share byte by byte; other locales are not modelled.
- DirLoad.RunsAreSafe: cookies do not wrap around, a run ends where a worker touches a destroyed work item, and the shutdown flag only shortens a load; `dir_check` and inotify work, whose references are like those of other holders, and previews are not separate steps. The concurrent code is a transition system, not classes.
- LoaderSpec.StartsApart: assumes that timers do not fire before the time they were set for (libev counts from the time its loop iteration began), and says nothing about the loads that other code starts past the loader.
- LoaderSpec.StepKeeps: the clock does not go back and stays below 2^64, and the two options are constant during a run.
- Loader.LoaderCtx.LoaderReload: directories that a cache drop has disowned, and previews, some of which never report back, are outside the invariant.
- History.History.HistoryWrite: reading and replacing the file, its lock, and errors on the way are not modelled; neither are the history cursor and `num_new_entries`.
- HistoryFile.LoadsBack: texts contain no NUL byte.
- Input.InputCtx.HandleNormalModeKey: the count is an unbounded number, and the tries do not change while a sequence is pending; input modes, the two timers and the suggestion menu are not modelled.
- Trie.Trie.Insert: the display strings of a node are not modelled; a reference of 0, which the header excludes, would leave a node without mapping.
- Sha256.Ctx.Update: requires a chunk below 2^32 bytes, for which the loop ends.
- Visual.Fm.UpdateSelection: requires that the move does not stay on the first file before the anchor, where the range would run past the list; that the hook runs afterwards is not modelled.
- Erasing from the hash map while iterating over it, cloning maps and trees, and the splice and split operations of the list.
- `insert_or_assign`, `emplace_or_assign` and range erase of the tree: the first two are `InsertKey` followed by a store.
- Sorting of directories, filters, configuration, drawing, Lua bindings, processes, inotify and file-system calls.
