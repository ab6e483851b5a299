# Verified models of the BBS core

This project models the parts of the BBS that keep state over many operations, in the form the C code has
(classes whose methods update fields and arrays in place, loops with invariants), and proves that they refine
simple specifications: a reliable byte stream, a table of names, a set of read items, a map, a sorted record
file, a tree of JSON values. `dafny verify dfyconfig.toml` checks everything.

| part | files | what is proved |
|---|---|---|
| SSH channels (`libssh/channels.c`, `libssh/buffer.c`) | `SshBuffer`, `ChannelPeer`, `ChannelSystem`, `ChannelSafety`, `ChannelProgress`, `ChannelCalls`, `ChannelReads`, `Channel` | two peers and two FIFO links as a state machine: window conservation, no overrun, in-order delivery, end of stream, over every run, and exactly when a standstill is possible; the class methods do exactly these steps |
| User index (`lib/ucache.c`) | `UserNames`, `UserIndex`, `UserRename`, `UserCache` | the hash chains answer every search as the flat name table does, through load, insert and delete, and exactly when `setuserid` keeps them |
| Read marks (`lib/boardrc.c`) | `ReadMarks`, `MarkRecords`, `MarkCache`, `MarkRuns`, `BoardRc` | the bounded array is the 60 largest items marked; the write-back cache over the packed buffer always fits, answers as marks and saved marks of each board, and loses marks on a sync in exactly known cases |
| Posts (`lib/post.c`, `backend/post.c`) | `PostTables`, `PostConservation`, `PostStore`, `PostEffects`, `PostInvalidity`, `RecordRefresh`, `RecordRace`, `PostRecord` | no post is lost or doubled, user counters balance, what each command does to rows and counters, and, for any number of refreshers and exactly known commands, a zero invalidity counter means the record file is current |
| Record files (`lib/record.c`) | `Records`, `RecordFile` | in-place merge, delete and change |
| Hash table (`lib/hash.c`) | `HashChains`, `HashTable` | linked entries, recycling, expansion and iteration refine a map |
| Arena (`lib/pool.c`) | `Pool` | allocations are aligned, apart and inside their block, exactly for certain block sizes |
| JSON output (`fcgi/xml.c`) | `JsonReader`, `JsonText`, `JsonRoundTrip`, `JsonIllTyped`, `JsonTree`, `JsonPrinter` | what is printed reads back as what the fields of the tree say, and cannot be read exactly when the tree mixes named and anonymous items |
| Codecs | `Powers`, `Bignum`, `Base64`, `ParcelFormat`, `Parcels` | round trips and exact buffer bounds |
| Mines (`game/winmine.c`) | `MineField`, `WinmineGame` | the flood fill opens exactly what is reachable |

Specification functions and lemmas are on values; each class is tied to them by the `ensures` of its methods.

## What the code does not do

Where the code departs from its comments or from what a caller would expect, the model follows the code and a
lemma says exactly when the expectation holds.

- Two peers can come to a standstill while a read waits for bytes that have been accepted. A read of 2^31 bytes or
  more makes `grow_window` see a negative `int` (`ChannelSafety.StallAtTheSignBit`;
  `ChannelPeer.EnterReadMakesRoom` is the exact condition for one call). And `realloc_buffer` does not return once a
  buffer has to take more than 2^30 bytes, where bytes already read count until a read empties the buffer. One read of
  2^30 bytes can bring it there (`ChannelProgress.StallBelowTheSignBit`), and so can reads of one byte
  (`ChannelProgress.StallOfSmallReads`). No standstill is possible exactly if all reads are of 0 bytes, which empty the
  buffer, or reads stay below 2^31 bytes and streams within 2^30 (`ChannelProgress.LiveIff`).
- The comment of `brc_clear` promises that everything up to the item is marked, but for items below 59 the
  unsigned loop bound wraps and nothing happens (`ReadMarks.ClearReadsIff` says for every record when that is
  enough).
- An item read on a board whose record does not go down to item 1 can become unread again
  (`ReadMarks.MarkForgets` is the exact case); it cannot from the record a new board starts with
  (`ReadMarks.ReadStaysRead`).
- `brc_sync` merges the board in hand into the file it has just loaded, so marks on boards visited before it are
  dropped (`MarkRuns.SyncLosesTheBoardLeftBehind`). Over a run nothing is lost on a board exactly if at every sync
  it is in hand or untouched since the sync before (`MarkRuns.NothingLostIff`); this is said of runs in which no merge
  cuts the buffer.
- `setuserid` on a slot that already has a name, as on a rename (`src/userinfo.c:395`), leaves the slot in its old
  chain; the index is kept exactly for slots that had none (`UserRename.SetAgreesIff`).
- The filter that `build_post_filter` makes for the live tables never looks at the board, so a deletion can take a
  post of another board whose record file is not invalidated (`PostInvalidity.DeletionMissesABoard`). A deletion is
  announced exactly if all it takes is on the board named (`PostInvalidity.DeletionAnnouncedIff`), and a request is
  so for every table exactly if it can delete nothing (`PostInvalidity.LiveDeletionAnnouncedIff`); undeleting is
  reliable exactly for the filters of trash and junk (`PostInvalidity.UndeletionReliableIff`).
- The invalidity counter is read before the lock is taken. Refreshers that overlap can both subtract the count they
  read; the counter goes negative and a later change is lost (`RecordRace.TwoRefreshersLoseAChange`). A refresher may
  take the lock without any change being lost exactly if what it read is still counted or committed and about to be
  (`RecordRace.GuardIff`), and without the counter becoming negative exactly if it is still counted
  (`RecordRace.NegativeIff`). It is, for any number of refreshers, when no payment falls between reading and locking
  (`RecordRefresh.UncrossedIsCovered`).
- `winloop` asks `checkwin` before it looks at `gameover`, so a game with as many mines open as safe cells closed is
  won (`MineField.WinMeansAsManyMinesOpen`).
- `pool_create` accepts any block size above 24, but the unsigned comparison in `pool_alloc` and the missing check
  in `_pool_alloc_block` are right exactly for sizes that are multiples of 8 and have room for the largest small
  request (`Pool.SafeExactly`).
- Nothing keeps a tree from mixing named and anonymous items, and `print_as_json` then prints what is not JSON; without
  plain nodes, exactly then or when the root has a name (`JsonIllTyped.DocumentIff`).
- The decoder of base64 refuses the encoding of the empty sequence (`Base64.RoundTrip`).

## Model

| member | source | states |
|---|---|---|
| SshBuffer.Buffer.ReallocBuffer | libssh/buffer.c:102-119 | the new size is the smallest power of two that holds the request, and the contents stay |
| SshBuffer.Buffer.Reinit | libssh/buffer.c:126-138 | the queue is empty afterwards, and a buffer above 127 bytes shrinks to 128 |
| SshBuffer.Buffer.AddData | libssh/buffer.c:146-158 | the bytes are appended to the unread ones, also across growth |
| SshBuffer.Buffer.PassBytes | libssh/buffer.c:319-331 | eats exactly the bytes asked for from the front, or nothing when there are fewer |
| SshBuffer.Buffer.GetData | libssh/buffer.c:356-367 | returns exactly the first bytes and consumes them, or fails and consumes nothing |
| SshBuffer.Buffer.GetRest | libssh/buffer.c:288-290 | the unread bytes, in order |
| ChannelPeer.EnterReadMakesRoom | libssh/channels.c:263-295 | exactly when entering a read leaves buffer and window together large enough for all it asks for |
| ChannelPeer.WriteLoopSendsInOrder | libssh/channels.c:916-957 | whatever packets arrive while a write runs, what it sent followed by what is left is its argument, it sends no more than the windows granted, and it stops early only without window and without packets |
| ChannelSafety.StepKeeps | libssh/channels.c:263-476 | every step of either side keeps windows, streams, endings and room of both directions |
| ChannelSafety.RunKeeps | libssh/channels.c:263-476 | so does every run |
| ChannelSafety.WindowConservation | libssh/channels.c:263-348 | in every reachable state a writer's window plus data and adjustments in flight is its reader's window, which is at most twice the larger of 128000 and the largest read |
| ChannelSafety.NeverTooBig | libssh/channels.c:387-406 | no packet in flight exceeds its receiver's window, so the branch for an overrun is never taken |
| ChannelSafety.WaitingHasWindow | libssh/channels.c:1782-1811 | whenever a read waits, its peer has window or something is in flight |
| ChannelSafety.StallAtTheSignBit | libssh/channels.c:263-295 | a run with a read of 2^31 bytes that ends where no step of any side changes anything |
| ChannelProgress.MovesEnd | libssh/channels.c:916-957 | in whatever order write loops send and packets are parsed, that comes to an end |
| ChannelProgress.AlwaysFits | libssh/buffer.c:102-119 | with reads that empty the buffer, or streams of at most 2^30 bytes, a buffer can take every packet that comes |
| ChannelProgress.FitsIff | libssh/buffer.c:102-119 | and exactly then, for every bound on the size of reads and the length of streams |
| ChannelProgress.WithinIsLive | libssh/channels.c:1782-1811 | then, with reads below 2^31 bytes, where nothing can be sent or parsed any more a read waits only if it has all its peer has accepted and the peer has not ended the stream |
| ChannelProgress.LiveIff | libssh/channels.c:1782-1811 | and exactly then |
| ChannelProgress.HungForever | libssh/buffer.c:102-119 | a read whose next packet its buffer cannot take waits for ever, in every continuation |
| ChannelProgress.StallBelowTheSignBit | libssh/buffer.c:102-119 | a run with a read of 2^30 bytes that ends where no step of any side changes anything |
| ChannelProgress.StallOfSmallReads | libssh/buffer.c:319-331 | a run with reads of at most one byte and a stream of 2^30 + 1 bytes that ends the same way while a read waits for bytes accepted |
| ChannelSafety.StreamDelivery | libssh/channels.c:885-966 | bytes accepted by writes are those returned, buffered, in flight and not yet sent, in that order |
| ChannelSafety.EndOfStream | libssh/channels.c:1889-1939 | a read reports the end only once every byte accepted has been returned, and nothing is accepted or returned afterwards in any continuation |
| ChannelCalls.WriteIsRun | libssh/channels.c:916-957 | the write loop as one call is a run of the state machine |
| ChannelCalls.WriteBeginsIff | libssh/channels.c:891-906 | a write begins exactly on a channel that has neither ended its stream nor been closed |
| ChannelCalls.EndAndClose | libssh/channels.c:803-883 | ending and closing as steps announce what the calls do |
| ChannelCalls.ReadIsRun | libssh/channels.c:1782-1841 | a read that finds its packets on the link is a run of the state machine |
| ChannelReads.Received | libssh/channels.c:351-476 | packets add their payload to the buffer and their increments to the window, and the end is known once one of them announces it |
| ChannelReads.StopsWaiting | libssh/channels.c:1782-1811 | a read takes packets only while the stream is open and there is too little, and goes without only if none is left |
| ChannelReads.HandsOut | libssh/channels.c:1812-1841 | it then hands out its count of bytes or all there is, leaves the rest, and refills a window below 64000 |
| ChannelReads.FewPackets | libssh/channels.c:916-957 | a write sends no empty packet and no more packets than it has waited for and one |
| ChannelReads.WriteBuffers | libssh/channels.c:916-957 | packets that arrive during a write are received as at any other time |
| Channel.SshChannel.GrowWindow | libssh/channels.c:263-295 | announces an increment and raises the window by it, in 32-bit arithmetic: the size if it is above 128000 and positive as an `int`, else 128000 |
| Channel.SshChannel.RcvData | libssh/channels.c:351-415 | appends the payload and takes it from the window, down to 0 |
| Channel.SshChannel.RcvClose | libssh/channels.c:439-476 | the remote end of file; the channel closes at once, or later while bytes are still buffered |
| Channel.SshChannel.Handle | libssh/channels.c:580-610 | each message type changes the peer as its handler does |
| Channel.SshChannel.DoSendEof | libssh/channels.c:803-830 | sends one end of file and remembers it |
| Channel.SshChannel.DoClose | libssh/channels.c:846-883 | sends end of file first if it was not sent, then close |
| Channel.SshChannel.Write | libssh/channels.c:885-966 | refused after a local end of file or close; otherwise sends the data in order up to what is left, in packets no more than the packets waited for and one, stops only without window and without packets, and keeps what arrives for the next read |
| Channel.SshChannel.ReadBuffer | libssh/channels.c:1753-1841 | returns exactly `count` bytes, or what there is at the end of the stream, or everything for 0, from the front of what was buffered and has arrived; waits no longer than needed, fails exactly for lack of packets, and leaves the rest buffered |
| Channel.SshChannel.Read | libssh/channels.c:1863-1939 | the same for reads that return at least one byte and at most `count`, fewer only if nothing stays buffered |
| Channel.SshChannel.IsEof | libssh/channels.c:1018-1027 | end of file only without buffered bytes |
| UserNames.UHashKey | lib/ucache.c:55-83 | the three parts number the bucket of the name; the first two are the letters of its first two characters |
| UserNames.BucketByCharacter | lib/ucache.c:55-83 | one more character adds its code as a capital to the third part, modulo 256, and changes no other |
| UserNames.SameNameMeans | lib/ucache.c:341 | names compare equal exactly if they have equal length and at each place the same character or the same letter in either case |
| UserNames.SameNameSameBucket | lib/ucache.c:55-83 | names equal up to case have the same bucket |
| UserNames.StoredNameComparison | lib/ucache.c:330-348 | comparing 13 characters compares whole names |
| UserIndex.LookupUnique | lib/ucache.c:330-348 | in a table of case-distinct names the slot that matches is the answer |
| UserIndex.LookupAfterInsert | lib/ucache.c:275-304 | a new name is found in its slot and no other answer changes |
| UserIndex.LookupAfterDelete | lib/ucache.c:114-150 | a deleted slot is found no more and no other answer changes |
| UserIndex.ChainsDisjoint | lib/ucache.c:87-111 | chains of different buckets share no slot |
| UserIndex.InsertKeeps | lib/ucache.c:275-304 | linking a slot at the end of its chain keeps heads, links both ways, buckets and completeness of all chains |
| UserIndex.DeleteKeeps | lib/ucache.c:114-150 | unlinking a slot and blanking its name keeps them too |
| UserIndex.NotInBucketNotFound | lib/ucache.c:330-348 | a name that no slot of its chain holds is nowhere in the table |
| UserCache.UCache.FillUcache | lib/ucache.c:87-111 | files the name of a slot at the end of its chain and reports whether there was one |
| UserCache.UCache.LoadUcache | lib/ucache.c:222-233 | after loading the index agrees with the password file |
| UserRename.SameWalk | lib/ucache.c:330-348 | a chain over links unchanged before a slot still reaches that slot |
| UserRename.RenamedDisagrees | src/userinfo.c:395 | after `setuserid` on a slot with a name, no chains agree with the arrays, in the same bucket or another |
| UserRename.SetAgreesIff | lib/ucache.c:275-304 | after `setuserid` with a name no other slot has, some chains agree with the arrays if and only if the slot was not filed |
| UserCache.UCache.SetUserId | lib/ucache.c:275-304 | stores the name; the index agrees if the slot was not filed, and nothing can agree with it if it was |
| UserCache.UCache.DelUidshm | lib/ucache.c:114-150 | blanks the slot exactly when it is filed under the name's bucket, with the index in agreement |
| UserCache.UCache.SearchUser | lib/ucache.c:330-348 | the slot whose name has the same letters in either case, or 0 exactly if no slot in use has such a name |
| UserCache.UCache.SearchNewUser | lib/ucache.c:306-318 | the first slot without a name, or 0 exactly when there is none |
| UserCache.UCache.CreateUser | lib/ucache.c:409-421 | fails exactly on a full table; otherwise the name is found afterwards and no other answer changes |
| ReadMarks.TopUnique | lib/boardrc.c:209-235 | only one array is the 60 largest of a set in descending order |
| ReadMarks.MarkIsTop | lib/boardrc.c:209-235 | marking an item gives the 60 largest of the set with it |
| ReadMarks.MarkAllIsTop | lib/boardrc.c:209-235 | so does every sequence of marks |
| ReadMarks.FreshIsTop | lib/boardrc.c:188-191 | the record of a new board stands for the set of item 1 |
| ReadMarks.UnreadMeans | lib/boardrc.c:242-254 | unread are exactly the items above the last entry that are not listed |
| ReadMarks.MarkForgets | lib/boardrc.c:209-235 | exactly when marking one item makes a read one unread |
| ReadMarks.ReadStaysRead | lib/boardrc.c:188-191 | from the record of a new board that never happens, over any sequence of marks |
| ReadMarks.MarkedIsRead | lib/boardrc.c:209-235 | a marked item is read |
| ReadMarks.ClearReadsAll | lib/boardrc.c:271-275 | clearing at 59 or above makes everything up to the item read |
| ReadMarks.ClearReadsIff | lib/boardrc.c:256-275 | on every record that goes back to that of a new board it does so exactly for 59 and above, or when nothing above the last entry is left |
| ReadMarks.ClearKeepsAbove | lib/boardrc.c:271-275 | nothing above the item changes |
| MarkRecords.WrittenIsRead | lib/boardrc.c:52-86 | a record put into the buffer is read back, with its extent |
| MarkRecords.LowByteFirst | lib/boardrc.c:84 | the bytes of an item, least significant first |
| MarkRecords.SameLaid | lib/boardrc.c:52-64 | records laid out in a buffer depend on their bytes only |
| MarkRecords.LaidAppend | lib/boardrc.c:72-86 | records put behind others follow them |
| MarkCache.MergedGood | lib/boardrc.c:119-140 | a merged buffer has one record a name and never exceeds 50000 bytes, cut or not |
| MarkCache.MergedFind | lib/boardrc.c:119-140 | after a merge a search finds the board in hand and, without a cut, every other board as before |
| MarkCache.MergeSurvivors | lib/boardrc.c:126-137 | of a buffer of more than 49739 bytes exactly the records that start below byte 49479 survive, of a smaller one all, except for the board in hand, which comes first |
| MarkCache.OthersAppend | lib/boardrc.c:129-137 | in their order |
| MarkCache.VisitKeeps | lib/boardrc.c:163-193 | visiting a board changes no board's marks except that a board without any starts with item 1 |
| MarkCache.MarkKeeps | lib/boardrc.c:209-235 | marking changes the board in hand and no other |
| MarkCache.SyncTakes | lib/boardrc.c:146-155 | a sync saves the board in hand and takes every other board's marks from the file |
| MarkRuns.RunAnswersAsTable | lib/boardrc.c:146-193 | over every run of visits, marks, clears and syncs without a cut each board has the marks and saved marks of a two-value table |
| MarkRuns.NothingLostIff | src/bbs.c:1251 | a run takes no mark from a board if and only if at every sync it is in hand or untouched since the one before |
| MarkRuns.NothingLostFromReset | src/bbs.c:1251 | the same from the start, for every board and file |
| MarkRuns.InTimeIsAsWithout | lib/boardrc.c:146-155 | a board synced in time has the marks it would have without any sync |
| MarkRuns.ThereAndBack | lib/boardrc.c:163-193 | leaving a board and coming back finds it as it was |
| MarkRuns.SyncLosesTheBoardLeftBehind | lib/boardrc.c:146-155 | a run whose sync drops the marks of the board visited before |
| BoardRc.Brc.MarkAsRead | lib/boardrc.c:209-235 | keeps the 60 largest items marked, says whether the item was unread, and sets the dirty flag exactly if the array changes |
| BoardRc.Brc.IsUnread | lib/boardrc.c:242-254 | true without marks; otherwise exactly for items above the last entry that are not listed |
| BoardRc.Brc.Clear | lib/boardrc.c:271-275 | marks the 60 items up to the one given, or none when the unsigned bound wraps |
| BoardRc.Brc.PutRecord | lib/boardrc.c:72-86 | the record's bytes are in place and no other byte changes |
| BoardRc.Brc.Merge | lib/boardrc.c:119-140 | the buffer holds the merged records and fits |
| BoardRc.Brc.Init | lib/boardrc.c:163-193 | the state and the count are those of the specified visit |
| BoardRc.Brc.DoSync | lib/boardrc.c:146-155 | the state is that of the specified sync; the file is the buffer, or untouched if nothing is dirty |
| Records.SortFacts | lib/record.c:346-379 | sorting orders and keeps the records |
| Records.MergeMembers | lib/record.c:346-379 | a merge has the records of both |
| Records.MergeSorted | lib/record.c:346-379 | a merge of sorted sequences is sorted |
| Records.MergeOldBeforeNew | lib/record.c:346-379 | of equal records the old come first, each run in its order |
| Records.SortedUnique | lib/record.c:346-379 | order and the sequences of equal records determine a sorted sequence |
| Records.KeptOrMatched | lib/record.c:222-253 | in delete mode every record is kept or counted |
| Records.KeptAppend | lib/record.c:239-247 | in delete mode the records kept are those of the parts in order |
| Records.KeptOne | lib/record.c:239-247 | a record stays as the callback leaves it, or goes if it matches |
| Records.ChangedAre | lib/record.c:239-247 | otherwise records up to the one the callback stops at are as it leaves them and the others as they were |
| Records.MatchedCount | lib/record.c:239-252 | in delete mode the result is the number of records that match |
| Records.MatchedBefore | lib/record.c:239-252 | otherwise of those before the one the callback stops at |
| RecordFile.File.RecordWrite | lib/record.c:161-167 | the records stand at the offset, the others stay, and the file grows as far as it must |
| RecordFile.File.RecordMerge | lib/record.c:346-379 | the file becomes the merge of old and sorted new records, in the memory of the old ones |
| RecordFile.File.MergeBack | lib/record.c:356-377 | the backward loop reads every old record before it is overwritten |
| RecordFile.File.CheckOffset | lib/record.c:200-210 | the offset is used only if no record has to be looked for or it is still before that record |
| RecordFile.File.RecordApply | lib/record.c:222-253 | an untouched prefix, then the records kept or changed, cut to exactly that length; the number affected |
| RecordRefresh.RunKeeps | lib/post.c:813-867 | every interleaving of commits, increments and any number of refreshers, in which whoever takes the lock finds what it read counted or committed and about to be, keeps the counter and the file in step |
| RecordRefresh.ZeroMeansCurrent | lib/post.c:850-867 | then, when the counter is zero and nothing is outstanding, the file is the table's posts in order |
| RecordRefresh.CoveredKeeps | lib/post.c:850-867 | when whoever takes the lock finds what it read counted, the counter is never negative either |
| RecordRefresh.UncrossedIsCovered | lib/post.c:854-857 | whoever takes the lock finds that when nothing is paid between a refresher's reading and its locking |
| RecordRefresh.UncrossedZeroMeansCurrent | lib/post.c:850-867 | so both hold of all such runs |
| RecordRace.PaidBalance | lib/post.c:854-861 | in every run the counter after a payment is what was announced since its reading less what others paid |
| RecordRace.CrossedIsShort | lib/post.c:854-861 | a payment of another refresher in between makes it short by that much |
| RecordRace.GuardIff | lib/post.c:854-857 | after a run as first above, taking the lock loses no change in any such continuation if and only if what was read is counted or about to be |
| RecordRace.NegativeIff | lib/post.c:854-857 | after a run with the stronger guard, taking the lock makes the counter negative in no such continuation if and only if what was read is counted |
| RecordRace.TakingTooLateLoses | lib/post.c:850-867 | a lock taken when too little is counted or about to be leads to counter zero, nobody at work and a file out of date |
| RecordRace.TwoRefreshersLoseAChange | lib/post.c:850-867 | a run of two refreshers from the start that does |
| RecordRace.CallIsRun | lib/post.c:850-867 | one uninterrupted call is a run of these steps: nothing to do, lock taken, or rebuilt and paid |
| PostRecord.OneWayToSort | lib/post.c:813-842 | posts with distinct ids have one sorted order |
| PostRecord.SortedPosts | lib/post.c:800-832 | the sorted records of a board are strictly ascending, one for each of its posts with its number and title |
| PostRecord.BoardFile.UpdateRecord | lib/post.c:813-842 | the file lists number and title of exactly the board's posts, in strictly ascending order of the numbers |
| PostRecord.BoardFile.PostUpdateRecord | lib/post.c:850-867 | rebuilds so exactly when forced or invalid and not locked, and pays back what it read, whatever is announced meanwhile |
| PostConservation.PostsConserved | backend/post.c:215-315 | after any run each id given out is in exactly one of the two tables, once, and no other id is in either |
| PostConservation.CountersConserved | backend/post.c:36-43 | after any run a counter is its start value plus counted inserts minus the deleted rows with a user id and the junk mark |
| PostConservation.AuthorsStayKnown | backend/post.c:119-132 | no command ever adjusts a counter that does not exist |
| PostConservation.UndeleteUndoesDelete | backend/post.c:274-315 | undeleting what a deletion moved restores rows and counters |
| PostEffects.FilterByOption | backend/post.c:151-166 | each flag, author and keyword of a filter leaves the rows that also have it |
| PostEffects.FilterByPlace | backend/post.c:178-184 | so does each bound on the number, and the thread, in lists that are not by threads |
| PostEffects.FilterByKind | backend/post.c:151-191 | what lists of topics, trash and junk show of a list of all posts |
| PostEffects.ThreadPages | backend/post.c:169-177 | two pages of a list by threads that meet have each post on exactly one of them, in the order of threads and numbers |
| PostEffects.DeletionTakes | backend/post.c:223-229 | a deletion takes what the filter selects, never a sticky post and a marked one only by force |
| PostEffects.DeletionMoves | backend/post.c:232-238 | each post taken is in the deleted table with the junk mark if the board named is no junk board and it is water or deleted as junk |
| PostEffects.DeletionLowers | backend/post.c:221-250 | a user's counter falls by the number of those that carry the user's id, and not at all for a junk board |
| PostEffects.UndeletionReturns | backend/post.c:299-308 | undeleting brings back what the filter selects, no longer sticky |
| PostEffects.UndeletionRaises | backend/post.c:276-289 | a user's counter rises by the number of those with the user's id and the junk mark |
| PostEffects.NewPostIs | backend/post.c:113-149 | a new post has the next id, its own thread or the one named, and the other columns of the request |
| PostEffects.NewPostRaises | backend/post.c:124-132 | it counts for its author exactly on a known board that is no junk board, with its author shown |
| PostInvalidity.LiveFilterIgnoresBoard | backend/post.c:151-191 | the filter of the live tables gives the same answer for every board |
| PostInvalidity.DeletionChanges | backend/post.c:215-258 | a deletion changes the posts of exactly the boards a row it takes is on |
| PostInvalidity.DeletionAnnouncedIff | backend/post.c:240-254 | every board that loses a post has its counter raised if and only if all rows taken are on the board named |
| PostInvalidity.LiveDeletionAnnouncedIff | backend/post.c:151-191 | that is so for every table if and only if the request can take no row |
| PostInvalidity.UndeletionAnnouncedIff | backend/post.c:295-315 | the same for undeleting |
| PostInvalidity.UndeletionReliableIff | backend/post.c:151-156 | that is so for every table if and only if the filter is for trash or junk of a board, or takes nothing |
| PostInvalidity.NewAnnouncedIff | backend/post.c:119-127 | a new post is announced if and only if its board has a positive number |
| PostInvalidity.CommandIsCommit | backend/post.c:113-315 | to the refreshers of a board a command is a commit yet to be announced exactly if it is not silent on that board |
| PostInvalidity.SilentMeansStale | backend/post.c:240-254 | after a silent command a file that was up to date is not |
| PostInvalidity.ZeroMeansBoardCurrent | lib/post.c:850-867 | over every interleaving of backends and refreshers without silent commands, a zero counter means that the board's file is its posts in the tables |
| PostInvalidity.ZeroMeansFileListsBoard | lib/post.c:813-867 | with tables in which each id is in one place, it then lists number and title of exactly the board's posts, in ascending order |
| PostInvalidity.DeletionMissesABoard | backend/post.c:240-254 | a deletion that is silent on a board |
| PostStore.Store.InvalidityChange | lib/post.c:753-759 | adds any amount, to boards with a positive id only |
| PostStore.Store.PostNew | backend/post.c:113-149 | a new row with the next id, and the counter and invalidity it causes |
| PostStore.Store.PostDelete | backend/post.c:215-258 | moves the rows the filter selects and adjusts each author's counter |
| PostStore.Store.PostUndelete | backend/post.c:274-315 | moves them back and adjusts the counters the other way |
| HashChains.AppendAdds | lib/hash.c:113-126 | linking an unused entry at the end of its chain adds its key and value to the map held |
| HashChains.PushAdds | lib/hash.c:76-81 | so does pushing one in front |
| HashChains.OverwriteChanges | lib/hash.c:143 | overwriting a value changes the map at that key only |
| HashChains.UnlinkRemoves | lib/hash.c:150-151 | unlinking an entry removes its key |
| HashChains.RemoveWhole | lib/hash.c:148-154 | unlinked and recycled, an entry is in no chain and the recycled list stays right |
| HashChains.MoveNext | lib/hash.c:75-81 | moving an entry keeps what old and new buckets hold together |
| HashChains.EntriesOnce | lib/hash.c:200-212 | going through the buckets in order meets every key exactly once with its value |
| HashChains.EntriesCount | lib/hash.c:200-212 | and meets as many entries as the map has |
| HashChains.MaskIsRemainder | lib/hash.c:104 | for sizes that are powers of two the bucket is the remainder of the hash |
| HashTable.Table.constructor | lib/hash.c:37-56 | an empty table, of 16 buckets by default |
| HashTable.Table.Search | lib/hash.c:100-111 | finds the entry of a key with the link that leads to it, or NULL exactly for keys not in the map |
| HashTable.Table.FindEntry | lib/hash.c:100-127 | the same, with a new entry for a missing key when there is a value |
| HashTable.Table.Get | lib/hash.c:167-173 | map lookup |
| HashTable.Table.Set | lib/hash.c:137-158 | map update, or removal for NULL; the count stays at most `max`, which grows only when the table is full |
| HashTable.Table.Expand | lib/hash.c:63-87 | twice the buckets and the same map |
| HashTable.Iterator.constructor | lib/hash.c:214-224 | all entries lie before a new iterator |
| HashTable.Iterator.Next | lib/hash.c:200-212 | yields the first entry that remains and leaves the others, or ends exactly when none remains |
| Pool.TakeGood | lib/pool.c:198-204 | memory taken from a block with room is aligned, inside it and apart from all handed out |
| Pool.SmallGood | lib/pool.c:193-207 | a small request keeps that for the whole pool |
| Pool.RunGood | lib/pool.c:109-210 | so does every run of small and large requests and clearings |
| Pool.WhereServed | lib/pool.c:193-210 | a small request takes memory from a block with room if there is one and only then, else from a new one; a large one gets its own |
| Pool.ClearFreesAll | lib/pool.c:109-122 | after clearing every block offers all of its memory again |
| Pool.SafeExactly | lib/pool.c:150-210 | no run leaves the blocks exactly if the block size is a multiple of 8 with room for the largest small request |
| Pool.DefaultIsRoomy | lib/pool.c:82-86 | the default of two pages is such a size |
| Pool.Arena.constructor | lib/pool.c:77-102 | the pool lies in its first block, behind the header |
| Pool.Arena.AllocBlock | lib/pool.c:150-165 | a new block after the head serves the request from its start |
| Pool.Arena.AllocLarge | lib/pool.c:173-185 | a list node from the pool and memory of its own |
| Pool.Arena.PoolAlloc | lib/pool.c:193-210 | the first block that passes the unsigned comparison serves the request; the pointer is the region recorded |
| Pool.Arena.PoolClear | lib/pool.c:109-122 | every mark is reset and the large list emptied |
| JsonRoundTrip.CharsAreRead | fcgi/xml.c:223-238 | an escaped string is read back character by character up to the closing quotation mark |
| JsonRoundTrip.ControlIsPrinted | fcgi/xml.c:231-232 | a control character is printed by its code in two small hexadecimal digits |
| JsonRoundTrip.PrintsAsIs | fcgi/xml.c:223-238 | a string is printed as it is exactly if it has no quotation mark, backslash or control character |
| JsonRoundTrip.NumberIsRead | fcgi/xml.c:272-277 | a printed number is read back |
| JsonRoundTrip.ScalarIsRead | fcgi/xml.c:271-287 | every attribute value is read back, a null string as null |
| JsonRoundTrip.ElementsAreRead | fcgi/xml.c:303-317 | the items of an array, with their commas, are read back in order |
| JsonRoundTrip.MembersAreRead | fcgi/xml.c:303-317 | the items of an object, with names and commas, are read back in order |
| JsonRoundTrip.ValueReads | fcgi/xml.c:290-318 | the text of a well-typed node is read as its value whatever follows it |
| JsonRoundTrip.DocumentIsRead | fcgi/xml.c:320-323 | the text of a document is a JSON text for the value of its tree |
| JsonIllTyped.NodeSettled | fcgi/xml.c:290-318 | without plain nodes, the text of a node is read as its value if the node is well typed and fails to be read, whatever follows, if it is not |
| JsonIllTyped.ElementsFail | fcgi/xml.c:303-317 | an array with a named item, or an item that cannot be read, cannot be read |
| JsonIllTyped.MembersFail | fcgi/xml.c:303-317 | nor can an object with an item that has no name, a null name or a value that cannot be read |
| JsonIllTyped.DocumentIff | fcgi/xml.c:320-323 | the text of a document without plain nodes is read if and only if arrays hold anonymous items, objects named ones and the root has no name |
| JsonTree.TreeFitsIff | fcgi/xml.c:290-318 | well typed are exactly the trees whose attributes and nodes have names in objects and none in arrays and plain nodes |
| JsonTree.DocumentSays | fcgi/xml.c:264-323 | what is read from the text of such a document is an object with each attribute and child under its own name, or an array, with their own values in order |
| JsonTree.SaysOne | fcgi/xml.c:264-323 | and nothing else is |
| JsonTree.DocumentFitsIff | fcgi/xml.c:320-323 | without plain nodes the text is read if and only if the tree is such and its root has no name |
| JsonPrinter.PrintedIsJoined | fcgi/xml.c:304-314 | a comma after every item but the last is a comma before every item but the first |
| JsonPrinter.Output.EscapeString | fcgi/xml.c:223-238 | prints the escaped string |
| JsonPrinter.Output.JsonString | fcgi/xml.c:246-262 | prints it quoted, or null |
| JsonPrinter.Output.PrintAttr | fcgi/xml.c:264-288 | prints the name, if there is one, with a colon, and the value |
| JsonPrinter.Output.PrintAsJson | fcgi/xml.c:290-318 | prints the text of the node |
| Bignum.DecimalIsCanonical | libssh/gcrypt_missing.c:28-42 | the decimal notation denotes its number and has no leading zero |
| Bignum.CanonicalIsDecimal | libssh/gcrypt_missing.c:28-42 | a digit string without leading zeros is the decimal notation of its number |
| Bignum.ReservedIsEnough | libssh/gcrypt_missing.c:51-53 | 2^b is at most 10 to the 3b/10 + 3b/1000 + 2, all divisions being integer |
| Bignum.DigitsFit | libssh/gcrypt_missing.c:51-93 | every number fits the digits reserved for its bits |
| Bignum.Dec2Bn | libssh/gcrypt_missing.c:28-42 | reads every character, and for digits gives the number they denote |
| Bignum.Bn2Dec | libssh/gcrypt_missing.c:44-96 | exactly the decimal notation, for every number |
| Bignum.RoundTrip | libssh/gcrypt_missing.c:28-96 | number to digits to number, and digits to number to digits, give back what was put in |
| Base64.RoundTrip | libssh/base64.c:59-167 | decoding an encoding gives back every sequence but the empty one, whose encoding is refused |
| Base64.EncodedLength | libssh/base64.c:264-285 | four characters for every three bytes begun; with the terminator they fit the memory allocated |
| Base64.EncodeIsLetters | libssh/base64.c:233-255 | an encoding is letters without `=` followed by the padding for its length |
| Base64.PaddingIsFound | libssh/base64.c:218-229 | counting and cutting at `=` separates letters and padding |
| Base64.QuadIsRead | libssh/base64.c:176-215 | the bits of one block come back |
| Base64.LettersInOrder | libssh/base64.c:32-34 | the letters stand for their numbers in order: capitals, small letters, digits and two signs |
| Base64.QuadIsNumber | libssh/base64.c:233-255 | the letters of a block, each worth 64 of the next, are the number its bytes are, each worth 256 of the next |
| Base64.EncodeBlock | libssh/base64.c:264-285 | the encoding is that of the blocks of three bytes in order |
| Base64.TripleIsNumber | libssh/base64.c:176-215 | the same for decoding, which ignores the bits beyond the last byte |
| Base64.DecodeIff | libssh/base64.c:59-167 | what is decoded: letters of the alphabet, at least one, that with at most two `=` are full blocks |
| Base64.BinToQuad | libssh/base64.c:233-255 | writes one block of four characters and nothing else |
| Base64.BinToBase64 | libssh/base64.c:264-285 | the encoding with a terminator, in the memory allocated |
| Base64.GetEquals | libssh/base64.c:218-229 | counts every `=` and overwrites each with NUL |
| Base64.Base64ToBin | libssh/base64.c:59-167 | accepts and returns what the decoding function does |
| ParcelFormat.VaruintIsRead | lib/parcel.c:134-149 | a number written 7 bits a byte is read back |
| ParcelFormat.VaruintBytes | lib/parcel.c:53-69 | byte `i` holds the `i`th 7 bits and says whether more follow |
| ParcelFormat.VaruintReads | lib/parcel.c:134-149 | whatever bytes are read, each gives the 7 bits of its place up to the first one below 128 |
| ParcelFormat.VaruintLength | lib/parcel.c:53-69 | it takes at most k bytes exactly if it is below 128 to the k |
| ParcelFormat.TenBytes | lib/parcel.c:55 | 10 bytes hold every 64-bit number, 5 every 32-bit one |
| ParcelFormat.ZigZagRoundTrip | lib/parcel.c:71-80 | signed numbers come back, and exactly those of the signed range have a code in the unsigned one |
| ParcelFormat.ZigZagOrder | lib/parcel.c:71-80 | numbers from 0 on have even codes, negative ones odd ones |
| ParcelFormat.LittleBytes | lib/parcel.c:108-116 | byte `i` of a number of fixed width holds its `i`th 8 bits |
| ParcelFormat.FixedLayout | lib/parcel.c:108-116 | a negative number is written as its two's complement |
| ParcelFormat.FieldLayout | lib/parcel.c:82-106 | where flag, length, bytes and NUL of a string are |
| ParcelFormat.FieldIsRead | lib/parcel.c:126-209 | a field of any type is read back by the reader of its type |
| ParcelFormat.AllAreRead | lib/parcel.c:126-209 | so is any sequence of fields, whatever follows |
| Parcels.Parcel.Write | lib/parcel.c:33-51 | appends the bytes, also across growth; after an error nothing is written |
| Parcels.Parcel.WriteVaruint64 | lib/parcel.c:53-69 | appends the number's bytes, built in a buffer of 10 |
| Parcels.Parcel.WriteVarint | lib/parcel.c:71-80 | appends a signed number |
| Parcels.Parcel.WriteString | lib/parcel.c:82-100 | appends flag, length, bytes and NUL |
| Parcels.Parcel.WriteInt | lib/parcel.c:108-116 | appends a number of fixed width |
| Parcels.Parcel.ReadUchar | lib/parcel.c:126-132 | the next byte; at the end of the buffer the byte behind it, and only after that an error |
| Parcels.Parcel.ReadVaruint64 | lib/parcel.c:134-149 | reads a 64-bit number as the format does |
| Parcels.Parcel.ReadVarint64 | lib/parcel.c:156-160 | reads a signed 64-bit number as the format does |
| Parcels.Parcel.ReadString | lib/parcel.c:162-174 | finds the string in the buffer; a string cut off is an error unless its end wraps around in `size_t` |
| Parcels.Parcel.ReadInt | lib/parcel.c:187-209 | reads a number of fixed width, or an error and 0 when it is cut off |
| MineField.DigNext | game/winmine.c:136-138 | one more neighbour dug keeps what is opened reachable and settled |
| MineField.DigAllAround | game/winmine.c:124-140 | with all neighbours dug exactly the reachable cells are open |
| MineField.DugMeans | game/winmine.c:124-140 | a dig opens nothing marked, open or outside, a mine or a cell beside one alone, and of any other cell all neighbours that are not marked |
| MineField.OpensNoOtherMine | game/winmine.c:124-140 | digging opens a mine only where it starts |
| MineField.FirstDigIsSafe | game/winmine.c:99-110 | with no mine around the first cell its dig opens no mine and all closed cells around it |
| MineField.DigWholeSquare | game/winmine.c:113-121 | digging a square opens exactly what some cell of it reaches |
| MineField.SquareMeans | game/winmine.c:118-120 | those are what some cell of it reaches |
| MineField.QuietMeans | game/winmine.c:81-88 | a cell spreads if none of its neighbours is a mine |
| MineField.WinMeansAsManyMinesOpen | game/winmine.c:255-263 | with 99 mines, 99 closed cells means that as many safe cells are closed as mines are open |
| MineField.WinMeansAllSafeOpen | game/winmine.c:255-263 | with none of them open it means that all safe cells are open |
| WinmineGame.Game.NumMineBeside | game/winmine.c:81-88 | the number of the eight neighbours that hold a mine |
| WinmineGame.Game.NumMarkBeside | game/winmine.c:90-97 | the number of them that are marked |
| WinmineGame.NearbyCounts | game/winmine.c:81-97 | the loops count each neighbour once |
| WinmineGame.Game.WinInit | game/winmine.c:99-110 | the mines are the cells drawn other than those around the first one, 99 of them if the draws suffice |
| WinmineGame.DrawnMeans | game/winmine.c:99-110 | a cell is among them exactly if some pair drawn gives it |
| WinmineGame.Game.Windig | game/winmine.c:124-140 | ends, opens exactly the closed unmarked cells reachable through safe cells without neighbouring mines, and ends the game exactly on a mine |
| WinmineGame.Game.Dblclick | game/winmine.c:113-121 | opens exactly what the square reaches when marks and mines around an open cell are as many, and otherwise nothing |
| WinmineGame.Game.Dig | game/winmine.c:265-270 | one or the other, by whether the cell is open |
| WinmineGame.Game.CheckWin | game/winmine.c:255-263 | won exactly if as many safe cells are closed as mines are open, so if no mine is open exactly if all safe cells are |
| WinmineGame.OneDigOpensMine | game/winmine.c:130-134 | a dig opens a mine exactly if it starts on a closed one |

## Left out

- Channels: the stderr stream (its writer leaves out the type code its reader skips), SSH-1, the maximum packet size, which the writer never looks at, and more than one channel a session. The network is two reliable FIFO links.
- Channel.SshChannel.Handle: does not model extended data and channel requests.
- Channel.SshChannel.ReadBuffer: does not model waiting; the packets that arrive during the call are a parameter, and a read that runs out of them returns an error.
- SshBuffer.Buffer.AddData: does not model more than 2^30 bytes in use, those already read included, because the doubling loop of `realloc_buffer` then does not end; ChannelProgress.FitsIff says when that can happen.
- ChannelProgress.LiveIff: says nothing of reads of 2^31 bytes and more on streams of at most 160000, where it depends on how the windows wrap around.
- UserNames.UHashKey: does not model names shorter than two characters or with letters outside ASCII, which index by bytes after the terminator or by negative characters.
- UserCache.UCache.SearchUser: the same, for names shorter than two characters.
- UserCache.UCache.DelUidshm: the same.
- UserCache.UCache.LoadUcache: takes the password file as a sequence of names that differ in more than case.
- UserCache.UCache.CreateUser: does not model the home directory, the database row and the password file it also writes.
- MarkRuns.RunAnswersAsTable: does not model runs in which a merge cuts the buffer, because what is cut is lost; MarkCache.MergedFind says what is found then.
- MarkRuns.NothingLostIff: the same.
- MarkCache.Consistent: takes the file as changed by this session alone; marks that another session of the same user saves are not modelled.
- BoardRc.Brc.Clear: does not model items from 2^31 - 1 to 2^31 + 58, for which the loop's `int` overflows, and 2^32 - 1, for which the loop does not end.
- BoardRc.Brc.Init: takes the .boardrc file as its bytes and expects well-formed records in it; locking and a file that cannot be read are left out.
- Records.SortFacts: `qsort` is taken as some sorting; that equal records keep their order is not promised by it and not used.
- `record_foreach` and `record_reverse_foreach` (lib/record.c:264-337): they can visit a record twice or miss the restart.
- PostStore.Store.PostNew: does not model an author without a counter, for whom `searchuser` gives 0 and slot -1 is written; columns that are only carried along, replies, mentions and content files are not in the rows.
- PostStore.Store.PostDelete: does not model rows whose author has been removed from the user cache in the meantime, for the same reason.
- PostStore.Store.PostUndelete: the same.
- PostConservation.AuthorsStayKnown: users are never removed in the model; after `del_uidshm` deleting an old post of the user writes slot -1.
- PostInvalidity.DeletionAnnouncedIff: filters of trash and junk, which name columns the live table does not have, are taken as their other conditions say.
- PostTables: the ILIKE match of a filter is a parameter; queries succeed.
- RecordFile.File.RecordApply: does not model callbacks that keep state of their own; what one does depends on the record and its place.
- RecordFile.File.RecordWrite: what a gap before the offset holds is not said.
- RecordRefresh.ZeroMeansCurrent: takes commits and queries as atomic and refreshers as never dying between their steps.
- RecordRace.CallIsRun: one call alone; calls that others interrupt are the runs of RecordRefresh.
- PostRecord.BoardFile.UpdateRecord: does not model the file of sticky posts and the board's post count.
- Bignum.Dec2Bn: says nothing of the number when a character below '0' is read, because such characters are added as huge unsigned words.
- Bignum.Bn2Dec: does not model numbers so large that three times their bits exceed an `int`.
- HashTable.Table.Set: does not model tables of 2^31 buckets, whose expansion overflows `max + 1`, nor entries that cannot be allocated; the hash function is a parameter, and so `hash_func_default` is left out, as is `hash_destroy`.
- HashTable.Iterator.Next: the table does not change while it is iterated.
- Pool.Arena.PoolAlloc: what `malloc` returns is a parameter, aligned and unused; failing allocations are left out.
- JsonPrinter.Output.JsonString: does not model the GBK encoding, because the conversion is `iconv`.
- JsonPrinter.Output.PrintAsJson: the same; the tree is a value, built once, so that the appending of `xml_add_child` is not modelled.
- JsonRoundTrip.DocumentIsRead: trees that mix named and anonymous items are the subject of JsonIllTyped.DocumentIff; plain nodes of other than one item are not modelled. XML output is left out.
- JsonIllTyped.DocumentIff: does not model plain nodes, whose text may be read as several items of the array around them.
- JsonReader.ReadValue: does not read fractions, exponents and escapes from U+0080 on, because the printer writes none.
- Parcels.Parcel.ReadVaruint64: does not model a number that is cut off or longer than 64 bits, because the reader then goes on behind the buffer or shifts too far.
- Parcels.Parcel.ReadVarint64: the same.
- Parcels.Parcel.Write: does not model allocation failure or sizes that overflow `size_t`.
- WinmineGame.Game.WinInit: does not model `rand`; the draws are a parameter and may run out.
- The screen, the other games, web handlers, authentication, encryption and configuration.
