# Verified models of the data structures and stream machines of a BBS

The system is a bulletin board server written in C and C++.  This project models ten of its files (and one
function of an eleventh), in which data structures, stream machines and files of records are kept up from
call to call, and proves what the rest of the server relies on.  There is one module for each of them, except
that the online-friend daemon has one for each of its layers and one for its allocator:

- `Basics`: sequences, circular positions and division, for all of them.
- `Relations`, `Friends`, `FriendList`, `Pool` (`daemon/utmpd/friend.cpp`): who likes and hates whom, kept
  as two families of lists whose entries point at each other; logins, logouts and slot overrides; the
  friend list of a session; the growable vectors and the pool of buffers below them all.
- `UserHash` (`util/uhash_loader.c`): the user id hash in shared memory, chains threaded through two flat
  arrays, with the pass that repairs damaged chains.
- `RingBuffer` (`common/sys/vbuf.c`): a byte queue in a circular buffer.
- `Random` (`common/diet/random.c`): the additive-feedback random generator with several saved states.
- `Telnet` (`common/sys/telnet.c`): the telnet command parser, a byte machine that compacts its input.
- `RecordFile` (`common/sys/record.c`): files of fixed-size records, changed in place.
- `Base32` (`util/totp.c`): the key reader, checking base32 text and decoding it in place.
- `Utf8`, `Convert` (`common/sys/utf8.c`, `mbbsd/convert.c`, `daemon/boardd/strings.cpp`): Big5 to UTF-8
  and back, a byte at a time.
- `AmbiguousIds` (`daemon/regmaild/regmaild.c`): the index of user ids that are easily taken for each other.

Objects that the source updates in place are classes here, and its loops are loops.  Each method is tied
to a function or predicate on values; the theorems are about those, over every state, every run or every
input.  Table sizes are parameters.  Hash functions, code tables, record guards, readers and writers are
arbitrary functions.  `int` and `nat` are unbounded: where the source's width matters (words modulo 2^32,
bytes, the code points of the basic plane) it is written out or a bit-vector type is used.

Where the code does not do what it says, the model follows the code, and the exact condition under which
the two agree is proved:

- The loop that enters hated users tests the wrong array (`Friends.HateAddedExactly`).
- `vbuf_peekat` and `vbuf_popn` go wrong on wrapped buffers and beyond the end (`RingBuffer.VBuf.PeekAt`,
  `RingBuffer.VBuf.PopN`), and `vbuf_getstr` can lose a byte (`RingBuffer.StringDeliveredIff`).
- `__initstate_r` announces that it saves the generator in use, and does not (`Random.RandomData.InitState`,
  `Random.RandomData.SaveDrawInit`).
- `delete_records` past the end, or from in front of the file, takes other records than those of the range
  (`RecordFile.DeleteBytesIff`); `delete_record2` without a guard always fails
  (`RecordFile.File.DeleteGuarded`).
- A reload of the user hash over a user whose id moved to another bucket spoils the table
  (`UserHash.UHash.FillUhash`, `UserHash.LinkLastCleanIff`); a second reload repairs it, except where only
  characters changed that are not compared (`UserHash.UHash.ReloadTwice`).
- Telnet subnegotiations that fill the option buffer leak into the data, and empty or short ones report what
  an earlier one left behind (`Telnet.SubReadIff`).
- The UTF-8 reader takes forms that are not the shortest, and surrogates (`Utf8.UtfOfUcs`,
  `Utf8.SurrogatesPass`); the base32 reader takes texts that no bytes encode to (`Base32.EncodeDecode`); the
  stream converters round-trip only where the tables do (`Convert.RoundTrip`).
- Ids that read alike may have different canonical forms (`AmbiguousIds.SameCanonIff`).

`dafny verify dfyconfig.toml` checks the whole project.

## Model

| member | source | states |
|---|---|---|
| `Relations.RelationLists.Add` | daemon/utmpd/friend.cpp:134-142 | adding a relation appends one entry on each side, each with the position of the other, and keeps the bijection, self-likes and duplicates included |
| `Relations.AddKeeps` | daemon/utmpd/friend.cpp:134-142 | the two new entries answer each other, and every other entry is still answered |
| `Relations.RelationLists.DeleteHalf` | daemon/utmpd/friend.cpp:158-165 | the entry is replaced by the last one of its list, whose mirror entry, in whatever list it is (even the one being cleared), is told the new position |
| `Relations.HalfDeleteKeeps` | daemon/utmpd/friend.cpp:143-150 | the state in the middle of `deleteall`: with the first i entries of the user already without mirrors and all others in bijection, one more step leads to the same with i + 1, and no list changes whom it names |
| `Relations.ClearKeeps` | daemon/utmpd/friend.cpp:151-152 | clearing the list after its last entry lost its mirror restores the full bijection |
| `Relations.RelationLists.DeleteAll` | daemon/utmpd/friend.cpp:143-152 | afterwards the user names nobody, every other user names whom he named before, and both families are in bijection |
| `Relations.SameMultiplicity` | daemon/utmpd/friend.cpp:131-167 | in any bijection user u names v exactly as often as v is recorded to be named by u |
| `Relations.EmptyTogether` | daemon/utmpd/friend.cpp:263-265 | if nobody names anybody, the lists of those named are empty too, although nothing clears them directly |
| `Friends.UserList.LogoutUser` | daemon/utmpd/friend.cpp:246-262 | the slot is freed and leaves the session list, by swapping the last session into its place; with the last session go both lists, and the engine stays consistent |
| `Friends.LogoutKeeps` | daemon/utmpd/friend.cpp:246-262 | a logout keeps slot table and session lists in agreement: slot i holds u exactly if i is, once, among the sessions of u, and a user without sessions declares nothing |
| `Friends.PlaceKeeps` | daemon/utmpd/friend.cpp:220-244 | entering a session in a free slot keeps that agreement |
| `Friends.UserList.LoginUser` | daemon/utmpd/friend.cpp:220-244 | a login replaces the lists of the user by those he brought, also when he is already online elsewhere |
| `Friends.UserList.LoginAt` | daemon/utmpd/friend.cpp:275-281 | a login over a slot in use first logs its holder out; the new state is a function of the old one |
| `Friends.UserList.AddLikes` | daemon/utmpd/friend.cpp:230-236 | the liked users are the entries of the array up to its terminator, without those that are no user id |
| `Friends.UserList.AddHates` | daemon/utmpd/friend.cpp:237-243 | the hated users are those the loop adds with its test on the array of liked users |
| `Friends.HateAddedExactly` | daemon/utmpd/friend.cpp:237-243 | the loop adds exactly the valid ids of the hate array if and only if the test on the wrong array agrees with the right one at every positive entry |
| `Friends.HateDroppedExample` | daemon/utmpd/friend.cpp:238-238 | a bad entry among the liked users loses a good entry among the hated ones |
| `Friends.WantedCounts` | daemon/utmpd/friend.cpp:230-236 | a user is entered among the liked ones as often as he stands in front of the terminator |
| `Friends.HateCounts` | daemon/utmpd/friend.cpp:237-243 | a user is entered among the hated ones as often as he stands, in front of the terminator, at a place where the like array is not beyond the user table |
| `Friends.SessionOrder` | daemon/utmpd/friend.cpp:220-262 | a login puts the new session behind the others of its user; an evicted one is replaced by the last session of its user, and no other order changes |
| `Friends.NobodyHome` | daemon/utmpd/friend.cpp:355-360 | once every slot is free, no user has a session or declares anything |
| `Friends.UserList.LogoutAll` | daemon/utmpd/friend.cpp:355-360 | after `utmplogoutall` every user is free in the sense of `isfree`, with the lists of those who like or hate him empty too |
| `Friends.RunIsHistory` | daemon/utmpd/friend.cpp:220-281 | after any run from the empty engine each slot is held by the last user who logged in there since everybody was logged out, and every user with a session declares exactly what his last login brought |
| `Friends.UserList.Serve` | daemon/utmpd/friend.cpp:309-313 | any admissible sequence of logins and logouts of everybody keeps all invariants, the bijections included, and ends in the state the specification gives |
| `FriendList.StatReverses` | daemon/utmpd/friend.cpp:299-307 | what u sees of v is `reverse_friend_stat` of what v sees of u |
| `FriendList.CollectAll` | daemon/utmpd/friend.cpp:319-323 | the work list holds a flag for a user exactly if he is named by the list of that flag |
| `FriendList.Merge` | daemon/utmpd/friend.cpp:328-337 | merging in place leaves every user of the sorted work list once, in order, with exactly the flags that occur with him |
| `FriendList.WorkIsRelated` | daemon/utmpd/friend.cpp:317-337 | by the bijections the merged work list is the table of all users related to u, each with the union of the four relations |
| `FriendList.TableIsUnique` | daemon/utmpd/friend.cpp:325-337 | there is only one strictly increasing table of nonzero stats, so the order `std::sort` gives equal users does not matter |
| `FriendList.Fill` | daemon/utmpd/friend.cpp:338-352 | the two nested loops put out the sessions of the merged users but the caller's own, as many as fit |
| `FriendList.GenFriendList` | daemon/utmpd/friend.cpp:315-353 | the result is the first maxfs entries of one list that does not depend on maxfs; every entry says in its low 24 bits which slot it is about, and in the four bits of its flags, and those of the answering word, who of the two users likes and hates whom |
| `FriendList.FullListIsExact` | daemon/utmpd/friend.cpp:315-353 | that list holds exactly the live sessions, other than the caller's, of the users related to him, no slot twice, sorted by user |
| `FriendList.ListIsSaidRightly` | daemon/utmpd/friend.cpp:345-348 | in every entry of the list `friendstat` carries its slot and what the caller and its user declare of each other, and `rfriendstat` the slot of the caller and the same with the two exchanged |
| `FriendList.SaysIs` | daemon/utmpd/friend.cpp:347-348 | the packed word in numbers: the slot modulo 2^24, and above it 8 for liking, 1 for hating, 16 for being liked, 2 for being hated, and no other bit |
| `FriendList.ListedSlots` | daemon/utmpd/friend.cpp:315-353 | a slot is in the list exactly if it is live, not the caller's, and its user and the caller like or hate each other one way or the other |
| `FriendList.SessionsInOrder` | daemon/utmpd/friend.cpp:342-350 | the sessions of one user come in the order in which he holds them, which decides what a small maxfs cuts off |
| `FriendList.MutualView` | daemon/utmpd/friend.cpp:345-349 | if session i is on the list of session j of its holder, then j is on the list of i, and each carries the word of the other |
| `FriendList.WordSplits` | daemon/utmpd/friend.cpp:347-348 | the packed word gives back the flags and the slot |
| `Pool.Freelist.Alloc` | daemon/utmpd/friend.cpp:35-48 | the buffer has exactly the size asked for; it is new exactly if none of that size was kept in the pool, and otherwise leaves it |
| `Pool.Freelist.Free` | daemon/utmpd/friend.cpp:49-63 | the buffer enters the pool exactly if its size is a power of two within the classes and the class has space; buffers in class k have exactly 2^k elements, and none is kept twice |
| `Pool.NewRoomIsGood` | daemon/utmpd/friend.cpp:109-115 | the new room is a power of two that holds the elements and is at most twice the larger of their number and the minimum; a room that is already so is left alone; one that grows does not go further than it must, and one that shrinks stays above both |
| `Pool.SettleRoom` | daemon/utmpd/friend.cpp:110-115 | the growing and shrinking loops compute that room |
| `Pool.Vector.ResizeFor` | daemon/utmpd/friend.cpp:103-128 | the elements survive the move, the old buffer goes back to the pool exactly if the pool keeps its size, and the new one, of the room computed, is not in it |
| `Pool.Vector.Append` | daemon/utmpd/friend.cpp:82-87 | appends one element; over all vectors sharing the pool no buffer becomes both pooled and owned or owned twice, and no other vector changes |
| `Pool.Vector.PopBack` | daemon/utmpd/friend.cpp:88-92 | removes the last element under the same guarantees |
| `Pool.Vector.Clear` | daemon/utmpd/friend.cpp:93-96 | empties the vector and gives its buffer up under the same guarantees |
| `UserHash.UHash.CheckHash` | util/uhash_loader.c:69-89 | one bucket after its check holds exactly its own slots out of those it reached, in order, and is properly ended; the whole table is the one in which these slots are linked up from the head of the bucket, whatever chains shared tails with it |
| `UserHash.CheckedHolds` | util/uhash_loader.c:69-89 | after the check of a bucket its chain holds a slot exactly if it was in the chain found and hashes there; heads of other buckets, links of slots of other buckets and ids stay |
| `UserHash.OwnKeepsOrder` | util/uhash_loader.c:72-88 | of two slots that stay, the one met first stays in front |
| `UserHash.UHash.CheckAll` | util/uhash_loader.c:95-99 | the first loop leaves the table that comes of checking the buckets one after the other |
| `UserHash.LinkingUnlinks` | util/uhash_loader.c:76-82 | what a misplaced slot was linked to does not matter to the outcome: the cell is written over |
| `UserHash.LinkingKeeps` | util/uhash_loader.c:85-86 | a slot of the right bucket stays linked as the outcome has it |
| `UserHash.CleanIsUnique` | util/uhash_loader.c:69-89 | a table with clean buckets has only one set of chains |
| `UserHash.RepairLosesExample` | util/uhash_loader.c:75-88 | where two buckets share a chain, the check of the first unlinks a slot of the second, which is lost until its record is entered again |
| `UserHash.UnlinkStep` | util/uhash_loader.c:75-84 | removing a misplaced slot through the moving cell keeps every chain of the table ending, and takes nothing else out of this one |
| `UserHash.FinishStep` | util/uhash_loader.c:72-74 | a link that leaves the table becomes the end mark, and the chains that shared it end there too |
| `UserHash.SkipKeepsChains` | util/uhash_loader.c:81-81 | unlinking a slot shortens the chains through it and damages none |
| `UserHash.CleanBucketsStay` | util/uhash_loader.c:95-99 | checking one bucket leaves every bucket that is already clean as it is |
| `UserHash.ChainNoRepeat` | util/uhash_loader.c:72-88 | a chain that ends visits no slot twice |
| `UserHash.CleanReachesOnce` | util/uhash_loader.c:69-89 | when every bucket is clean, no slot is reached from two buckets, nor twice from one |
| `UserHash.UHash.FindCell` | util/uhash_loader.c:163-169 | the walk ends at the last cell of the bucket, or, on the fly, stops if the slot is already there |
| `UserHash.UHash.AddToUhash` | util/uhash_loader.c:134-173 | one record, over any chains that end: skipped if its id is invalid and the reserve of 1000 is used up; otherwise it takes over the id if the compared characters differ, and is linked at the end of the bucket its id calls for, unless on the fly it is met there; the static count goes up for invalid ids |
| `UserHash.FillStep` | util/uhash_loader.c:149-172 | entering an admitted record that fits lists its slot at the end of its own bucket, once, and disturbs no other bucket |
| `UserHash.SkipStep` | util/uhash_loader.c:141-147 | a record that is not admitted leaves the table as it is |
| `UserHash.LinkLastCleanIff` | util/uhash_loader.c:149-172 | linking a slot into a clean table keeps it clean if and only if the slot carries an id of that bucket and was linked nowhere before: a reload in which an id moved to another bucket breaks it |
| `UserHash.UHash.FillUhash` | util/uhash_loader.c:90-133 | both ways of loading, over any resident ids and any chains that stop: every admitted record and the id in its slot agree in the first eleven characters, ends included, and the slot has the id of the record, or on the fly the old one if that agreed already; no other id changes; all chains end properly; the table can be clean if and only if, on the fly, every admitted record hashes as the resident id did, or differs from it in a slot that is in no chain of the repaired table; and then it holds the chains of the repaired table and the missing records, exactly |
| `UserHash.DiffersIff` | util/uhash_loader.c:152-153 | the comparison finds two ids to be the same exactly if at each of the first eleven places both have one character, or both have ended |
| `UserHash.IdsAgree` | util/uhash_loader.c:149-155 | the ids after any number of records, in the same terms |
| `UserHash.AdmittedIff` | util/uhash_loader.c:141-147 | a record is admitted if and only if its id is valid or fewer than 1000 in front of it are not |
| `UserHash.ThousandAdmitted` | util/uhash_loader.c:141-147 | of the records with invalid ids just the first 1000 are admitted, or all, if there are fewer |
| `UserHash.NewcomersInOrder` | util/uhash_loader.c:118-122 | the slots a bucket gains stand in it in the order of the file |
| `UserHash.UHash.ReloadTwice` | util/uhash_loader.c:90-133 | after a second reload from the same file the table can be clean if and only if every admitted record that left its resident id in place hashes as that id does |
| `UserHash.LinkLastEnds` | util/uhash_loader.c:163-172 | however the chains are entangled, linking a slot behind a chain that does not hold it leaves only chains that end |
| `UserHash.MisfitSpoils` | util/uhash_loader.c:149-172 | the first record that does not fit leaves its slot in a bucket where it does not belong |
| `UserHash.SpoiledStays` | util/uhash_loader.c:149-172 | a spoiled table stays spoiled for the rest of the reload: a later record cuts a misplaced slot off only by misplacing its own |
| `UserHash.MatchingIdsFit` | util/uhash_loader.c:90-133 | where the resident ids of all admitted records already match the file, every record fits, so that the reload repairs any damage |
| `UserHash.PassedIsRepaired` | util/uhash_loader.c:95-99 | the repair leaves only own slots in every bucket, and all of a bucket that was clean |
| `UserHash.RenamedExample` | util/uhash_loader.c:149-172 | a user renamed while still linked in the bucket of the old id spoils a table of one user |
| `UserHash.TwelfthCharacterExample` | util/uhash_loader.c:152-153 | an id of which only the twelfth character changed is taken to be unchanged, and is not put right by any reload |
| `UserHash.FilledFinds` | util/uhash_loader.c:115-130 | in a filled table every admitted record is found in its own bucket, in no other, and once; after a load from scratch a record that was not admitted is found nowhere |
| `UserHash.NewcomersAre` | util/uhash_loader.c:141-172 | a bucket gains exactly the admitted records of its hash that it did not hold before |
| `RingBuffer.VBuf.Add` | common/sys/vbuf.c:155-166 | appends to the queue exactly if it is below its capacity |
| `RingBuffer.VBuf.Pop` | common/sys/vbuf.c:134-141 | takes the first byte of the queue, or tells that there is none |
| `RingBuffer.VBuf.PopN` | common/sys/vbuf.c:143-153 | for every count: drops what it should if and only if the count is at most the size, or the buffer is wrapped, or the head, carried past the end of the allocation, comes to the tail or beyond it and is clamped |
| `RingBuffer.PopNExample` | common/sys/vbuf.c:143-153 | dropping two bytes of one leaves three: the byte that was put in comes back, behind two that never were |
| `RingBuffer.VBuf.PeekAt` | common/sys/vbuf.c:119-132 | gives byte i of the queue, or EOF past its end, if and only if the buffer is empty, or i is not below the capacity, or either the queue is unwrapped and byte i before the end of the allocation, or the queue is wrapped and byte i past that end |
| `RingBuffer.PeekAtExample` | common/sys/vbuf.c:119-132 | in a wrapped buffer of one byte that byte is not seen |
| `RingBuffer.VBuf.StrChr` | common/sys/vbuf.c:168-193 | finds the first position of a byte in the queue, across the wrap, or -1 |
| `RingBuffer.VBuf.GetBlk` | common/sys/vbuf.c:273-294 | two phases take exactly the first n bytes of the queue, or nothing at all |
| `RingBuffer.VBuf.PutBlk` | common/sys/vbuf.c:297-318 | two phases append the whole block, or change neither queue nor memory |
| `RingBuffer.VBuf.PutStr` | common/sys/vbuf.c:216-224 | a string and its NUL are appended if and only if both fit |
| `RingBuffer.VBuf.GetStr` | common/sys/vbuf.c:197-214 | takes the bytes up to the first NUL or the end of the room, as the loop and its final store do on any content |
| `RingBuffer.StringOutIs` | common/sys/vbuf.c:197-214 | the string and the queue left, for each position of the first NUL, short of the room or not |
| `RingBuffer.StringDeliveredIff` | common/sys/vbuf.c:205-213 | all that left the queue is in the string, as it is or with a NUL behind it, if and only if a NUL was within reach or the queue was exactly one byte shorter than the room; otherwise a byte is lost |
| `RingBuffer.StringLostExample` | common/sys/vbuf.c:205-213 | two bytes read into room for two: the second one is lost |
| `RingBuffer.VBuf.CStr` | common/sys/vbuf.c:240-265 | for every position of head and tail the queue is unchanged, lies in one piece from the returned position, and is followed by a NUL inside the allocation; nothing for an empty buffer |
| `RingBuffer.VBuf.Straighten` | common/sys/vbuf.c:254-264 | two reversals, a move down, a NUL and a reversal of the whole bring a wrapped queue to the front in order |
| `RingBuffer.ReverseInPlace` | common/sys/vbuf.c:226-238 | the loop reverses exactly the part between the two positions |
| `RingBuffer.VBuf.GeneralWrite` | common/sys/vbuf.c:405-447 | with a trace of the calls: the writer is called with the front of the queue, in the two pieces in which it lies, as far as it is still wanted, and answers as recorded; the bytes taken followed by the queue left are the original queue; -1 is returned exactly if the last call failed, and the transfer stops only when the size is reached, a call failed, the one call of a transfer of any size is made, or the limit is met |
| `RingBuffer.VBuf.GeneralRead` | common/sys/vbuf.c:450-492 | with a trace of the calls: the reader is called with the sizes of the two pieces of free space, as far as they are still wanted, and answers as recorded; the new queue is the original one followed by all that was delivered; -1 is returned exactly if the last call failed, and the transfer stops only when the size is reached, a call failed, the one call of a transfer of any size is made, or the limit is met |
| `RingBuffer.VBuf.Offer` | common/sys/vbuf.c:427-433 | the two pieces offered to the writer are, together, the wanted front of the queue |
| `RingBuffer.VBuf.PerformAll` | common/sys/vbuf.c:134-318 | every mix of operations gives the results and the content of a bounded queue of the same capacity, for every starting position of head and tail |
| `RingBuffer.FifoConserves` | common/sys/vbuf.c:134-318 | over any such run the queue stays within its capacity, and at the end it is a tail of its first content followed by everything accepted, in order |
| `Random.SchrageMultiplies` | common/diet/random.c:205-212 | the split multiplication gives 16807 times the word modulo 2^31 - 1 for every 32-bit word, and nothing on the way exceeds 31 bits |
| `Random.FilledIsPower` | common/diet/random.c:200-214 | word i of the table is 16807^i times the seed modulo 2^31 - 1 (word 0 the seed itself), and is zero only for seeds that are multiples of the modulus |
| `Random.NonZeroStays` | common/diet/random.c:205-212 | multiplying by 16807 makes a word a multiple of the modulus only if it was one |
| `Random.RandomData.Fill` | common/diet/random.c:200-214 | the filling loop writes that table and leaves the header alone |
| `Random.NeverWrapTogether` | common/diet/random.c:362-364 | the front and the rear pointer never wrap in the same call, and stay the separation apart around the table |
| `Random.RandomData.Random` | common/diet/random.c:366-415 | one draw steps the generator as its kind says, keeps pointers and table usable, and leaves the header alone |
| `Random.RandomData.AdvancePointers` | common/diet/random.c:395-406 | the steps that test the rear pointer only if the front one has not wrapped move both by one around the table |
| `Random.TurnShifts` | common/diet/random.c:392-406 | read from the front pointer, one turn drops the oldest word and adds the sum of it and the word one separation back |
| `Random.TurnsAreRecurrence` | common/diet/random.c:355-364 | n turns of the circular table compute x(t) = x(t - deg) + x(t - sep) modulo 2^32 from its first window |
| `Random.DrawsAreRecurrence` | common/diet/random.c:392-394 | number i drawn is x(deg + i) without its lowest bit |
| `Random.TurnsMoveRear` | common/diet/random.c:395-408 | after n turns the rear pointer has moved n places around |
| `Random.PointersReturn` | common/diet/random.c:216-223 | after n turns the pointers are where they started if and only if n is a whole number of rounds |
| `Random.SeededAtStart` | common/diet/random.c:216-223 | the warm-up of 10 * deg steps leaves the rear pointer at the start of the table, which is what the header then tells |
| `Random.RandomData.Srandom` | common/diet/random.c:174-230 | seeding leaves the table of powers, warmed up, in a usable state; seed 0 counts as 1 |
| `Random.SeededStream` | common/diet/random.c:195-226 | seeding and drawing together: number i is half of word 11 * deg + sep + i of the sequence that starts with deg words multiplied by 16807 modulo 2^31 - 1 and goes on with sums of earlier words modulo 2^32; seed 0 stands for 1 |
| `Random.LinearStream` | common/diet/random.c:378-384 | the generator without a table gives the words of 1103515245 * x + 12345 modulo 2^31 from its seed on |
| `Random.LowBitAlternates` | common/diet/random.c:378-384 | the lowest bit of these is alternately 0 and 1 |
| `Random.KindForIsLargest` | common/diet/random.c:259-271 | an array of n bytes gets the largest generator whose header and table fit into it |
| `Random.PackDecodes` | common/diet/random.c:287-289 | the packed word gives back kind and rear position |
| `Random.RandomData.SetState` | common/diet/random.c:307-352 | switching to another saved array, or to the same, moves no generator: each of them stands for the generator it stood for before |
| `Random.RandomData.constructor` | common/diet/random.c:244-291 | a new structure with its first array stands for the generator of its seed and size, ready for use |
| `Random.RandomData.InitState` | common/diet/random.c:244-296 | a new generator is set up as its size and seed say, in any array, and all others stay; the one in use before, if it is not the one replaced, survives if and only if its header happened to be up to date |
| `Random.RandomData.SaveDrawInit` | common/diet/random.c:238-291 | in terms of the calls made: after m draws since the generator in use was last put aside, seeding another array keeps it if and only if it is of kind 0 or m is a multiple of its degree |
| `Random.StaleHeaderIff` | common/diet/random.c:287-289 | a header that is m draws old stands for the present generator if and only if the kind is 0 or m is a multiple of the degree |
| `Random.StaleHeaderExample` | common/diet/random.c:238-242 | a saved table generator is not restored from its header after a single draw |
| `Random.StreamsAreAlone` | common/diet/random.c:299-352 | under any interleaving of switches and draws each generator gives the stream it would give alone, and ends where it would end alone |
| `Random.RandomData.Serve` | common/diet/random.c:307-415 | the arrays in memory follow that interleaving exactly |
| `Telnet.TelnetCtx.Handler` | common/sys/telnet.c:169-398 | one byte changes the context, is kept or handled, and calls back as the byte machine says, for every good context |
| `Telnet.RunStaysGood` | common/sys/telnet.c:24-31 | between any two bytes of any stream the state is none, waiting for an option, or collecting a subnegotiation with room in the buffer |
| `Telnet.ChunkIndependence` | common/sys/telnet.c:114-137 | any way of cutting a stream into calls gives the same data, callbacks and final context |
| `Telnet.PlainText` | common/sys/telnet.c:121-126 | outside of any command, bytes without IAC are all data and nothing happens |
| `Telnet.TelnetCtx.Process` | common/sys/telnet.c:114-137 | with or without the fast path the buffer is compacted in place to exactly the unhandled bytes, in order, and what follows stays; -1 if none is left |
| `Telnet.TelnetCtx.ProcessChunks` | common/sys/telnet.c:114-137 | successive calls on the chunks of a stream leave the data, callbacks and context that one call on the whole stream does |
| `Telnet.TelnetCtx.Compact` | common/sys/telnet.c:128-134 | the slow loop writes each kept byte no further than the byte just read |
| `Telnet.ParseRender` | common/sys/telnet.c:172-398 | parsing any rendered list of data bytes, doubled IACs, commands, option requests and subnegotiations of 1 to 31 bytes gives their meanings, in order, and ends outside of any command |
| `Telnet.NegotiationOnTheWire` | common/sys/telnet.c:275-315 | in the numbers of RFC 854: 255 253 c is answered 255 252 c, and 255 251 c is answered 255 254 c, unless c is 0, 1, 3, 24 or 31; 252 and 254 are never answered; 255 is doubled as an option |
| `Telnet.CommandOnTheWire` | common/sys/telnet.c:209-254 | of the other commands only 246 calls back, and none leaves a trace in data or context |
| `Telnet.DoubledOnTheWire` | common/sys/telnet.c:194-227 | two bytes 255 outside of a command are dropped |
| `Telnet.QuotedOnTheWire` | common/sys/telnet.c:319-333 | inside of a subnegotiation a single 255 is passed over and the byte behind it kept, unless it is 240 |
| `Telnet.SizeOnTheWire` | common/sys/telnet.c:346-351 | option 31 reports two numbers of two bytes, the more significant one first |
| `Telnet.TypeOnTheWire` | common/sys/telnet.c:372-380 | option 24 reports what follows its second byte |
| `Telnet.SubMeans` | common/sys/telnet.c:319-350 | a rendered subnegotiation fills the option buffer with its payload, IACs undoubled, and is reported once |
| `Telnet.UndoubledOption` | common/sys/telnet.c:176-179 | for every verb, an option code 255 that is not doubled swallows the byte after it, which is taken as the option |
| `Telnet.OversizedSubLeaks` | common/sys/telnet.c:319-333 | of a payload of 32 bytes or more, byte 32 and all that follow but the IACs are passed on as data, nothing is reported, and the parser is outside of any command again |
| `Telnet.SubReadIff` | common/sys/telnet.c:319-380 | for every payload: nothing of it is passed on as data if and only if it is shorter than 32 bytes, and what is reported is just what it announces if and only if, moreover, an empty one does not follow a window size and a window size is complete |
| `Telnet.EmptySubExample` | common/sys/telnet.c:335-351 | after the window size 80 x 24 an empty subnegotiation reports that size again |
| `Telnet.RunOnlyRefuses` | common/sys/telnet.c:302-315 | every reply to any stream is a refusal of three bytes |
| `Telnet.RefusalCannotLoop` | common/sys/telnet.c:283-315 | a second handler that is fed only the negotiation replies of the first, whatever the first was fed, does nothing at all |
| `RecordFile.RecordsCount` | common/sys/record.c:105-106 | a file is its whole records and a torn tail shorter than a record |
| `RecordFile.RecordIs` | common/sys/record.c:105-106 | record i is the stretch of size bytes from i * size on |
| `RecordFile.TornIs` | common/sys/record.c:105-106 | the torn tail is what lies behind the last whole record, and is shorter than one |
| `RecordFile.File.Append` | common/sys/record.c:92-115 | the record goes behind the whole ones, in place of a torn tail; the result is the new number of records |
| `RecordFile.File.Substitute` | common/sys/record.c:117-154 | with a guard: record id is replaced if it is there and the guard agrees, and otherwise nothing changes; without one the bytes are written where record id belongs |
| `RecordFile.WrittenBytes` | common/sys/record.c:123-147 | byte by byte: the new record where it belongs, the old bytes elsewhere, and zero in a gap past the old end |
| `RecordFile.File.DeleteGuarded` | common/sys/record.c:156-228 | with a guard: record id is taken out if it is there and the guard agrees, and otherwise, or without a guard, the call fails and nothing changes; record 0 of one-byte records is taken for record 1, because its position is what a refused seek returns |
| `RecordFile.File.ShiftDown` | common/sys/record.c:215-219 | copying through a buffer of 512 bytes within the one file moves everything behind the gap down, without overwriting bytes still to be read |
| `RecordFile.File.CopyChunk` | common/sys/record.c:215-219 | one turn of the loop moves the next chunk and leaves the part still to be read alone |
| `RecordFile.File.CloseGap` | common/sys/record.c:215-222 | the copy and the truncation take exactly the gap out of the file |
| `RecordFile.File.DeleteMany` | common/sys/record.c:230-280 | the bytes left for any range: inside the file, past its end, or from in front of it |
| `RecordFile.DeleteBytesIff` | common/sys/record.c:252-273 | `delete_records` leaves the file without the range if and only if the range lies inside the file, or nothing is cut and nothing needs to be |
| `RecordFile.DeletePastEnd` | common/sys/record.c:263-273 | a range that reaches past the end takes its length off the end of the file, or nothing, if the file is shorter |
| `RecordFile.DeleteInFront` | common/sys/record.c:252-273 | what each range that starts in front of the file leaves, by its length and that of the file |
| `RecordFile.DeletePastEndExample` | common/sys/record.c:263-273 | deleting one record more than there are loses a record in front of the range |
| `RecordFile.DeleteInFrontExample` | common/sys/record.c:252-273 | deleting records 0 and 1 takes a record off the end, too |
| `RecordFile.DeleteBytesRemoves` | common/sys/record.c:263-273 | a range of records inside the file is taken out, and a torn tail stays |
| `RecordFile.PerformAll` | common/sys/record.c:92-280 | any run of appends, guarded substitutions and deletions and deletions in range is the same run on a sequence of records, results included |
| `Base32.Validate` | util/totp.c:111-157 | text is accepted if and only if it is whole groups of eight characters with a value, closed by no pads, or by 1, 3, 4 or 6 and nothing behind them |
| `Base32.DecodeGroup` | util/totp.c:165-209 | one turn leaves the bytes of the group at the end of the key and touches no character still to be read, even in the first group, which is decoded onto itself |
| `Base32.Decode` | util/totp.c:160-211 | the loop leaves the decoding of the whole text at the start of the buffer, followed by a NUL |
| `Base32.BytesComeBack` | util/totp.c:165-209 | the bits of a group come back from the values of its characters |
| `Base32.DecodeEncode` | util/totp.c:160-211 | decoding the padded encoding (section 6 of RFC 4648) of any byte string gives the string |
| `Base32.EncodeDecode` | util/totp.c:111-211 | an accepted text is what its bytes encode to if and only if it is all upper case, uses no 0, 1, 8 or brace for another letter, and has no bits left over; every other accepted text decodes, too |
| `Base32.GroupBackIff` | util/totp.c:165-209 | the same for one group of eight characters, from its bits |
| `Base32.LowerCaseExample` | util/totp.c:55-56 | a text in lower case is accepted |
| `Base32.SpellingDoesNotMatter` | util/totp.c:42-65 | a text and the one in upper case with O, L, B and Z for 0, 1, 8 and the brace are accepted alike and decoded alike |
| `Base32.AcceptedIff` | util/totp.c:42-65 | a character has a value if and only if, so spelled, it is in the alphabet or the pad |
| `Base32.AlphabetIs` | util/totp.c:66-66 | the characters of the values 0 to 31 are A to Z and 2 to 7 |
| `Base32.FoobarExample` | util/totp.c:160-211 | a test vector of section 10 of RFC 4648 |
| `Base32.EncodedIsValid` | util/totp.c:111-157 | that encoding passes the check |
| `Base32.KeyLength` | util/totp.c:160-211 | every accepted text, canonical or not, gives as many bytes as its characters before the pads hold whole |
| `Base32.ReadKey` | util/totp.c:108-211 | check and decoding together: for every non-empty byte string whose encoding is given, exactly the string and its length come out; rejected text is left alone |
| `Utf8.Ucs2Utf` | common/sys/utf8.c:6-27 | stores the UTF-8 form (section 3 of RFC 3629) of a code point from the start of the buffer and returns its length; the surrogates, which that section prohibits, are not told apart |
| `Utf8.Utf2Ucs` | common/sys/utf8.c:29-52 | reads the length and the code point a first byte announces; a stray byte counts as a question mark |
| `Utf8.UcsOfUtf` | common/sys/utf8.c:6-52 | reading gives back every code point written, and its length; what is written is a shortest form |
| `Utf8.UtfOfUcs` | common/sys/utf8.c:6-52 | writing gives back the bytes read if and only if they were a shortest form of at most three bytes, the prohibited forms of surrogates among them |
| `Utf8.SurrogatesPass` | common/sys/utf8.c:41-47 | of the shortest forms, exactly those that section 3 of RFC 3629 prohibits are read as surrogates |
| `Utf8.SurrogateExample` | common/sys/utf8.c:21-47 | ED A0 80 is read as D800, and D800 is written as that |
| `Utf8.OverlongExample` | common/sys/utf8.c:29-41 | C0 AF is read as a slash, which is written as one byte |
| `Utf8.Utf8Examples` | common/sys/utf8.c:6-27 | the examples of the source and the ends of the ranges |
| `Convert.Writer.Write` | mbbsd/convert.c:8-42 | one byte: held back, or put out as it is, or completed to a pair and put out in UTF-8, as far as the buffer has room |
| `Convert.Writer.WriteAll` | mbbsd/convert.c:8-42 | a whole text leaves in the buffer what the byte machine puts out for it |
| `Convert.Reader.ReadOne` | mbbsd/convert.c:51-73 | one byte is gathered or completes a character; what earlier characters left in the trail buffer plays no part, and at most three of its six bytes are used |
| `Convert.Reader.Read` | mbbsd/convert.c:44-75 | a call continues with the character left open by the last one, and returns how many bytes it produced, stored or not |
| `Convert.Reader.ReadChunks` | mbbsd/convert.c:44-75 | any chunking gives the content and the state of one call on the whole |
| `Convert.FoldAppends` | mbbsd/convert.c:8-75 | both converters on a + b do what they do on a and then on b |
| `Convert.EncoderEnds` | mbbsd/convert.c:11-18 | the encoder is left waiting exactly if a lead byte is left at the end without its trail |
| `Convert.ReadsEcho` | mbbsd/convert.c:8-75 | reading what was written ends between characters and gives, part by part, ASCII as it is and each pair as the tables map it there and back |
| `Convert.RoundTrip` | mbbsd/convert.c:8-75 | for every byte stream the original comes back, but for a lone lead byte at its end, if and only if every pair maps to a code point of 0x80 or more that maps back to it |
| `Convert.RoundTripExample` | mbbsd/convert.c:8-75 | with the two table entries that take A2CC to U+5341 and that to A451, the character A2CC comes back as A451 |
| `Convert.StrayPair` | mbbsd/convert.c:51-73 | a byte that cannot be first swallows the one behind it, and the two give what the table has for a question mark |
| `Convert.Transmit` | mbbsd/convert.c:8-75 | from a new writer to a new reader, cut anywhere on the way: nothing is left open, and the text arrives, but for a lone lead byte, if and only if the tables agree on each of its pairs |
| `Convert.StringToUtf8` | daemon/boardd/strings.cpp:18-35 | the whole-string encoder gives, up to the first NUL, what the byte-at-a-time one gives, and a question mark for a lead byte left alone at the end |
| `AmbiguousIds.BuildUnambiguous` | daemon/regmaild/regmaild.c:300-323 | the loop that goes through the tables once, never back in the string, replaces a character by the head of its table exactly if no later character belongs to an earlier table |
| `AmbiguousIds.CanonIsIdempotent` | daemon/regmaild/regmaild.c:300-323 | a second pass changes nothing |
| `AmbiguousIds.CanonIgnoresCase` | daemon/regmaild/regmaild.c:308-323 | ids that are the same but for case have canonical forms that are the same but for case |
| `AmbiguousIds.SameCanonIff` | daemon/regmaild/regmaild.c:300-323 | two ids have one canonical form if and only if they read alike, and each place where they differ by more than case is followed by no letter of an earlier table |
| `AmbiguousIds.MissedExample` | daemon/regmaild/regmaild.c:312-322 | AIO and A1O read alike, but with AIO listed A1O is not found to be taken |
| `AmbiguousIds.CompareIsTransitive` | daemon/regmaild/regmaild.c:400-403 | the order by which both lists are sorted and searched is transitive, and two ids with a third between them are equal only if all three are |
| `AmbiguousIds.Search` | daemon/regmaild/regmaild.c:427-429 | in a sorted list some equal entry is found if there is one |
| `AmbiguousIds.NeighboursDecide` | daemon/regmaild/regmaild.c:443-453 | in a sorted list an entry found is the only one of its key exactly if both neighbours differ from it |
| `AmbiguousIds.CanonsCount` | daemon/regmaild/regmaild.c:389-392 | the canonical forms equal to that of u are those of u itself and those of other ids |
| `AmbiguousIds.PlainIdIsSafe` | daemon/regmaild/regmaild.c:418-420 | an id without an ambiguous letter has its canonical form to itself among the listed ids |
| `AmbiguousIds.Index.Reload` | daemon/regmaild/regmaild.c:366-406 | if an hour has passed, both lists are rebuilt and sorted: each string with an ambiguous letter occurs among the ids as often as among all slots of the user table but the last, and no other string occurs; otherwise they stay |
| `AmbiguousIds.Index.Find` | daemon/regmaild/regmaild.c:408-456 | the answer is 1 if and only if another listed id has the canonical form of the (truncated) id asked for, or the id itself is listed twice; an hour after the last reload, with user ids distinct but for case, it is 1 if and only if some other id of the table, but its last slot, has that canonical form |
| `AmbiguousIds.FindInTable` | daemon/regmaild/regmaild.c:408-456 | what the lists of a table call for, in terms of the table alone |
| `AmbiguousIds.SnapshotListsTable` | daemon/regmaild/regmaild.c:380-393 | the ids listed for a table are those with an ambiguous letter, each as often as it stands in front of the last slot |
| `AmbiguousIds.ClassesAre` | daemon/regmaild/regmaild.c:300-312 | the four sets of letters that are taken for each other, and what each stands for |
| `AmbiguousIds.TruncIs` | daemon/regmaild/regmaild.c:420-425 | only the first twelve characters are looked up |
| `AmbiguousIds.FoldIff` | daemon/regmaild/regmaild.c:400-403 | comparing without case joins just the capital letters and those 32 places behind them |
| `AmbiguousIds.AnswersComeFromAQuery` | daemon/regmaild/regmaild.c:366-378 | after any run the lists are the first ones, or those of the user table at one of the queries; and an id with an ambiguous letter is answered from lists less than an hour old |
| `AmbiguousIds.Serve` | daemon/regmaild/regmaild.c:408-456 | every answer of any run of queries is the one those lists call for |

## Left out

- Sockets, events, databases, mapping of shared memory, screen and menu code: foreign calls.
- File locks: each operation on a record file is atomic here, and the two descriptors of a deletion see one file.
- Failing opens, reads, writes and allocations: only the failures named in the contracts are modelled.
- The object of each user in `daemon/utmpd/friend.cpp` is spread over sequences indexed by user id, and the relation lists are sequences rather than vectors over the pool; `Pool` treats the vectors by themselves.
- `short` offsets and sizes of relation lists: lists are taken to be short enough not to overflow them.
- The bit trick that recognises powers of two is the statement that the number is one.
- Friends.UserList.AddHates: hate arrays that lead the loop outside the user table, or past the end of the like array, are not modelled, because the source then accesses memory it does not own.
- FriendList.Sort: stands for `std::sort` and is known only by its contract; likewise `AmbiguousIds.Sort` for `qsort` and `AmbiguousIds.Search` for `bsearch`.
- FriendList.GenFriendList: slot numbers are below 2^24, as the packed word requires.
- UserHash.UHash.FillUhash: requires on the fly that every chain stops, in the end mark or outside of the table; on a chain with a cycle the source loops for ever.
- `StringHash`, `is_validuserid`, the money and cool-down columns of the user table: arbitrary functions, or not part of this model.
- RingBuffer.VBuf.GeneralWrite: is seen after at most a given number of calls of the writer, because a writer that never progresses keeps the source looping; the same holds for `RingBuffer.VBuf.GeneralRead`.
- Random.RandomData.SetState: the array must hold a saved generator; null pointers and words of no kind make the source fail.
- Random.RandomData.InitState: arrays are whole and do not overlap, and their alignment is not modelled.
- The client-code callback of the telnet parser: which bytes it sees depends on the chunking, because the fast path skips it.
- `delete_record`, `get_records` and the other operations of `common/sys/record.c` that only read or wrap these.
- Base32.ReadKey: the empty argument is excluded, for which the source's unsigned bound wraps around; the HMAC and the clock are not part of this model.
- The Big5 code tables are arbitrary functions; the converters for whole boards with in-character colours are not part of this model.
- AmbiguousIds.Index.Reload: the growth of the two list buffers is not modelled.
- The slow search for ambiguous ids, which counts the id itself as a match.
