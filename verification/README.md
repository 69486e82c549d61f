# Verified models of the tree, protocol, event, cache, codec and table code

This project models the parts of the repository that hold real state or that transform data, and proves what they
are for. It covers two classic trees (`linuxdemo/`) and a dozen components of the Postfix utility library (`util/`):

- **Red-black tree** (`RedBlackSpec`, `RedBlackMemory`, `RedBlackTree`). Nodes with parent links and a shared nil
  sentinel on the heap, rotations, both fixup loops, insertion, search, successor and deletion. A subtree and its
  surroundings are described by a tree and a context around a hole; every heap step is proved to be a step on that pair.
- **Cooperative file update** (`EditFile`). Any number of processes run the protocol one step at a time (a system
  call, or the pair of calls that compares the open file with its name), in any order, and may die before any
  step; the machine may crash. Invariants hold over all runs.
- **Event manager and automatic clients** (`TimerQueue`, `Events`, `AutoClient`, `AutoClientObject`). The timer queue,
  the timer phase of the event loop with callbacks that request and cancel timers, the descriptor masks, and any number
  of clients on top of them as a state machine.
- **Delete-behind cache** (`DictTable`, `DictCache`, `DictCacheObject`). The logical map above a table with a cursor,
  and the cleanup scan interleaved with the application's calls.
- **B-tree insertion** (`BTreeSpec`, `BTreeMemory`, `BTreeObject`). Pre-emptive splitting, as values and on arrays and
  nodes in the heap.
- **Attribute lists and codecs** (`AttrSpec`, `AttrRoundTrip`, `AttrSearch`, `AttrStream`, `Quanta`, `Base64`,
  `Base32`). The sender and the receiver of null-terminated attribute lists, over base 64; base 32 beside it.
- **CIDR tables** (`CidrMatch`, `CidrRules`, `CidrTable`). Patterns at the level of address bits, nested IF/ENDIF
  blocks compiled to a linked list with skip pointers, and the walk over that list.
- **LRU cache, chained hash table, time formatter** (`CTableSpec`, `CTable`, `BinHash`, `BinHashTable`, `FormatTv`).

`dafny verify dfyconfig.toml` checks the whole project.

## How the models relate to the code

- *Heap.* Where the code rewrites fields in place, a class has those fields, and a ghost "memory" (a finite map from
  nodes to their fields) connects the heap to a value. Methods are specified as changes of that value; the theorems are
  about the value. Some methods take and return ghost arguments that describe the structure; they are not part of what
  the program passes.
- *Edit file.* The file system is reduced to the two path names, plus a count of other links per inode. A lock is
  exclusive per inode and is released on close or death. Rename is atomic, except that a process may die between the two
  halves of it (the case named at lines 268-271), and that a machine crash damages data that was not synced.
- *Timers.* Each request carries a serial number, which the program does not store: it is the history that "first come"
  refers to. Clock readings are parameters, and only ever go forward. A callback is any finite list of requests and
  cancels, chosen afresh for each delivery. `since` and `used` are the clock readings when a client's TTL timer and idle
  timer were requested.
- *Delete-behind cache.* The position at which a new entry appears in the enumeration order of the database is a
  parameter, so every order is covered. The key under which the cleanup leaves its time stamp is a constructor of the
  key type. What a NEXT call does while there is no current entry is up to the database; in runs it finds nothing.
- *Attribute lists.* Ints and longs are 32 and 64 bits wide and are sent as unsigned numbers. `sscanf` accepts space and
  a sign, saturates at the largest unsigned long, and cuts the result to the target's width, as the GNU C library does.
  `ATTR_FLAG_MISSING` only affects logging. A hash table is sent in any order of its entries.
- *CIDR.* What `inet_pton` returns, and whether the text after "/" is a number, are parameters. The number is stored in
  an unsigned char before it is compared with the address length, so 256 counts as 0; the model does the same.
- *LRU cache.* `create` returns values numbered in order of creation, so "deleted exactly once" can be said of each; the
  object records which values it passes to `delete`.
- *Hash table.* `size_t` has 64 bits. Entering a key of length zero is a panic in `mymemdup` (util/mymalloc.c:155-156),
  so a precondition; such a key can be looked up, and is never found.
- *Where code and documentation differ.* `format_tv` documents `max_dig` as a limit on the digits after the decimal
  point, but the branch for one second or more computes a resolution that does not depend on it. The model follows the
  code; `FormatTv.LimitCanBeExceeded` gives an input, `FormatTv.PrintedWithin` says which calls keep the limit, and
  `FormatTv.WithinLimitExactly` for which seconds and arguments all calls do. `dict_cache` allows a FIRST request in the
  middle of an enumeration; `DictCache.FirstIsSafeUnless` says exactly when that leaves the table with a deleted current
  entry, and `DictCache.NextIsSafe` what it means for runs. (The header also asks programs not to use both
  dict_cache_sequence and the cleanup; the model does not need that.)

## Model

| member | source | states |
|---|---|---|
| `RedBlackTree.RBTree.LeftRotate` | linuxdemo/rbtree.c:56-77 | the six link fields that a left rotation rewrites, the new root, and that no other field of any node changes |
| `RedBlackTree.RBTree.RightRotate` | linuxdemo/rbtree.c:79-99 | the mirror image |
| `RedBlackMemory.LeftRotation` | linuxdemo/rbtree.c:56-77 | those writes turn the tree in memory, inside any surroundings, into the rotated tree with all parent links right |
| `RedBlackTree.RBTree.InsertFixup` | linuxdemo/rbtree.c:101-146 | from a tree whose only defect is a red node under a red parent, or a red root, to a valid red-black tree with the same entries in the same order |
| `RedBlackTree.RBTree.Insert` | linuxdemo/rbtree.c:149-179 | keeps every invariant; the map gains exactly the new key and value, or is unchanged if the key was present |
| `RedBlackTree.RBTree.Search` | linuxdemo/rbtree.c:289-302 | finds a node with that key and its value exactly if the key is stored, and nil otherwise |
| `RedBlackTree.RBTree.Mini` | linuxdemo/rbtree.c:27-32 | reaches the leftmost node of a subtree, by left links only |
| `RedBlackTree.RBTree.Successor` | linuxdemo/rbtree.c:41-53 | returns the node of the next entry in key order, or nil for the last one |
| `RedBlackTree.RBTree.DeleteFixup` | linuxdemo/rbtree.c:181-249 | from a tree that lacks one black node at x, which may be nil with a temporary parent, to a valid red-black tree with the same entries |
| `RedBlackSpec.InnerNephewLeft` | linuxdemo/rbtree.c:200-205 | the case of a red inner nephew keeps the invariant of the fixup loop and turns it into the last case |
| `RedBlackSpec.OuterNephewLeft` | linuxdemo/rbtree.c:207-213 | the last case restores the balance, whatever the colour of the parent |
| `RedBlackTree.RBTree.Delete` | linuxdemo/rbtree.c:251-287 | keeps every invariant; the map loses exactly z's key, although the node unlinked may be z's successor; exactly one node leaves the tree |
| `RedBlackSpec.RemoveSuccessor` | linuxdemo/rbtree.c:251-287 | unlinking the successor and moving its entry up gives a sorted list of entries without the deleted key |
| `RedBlackSpec.HeightBound` | linuxdemo/rbtree.c:101-146 | a tree of n keys and height h has 2^h <= (n+1)^2 |
| `EditFile.NextInv` | util/edit_file.c:190-353 | every step of every process, and every crash, keeps the invariant of locks, names and program counters |
| `EditFile.OneOwner` | util/edit_file.c:209-353 | in every run at most one process is between a successful open and its own rename or unlink; it holds the lock on exactly the inode that the temporary path names, and that inode is not the final file |
| `EditFile.FinalUntouched` | util/edit_file.c:238-301 | no step of any process, nor a crash, changes the content or mode of the inode under the final path |
| `EditFile.FinalReplaced` | util/edit_file.c:320-353 | the final path changes only by a rename, whole or cut short, of a process that flushed and synced that inode, which holds exactly what it flushed |
| `EditFile.RenamePublishes` | util/edit_file.c:338-343 | in every run, after a rename by p the final path names the inode that the temporary path named and that p had open and locked; it holds the data of p's last flush with the mode of its fchmod, and is synced; p did nothing else in between; the temporary path is free, unless p died halfway |
| `EditFile.StaysPublished` | util/edit_file.c:338-343 | until the next rename, the final path names that inode, with that content and mode |
| `EditFile.FlushedBefore` | util/edit_file.c:338-343 | a process that is about to rename did flush that content to that inode at an earlier step of the run |
| `EditFile.FinalIsWhole` | util/edit_file.c:320-353 | at every moment of every run the final file holds what it held at the start, or what some process had flushed to that inode as a whole |
| `EditFile.OpensEmpty` | util/edit_file.c:282-301 | in every run, a successful open leaves an empty regular file with the temporary mode and no other name |
| `EditFile.Recovers` | util/edit_file.c:209-301 | whatever earlier processes left behind, a process that then runs alone, in every run in which it does not die, can always take another step until it owns the output file, and owns it for the first time at the ninth step if the leftover has to be removed and at the fourth otherwise (a check of the open file against the temporary path, fstat and stat, is one step) |
| `TimerQueue.RequestValid` | util/events.c:912-961 | a request keeps the queue sorted by due time, stable among equals, and unique per callback and context; the queue has exactly that request added, in place of an older one |
| `TimerQueue.CancelValid` | util/events.c:980-989 | a cancel keeps all that and removes exactly the request for that pair |
| `TimerQueue.DrainDeliver` | util/events.c:1125-1139 | delivering the first timer keeps the state of the phase, and lowers the number of timers with an older label |
| `TimerQueue.DrainRequest` | util/events.c:919-940 | a request from a callback keeps the state of the phase and adds no timer with an older label |
| `TimerQueue.DeliveredOnce` | util/events.c:1126-1139 | two deliveries of one phase are never for the same callback and context |
| `Events.EventManager.Request` | util/events.c:894-961 | the two loops compute the specified queue; the result is the due time |
| `Events.EventManager.Cancel` | util/events.c:965-994 | the loop computes the specified queue; the result is the time left, or -1 |
| `Events.EventManager.TimerPhase` | util/events.c:1117-1139 | for every behaviour of the callbacks the phase ends; it delivers only timers queued before, none early, in order, none twice, each when the callbacks before it are done; the callbacks act as they do; afterwards the queue holds, for each callback and context, what the last request or cancel for it says, due at its clock reading plus its delay, or else what was queued before and not delivered |
| `TimerQueue.FateIsLast` | util/events.c:912-989 | the last action on a pair decides: a request is due at the clock reading of that request plus its delay, a cancel leaves nothing |
| `TimerQueue.SettledMembers` | util/events.c:1125-1139 | every timer in the queue after the phase is such a request, labelled with this call, or an old timer that nobody touched and that was not delivered |
| `Events.EventManager.Extend` | util/events.c:606-643 | the descriptor table grows to hold the descriptor; masks and existing slots are unchanged |
| `Events.EventManager.EnableRead` | util/events.c:729-780 | adds the descriptor to the read mask, installs the handler in its slot, leaves the others |
| `Events.EventManager.EnableWrite` | util/events.c:784-835 | the same for the write mask |
| `Events.EventManager.DisableReadWrite` | util/events.c:839-890 | clears both masks and the slot of that descriptor only |
| `AutoClient.NextInv` | util/auto_clnt.c:130-267 | every access, recover, close, application timer call and delivery keeps the invariant that ties open streams, read events and timers |
| `AutoClient.NeverPanics` | util/auto_clnt.c:130-142 | in every run no timer or read event is delivered to a client whose stream is closed |
| `AutoClient.NoConnectionOutlives` | util/auto_clnt.c:166-211 | in every run, when a timer phase ends, no open connection had reached its maximal age, or its maximal idle time, at the start of the phase |
| `AutoClient.OpenedAt` | util/auto_clnt.c:166-211 | in every run, an open connection was made by the access that found the client closed; the client has been open since, and its age counts from then |
| `AutoClient.NoneTooOld` | util/auto_clnt.c:166-267 | in every run, when a timer phase ends, no open connection had been opened max_ttl, or last accessed max_idle, before the start of the phase |
| `AutoClient.DeliveryCloses` | util/auto_clnt.c:130-142 | in every run, a timer or read event delivered to a client closes it, with its read event and both timers, and touches no other client |
| `AutoClientObject.AutoClnt.Open` | util/auto_clnt.c:166-211 | on success the stream is set, its read event is enabled, and idle and TTL timers are requested if configured; on failure nothing changes; this is the Access step of the state machine for a closed client |
| `AutoClientObject.AutoClnt.Close` | util/auto_clnt.c:214-235 | the stream is cleared, its read event is disabled, and both timers are cancelled; this is what the state machine does when it closes a client |
| `AutoClientObject.AutoClnt.Access` | util/auto_clnt.c:251-267 | opens a closed stream, with its read event and both timers; restarts only the idle timer of an open one; this is the Access step of the state machine |
| `AutoClientObject.AutoClnt.Recover` | util/auto_clnt.c:239-247 | closes an open stream, with its read event and both timers, and does nothing otherwise; this is the Recover step of the state machine |
| `DictCache.CacheIsMap` | util/dict_cache.c:269-437 | after any sequence of updates, deletes and sequence steps, every lookup answers as a plain map in which a delete takes effect at once and a sequence step does nothing |
| `DictCache.SequenceIsLogical` | util/dict_cache.c:360-437 | a sequence step, which may delete an entry behind it, does not change the logical map |
| `DictCache.NextIsSafe` | util/dict_cache.c:376-437 | in every run of cleanup events and application calls, FIRST and NEXT calls included, the current entry of the table is stored at every moment, and so whenever NEXT is issued, if and only if no FIRST call returns the entry that is scheduled for deletion |
| `DictCache.FirstWhileNoneSaved` | util/dict_cache.c:376-534 | so it is in every run in which FIRST is issued only while no current key is saved, as the cleanup itself does |
| `DictCache.FirstIsSafeUnless` | util/dict_cache.c:376-437 | a FIRST request while a key is saved leaves a stored current entry if and only if the entry it returns is not the one scheduled for deletion |
| `DictCache.FirstCanBeUnsafe` | util/dict_cache.c:376-437 | a table of one entry for which it does not |
| `DictCache.QuietPass` | util/dict_cache.c:463-534 | a cleanup pass with no outside changes ends, after at most one event per entry and one more, with the accepted entries and the time stamp, and with the right counts |
| `DictCache.KeptMembers` | util/dict_cache.c:482-534 | those are exactly the entries of the start that the validator accepts, and the time stamp |
| `DictCache.UpdatedSurvives` | util/dict_cache.c:311-319 | an entry stored after it was scheduled for deletion, or after the enumeration passed it, is still there with that value until a new enumeration starts, whatever cleanup events, lookups, NEXT calls and changes of other keys come in between |
| `DictCache.EnumeratesOnce` | util/dict_cache.c:360-534 | an enumeration that has come to its end, by the application or by the cleanup, returned every entry that was stored throughout exactly once, with its stored value, whatever updates and deletes came in between |
| `DictCacheObject.DictCacheHandle.Lookup` | util/dict_cache.c:269-297 | answers from the table, except that an entry scheduled for deletion counts as absent |
| `DictCacheObject.DictCacheHandle.Update` | util/dict_cache.c:301-324 | the specified new state: the entry is stored, and a pending delete of it is dropped |
| `DictCacheObject.DictCacheHandle.Delete` | util/dict_cache.c:328-356 | the specified new state: deleted at once, or scheduled if it is the current entry |
| `DictCacheObject.DictCacheHandle.Sequence` | util/dict_cache.c:360-437 | the specified new state and result; the logical map is unchanged, and the invariant is kept by every NEXT and every safe FIRST |
| `DictCacheObject.DictCacheHandle.CleanEvent` | util/dict_cache.c:463-534 | the specified new state; the result says whether the pass goes on |
| `BTreeSpec.SplitInOrder` | linuxdemo/btree.c:57-88 | splitting a full child does not change the in-order sequence of keys |
| `BTreeSpec.SplitShaped` | linuxdemo/btree.c:57-88 | splitting keeps the bounds on the number of keys and the equal depth of leaves |
| `BTreeSpec.InsertNonfullKeeps` | linuxdemo/btree.c:90-113 | inserting below a node that is not full keeps shape and height, adds exactly the key to the in-order multiset, and keeps sorted keys sorted |
| `BTreeSpec.InsertKeeps` | linuxdemo/btree.c:115-135 | for every B-tree of degree at least 2 and every key, insertion gives a B-tree with exactly that key added, one higher if and only if the root was full |
| `BTreeObject.BTreeHandle.SplitChild` | linuxdemo/btree.c:57-88 | the loops over keys and children move exactly what the split moves; every other node is unchanged |
| `BTreeMemory.SplitTied` | linuxdemo/btree.c:57-88 | those writes turn the tree in memory into the split tree |
| `BTreeObject.BTreeHandle.InsertNonfull` | linuxdemo/btree.c:90-113 | the recursive heap procedure computes the specified tree; nothing outside the subtree changes except by new nodes |
| `BTreeObject.BTreeHandle.Insert` | linuxdemo/btree.c:115-135 | from a B-tree in memory to a B-tree in memory: the specified tree, exactly one key more, and the specified height |
| `BTreeObject.Build` | linuxdemo/btree.c:361-372 | any run of insertions into a new tree leaves a B-tree in memory that holds exactly the keys inserted, repeated ones included |
| `BTreeObject.InsertSorted` | linuxdemo/btree.c:94-101 | the loop puts the key after the last key that is not greater and moves the others up by one |
| `Quanta.DecodeEncode` | util/base64_code.c:95-193 | if every group of characters decodes to the bytes it encodes, decoding undoes encoding of whole strings |
| `Quanta.EncodeDecode` | util/base32_code.c:111-196 | accepted input is the encoding of its result if and only if padding occurs only in the last group and that group is tidy |
| `Base64.EncodeOpt` | util/base64_code.c:95-127 | the loop appends, or stores, the encoding |
| `Base64.DecodeOpt` | util/base64_code.c:140-193 | the loop accepts exactly the input that the specification accepts, with its result |
| `Base64.InitTable` | util/base64_code.c:163-168 | the table that is filled on first use inverts the alphabet and marks all other characters invalid |
| `Base64.RoundTrip` | util/base64_code.c:95-193 | for every byte string, decoding undoes encoding (section 4 of RFC 4648) |
| `Base64.EncodedNumber` | util/base64_code.c:80-127 | the encoding of a byte string is the string read as one big-endian number, with zero bits to fill the last digit, in base 64, in the alphabet of the RFC, and padding |
| `Base64.AcceptsExactly` | util/base64_code.c:140-193 | decoding accepts exactly the input whose length is a multiple of four and that has characters of the alphabet up to an optional "=" in third or fourth place of a group; the rest is ignored |
| `Base64.ReencodesExactly` | util/base64_code.c:140-193 | accepted input is the encoding of its result if and only if "=" is only at the end and no bits or characters of the last quantum are ignored |
| `Base32.EncodeString` | util/base32_code.c:67-107 | the loop, and the padding after it, give the encoding |
| `Base32.DecodeString` | util/base32_code.c:111-196 | the loop accepts exactly the input that the specification accepts, with its result |
| `Base32.RoundTrip` | util/base32_code.c:67-196 | for every byte string, decoding undoes encoding (section 6 of RFC 4648) |
| `Base32.EncodedNumber` | util/base32_code.c:60-107 | the encoding of a byte string is the string read as one big-endian number, with zero bits to fill the last digit, in base 32, in the alphabet of the RFC, and padding |
| `Base32.ReencodesExactly` | util/base32_code.c:111-196 | accepted input is the canonical encoding of its result (section 3.5 of RFC 4648) if and only if every "=" is in the last eight characters |
| `AttrSpec.DecimalRoundTrip` | util/attr_scan0.c:229-262 | scanning a printed number of that width gives the number |
| `AttrSpec.DecimalCut` | util/attr_scan0.c:229-262 | a printed number that does not fit is saturated at the largest unsigned long, or cut to the width |
| `AttrSpec.TrailingRefused` | util/attr_scan0.c:229-262 | a number followed by anything else is refused |
| `AttrStream.Stream.GetNull` | util/vstring_vstream.c:116-125 | the loop reads the string up to a null byte and consumes exactly that, or everything at end of file |
| `AttrStream.PrintTo` | util/attr_print0.c:110-201 | the loop appends the specified bytes |
| `AttrStream.ReadTable` | util/attr_scan0.c:306-450 | the rounds that fill a hash table, with and without braces, compute the specified result for all input |
| `AttrStream.ScanFromStream` | util/attr_scan0.c:266-451 | for all wish lists, flags and input: the specified return value, targets and remaining input |
| `AttrRoundTrip.RoundTrip` | util/attr_scan0.c:306-450 | asked for the list that was sent, the receiver recovers every int, long, string, data and hash value, returns the number of attributes and table entries, and takes exactly what was sent from its input, the list terminator too unless it expects more; for every order of the table entries and whatever follows in the stream |
| `AttrRoundTrip.RecoveredExactly` | util/attr_scan0.c:306-450 | it recovers every value if and only if names and keys are not empty, no key is "}", and no table has more than 1024 entries |
| `AttrSearch.ScanIsSearch` | util/attr_scan0.c:306-400 | for every wish list of named attributes, every list of named attributes sent, all flags, and whatever follows: the receiver finds what a forward search of the list finds, and leaves what that leaves |
| `AttrSearch.RecoversPart` | util/attr_scan0.c:372-388 | asked for some of the attributes sent, in that order, the receiver recovers exactly their values and returns their number, whatever else was sent before, between and after them |
| `AttrSearch.MissingEnds` | util/attr_scan0.c:347-355 | at a name that was not sent it returns the conversions so far, having read to the end of the list |
| `AttrSearch.ExtraStops` | util/attr_scan0.c:378-382 | with the EXTRA flag it stops at the first attribute that it did not ask for |
| `AttrSearch.MergedScan` | util/attr_scan0.c:423-440 | a table sent to a receiver whose table has entries, or with a key twice, adds only new keys; every entry counts as a conversion |
| `CidrMatch.MaskAddr` | util/mask_addr.c:50-68 | clears every bit after the first network_bits bits, and no other |
| `CidrMatch.ParsePattern` | util/cidr_match.c:222-285 | a pattern is accepted exactly if address and mask parse, the stored mask length fits, and no host bit is set; the entry then holds the network and a mask of that many ones |
| `CidrMatch.PrefixByBytes` | util/cidr_match.c:116-144 | the masked compare of all bytes holds if and only if the first mask_shift bits agree |
| `CidrMatch.PlainCompare` | util/cidr_match.c:133-142 | with a mask of all ones the plain compare equals the masked compare |
| `CidrMatch.MatchEntry` | util/cidr_match.c:116-144 | matches, up to negation, if and only if the first mask_shift bits agree |
| `CidrRules.KeptNested` | util/dict_cidr.c:151-165 | the nesting check leaves only rule lists in which every ENDIF has an IF |
| `CidrRules.KeptGood` | util/dict_cidr.c:300-307 | if every pattern that parsed is a compiled one, so is every pattern in the list that is built, whatever lines are dropped |
| `CidrRules.KeptRules` | util/dict_cidr.c:300-335 | every match rule and IF that parses is kept, in order |
| `CidrRules.KeptEnd` | util/dict_cidr.c:151-165 | an ENDIF is kept if and only if a block is open |
| `CidrRules.EnclosesExactly` | util/dict_cidr.c:318-329 | an IF encloses a later rule if and only if no ENDIF up to there is left over for it when those of inner blocks are matched |
| `CidrRules.EndsClose` | util/dict_cidr.c:318-329 | the IF on top of the rule stack is the one that ENDIF closes; the other block ends stay right |
| `CidrRules.SkipBlock` | util/cidr_match.c:168-180 | after an IF that does not match, no rule up to its ENDIF applies, and the rule after that is enclosed by the same IFs; without ENDIF no later rule applies |
| `CidrTable.OpenTable` | util/dict_cidr.c:300-335 | the list in memory has the kept rules in order, next links, and for every IF a link to the ENDIF that closes it or none |
| `CidrTable.Walk` | util/cidr_match.c:148-182 | the walk returns the first match rule whose pattern matches and whose enclosing IFs all match, and nothing exactly if there is none |
| `CidrTable.Lookup` | util/dict_cidr.c:82-96 | the value of that rule; nothing for text that is not an address |
| `CTableSpec.HoldsRecent` | util/ctable.c:140-203 | after every run of locate and refresh, the ring holds the most recently used keys in that order: as many as fit, or all of them |
| `CTableSpec.RunInv` | util/ctable.c:140-203 | in every run the keys are distinct, no more than the limit, and every value made is cached once or was deleted once |
| `CTableSpec.HoldsLastMade` | util/ctable.c:140-203 | after every run, the value cached for a key is the one that was made last for that key, and values were made exactly by refreshes and by requests for keys that were not among the most recent |
| `CTableSpec.MadeAt` | util/ctable.c:140-203 | the key has been in the cache ever since that value was made, and got no other value |
| `CTableSpec.Returned` | util/ctable.c:140-203 | a refresh, and a locate of a key that is not cached, return the value made by that call; a locate of a cached key returns the value it had and makes and deletes nothing |
| `CTable.CacheTable.Find` | util/ctable.c:140-178 | the specified cache; ring and table hold the same entries; the result is the value of the entry now in front; the values that were passed to delete are those of the specification |
| `CTable.CacheTable.Renew` | util/ctable.c:182-203 | the specified cache with a fresh value for that key in front, after its old value was passed to delete |
| `CTable.CacheTable.Free` | util/ctable.c:216-238 | whatever the order of the hash table, by the end every value ever made has been passed to delete exactly once |
| `CTable.TableSize` | util/ctable.c:119-178 | the hash table has as many keys as the ring has entries, and these are distinct |
| `BinHash.FlatOnce` | util/binhash.c:319-337 | the chains, one after the other, hold each entry of the map once and nothing else, as many as the map has keys |
| `BinHash.GoodRemove` | util/binhash.c:251-275 | taking an entry out of its chain keeps every chain linked both ways, every entry in the bucket its hash selects, and removes exactly that key |
| `BinHashTable.Link` | util/binhash.c:148-155 | the entry goes in front of the chain of its bucket, linked both ways, and is counted; all other chains are unchanged |
| `BinHashTable.Grow` | util/binhash.c:186-203 | rehashing gives a table of twice the size plus one with the same entries, each in the chain that its hash selects in the new table; `used`, counted again from zero, is their number |
| `BinHashTable.HashTable.Enter` | util/binhash.c:207-219 | for an absent key the map gains exactly that entry; the number of entries never exceeds the number of buckets; the array is the old one or new |
| `BinHashTable.HashTable.Locate` | util/binhash.c:238-247 | returns the entry of the map, or null, for every key |
| `BinHashTable.HashTable.Delete` | util/binhash.c:251-275 | the map loses exactly that key; the neighbours in the chain are linked to each other |
| `BinHashTable.HashTable.PerformAll` | util/binhash.c:127-275 | through every run of enter, find and delete, with all the rehashing it causes, the answers and the final contents are those of a plain map |
| `BinHashTable.HashTable.ListAll` | util/binhash.c:319-337 | every entry of the map once, and nothing else |
| `FormatTv.ResolutionIsPower` | util/format_tv.c:77-98 | the resolution is always a power of ten that divides a million, and is one microsecond only if there can be no carry |
| `FormatTv.Format` | util/format_tv.c:65-124 | prints the time rounded half up to a multiple of the resolution: seconds, and a fraction that is empty or ends in a digit other than zero |
| `FormatTv.RoundedBelowOne` | util/format_tv.c:77-107 | below one second, if decimals are allowed: the multiple of u within half a unit of the time, the upper one of two, where u is the least power of ten that is at least 10^(6-max_dig) and leaves fewer than 10^sig_dig units |
| `FormatTv.SignificantBelowOne` | util/format_tv.c:94-97 | so the time has exactly sig_dig digits in that unit, or the unit is the last decimal allowed |
| `FormatTv.RoundedFromOne` | util/format_tv.c:77-107 | from one second on the full seconds have exactly sig_dig digits in the unit, or the unit is one second |
| `FormatTv.Digits` | util/format_tv.c:115-121 | every digit index is from 0 to 9; the digits printed are worth the microseconds cut to the resolution, the last is not zero, and there are no more of them than the resolution has decimals |
| `FormatTv.FractionUnique` | util/format_tv.c:109-122 | there is exactly one way to print a fraction of a second with six places and no zero at the end |
| `FormatTv.PrintedWithin` | util/format_tv.c:77-122 | one call prints at most max_dig digits after the point if and only if the rounded time is a multiple of that unit |
| `FormatTv.WithinLimitExactly` | util/format_tv.c:77-122 | for given seconds and arguments, every call prints at most max_dig digits after the point if and only if the time is below one second, max_dig is zero, or sig_dig is at most max_dig plus the number of digits of the seconds |
| `FormatTv.LimitCanBeExceeded` | util/format_tv.c:89-98 | 1.23456 seconds with six significant digits and a limit of two decimals: five digits are printed after the point |

## Left out

- `rbtree_maxi`, `rbtree_traversal`, `btree_print`, `btree_bin_search`: mirror images, printing and easy members.
- `btree_delete_key`, `btree_merge` and their callers: as written they take a child's own key instead of the subtree's extreme, leave a separator unchanged when borrowing from the left, and read a node that may have been freed, so no order property holds.
- Edit file: permissions other than the mode bits the protocol uses, error returns of system calls other than those that steer the retry loop, and durability of the rename itself.
- Events: kernel event filters, the select, epoll and kqueue variants, `event_drain`, `event_fork`, and the I/O phase as a loop; delivery of read events is a step of the client state machine. Wrap-around of the loop instance counter.
- Delete-behind cache: database errors, cancelling a cleanup, and logging; an error step clears the saved key while the delete flag stays set, and a cancel drops a pending delete.
- Attribute lists: the FUNC attribute type and the base64 and plain variants of the protocol, which have the same loops.
- CIDR: splitting lines into words, brackets around addresses, and error texts; regular expression tables with the same IF/ENDIF compilation.
- LRU cache: `ctable_walk`, `ctable_newcontext`, and create callbacks that use the cache again. The ring is a sequence, not linked entries.
- Hash table: `binhash_free` and `binhash_walk`, which have the loops of `binhash_list`.
- Time formatter: machine overflow of `wid * ures`.
- Memory allocation, verbose output and the texts of panics and warnings; panics are preconditions, except the one shown unreachable.
