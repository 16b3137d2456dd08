# Verified model of the search engine's network and language code

The repository holds a small web crawler test bed: an HTTP server built on an event library, a
generator of artificial web pages, and the stemmers of an indexer. This project models the parts of
it whose correctness rests on invariants, and proves those invariants for every input and every run.

* `RbShape`, `RbTree`: the red-black tree of the event library, on nodes linked by pointers. The
  pointers are tied to a tree with a hole in it (a shape and its context), on which rotation and
  recolouring are functions.
* `Among`, `Snowball`, `Utf8`, `Symbols`, `Stemming`, `Tables`, `Norwegian`, `Danish`: the run time of the
  stemmers, with the search in sorted tables of endings and the moves of the text in memory, and two
  complete stemmers over their real tables.
* `DnsName`: domain names in messages, parsed and written with compression.
* `MinHeap`, `EventCore`: the timer heap with back-indices and the event base with its queues, flags
  and counters, through callbacks that call the library again.
* `Markov`: the text model of the page generator, its chained and its collision-free table, and the
  generator itself.
* `Evbuffer`, `Tagging`, `Chunked`, `ChunkedCuts`: the byte buffer, the tagged records and the chunked
  transfer coding on it, including arrival in pieces.
* `DnsRing`, `Resolver`: the resolver's requests in two rings, and who calls back for which lookup.
* `WorkerPool`: the hand-off of accepted sockets to worker threads, as a state machine over the steps
  of all threads.
* `PollIndex`: the dense and sparse arrays of the poll backend.

Where the code updates objects the model does too: trees, heaps, buffers, rings and tables are classes
whose methods are proved against values, and the theorems are about these values. `Basics` holds what
the modules share. What the values mean is said again where it counts in bytes, bits,
characters and numbers, so that a definition a method and its specification have in common is held to the source.

Some results say where the code does not do what one would expect, and exactly when:

* A chunked body that arrives with a cut between the CR and the LF of a size line is misread;
  `ChunkedCuts.StreamInPieces` says which cuts do this and that no other does.
* Moving all timers back after a clock change can break the order of the heap if deadlines are not
  normalised; `MinHeap.ShiftedOrder` and `MinHeap.EveryShiftOrder` say for which heaps.
* A nameserver that is being probed when the resolver is suspended is used after it has been freed, and no
  other freed one is (`Resolver.Resolver.Run`); a resolver resumed without nameservers goes through a
  null pointer (`Resolver.Resolver.Resume`).
* A request that a nameserver refuses is to be tried again with another one (contrib/libevent/evdns.c:589-600).
  One that has not been sent yet is moved away already when its nameserver is marked as failed, so that with
  exactly one other nameserver up the second choice is the same, and the request fails;
  `Resolver.Resolver.ReplyHandle` says when it is tried again.
* A wakeup byte that cannot be written leaves a socket unserved, and nothing else does
  (`WorkerPool.AllServed`).
* After a dispatch that was broken off, deleting its event writes to the dead frame of the dispatcher
  (`EventCore.EventBase.EventDel`, `EventCore.DeadFrame`).
* The fast table of the page generator does not compare words (`Markov.IdealState.LookupIdeal`);
  `Markov.Closure` shows that only prefixes of the text are ever looked up.

Where code and comments disagree the model follows the code: a reply SERVERFAILED is said to let the
request time out (contrib/libevent/evdns.c:714-723), but the failure is passed on like any other.

`dafny verify dfyconfig.toml` checks the project.

## Model

| member | source | states |
|---|---|---|
| `RbTree.Tree.Insert` | contrib/libevent/WIN32-Code/tree.h:577-606 | A linked node joins the tree exactly when its key was free: every key of the tree differs from it and the elements are the old ones and it. If the key is taken, its holder is returned and nothing changes. Search order, no red child of a red node, equal black counts on all paths, a black root and parent links that match the child links hold again. |
| `RbTree.Tree.Remove` | contrib/libevent/WIN32-Code/tree.h:510-575 | For any element of the tree, wherever it stands, the elements are then exactly the others, it is returned, and all red-black invariants and all links hold again. |
| `RbTree.Tree.Find` | contrib/libevent/WIN32-Code/tree.h:609-623 | Returns an element with the key if there is one, and null only if no element has it. |
| `RbTree.Tree.Next` | contrib/libevent/WIN32-Code/tree.h:626-644 | Returns the element of the least key above that of `elm`; null only if there is no greater key. |
| `RbTree.Tree.MinMax` | contrib/libevent/WIN32-Code/tree.h:647-660 | Returns an element whose key is a bound of all keys, below for a negative argument and above otherwise; null only for the empty tree. |
| `RbTree.Tree.InsertColor` | contrib/libevent/WIN32-Code/tree.h:390-432 | From a tree whose only flaw is a red node, possibly below a red parent, the loop with its eight cases arrives at a red-black tree of the same nodes. |
| `RbTree.Tree.RemoveColor` | contrib/libevent/WIN32-Code/tree.h:434-508 | From a tree in which one subtree, possibly empty, is one black node short, the loop with its mirrored cases arrives at a red-black tree of the same nodes. |
| `RbTree.Tree.RotateLeft` | contrib/libevent/WIN32-Code/tree.h:335-353 | All pointer writes together turn the linked subtree into its left rotation and leave the tree around it in order. |
| `RbTree.Tree.RotateRight` | contrib/libevent/WIN32-Code/tree.h:355-373 | The mirror image: the linked subtree becomes its right rotation. |
| `RbShape.InsertedWhole` | contrib/libevent/WIN32-Code/tree.h:392-431 | A balanced subtree without red-red pairs whose root is not a red node under a red parent completes its surroundings to a whole tree that has the colour invariants; if there are surroundings the root is black. |
| `RbShape.FixedWhole` | contrib/libevent/WIN32-Code/tree.h:437-507 | A repaired subtree below any position gives a red-black tree of all nodes of the two. |
| `Among.FindsBest` | stemmer2/sb/runtime/utilities.c:254-268 | Wherever the bisection lands, the walk along the substring links stops at the entry that a scan of the whole table finds: the longest key that begins the text and whose guard accepts. If it finds none, the last key it tried is the shortest that matched. |
| `Among.WalkFindsBest` | stemmer2/sb/runtime/utilities.c:254-268 | The same from any entry of the walk, once all longer matches have been tried and refused. |
| `Among.MatchesArePrefixes` | stemmer2/sb/runtime/utilities.c:212-268 | Every key that begins the text is a prefix of the key on which the bisection lands, and lies within the part they share. |
| `Snowball.BisectForward` | stemmer2/sb/runtime/utilities.c:212-253 | The bisection with the two remembered common lengths lands on the last key that is not after the text, with the exact number of symbols the two share, or on the first key if all are after it. |
| `Snowball.BisectBackward` | stemmer2/sb/runtime/utilities.c:272-308 | The same for text read backwards from the cursor. |
| `Snowball.SnEnv.FindAmong` | stemmer2/sb/runtime/utilities.c:212-268 | Returns the result of the longest entry that matches at the cursor and is accepted, and moves the cursor behind it; 0 exactly if there is none, and then where the cursor is left is stated too. |
| `Snowball.SnEnv.FindAmongB` | stemmer2/sb/runtime/utilities.c:272-323 | The same for suffixes that end at the cursor and do not begin before the backward limit. |
| `Symbols.Buffer.Replace` | stemmer2/sb/runtime/utilities.c:348-378 | In memory: the two moves, over overlapping stretches and into a larger array if need be, leave the old text with the stretch replaced, the limit and the cursor behind it move along, and the call fails exactly if memory is needed and refused, with the text lost and limit and cursor as they were. |
| `Symbols.Buffer.Move` | stemmer2/sb/runtime/utilities.c:363-374 | The two moves alone, the tail over itself and the new symbols into the gap, leave the old text with the stretch replaced. |
| `Symbols.Buffer.Increase` | stemmer2/sb/runtime/utilities.c:329-342 | Either the same text in an array with room for the symbols asked for and twenty more, or no text at all. |
| `Symbols.Buffer.ReplaceInWord` | stemmer2/sb/runtime/utilities.c:348-378 | Within the limit only the word changes, as the stemmers see it, and the symbols behind the limit stay. |
| `Symbols.Buffer.SetCurrent` | stemmer2/sb/runtime/api.c:60-65 | The word becomes the given one, whatever it was, and one symbol stays behind the limit, where the terminator is written. |
| `Snowball.SnEnv.SliceFromS` | stemmer2/sb/runtime/utilities.c:397-400 | With a sound slice the text of the slice, and nothing else, becomes the argument; with a faulty one the answer is -1 and nothing changes. |
| `Snowball.SnEnv.SliceDel` | stemmer2/sb/runtime/utilities.c:406-408 | A sound slice disappears from the text; a faulty one is answered by -1 and no change. |
| `Snowball.SnEnv.InsertS` | stemmer2/sb/runtime/utilities.c:410-417 | The stretch is replaced, and each end of the current slice that lies at or after it moves along. |
| `Snowball.SkipUtf8` | stemmer2/sb/runtime/utilities.c:35-64 | Moves over the given number of UTF-8 characters, forwards or backwards, or answers -1 exactly if the limit comes first. |
| `Utf8.Hops` | stemmer2/sb/runtime/utilities.c:35-50 | On well-formed text of characters of up to three bytes a move over n characters comes behind n characters, or is refused if there are fewer. |
| `Utf8.HopsBack` | stemmer2/sb/runtime/utilities.c:51-64 | A move back over one character comes to its first byte. |
| `Utf8.ReadsForward` | stemmer2/sb/runtime/utilities.c:68-80 | A character of up to three bytes is read with its number and its width. |
| `Utf8.ReadsBackward` | stemmer2/sb/runtime/utilities.c:82-94 | Backwards too, but of three bytes the second one is taken for the first. |
| `Utf8.StepBack` | stemmer2/sb/runtime/utilities.c:108-118 | A run of characters read backwards goes on in front of a character that belongs to it, and ends behind any other. |
| `Utf8.Runs` | stemmer2/sb/runtime/utilities.c:96-106 | A run of characters read forwards ends in front of the first one that does not belong to it. |
| `Snowball.SnEnv.GroupingU` | stemmer2/sb/runtime/utilities.c:96-130 | Without repetition one character is skipped exactly if it belongs, or does not belong, to the group; with it the cursor stops at the first character that breaks the run or at the limit. |
| `Snowball.SnEnv.GroupingBU` | stemmer2/sb/runtime/utilities.c:108-142 | Backwards: one character is skipped exactly if it belongs, or does not belong, to the group; with repetition the cursor stops behind the first character that breaks the run or at the limit. |
| `Tables.NorwegianMainInOrder` | stemmer2/sb/src_c/stem_UTF_8_norwegian.c:29-90 | The table of 29 endings is strictly sorted when read backwards, and each link names the longest other entry that the entry ends in. |
| `Tables.NorwegianOtherInOrder` | stemmer2/sb/src_c/stem_UTF_8_norwegian.c:101-126 | The same for the table of 11 endings. |
| `Tables.NorwegianPairInOrder` | stemmer2/sb/src_c/stem_UTF_8_norwegian.c:92-99 | The same for the two consonant pairs. |
| `Tables.DanishMainInOrder` | stemmer2/sb/src_c/stem_UTF_8_danish.c:30-97 | The same for the 32 endings of the Danish table. |
| `Tables.DanishPairInOrder` | stemmer2/sb/src_c/stem_UTF_8_danish.c:99-110 | The same for the four Danish pairs. |
| `Tables.DanishOtherInOrder` | stemmer2/sb/src_c/stem_UTF_8_danish.c:112-125 | The same for the five Danish endings. |
| `Stemming.ScreenIsSound` | stemmer2/sb/src_c/stem_UTF_8_norwegian.c:168-168 | The bit mask test on the last byte never turns away a word that ends in an entry of the table after the mark. |
| `Stemming.MarkRegions` | stemmer2/sb/src_c/stem_UTF_8_norwegian.c:135-157 | The mark p1 is set behind the first non-vowel that follows a vowel but not within the first three characters, or at the end of the word if there is no such place. |
| `Stemming.RegionIs` | stemmer2/sb/src_c/stem_UTF_8_norwegian.c:135-157 | In characters, for every well-formed word: behind the first character that is none of the nine vowels and follows the first of them, and behind the third character. |
| `Stemming.NoRegion` | stemmer2/sb/src_c/stem_UTF_8_norwegian.c:135-157 | At the end of the word, if it has no such character or fewer than three. |
| `Stemming.VowelLetters` | stemmer2/sb/src_c/stem_UTF_8_norwegian.c:128-128 | The bit map of the vowels: a, e, i, o, u, y, and the three letters 229, 230 and 248. |
| `Stemming.FindSuffix` | stemmer2/sb/src_c/stem_UTF_8_norwegian.c:163-173 | Finds the longest ending of the table that lies after p1, with the slice around it, or says that there is none, by a definition that scans all entries. |
| `Norwegian.MainSuffix` | stemmer2/sb/src_c/stem_UTF_8_norwegian.c:159-202 | The word becomes what the rule on the main endings makes of it; `Norwegian.MainRuleIs`, `Norwegian.MainRuleAtS` and `Norwegian.MainRuleIsNone` say what that is. |
| `Norwegian.MainRuleIs` | stemmer2/sb/src_c/stem_UTF_8_norwegian.c:159-202 | For every word, every p1 and every entry that ends the word from p1 on, with no longer entry doing so: with result 1 the ending goes, with result 3 it becomes "er", and with result 2 it goes exactly if the character before it is one of seventeen, listed by number, or a "k" behind a character that is none of the nine vowels. |
| `Norwegian.MainRuleAtS` | stemmer2/sb/src_c/stem_UTF_8_norwegian.c:181-194 | In characters: a bare "s" at the end of a well-formed word goes exactly after b, c, d, f, g, h, j, l, m, n, o, p, r, t, v, y or z, and after a k that stands behind a non-vowel. |
| `Norwegian.MainRuleIsNone` | stemmer2/sb/src_c/stem_UTF_8_norwegian.c:159-172 | A word that no entry ends from p1 on stays as it is. |
| `Norwegian.SLetters` | stemmer2/sb/src_c/stem_UTF_8_norwegian.c:130-130 | The bit map of the letters that allow the "s" to go. |
| `Norwegian.ConsonantPair` | stemmer2/sb/src_c/stem_UTF_8_norwegian.c:204-229 | A word that ends in "dt" or "vt" after p1 loses its last character. |
| `Norwegian.PairRuleIs` | stemmer2/sb/src_c/stem_UTF_8_norwegian.c:204-229 | Exactly a word with "dt" or "vt" as its last two characters, both from p1 on, loses the last one. |
| `Norwegian.OtherSuffix` | stemmer2/sb/src_c/stem_UTF_8_norwegian.c:231-255 | The word becomes what the rule on the other endings makes of it. |
| `Norwegian.OtherRuleIs` | stemmer2/sb/src_c/stem_UTF_8_norwegian.c:231-255 | The longest of the eleven other endings that ends the word from p1 on goes. |
| `Norwegian.OtherRuleIsNone` | stemmer2/sb/src_c/stem_UTF_8_norwegian.c:231-243 | A word that none of them ends from p1 on stays as it is. |
| `Norwegian.Stem` | stemmer2/sb/src_c/stem_UTF_8_norwegian.c:257-294 | For every word the buffer ends up holding the composition of the three rules and the call succeeds. |
| `Norwegian.StemIsPrefix` | stemmer2/sb/src_c/stem_UTF_8_norwegian.c:257-294 | The stem of every word is a prefix of the word, and is the whole word or at least three characters long. |
| `Norwegian.StemOfHuset` | stemmer2/sb/src_c/stem_UTF_8_norwegian.c:257-294 | The stem of "huset" is "hus". |
| `Danish.MainSuffix` | stemmer2/sb/src_c/stem_UTF_8_danish.c:159-189 | The word becomes what the rule on the main endings makes of it; `Danish.MainRuleIs`, `Danish.MainRuleAtS` and `Danish.MainRuleIsNone` say what that is. |
| `Danish.MainRuleIs` | stemmer2/sb/src_c/stem_UTF_8_danish.c:159-189 | For every word, every p1 and every entry that ends the word from p1 on, with no longer entry doing so: with result 1 the ending goes, and with result 2 exactly if the character before it is one of twenty, listed by number. |
| `Danish.MainRuleAtS` | stemmer2/sb/src_c/stem_UTF_8_danish.c:181-186 | In characters: a bare "s" at the end of a well-formed word goes exactly after one of a, b, c, d, f, g, h, j, k, l, m, n, o, p, r, t, v, y, z and the a with ring. |
| `Danish.MainRuleIsNone` | stemmer2/sb/src_c/stem_UTF_8_danish.c:159-172 | A word that no entry ends from p1 on stays as it is. |
| `Danish.SLetters` | stemmer2/sb/src_c/stem_UTF_8_danish.c:129-129 | The bit map of the letters that allow the "s" to go. |
| `Danish.ConsonantPair` | stemmer2/sb/src_c/stem_UTF_8_danish.c:191-216 | A word that ends in one of the four pairs after p1 loses its last character. |
| `Danish.PairRuleIs` | stemmer2/sb/src_c/stem_UTF_8_danish.c:191-216 | Exactly a word with "gd", "dt", "gt" or "kt" as its last two characters, both from p1 on, loses the last one. |
| `Danish.OtherSuffix` | stemmer2/sb/src_c/stem_UTF_8_danish.c:218-266 | An "st" after "ig" goes, then the longest other ending after p1 is dropped or shortened, with the pair rule applied again where the source does. |
| `Danish.OtherRuleIs` | stemmer2/sb/src_c/stem_UTF_8_danish.c:218-266 | A word that ends in "igst" loses the "st" first. Then the longest of the other endings that ends it from p1 on goes and the pair rule is applied, but an o with stroke between "l" and "st" costs it only the "t". |
| `Danish.OtherRuleIsNone` | stemmer2/sb/src_c/stem_UTF_8_danish.c:218-250 | Without such an ending only the "st" goes. |
| `Danish.Undouble` | stemmer2/sb/src_c/stem_UTF_8_danish.c:268-287 | A last consonant after p1 that stands there twice goes once. |
| `Danish.UndoubleRuleIs` | stemmer2/sb/src_c/stem_UTF_8_danish.c:268-287 | In characters: for every well-formed word with its last character behind p1, that character goes exactly if it is none of the nine vowels and stands there twice, be the first of the two behind p1 or not. |
| `Danish.Stem` | stemmer2/sb/src_c/stem_UTF_8_danish.c:289-334 | For every word the buffer ends up holding the composition of the four rules and the call succeeds. |
| `Danish.StemIsPrefix` | stemmer2/sb/src_c/stem_UTF_8_danish.c:289-334 | The stem of every word is a prefix of the word. |
| `Danish.StemOfHusene` | stemmer2/sb/src_c/stem_UTF_8_danish.c:289-334 | The stem of "husene" is "hus". |
| `DnsName.NameParse` | contrib/libevent/evdns.c:754-808 | Succeeds exactly if the bytes at the index spell a name within the packet, over at most as many pointers as the packet has bytes, and the output has room for it and its zero; then the output is that name, dots between the labels, and the index is behind the first pointer or the terminator and inside the packet. It ends on every packet, also on one whose pointers form a cycle. What the bytes spell is said byte by byte in `DnsName.ReadsBytes` and `DnsName.PointerLeads`. |
| `DnsName.ReadsBytes` | contrib/libevent/evdns.c:769-801 | A zero byte ends a name, a byte below 64 is followed by that many bytes of a label, and any other byte is, with the next one and without the two top bits, the position at which the name goes on. |
| `DnsName.PointerLeads` | contrib/libevent/evdns.c:776-787 | Two bytes that make 0xC000 + t in network order are read as the name at t, with one jump less to spare, and the message goes on behind them. |
| `DnsName.EndsAt` | contrib/libevent/evdns.c:769-801 | Where a name ends in the message: behind its zero, or behind the two bytes of its first pointer. |
| `DnsName.JoinsWithDots` | contrib/libevent/evdns.c:789-794 | The labels of a parsed name are joined by character 46. |
| `DnsName.LabelTable.GetPos` | contrib/libevent/evdns.c:1309-1318 | Answers the position of an entry with exactly this name, and -1 exactly if there is none. |
| `DnsName.DnsNameToLabels` | contrib/libevent/evdns.c:1349-1413 | Succeeds for every name of at most 255 bytes with labels of at most 63 that fits as it stands, and without a table exactly for those. On success the bytes before the name are untouched, a well-formed name is spelled where it was written, ending where the answer says, and every entry of the table, old or new, is spelled at its position by pointers that lead strictly backwards. On failure the answer is -1 or -2. The bytes are stated: a rest of the name that is in the table is the two bytes of a position of it with the two top bits set, any other rest is the length and the bytes of its first label and then the rest behind the dot, and a zero follows if no pointer does. The table then holds, up to 128 entries, what it held and the new rests where they stand. |
| `DnsName.RepeatedName` | contrib/libevent/evdns.c:1376-1379 | A name that has an entry at pos is written as exactly the two bytes that make 0xC000 + pos. |
| `DnsName.NewEntriesDistinct` | contrib/libevent/evdns.c:1309-1334 | No name ever has two entries, so that its position is the entry the table finds. |
| `DnsName.ShortRuns` | contrib/libevent/evdns.c:1386-1399 | All labels have at most 63 bytes if and only if among any 64 bytes of the name there is a full stop. |
| `DnsName.WriteMessage` | contrib/libevent/evdns.c:1634-1683 | Any number of names and other fields written one after the other with one table: they fit if they do so without compression, and in the finished message every well-formed name is still spelled at its own start. |
| `DnsName.RoundTrip` | contrib/libevent/evdns.c:754-808 | What is spelled at a position by backward pointers is what the parser reads there with its bound on jumps, and joined with dots it is the name without its final dot. |
| `DnsName.MessageRoundTrip` | contrib/libevent/evdns.c:1349-1413 | Every message whose names can be written and whose items fit as they stand is written, and every well-formed name of it, parsed at its start into a buffer of 256 bytes, comes back without its final dot, with the index behind it. |
| `MinHeap.Heap.Push` | contrib/libevent/min_heap.h:65-71 | The event joins the contents, heap order and back-indices hold; without memory nothing changes. |
| `MinHeap.Heap.Pop` | contrib/libevent/min_heap.h:73-83 | Takes out an event that is not later than any other; null exactly for the empty heap. |
| `MinHeap.Heap.Erase` | contrib/libevent/min_heap.h:85-94 | Takes an event out from any slot by its back-index, whichever way the last event then has to move; an event outside the heap changes nothing. |
| `MinHeap.Heap.Reserve` | contrib/libevent/min_heap.h:96-110 | Room for the events asked for, the slots in use as before; fails exactly when room is missing and memory is refused. |
| `MinHeap.Heap.ShiftUp` | contrib/libevent/min_heap.h:112-122 | From a heap with a hole, and possibly disorder only above it, the event comes to rest with heap order and exact back-indices for all. |
| `MinHeap.Heap.ShiftDown` | contrib/libevent/min_heap.h:124-137 | The same downwards, also for the case that the event is itself the last one and its slot has just been given up. |
| `MinHeap.Heap.Top` | contrib/libevent/min_heap.h:63-63 | No event of the heap is due before the one returned; null exactly for the empty heap. |
| `MinHeap.ShiftKeepsOrder` | contrib/libevent/event.c:906-917 | Moving two ordered deadlines back by the same amount puts them out of order if and only if the later one lies in the next second and borrows from it while the earlier one, with more than a whole second of microseconds above it, does not. Normalised deadlines never do. |
| `MinHeap.FragileIsOvertaken` | contrib/libevent/event.c:906-917 | The pairs that some normalised amount puts out of order. |
| `MinHeap.ShiftedOrder` | contrib/libevent/event.c:906-917 | One shift keeps a heap of deadlines a heap if and only if no child overtakes its parent by it. |
| `MinHeap.EveryShiftOrder` | contrib/libevent/event.c:906-917 | Every normalised shift does if and only if no parent and child are such a pair. |
| `MinHeap.ShiftBreaksHeap` | contrib/libevent/event.c:906-917 | A heap of two timers that stops being one when both move back by a microsecond. |
| `MinHeap.Heap.Rewind` | contrib/libevent/event.c:909-917 | All deadlines of the heap move back by the amount, and it is still a heap if and only if no child overtakes its parent; with normalised deadlines it always is. |
| `EventCore.EventBase.InsertInserted` | contrib/libevent/event.c:972-1004 | Ends the program exactly if the event is already there; otherwise it joins the end of the queue, with flag and count. |
| `EventCore.EventBase.InsertActive` | contrib/libevent/event.c:972-1004 | An active event stays where it is; any other joins the end of the queue of its priority, with flag and counts. |
| `EventCore.EventBase.InsertTimeout` | contrib/libevent/event.c:972-1004 | Ends the program exactly if the event has a timer; otherwise it joins the heap, with flag and count. |
| `EventCore.EventBase.RemoveInserted` | contrib/libevent/event.c:944-970 | Ends the program exactly if the event is not there; otherwise it leaves the queue and the order of the others stays. |
| `EventCore.EventBase.RemoveActive` | contrib/libevent/event.c:944-970 | The same for the active queue of its priority. |
| `EventCore.EventBase.RemoveTimeout` | contrib/libevent/event.c:944-970 | The same for the timer heap. |
| `EventCore.EventBase.EventAdd` | contrib/libevent/event.c:718-794 | Succeeds exactly if the heap has or gets room for a new timer and the backend accepts, when it is asked: it is asked exactly for an event with one of the bits read, write and signal that is neither inserted nor active. A failed call changes no queue, flag or deadline. After success the event is at the end of the queue of inserted events exactly if the backend was asked, its three flags are stated one by one, it has the timer asked for, and a pending expiry of the old timer is cancelled together with the calls that the running dispatch still owes it. |
| `EventCore.EventBase.EventDel` | contrib/libevent/event.c:796-834 | The event is on no queue and has no timer, and the others are as they were and in their order. Calls of it that the running dispatch still has to make are cancelled; if the calls left are those of a dispatch that is over, its dead count is written to, and only then. Both are stated in the fields: the count of the running dispatch becomes zero if the event is being called by it. |
| `EventCore.EventBase.EventActive` | contrib/libevent/event.c:836-849 | An active event only collects the new reasons, bit by bit, and keeps its calls; any other is queued behind its priority with the reasons and calls given. No other flag changes. |
| `EventCore.EventBase.EventBaseSet` | contrib/libevent/event.c:656-667 | Succeeds exactly for an event that is on no queue and not internal; the event is then in the base, where it may have been before, with the middle priority. |
| `EventCore.EventBase.PrioritySet` | contrib/libevent/event.c:674-685 | Succeeds exactly for an event that is not active and a priority that exists, and changes nothing else. |
| `EventCore.EventBase.TimeoutCorrect` | contrib/libevent/event.c:887-918 | If the clock ran back, every timer moves by exactly the microseconds the clock lost; otherwise none moves. The base is still sound if and only if no timer overtakes its parent in the heap. |
| `EventCore.EventBase.TimeoutProcess` | contrib/libevent/event.c:920-942 | Exactly the timers that are due fire, in the order of their deadlines; each leaves every queue and stands, in that order, at the end of the active queue of its priority, to be called once for its timeout. Exactly the later timers remain. The flags afterwards are stated for every event of the base, and every queue is what it was without the timers that fired, followed by those of its priority. |
| `EventCore.EventBase.ProcessActive` | contrib/libevent/event.c:363-397 | Whatever the callbacks do to the base, only the first non-empty priority is served, and it is empty afterwards unless a callback broke the loop. If they do nothing, they are called in the order of the queue, each as often as its event asks. Then the events of that queue are active no more, those that are not persistent are on no other queue either, and no other event has changed its flags. |
| `EventCore.CallsOfNext` | contrib/libevent/event.c:376-397 | The calls of one event more come behind those of the events before it, as many as it asks for. |
| `EventCore.ExcludingAt` | contrib/libevent/event.c:944-970 | An event that leaves a queue leaves what was before and behind it in order. |
| `MinHeap.TimeIsMicros` | contrib/libevent/evutil.h:126-155 | On normalised times the field-wise comparison, sum and difference are those of numbers of microseconds, a million to the second. |
| `EventCore.EventBase.Run` | contrib/libevent/event.c:363-1004 | Over every sequence of additions, deletions, activations, changes of priority, timer expiries, corrections of the clock and dispatches with callbacks that do any of the calls, flags, queues, both counters, the heap and the back-indices agree, and the program is never ended by a queue error, until the count of a dispatch that is over is written to. If the clock is corrected, all times must be normalised. |
| `EventCore.DeadFrame` | contrib/libevent/event.c:385-394 | A run that ends so: an event is to be called twice, its callback breaks the loop, and then the event is deleted. |
| `Markov.TextState.Lookup` | testbed/markov.c:105-129 | Finds the state of the prefix in its chain, or null exactly if there is none. |
| `Markov.TextState.LookupCreate` | testbed/markov.c:105-129 | Returns the state of the prefix, a fresh empty one at the head of its chain if there was none, and what every other prefix finds is unchanged. |
| `Markov.TextState.Add` | testbed/markov.c:160-169 | The word joins the list of its prefix, so that the table is trained on the text with that word added, and the prefix moves on. |
| `Markov.TextState.Build` | testbed/markov.c:255-277 | After the whole text every pair of words has a state exactly if something follows it, and the state lists exactly the followers of the pair in the padded text, the latest first and as often as they occur. |
| `Markov.FollowersOccur` | testbed/markov.c:149-169 | A word is a follower of a pair exactly if the three stand in a row somewhere in the text. |
| `Markov.IdealHashing` | testbed/markov.c:181-239 | The table of a chain has ten slots for each state, a multiplier below 10000 that sends all prefixes of the chain to different slots, the least such one, and each state in its slot; the program ends exactly if there is no such multiplier. |
| `Markov.IdealState.Rebuild` | testbed/markov.c:241-253 | Every chain gets such a table, and the call completes exactly if every chain has a multiplier. |
| `Markov.IdealState.LookupIdeal` | testbed/markov.c:131-146 | For a prefix of the text the fast table finds the state that the chained table finds; for any other one it finds nothing, or a state whose slot the prefix meets, or goes through a null pointer, exactly if no state has its first hash. |
| `Markov.Closure` | testbed/main.c:69-144 | A word drawn after a pair leads to a pair that has followers itself, unless it is the end mark: the walk never meets an empty list. |
| `Markov.PageIsWalk` | testbed/main.c:69-144 | Every page, from every seed and with every random generator, is a walk over the text of at most the words asked for, and each paragraph opened on it is closed before the next and before the end. A page with fewer words than asked for ends at a pair behind which the text may end. |
| `Markov.WalkOccurs` | testbed/main.c:69-144 | Any three words in a row on such a page stand in a row in the padded text. |
| `Markov.Generate` | testbed/main.c:69-144 | The page and the last seed are those of a definition that knows only the text, whichever of the two tables is used, and the page is such a walk. |
| `Markov.PickWord` | testbed/main.c:102-105 | For every list and seed: the word drawn is the last one of the list whose number is divisible by its place, counted from one, the numbers being drawn one after the other for all words, and the seed has moved on by one step for each word. |
| `Markov.PickIsMember` | testbed/main.c:102-105 | What is drawn from a list that is not empty is one of its words. |
| `Markov.PickIsLast` | testbed/main.c:102-105 | The same with every generator of numbers, without reference to the loop. |
| `Markov.PickReaches` | testbed/main.c:102-105 | Every word of the list, first to last, is drawn by some generator. |
| `Markov.MarkNumbers` | testbed/main.c:110-136 | Which number drawn decides what about a word: the first against the inner, the second against the outer links, the third below a fiftieth of the largest on a new paragraph, then page and server of a link, and the last below a third of the largest on a new line. |
| `Markov.MyRand` | testbed/main.c:62-66 | One step of the generator in 32 bits and the low 31 bits as the number. |
| `Markov.HashIsNumeral` | testbed/markov.c:69-103 | Both hashes are the characters of the two words, with a one behind each word, read as digits to the base of the multiplier, reduced to 64 bits and then to the size of the table; the first starts at 5381 with base 33. |
| `Markov.FollowersAppend` | testbed/markov.c:149-169 | A text with one word more has, for the pair before it, that word in front of the followers it had, and for all other pairs the same followers. |
| `Evbuffer.Buffer.Expand` | contrib/libevent/buffer.c:264-298 | Afterwards the room asked for is there and the bytes are the same, whether they were moved to the front or to new memory; fails exactly if neither works and memory is refused. |
| `Evbuffer.Buffer.Align` | contrib/libevent/buffer.c:254-260 | The bytes move to the front of the memory and stay the same. |
| `Evbuffer.Buffer.Add` | contrib/libevent/buffer.c:300-318 | The bytes join the end of the queue, or nothing changes. |
| `Evbuffer.Buffer.Drain` | contrib/libevent/buffer.c:320-342 | The first bytes leave the queue; all of them if more are asked for. |
| `Evbuffer.Buffer.Remove` | contrib/libevent/buffer.c:192-203 | What is taken and what is left are, one after the other, what was there. |
| `Evbuffer.Buffer.AddBuffer` | contrib/libevent/buffer.c:99-134 | All bytes of the other buffer move behind those of this one, by exchange or by copy, or neither buffer changes. |
| `Evbuffer.Buffer.ReadLine` | contrib/libevent/buffer.c:210-250 | Takes the bytes before the first CR or LF and drops one line end, a CR LF or LF CR counting as one; without a line end nothing changes. |
| `Evbuffer.LineParts` | contrib/libevent/buffer.c:224-240 | A line goes up to the first byte 13 or 10; if the other one of the two is next it is dropped as well. |
| `Tagging.TagRoundTrip` | contrib/libevent/event_tagging.c:121-173 | Every tag, encoded in groups of seven bits and followed by anything, decodes to itself, and the decoder uses exactly the bytes written. |
| `Tagging.TagLayout` | contrib/libevent/event_tagging.c:121-142 | Byte k of a tag holds its k-th digit to the base 128, the last digit first, with the top bit set on all bytes but the last, and there are no more bytes than the number has digits. |
| `Tagging.IntRoundTrip` | contrib/libevent/event_tagging.c:90-257 | Every 32-bit number, packed in half bytes with its length in front and followed by anything, decodes to itself from exactly the bytes written. |
| `Tagging.IntLayout` | contrib/libevent/event_tagging.c:90-114 | A number of n hexadecimal digits is written as n - 1 in the high half of the first byte and then its digits, the last one first, two to the byte. |
| `Tagging.RecordRoundTrip` | contrib/libevent/event_tagging.c:187-351 | A tag and a payload, marshalled and followed by anything, are read back, and what follows is left. |
| `Tagging.WrittenReads` | contrib/libevent/event_tagging.c:187-381 | Any sequence of byte and integer records, marshalled one after the other and followed by anything, reads back as itself and leaves what follows. |
| `Tagging.PeekIsConsumed` | contrib/libevent/event_tagging.c:271-326 | A length can be peeked exactly if the record can be consumed, and it is the number of bytes consumed exactly if the record is complete. |
| `Tagging.EncodeTag` | contrib/libevent/event_tagging.c:121-142 | Appends the seven-bit groups of the tag, at most five bytes. |
| `Tagging.DecodeTag` | contrib/libevent/event_tagging.c:144-173 | Answers what the definition of a tag reads at the front and drains that much, if told to. |
| `Tagging.EncodeInt` | contrib/libevent/event_tagging.c:90-114 | Appends the packed number. |
| `Tagging.DecodeInt` | contrib/libevent/event_tagging.c:226-257 | Answers what the definition of a number reads at the front and drains that much, if told to. |
| `Tagging.Marshal` | contrib/libevent/event_tagging.c:187-194 | Appends the bytes of the record. |
| `Tagging.MarshalInt` | contrib/libevent/event_tagging.c:197-206 | Appends the bytes of the integer record, by way of the scratch buffer. |
| `Tagging.Unmarshal` | contrib/libevent/event_tagging.c:330-351 | Succeeds exactly if a complete record is at the front; then the payload has moved to the other buffer and the rest is left. |
| `Tagging.UnmarshalInt` | contrib/libevent/event_tagging.c:355-381 | Succeeds exactly if a complete integer record of the tag asked for is at the front; then the rest is left. |
| `Tagging.ReadPeekLength` | contrib/libevent/event_tagging.c:271-292 | The length of tag, length field and payload, with the buffer unchanged. |
| `Tagging.Consume` | contrib/libevent/event_tagging.c:315-326 | Drops tag, length field and payload. |
| `Chunked.Request.HandleChunkedRead` | contrib/libevent/http.c:789-842 | One call of the reader, from any state and on any bytes, does what a definition on sequences says: status, bytes still expected, body so far and bytes left. With a callback the body so far is what it has been shown, and the buffer is left empty. |
| `Chunked.StrToLLReadsHex` | contrib/libevent/http.c:808-811 | The size line parser, with its trailing blank and sign handling, reads every hexadecimal size below 2^32 as it was printed. |
| `Chunked.HexDigits` | contrib/libevent/http.c:808-808 | Which bytes are hexadecimal digits, of both cases, and their values. |
| `Chunked.NumberReads` | contrib/libevent/http.c:808-808 | A run of hexadecimal digits reads as its number, cut off at 2^63 - 1, also behind a plus sign or 0x, and behind a minus sign as the negative, cut off at -2^63; the end is behind the digits. |
| `Chunked.SizeReads` | contrib/libevent/http.c:808-816 | Digits with nothing or a space behind them are a size; with anything else behind them, or with a minus sign unless the number is zero, they are none. |
| `Chunked.ChunksReadBack` | contrib/libevent/http.c:789-842 | Any list of non-empty chunks, encoded as the sender encodes them and followed by anything, is read as their concatenation, and exactly the last CR and LF and what follows are left. |
| `Chunked.LineRules` | contrib/libevent/http.c:797-823 | What the reader does with a line that CR and LF end: nothing for an empty one, corruption for one that is no size, the end for a size of zero, and the data next for any other. |
| `Chunked.DataRules` | contrib/libevent/http.c:824-839 | Nothing is taken until all data of the chunk is there; then exactly the data. |
| `Chunked.WireExample` | contrib/libevent/http.c:789-842 | One chunk of four bytes on the wire, byte by byte, and what is read from it. |
| `Chunked.CutIsHarmless` | contrib/libevent/http.c:789-842 | On arbitrary bytes a reader that is called before and after a cut ends where one that gets all bytes at once ends, unless the cut parts the two bytes that end a size line. |
| `Chunked.PiecesAreHarmless` | contrib/libevent/http.c:789-842 | The same for arrival in any number of pieces. |
| `ChunkedCuts.StreamInPieces` | contrib/libevent/http.c:789-842 | An encoded stream that arrives in pieces gives back the chunks and leaves exactly the last CR and LF if and only if no cut stands before the LF of a size line, except that of a chunk made of line feeds only. |
| `ChunkedCuts.HomeIffUnspoilt` | contrib/libevent/http.c:789-842 | The same from any state a reader can be in on the way through an encoded stream. |
| `ChunkedCuts.PartedSizeLineMisreads` | contrib/libevent/http.c:797-823 | The chunk "a" cut between the CR and the LF of its size line reads as a line feed and the beginning of a chunk of ten bytes. |
| `Chunked.SendReplyChunk` | contrib/libevent/http.c:1963-1975 | Appends size line, data and CR LF of one chunk, or the bare data for a reply that is not chunked, and empties the data buffer. |
| `Chunked.SendReplyEnd` | contrib/libevent/http.c:1977-1994 | Appends the last chunk to a chunked reply and nothing to another one, and the request is done with at once exactly if there is nothing left to write. |
| `DnsRing.Insert` | contrib/libevent/evdns.c:2187-2199 | The request joins the end of the doubly linked ring and the head stays, unless the ring was empty. |
| `DnsRing.Unlink` | contrib/libevent/evdns.c:556-571 | The ring of the other requests, in their order, with a head of its own. |
| `Resolver.Resolver.Submit` | contrib/libevent/evdns.c:2252-2264 | A request with a nameserver joins the end of those in flight, any other the end of those waiting. |
| `Resolver.Resolver.Pump` | contrib/libevent/evdns.c:614-642 | Requests go into flight in the order in which they wait, until there is no room or none waits. No nameserver comes up by it. |
| `Resolver.Resolver.Finish` | contrib/libevent/evdns.c:552-583 | Exactly this request leaves, and no lookup is left without a request. |
| `Resolver.Resolver.Reissue` | contrib/libevent/evdns.c:591-610 | Answers whether the nameserver changed, and if there are nameservers up it is one of them afterwards; if it changed the counts start again and the request is to be sent. |
| `Resolver.Resolver.Fire` | contrib/libevent/evdns.c:644-677 | The callback of the lookup is called, and may itself ask for lookups; the request then holds nothing any more. A freed nameserver is used exactly if the lookup probes one. |
| `Resolver.Resolver.ReplyHandle` | contrib/libevent/evdns.c:680-752 | An answer calls the callback once and ends the request. For the errors NOTIMPL and REFUSED, if the request has not been moved before, its nameserver is down afterwards; if another one is up and the request had been sent, or its nameserver was down already, the request is in flight with one that is up and no callback is called, and if just one other is up then only so. Every other failure ends the request, and the callback is called exactly if no other name of the search takes over. SERVERFAILED and a second refusal bring no nameserver up. If nothing waits and nothing is asked for, which nameservers are up at the end is stated exactly. |
| `Resolver.ReplyBits` | contrib/libevent/evdns.c:681-700 | Bit 9 of the flags says that a reply is truncated, and otherwise the low four bits which error it is: 1 to 5 the five that are named, 0 an answer or, without one, an unknown error, and the rest unknown. |
| `Resolver.Resolver.NameserverFailed` | contrib/libevent/evdns.c:483-531 | The nameserver is down, and if it was up and another one is, exactly the requests in flight with it that have not been sent move to one that is up. |
| `Resolver.Resolver.Pick` | contrib/libevent/evdns.c:1121-1151 | A nameserver that is up if there is one, else any, and none exactly if there are none. |
| `Resolver.Resolver.SearchTryNext` | contrib/libevent/evdns.c:2534-2572 | A new request takes over the lookup exactly if the search has a domain left or the bare name was not tried first, and its packet can be built. The new request carries the same lookup, and the search at its next domain unless the bare name is tried. |
| `Resolver.Resolver.TimeoutCallback` | contrib/libevent/evdns.c:1862-1885 | The callback is called exactly from the third transmission on; before, the request is sent again. No nameserver comes up by it. |
| `Resolver.Resolver.Suspend` | contrib/libevent/evdns.c:2026-2074 | No request is lost: those in flight stand before those waiting, in reversed order, and no nameserver is left. The lookups that will use a freed nameserver are from now on also those of the live probes. |
| `Resolver.BackAt` | contrib/libevent/evdns.c:2026-2074 | The order in which the requests in flight are put back: the last one first. |
| `Resolver.SuspendedProbe` | contrib/libevent/evdns.c:1957-2074 | A run in which a freed nameserver is used: one is probed, the resolver is suspended, gets another one and is resumed, and the probe is answered. |
| `Resolver.ResumedWithout` | contrib/libevent/evdns.c:614-642 | A run in which a null nameserver is used: a lookup waits for one, and the resolver is resumed without. |
| `Resolver.Resolver.Resume` | contrib/libevent/evdns.c:2078-2083 | No request is lost and the room is used, in the order of waiting; a null nameserver is used exactly if requests wait and there is no nameserver. |
| `Resolver.Resolver.Find` | contrib/libevent/evdns.c:429-441 | A request in flight with the identity, or null exactly if there is none. |
| `Resolver.Resolver.NameserverAdd` | contrib/libevent/evdns.c:2085-2149 | The nameserver is known and up. |
| `Resolver.Resolver.SendProbe` | contrib/libevent/evdns.c:1971-1985 | Exactly if its packet can be built, a probe is accepted as a lookup and goes straight into flight, even beyond the limit; no callback is called. |
| `Resolver.Resolver.Resolve` | contrib/libevent/evdns.c:2267-2314 | Accepts a new lookup exactly if its packet can be built, and a request holds it. |
| `Resolver.Resolver.Run` | contrib/libevent/evdns.c:552-2083 | Over every sequence of lookups, replies, timeouts, probes, new nameservers, suspensions and resumptions, with callbacks that ask for more lookups: every accepted lookup has had its callback called once or is held by exactly one request, never both; the two counters are the lengths of the two rings; no request without an identity is sent. A freed nameserver is used if and only if the callback is called of a lookup that was probing it when a suspension freed it. |
| `WorkerPool.AddWorker` | contrib/libevent/http.c:2930-2973 | The new worker joins the end of the ring of workers and the current worker stays, unless there was none. |
| `WorkerPool.Advance` | contrib/libevent/http.c:2293-2293 | The current worker is the next one of the ring. |
| `WorkerPool.StepKeeps` | contrib/libevent/http.c:2238-2295 | Each step of the acceptor or of any worker keeps the invariant: a task for every wakeup written, lost, read or owed, sockets in order, and one owner of each lock. |
| `WorkerPool.WokenFindsTask` | contrib/libevent/http.c:2250-2269 | A worker that has read a wakeup byte finds a task. |
| `WorkerPool.EveryRun` | contrib/libevent/http.c:2238-2295 | In every interleaving no worker takes a task from an empty queue, and what a worker has served, has in hand and has queued is, in order, exactly its share of the sockets. |
| `WorkerPool.AllServed` | contrib/libevent/http.c:2238-2295 | Once nothing is under way, each worker has served its share in order but for its latest sockets, one for each wakeup it lost; it has served all of it if and only if it lost none. |
| `WorkerPool.LostWakeup` | contrib/libevent/http.c:2291-2292 | A run with one wakeup that could not be written, after which the socket stays in the queue. |
| `WorkerPool.NumbersAreAll` | contrib/libevent/http.c:2291-2293 | The share of worker k of n is made of exactly the sockets whose number is k modulo n, in increasing order, so that each socket is in exactly one share. |
| `WorkerPool.WhoseIsModulo` | contrib/libevent/http.c:2293-2293 | Stepping round the ring gives socket number m to worker m modulo n. |
| `WorkerPool.FairShares` | contrib/libevent/http.c:2291-2293 | The shares of any two workers differ by at most one socket. |
| `PollIndex.PollOp.PollAdd` | contrib/libevent/poll.c:199-298 | The event is registered for what it asks for and no other registration changes; without memory nothing does. With all memory it succeeds. Slots and index stay inverse to each other and no slot is without interest. For which descriptors who is registered afterwards is stated for reading and writing. |
| `PollIndex.PollOp.PollDel` | contrib/libevent/poll.c:304-355 | The registrations of the event go and no other changes, also when the last slot moves into the freed one; it succeeds exactly if the descriptor was registered. |
| `PollIndex.PollOp.PollSetTells` | contrib/libevent/poll.c:54-64 | What is handed to poll: for each registered descriptor exactly one slot, which asks for reading and writing exactly as registered and points back at who registered, and no other slots. |
| `PollIndex.DropSlot` | contrib/libevent/poll.c:337-351 | Moving the last slot and both of its back pointers into a freed slot and repairing the index keeps slots and index inverse and every slot truthful. |
| `PollIndex.PollOp.CheckOk` | contrib/libevent/poll.c:102-130 | Every assertion of the check holds, also between the two halves of a deletion. |
| `PollIndex.PollOp.Run` | contrib/libevent/poll.c:102-355 | After any sequence of additions and deletions, with memory refused anywhere, what is registered is what the operations that succeeded say one after the other, and no assertion of the check has failed on the way. |

## Left out

- The HTTP parser apart from chunked bodies, connections, the dispatch of requests to handlers, the
  crawler's own pages beyond the word walk: mostly string plumbing and I/O.
- The other event backends, signals, `event_base_loop` around the modelled steps, the splay trees of
  tree.h, `event_rpcgen.py` and its generated code: they would add easy members.
- Sockets, clocks and memory are parameters: whether an allocation, a packet or a backend call succeeds
  is an argument or a free choice, the time an argument.
- The other stemmers: they use the same run time with other tables and rules.
- Four-byte UTF-8: the run time itself knows none, and what is said in characters is said of text without. The three-byte case of `get_b_utf8`, which takes its
  lead bits from the wrong byte, is modelled as written.
- Widths of sizes: buffer lengths, heap sizes and counters are unbounded. Where the source truncates
  (chunk sizes printed as 32 bits, hashes of the page generator, tags and tagged integers) the model does.
- RbTree.Tree.Insert: keys are integers compared by their order; other comparison functions and the
  RB_AUGMENT hook, empty here, are not modelled.
- DnsName.DnsNameToLabels: promises nothing about a name with an empty label in the middle, which cannot
  be read back, and the terminator, which the source writes without a check, needs one spare byte behind
  the stated length; buffers are at most 0x4000 bytes, the reach of a pointer.
- DnsName.WriteMessage: the length field of a name in resource data, filled in afterwards, is part of the
  other fields and does not follow from the model; nor does the cut of a response at 512 bytes.
- Snowball.SnEnv.SliceFromS: the text of an environment is a value that ends at the limit; that replace_s in memory
  agrees with it, with the symbol behind the limit, is proved of `Symbols.Buffer`, to which the environment is not
  joined. After a failed allocation, which leaves the limit as it was, an environment is not used again.
- DnsName.NameParse: a label that claims more bytes than the packet has is copied from the memory behind
  the packet before it is refused; that memory is the parameter `slack`.
- EventCore.EventBase.Run: the number of calls left in the dispatcher is one field of the base, and the
  pointer to it the number of the dispatch; dispatches within callbacks, `event_set` on a pending event, `event_base_priority_init`
  on a base in use and events without a base are outside the model.
- EventCore.EventBase.EventAdd: the events an event waits for are set once, as by `event_set` on a new one.
- EventCore.EventBase.ProcessActive: a callback is a list of library calls fixed in advance; callbacks
  behind the end of the list do nothing, so that every run is finite.
- Markov.TextState.Build: takes the words of the text; the splitting by `fscanf` and its word length limit are
  left out.
- Markov.Generate: appends pieces, whose spelling in HTML is left out. C does not say which of the two
  numbers of an outer link is drawn first; the order is a parameter.
- Evbuffer.Buffer.Add: the callback of a buffer that reports changes of its length is left out.
- Tagging.ReadTag: for a tag of more than five bytes, which no encoder writes, the bits are taken modulo
  2^32; the source shifts by 32 or more there, which C leaves undefined (contrib/libevent/event_tagging.c:154).
- Tagging.ScanTag: as for `Tagging.ReadTag`.
- Tagging.UnmarshalInt: after a failure the buffer may have lost the header, as in the source; what is
  left is not stated.
- Chunked.ChunksReadBack: an empty chunk, which the sender can write, ends the body; lists of chunks are
  therefore non-empty ones.
- Resolver.Resolver.Run: which of the nameservers that are up is picked, which transaction id, and whether a
  packet leaves are free choices; that ids in flight are distinct, back-off of probes and `evdns_shutdown` are left out.
  Callbacks ask for lookups and do nothing else. A run ends with the first use of a nameserver that is not
  there; a number stands for one allocation of a nameserver.
- Resolver.Resolver.Transmit: promises only the invariants and that no nameserver comes up, because what the
  socket does is free.
- Resolver.Resolver.TransmitAll: as for `Resolver.Resolver.Transmit`.
- WorkerPool.AllServed: fairness of the scheduler is not modelled: safety is
  proved for all runs, and completeness for those that have come to rest.
- PollIndex.PollOp.PollDel: is called, as by `event_del`, for a descriptor that the index reaches; events for
  signals are passed on by the source and left out.
