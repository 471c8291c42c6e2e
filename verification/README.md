# irC6: containers, codecs and framing, verified

irC6 is a gateway between IRC clients and a C6 chat server. Its chat commands stand on
layers of its own: search trees, a two-level hash table, MD5 and Blowfish, packet and line
reassembly, format-driven packing, an area allocator and a registration protocol. This
project models those layers in Dafny, in the form the C code has (linked nodes, buffers
rewritten in place, loops), and proves what they promise.

| file | what it models |
|---|---|
| `RbShape.dfy`, `RbTree.dfy` | the red-black tree of `sys/tree.h`: colours, order and links through insertion and removal, height, search, traversal |
| `SplayTree.dfy` | the top-down splay tree of `sys/tree.h` |
| `HashTable.dfy` | the hash table of `lib/hash.c` over that red-black tree, as the connection tables configure it |
| `Md5.dfy` | MD5 fed in pieces, for any compression function and words of any width from 32 bits on |
| `Blowfish.dfy`, `Codifica.dfy` | Blowfish with words of any width from 32 bits on, and the buffer coding built on it |
| `C6Frame.dfy`, `IrcLines.dfy` | reassembly of C6 packets and of IRC lines from arbitrary reads |
| `PackCodec.dfy`, `C6Formats.dfy` | the two format interpreters of `lib/buffer.c`, and what the formats of the C6 side are on the wire |
| `ArgsSep.dfy`, `RoomName.dfy` | splitting a command into words, writing room names as channel names |
| `Registration.dfy` | login, deferred commands and their replay |
| `Area.dfy`, `AreaRun.dfy` | the hierarchical allocator and its accounts, call by call and over whole runs |
| `Words.dfy`, `Sequences.dfy`, `Numbers.dfy` | bytes and concatenation, sequences without repetition, powers and low halves of numbers, shared by the others |

How the states are described:

* A tree in the heap is described by a pure shape that its links spell out. A position
  inside a tree is a path and a shape; the repair loops break the colour rules at one
  position only, and their invariants say exactly what is wrong there (`Pending` after an
  insertion, `Short`, one black node short, after a removal).
* A buffer method is proved against a function of the bytes, and the theorems are about
  that function: it is a left inverse, it does not depend on how the stream was cut, and so
  on.
* Reassembly is compared with two functions of the whole stream: the cut without any bound
  (`C6Frame.Frames`, `IrcLines.Lines`), and what a buffer of `SIZE` bytes makes of it
  (`C6Frame.Parsed`, `IrcLines.Wrapped`). That the reads do not matter is one theorem, that
  nothing is lost another.
* What bytes stand for is also stated in numbers, without the functions above: packets and
  lines on the wire, the sixteen bytes of a digest, the words of a cipher round, the formats
  in use, the command table.
* Where the code keeps a promise only under a condition, the condition is stated and the
  promise is proved to hold if and only if it is met: `C6Frame.ChunkingIrrelevant`,
  `C6Frame.NothingLost`, `IrcLines.NothingLost`, `PackCodec.RoundTrip`,
  `RoomName.DecodeFitsIff`, `Md5.LengthRight`, `Area.Free`, `Area.Realloc`, `Area.Relink`,
  `HashTable.HashTable.AddStarved`.
* A predicate written `true == (...)` says no more than the conjunction inside it; it is
  written so that the verifier shows it as a whole and not conjunct by conjunct.

Where the code departs from what one would expect of it, the code is followed:

* `a_calloc` records the size of one element, not of all of them, so the accounts of an
  area add up recorded sizes.
* `real_realloc` unlinks a chunk before it knows whether it can grow; if it cannot, the
  chunk stays allocated but belongs to no area.
* `area_root` without an error handler always returns null and loses the area it made.
* A miss in `hashtable_find` leaves the handle pointing at another entry exactly when one
  stored entry has the first hash of the key, and `hashtable_del` through a handle that already
  points at an entry trusts what its last operation returned.
* An empty text that was packed behind its length is read back as text up to a zero byte.
* A byte of the wrong type in front of a packet discards all that was read with it, but
  nothing that comes in a later read. What is delivered then depends on the reads, unless
  every type byte behind it announces a packet that fills the buffer and is dropped.
* A packet or a line that fills the buffer is dropped without a trace, a buffer at a time.
  It can fill the buffer only at one byte, where a read must end, so every reading drops the
  same bytes, and what comes behind them is taken for the start of a packet or a line.
* `hashtable_add` that finds no memory for its entry leaves the bucket it made in the tree,
  empty; a traversal ends at such a bucket and does not come to the entries behind it.
* `a_free`, `a_realloc` and `area_relink` take a chunk out of whatever list it is in, but
  charge it to the area they are given: with another area than that of the chunk, both
  counters are wrong afterwards unless the chunk is empty.
* `md5_update` tests for a carry against the shifted length, which words longer than 32
  bits do not cut off: an update of 2^29 bytes or more may count 2^32 bits too many, and
  the digest is padded with the wrong length.
* `SPLAY_REMOVE` returns its argument, which need not be the node it took out.

## Model

| member | source | states |
|---|---|---|
| RbShape.FlipKeeps | irC6/src/missing/sys/tree.h:397-402 | recolouring under a red uncle keeps the one fault of an insertion, two levels further up, and the order |
| RbShape.SettledLeftKeeps | irC6/src/missing/sys/tree.h:403-410 | after the rotations under a black uncle on the right nothing is left to repair |
| RbShape.SettledRightKeeps | irC6/src/missing/sys/tree.h:419-426 | the same for the mirror image |
| RbShape.PendingDone | irC6/src/missing/sys/tree.h:392-429 | the loop of an insertion may stop at a black or missing parent: with a black root all colour rules hold |
| RbShape.ShortSibling | irC6/src/missing/sys/tree.h:438-440 | a position one black node short has a sibling, so the removal repair never reads through null |
| RbShape.LoweredKeeps | irC6/src/missing/sys/tree.h:440-444 | rotating a red sibling above the parent keeps the shortage where it is and makes the sibling black |
| RbShape.PalerKeeps | irC6/src/missing/sys/tree.h:445-451 | painting a sibling without red children moves the shortage to the parent |
| RbShape.PaidKeeps | irC6/src/missing/sys/tree.h:453-468 | rotations through a red child of the sibling pay for the missing black, with either child red |
| RbShape.ShortDone | irC6/src/missing/sys/tree.h:503-505 | blackening a red node, or stopping at the root, ends the shortage |
| RbShape.SuccessorOrder | irC6/src/missing/sys/tree.h:517-548 | putting the successor where the removed node was drops exactly that node from the order |
| RbShape.HeightBound | irC6/src/missing/sys/tree.h:46-56 | every tree that meets the colour rules has 2^height <= (n + 1)^2, that is, height at most 2 lg(n + 1) |
| RbTree.Tree.RotateLeft | irC6/src/missing/sys/tree.h:335-352 | the link changes turn a subtree into its left rotation, anywhere in a tree |
| RbTree.Tree.RotateRight | irC6/src/missing/sys/tree.h:354-371 | the same to the right |
| RbTree.Tree.InsertColorStep | irC6/src/missing/sys/tree.h:392-428 | one turn of either half of the loop keeps links, order and the single fault, and comes closer to the root |
| RbTree.Tree.InsertColor | irC6/src/missing/sys/tree.h:388-430 | terminates with all colour rules restored and the order unchanged |
| RbTree.Tree.RemoveColorLeft | irC6/src/missing/sys/tree.h:438-469 | one turn with the short side on the left: the shortage ends or moves up, links and order stay |
| RbTree.Tree.RemoveColorRight | irC6/src/missing/sys/tree.h:470-501 | the mirror image |
| RbTree.Tree.RemoveColor | irC6/src/missing/sys/tree.h:432-506 | terminates with all colour rules restored and the order unchanged |
| RbTree.Tree.RemoveSuccessor | irC6/src/missing/sys/tree.h:517-556 | the branch for two children, also when the successor is the right child itself |
| RbTree.Tree.Detach | irC6/src/missing/sys/tree.h:508-568 | exactly one node leaves the order; a black one leaves its place one black node short |
| RbTree.Tree.Remove | irC6/src/missing/sys/tree.h:508-573 | removing a member keeps links, colours and search order and removes exactly that node |
| RbTree.Tree.constructor | irC6/src/missing/sys/tree.h:299-301 | a new tree is valid and empty |
| RbTree.Tree.Descend | irC6/src/missing/sys/tree.h:580-594 | finds the node of equal key, or the one free place that keeps the search order |
| RbTree.Tree.Insert | irC6/src/missing/sys/tree.h:576-604 | adds exactly the element at its sorted place, or returns the node of equal key and changes nothing |
| RbTree.Tree.Balanced | irC6/src/missing/sys/tree.h:46-56 | the height bound for every tree the operations can build |
| RbTree.Tree.Find | irC6/src/missing/sys/tree.h:607-622 | decides membership with at most 2 lg(n + 1) comparisons |
| RbTree.Tree.Next | irC6/src/missing/sys/tree.h:624-643 | the element behind this one in the order, null behind the last |
| RbTree.Tree.MinMax | irC6/src/missing/sys/tree.h:645-658 | the first element for a negative argument, else the last; null only for an empty tree |
| SplayTree.Rotated | irC6/src/missing/sys/tree.h:80-91 | a rotation does not change the order |
| SplayTree.Assembled | irC6/src/missing/sys/tree.h:105-110 | closing both assembly trees under the root gives back all nodes in order, smaller ones left, greater ones right |
| SplayTree.Tree.TurnLeft | irC6/src/missing/sys/tree.h:211-220 | one turn towards smaller keys moves nodes between the tree and the assemblies without changing their order |
| SplayTree.Tree.TurnRight | irC6/src/missing/sys/tree.h:221-231 | one turn towards greater keys |
| SplayTree.Tree.Sift | irC6/src/missing/sys/tree.h:205-232 | the loop ends at the key or beside it |
| SplayTree.Tree.Splay | irC6/src/missing/sys/tree.h:202-234 | the order stays; the root is the key exactly if the key is there, else a neighbour of it in the order |
| SplayTree.Tree.Find | irC6/src/missing/sys/tree.h:121-130 | finds a key exactly if it is there |
| SplayTree.Tree.Insert | irC6/src/missing/sys/tree.h:157-179 | set insertion: one more node, or the node of equal key and the same contents; either is the root afterwards |
| SplayTree.Tree.Remove | irC6/src/missing/sys/tree.h:181-200 | set deletion: one node of that key less exactly if there was one; the next smaller node, if there is one, is the root afterwards |
| SplayTree.Tree.MinMax | irC6/src/missing/sys/tree.h:240-272 | brings the least or the greatest node to the root, order unchanged |
| HashTable.Bucket.InsertEntry | irC6/src/lib/hash.c:407-433 | an entry goes to its place by the second hash, or the entry that has that hash already is returned and nothing is linked |
| HashTable.Bucket.Unlink | irC6/src/missing/sys/queue.h:139-150 | exactly the given entry leaves the list |
| HashTable.Bucket.Add | irC6/src/lib/hash.c:498-515 | a lone entry gets its second hash computed before it is compared; the bucket stays sorted |
| HashTable.Bucket.Search | irC6/src/lib/hash.c:524-602 | finds the entry of a key in a sorted bucket, exactly if it is there |
| HashTable.Bucket.Drop | irC6/src/lib/hash.c:687-694 | the bucket without one entry, still sorted and counted |
| HashTable.PairsMeaning | irC6/src/lib/hash.c:604-623 | entries in strict order of both hashes stand for a map |
| HashTable.OutcomeMeaning | irC6/src/lib/hash.c:379-405 | OK, DUP and ECOLL mean: no stored key shares both hashes, the key is stored, another key shares both hashes |
| HashTable.StepOfOutcome | irC6/src/lib/hash.c:480-518 | an addition is the operation on the map |
| HashTable.Answers | irC6/src/lib/hash.h:48-54 | the answers of the three operations on the map, in numbers |
| HashTable.DroppedMeaning | irC6/src/lib/hash.c:658-708 | taking an entry out takes exactly its key out of the map |
| HashTable.Handle.Set | irC6/src/lib/hash.c:303-318 | a reset handle points nowhere and carries the hash of its key |
| HashTable.Handle.Point | irC6/src/lib/hash.c:277-301 | a handle takes over key, value and hash of the entry it is pointed at, or points nowhere |
| HashTable.HashTable.constructor | irC6/src/lib/hash.c:147-192 | a new table is valid and stands for the empty map |
| HashTable.HashTable.Meaning | irC6/src/lib/hash.c:561-602 | in a valid table the entries are in strict order of both hashes and are the items of the map |
| HashTable.HashTable.Search | irC6/src/lib/hash.c:561-602 | success exactly if the key is stored, and what the entry pointer becomes otherwise |
| HashTable.HashTable.SetupNode | irC6/src/lib/hash.c:435-455 | the bucket of a first hash, new only if there is none, no entry touched |
| HashTable.HashTable.Add | irC6/src/lib/hash.c:480-518 | the verdict and the new map are those of the map operation; the handle points at the entry concerned |
| HashTable.HashTable.AddStarved | irC6/src/lib/hash.c:435-493 | without memory for the entry nothing stored changes, whether or not there is room for a bucket, and the table stays valid if and only if no bucket was made or one was there already; else an empty bucket without a first entry stands in the tree order |
| HashTable.HashTable.Find | irC6/src/lib/hash.c:604-623 | success exactly if the key is in the map, with its value; table unchanged; a miss leaves the handle on another entry exactly if one stored entry has the first hash of the key, else as it was but pointing nowhere |
| HashTable.HashTable.Del | irC6/src/lib/hash.c:658-708 | exactly the key is removed and the handle carries the value it had; when a pointing handle succeeds; what the handle is after a failure |
| HashTable.HashTable.Begin | irC6/src/lib/hash.c:874-887 | the handle stands at the first entry and says OK, or past the end with all else as it was |
| HashTable.HashTable.Next | irC6/src/lib/hash.c:898-918 | the handle moves to the following entry, across buckets, and says OK, or past the end with all else as it was |
| HashTable.HashTable.Traverse | irC6/src/lib/hash.c:874-918 | every entry is seen exactly once, in table order |
| HashTable.HashTable.Perform | irC6/src/lib/hash.c:480-708 | each operation on a handle of its own answers and acts like the map operation; a success leaves the value added, removed or found in the handle |
| HashTable.Run | irC6/src/lib/hash.c:147-918 | any run of additions, deletions and searches gives the answers and hands back the values of a map, and a traversal then lists that map in strict order of both hashes |
| Md5.PaddingFits | irC6/src/missing/md5.c:211-212 | the padding of section 3.1 of RFC 1321 is the least one, between 1 and 64 bytes |
| Md5.PaddedWhole | irC6/src/missing/md5.c:202-221 | the padded message is a whole number of blocks |
| Md5.FoldAppend | irC6/src/missing/md5.c:182-187 | folding whole blocks first and the rest later is folding all of it |
| Md5.CounterStep | irC6/src/missing/md5.c:167-171 | for words of any width, the two-word counter counts bits modulo 2^64, and 2^32 more where the carry test fires without a carry |
| Md5.CarryTest | irC6/src/missing/md5.c:167-171 | for words of any width, the carry test fires exactly if there is a carry or the shifted length was not cut off and exceeds the new low word |
| Md5.NoneExtra | irC6/src/missing/md5.c:157-171 | no run of updates miscounts with words of 32 bits, nor where every update is below 2^29 bytes |
| Md5.LongUpdate | irC6/src/missing/md5.c:167-171 | with words of 64 bits one update of 2^29 bytes is miscounted |
| Md5.LengthRight | irC6/src/missing/md5.c:202-221 | a count that is off by k words of 2^32 bits pads the message right if and only if k is a multiple of 2^32 |
| Md5.CounterBytes | irC6/src/missing/md5.c:208-209 | the two words written low one first are the 64-bit length of section 3.2 of RFC 1321 |
| Md5.DigestBytes | irC6/src/missing/md5.c:202-221 | the digest of any message under any compression, byte by byte from the 64-byte blocks of the padded message and the states behind them (sections 3.1 to 3.5 of RFC 1321) |
| Md5.KeptDigest | irC6/src/missing/md5.c:25-33 | a compression that keeps the state leaves 01 23 45 67 89 ab cd ef fe dc ba 98 76 54 32 10, the initial words of section 3.3 of RFC 1321 |
| Md5.Context.constructor | irC6/src/missing/md5.c:24-33 | a started context has seen nothing |
| Md5.Context.Update | irC6/src/missing/md5.c:157-193 | the context has seen its message so far and the new bytes: whole blocks folded, the rest buffered, bits and miscounts counted |
| Md5.Context.Finish | irC6/src/missing/md5.c:202-221 | the digest of the whole message as one padded fold, with the length as it was counted |
| Md5.Digest | irC6/src/missing/md5.c:157-221 | for words of any width, every way of cutting a message into updates gives the digest of the message with its counted length, which is the digest of RFC 1321 where the miscounts are a multiple of 2^32 |
| Blowfish.DecryptEncrypt | irC6/src/missing/blowfish.c:349-409 | decryption undoes encryption for every key schedule and word width |
| Blowfish.XorBit | irC6/src/missing/blowfish.c:343-345 | exclusive or, bit by bit |
| Blowfish.FeistelWord | irC6/src/missing/blowfish.c:330-347 | the round function, spelt out from the four tables and the bytes of the word |
| Blowfish.EncryptedWords | irC6/src/missing/blowfish.c:349-377 | a pair of words is encrypted through seventeen words, each the round function of the one before, exclusive or the one before that and the next entry of P |
| Blowfish.DecryptedWords | irC6/src/missing/blowfish.c:379-409 | the same with P in reverse |
| Blowfish.KeyedWords | irC6/src/missing/blowfish.c:421-432 | entry i of P starts as the constant exclusive or key bytes 4i to 4i + 3 modulo the key length, highest first |
| Blowfish.ScheduleSteps | irC6/src/missing/blowfish.c:434-448 | from (0, 0) each encryption goes on from the pair before it, under the tables as they then are, and replaces the next two entries |
| Blowfish.XorLow | irC6/src/missing/blowfish.c:349-377 | exclusive or commutes with cutting off high bits |
| Blowfish.FLow | irC6/src/missing/blowfish.c:330-347 | the round function on wide words agrees with the 32-bit one on the low 32 bits |
| Blowfish.EncryptedLow | irC6/src/missing/blowfish.c:349-377 | so does a whole encryption |
| Blowfish.DecryptedLow | irC6/src/missing/blowfish.c:379-409 | and a whole decryption |
| Blowfish.ScheduleLow | irC6/src/missing/blowfish.c:411-449 | and every entry of the key schedule, through all 521 chained encryptions |
| Numbers.WideWords | irC6/src/missing/blowfish.c:349-377 | every width from 32 bits on counts as wide enough |
| Blowfish.Context.F | irC6/src/missing/blowfish.c:330-347 | the round function by byte extraction |
| Blowfish.Context.Encrypt | irC6/src/missing/blowfish.c:349-377 | the loop computes the sixteen rounds and the final swap |
| Blowfish.Context.Decrypt | irC6/src/missing/blowfish.c:379-409 | the loop computes the rounds backwards |
| Blowfish.Context.KeyData | irC6/src/missing/blowfish.c:424-432 | four key bytes taken round and round |
| Blowfish.Context.Mix | irC6/src/missing/blowfish.c:434-448 | the two table loops are one chain of encryptions |
| Blowfish.Context.constructor | irC6/src/missing/blowfish.c:411-449 | a context holds the key schedule |
| Codifica.LoadedLow | irC6/src/c6/codifica.c:97-98 | a word loaded with sign extension has the right low 32 bits |
| Codifica.DecodeEncode | irC6/src/c6/codifica.c:86-127 | decoding what was encoded gives the buffer back, whatever it holds |
| Codifica.CodedBlocks | irC6/src/c6/codifica.c:93-105 | each block of eight bytes is coded by itself and the trailing bytes are never touched |
| Codifica.CodedWords | irC6/src/c6/codifica.c:97-104 | one block in numbers: two words, highest byte first, encrypted or decrypted, back in the same order |
| Codifica.ReferenceLow | irC6/src/missing/blowfish.c:411-449 | the 32-bit key schedule is the low halves of that of any width |
| Codifica.ReferenceNarrow | irC6/src/missing/blowfish.c:411-449 | the 32-bit key schedule consists of 32-bit words |
| Codifica.WriteWord | irC6/src/c6/codifica.c:84 | the four low bytes of a word of any width are written, nothing else |
| Codifica.CodeBlock | irC6/src/c6/codifica.c:97-104 | one block in place, in either direction |
| Codifica.Code | irC6/src/c6/codifica.c:86-127 | the buffer is coded as with 32-bit words, whatever the width |
| Codifica.Exchange | irC6/src/c6/codifica.c:86-127 | a buffer encoded on a machine of one word width and decoded on one of another is what it was |
| C6Frame.FramesJoin | irC6/src/c6/c6.c:184-224 | the packets and the rest put together are the stream |
| C6Frame.FramesAppend | irC6/src/c6/c6.c:184-224 | cutting may stop anywhere and go on with the rest |
| C6Frame.OneReading | irC6/src/c6/c6.c:226-264 | where all type bytes are right, one reading delivers the packets and keeps the rest of the unbounded cut exactly if no packet and no open rest outgrows the buffer |
| C6Frame.ParsedAppend | irC6/src/c6/c6.c:184-224 | also with a buffer that drops what fills it, parsing may stop anywhere and go on with the rest |
| C6Frame.RestUnfinished | irC6/src/c6/c6.c:206-209 | what is kept starts a packet that is not complete |
| C6Frame.RunParsed | irC6/src/c6/c6.c:226-264 | every reading gives the same, wherever nothing behind the first wrong type byte could pass for a packet that fits |
| C6Frame.TwoWays | irC6/src/c6/c6.c:198-204 | behind a wrong type byte, two readings that deliver or keep different things, unless no later byte could start a packet that fits |
| C6Frame.ChunkingIrrelevant | irC6/src/c6/c6.c:226-264 | for every stream, no two readings differ if and only if every type byte from the first wrong one on announces a packet that fills the buffer; and what all readings then give |
| C6Frame.NothingLost | irC6/src/c6/c6.c:226-264 | for every stream, all readings give the packets and the rest of the unbounded cut if and only if no two differ and no packet and no open rest outgrows the buffer |
| C6Frame.AnnouncedLength | irC6/src/c6/c6.h:49-50 | a packet fits exactly if its length field says at most 65530 |
| C6Frame.WiresRead | irC6/src/c6/c6.c:184-264 | in numbers: packets of type 0x20 with any command, number and up to 65530 data bytes, and the beginning of one more; every reading delivers exactly the packets and keeps that beginning |
| C6Frame.WireDropped | irC6/src/c6/c6.c:218-223 | a packet of more data is dropped at byte 65536, whatever the reads |
| C6Frame.WrongType | irC6/src/c6/c6.c:198-204 | behind the packets of a read, a byte other than 0x20 discards the rest of that read, and the next read starts anew |
| C6Frame.ByteByByte | irC6/src/c6/c6.c:246-259 | one byte at a time is a way to read any stream |
| C6Frame.Connection.Header | irC6/src/c6/c6.c:195-206 | whatever stands behind too few bytes, an incomplete packet is never taken for a complete one |
| C6Frame.Connection.ParseIndata | irC6/src/c6/c6.c:184-224 | delivers the packets of what is buffered and keeps the rest |
| C6Frame.Connection.Read | irC6/src/c6/c6.c:246-259 | one read behind what was kept |
| C6Frame.Connection.ReadAll | irC6/src/c6/c6.c:226-264 | any sequence of reads |
| IrcLines.LinesRebuild | irC6/src/irc/irc.c:254-270 | the lines and the rest put together, with line feeds, are the stream, its zero bytes taken for line feeds |
| IrcLines.LinesAppend | irC6/src/irc/irc.c:254-276 | cutting may stop anywhere and go on with the rest |
| IrcLines.LinesOpen | irC6/src/irc/irc.c:254-270 | no line holds a line end, nor does the kept rest |
| IrcLines.RunIsWrapped | irC6/src/irc/irc.c:236-276 | any run of reads gives the lines of the stream in which an open line is dropped each time it fills the buffer |
| IrcLines.ChunkingIrrelevant | irC6/src/irc/irc.c:236-276 | any two readings of one stream, whatever it holds, give the same lines and keep the same rest |
| IrcLines.NothingLost | irC6/src/irc/irc.c:236-276 | a reading gives all lines of the stream if and only if no line reaches the size of the buffer |
| IrcLines.WiresRead | irC6/src/irc/irc.c:249-276 | in numbers: lines ended by 10 or 0, with or without a 13 in front, each within 65536 bytes, and an open line; every reading gives exactly the lines and keeps the open one |
| IrcLines.WireDropped | irC6/src/irc/irc.c:272-276 | 65536 bytes without an end are dropped, whatever the reads |
| IrcLines.ByteByByte | irC6/src/irc/irc.c:236-237 | one byte at a time is a way to read any stream |
| IrcLines.Connection.EndLine | irC6/src/irc/irc.c:256-262 | one carriage return in front of the end is dropped, whichever read it came with |
| IrcLines.Connection.Split | irC6/src/irc/irc.c:249-276 | the scan, taken up behind the kept bytes, finds all lines and keeps what is open |
| IrcLines.Connection.Read | irC6/src/irc/irc.c:236-276 | one read behind what was kept |
| IrcLines.Connection.ReadAll | irC6/src/irc/irc.c:216-280 | any sequence of reads |
| PackCodec.IntBack | irC6/src/lib/buffer.c:256-274 | numbers that fit come back from memory in either byte order |
| PackCodec.PackAll | irC6/src/lib/buffer.c:292-439 | packing the format of a field list gives the encodings of its fields, one behind the other |
| PackCodec.UnpackFields | irC6/src/lib/buffer.c:602-876 | unpacking the format of a field list (literals, data, texts, buffers, skipped bytes, numbers, runs behind their length) reads field after field, on any data, errors included |
| PackCodec.RoundTrip | irC6/src/lib/buffer.c:602-876 | unpacking packed fields gives the values back and uses exactly their bytes, if and only if no counted text is empty |
| PackCodec.EmptyTextLost | irC6/src/lib/buffer.c:678-691 | the shortest packet that does not come back |
| PackCodec.BuildPackQueue | irC6/src/lib/buffer.c:292-439 | the loop over the format computes the pieces in order and their total size, and refuses what the interpreter refuses |
| PackCodec.DequeuePack | irC6/src/lib/buffer.c:441-451 | the buffer is the pieces one behind the other |
| PackCodec.NewPack | irC6/src/lib/buffer.c:453-484 | a buffer for every packing but a refused or an empty one |
| PackCodec.ReadDigits | irC6/src/lib/buffer.c:405-420 | a run of digits is read as its decimal value |
| PackCodec.UnpackData | irC6/src/lib/buffer.c:602-876 | the loop over the format computes what the interpreter says |
| C6Formats.NumberBytes | irC6/src/lib/buffer.c:256-274 | one, two or four bytes, highest first behind ^, else lowest first |
| C6Formats.Redirect | irC6/src/c6/server.c:90 | on any data: an address, two bytes skipped, a port with its low byte first, or a refusal |
| C6Formats.Blob | irC6/src/c6/server.c:682 | on any data: a buffer behind its length of two bytes, high byte first, or a refusal |
| C6Formats.Message | irC6/src/c6/server.c:236-237 | two texts behind a length byte each and a buffer behind two, whatever follows |
| C6Formats.Profile | irC6/src/c6/server.c:365-366 | a text, four bytes of time, an address, a status byte and a count |
| C6Formats.Hello | irC6/src/c6/server.c:72 | the bytes 0, 2, 8 and a key of eight |
| C6Formats.EndedText | irC6/src/lib/buffer.c:678-684 | a text without a length ends at a zero byte |
| C6Formats.SessionKey | irC6/src/c6/server.c:77-78 | eight bytes, ten bytes and a zero byte are packed |
| C6Formats.Username | irC6/src/lib/buffer.c:292-439 | the packed bytes of the user name packet of `c6/client.c`: two literals, two numbers, a text and a buffer behind their lengths, two literals |
| C6Formats.PercentAndNumber | irC6/src/lib/buffer.c:306-312 | a doubled percent sign is one on the wire; %i has the byte order of the machine |
| C6Formats.OtherSizes | irC6/src/lib/buffer.c:366-387 | numbers of other sizes than one, two and four bytes are refused both ways |
| C6Formats.SizedBuffer | irC6/src/lib/buffer.c:336-348 | a size in front of %r cuts a longer buffer off |
| C6Formats.OneByte | irC6/src/lib/buffer.c:575-580 | a byte of the format must be there and be the same |
| C6Formats.ShortNumbers | irC6/src/lib/buffer.c:614-616 | a number in too few bytes is refused where its size is spelt out, else read on behind the data |
| Registration.Commands | irC6/src/irc/cmd_list.gperf:45-61 | the sixteen commands in letters, in any mixture of cases, and no other |
| Registration.Kept31 | irC6/src/irc/comandi.c:97 | a parameter is cut to its first 31 bytes |
| Registration.Session.constructor | irC6/src/irc/irc.c:191-201 | a new session has no flags, no commands and has emitted nothing |
| Registration.Session.Login | irC6/src/irc/comandi.c:44-64 | connect is emitted when the third parameter arrives, with the parameters cut to 31 bytes |
| Registration.Session.Register | irC6/src/irc/comandi.c:82-150 | a parameter counts only with enough arguments and before the login is complete |
| Registration.Session.Defer | irC6/src/irc/comandi.c:66-80 | a command before the welcome is queued, after it is run |
| Registration.Session.ProcessInput | irC6/src/irc/cmd_list.gperf:63-87 | every line keeps: commands run and queued are those received, in order, and one connect marks the login; what each line adds to the trace and the queue |
| Registration.Session.Welcome | irC6/src/irc/output.c:127-139 | all queued commands have been run, in order, once, and nothing else has happened; the queue is empty |
| Registration.Session.Play | irC6/src/irc/irc.h:73-85 | over any run: one connect, with the last parameters given before the login was complete, exactly if all three came; the commands run after the welcome are all that came, in order |
| ArgsSep.WordsAreWords | irC6/src/lib/args_sep.c:39-99 | the words are non-empty and free of white space |
| ArgsSep.OneWord | irC6/src/lib/args_sep.c:49-60 | bytes other than 32, 10, 9 and 13 are one word |
| ArgsSep.Apart | irC6/src/lib/args_sep.c:77-84 | each of those four, wherever it stands, parts the words in front of it from those behind |
| ArgsSep.SplitJoined | irC6/src/lib/args_sep.c:39-129 | splitting joined words gives the words back |
| ArgsSep.Count | irC6/src/lib/args_sep.c:48-61 | the counting pass counts the words |
| ArgsSep.Strsep | irC6/src/lib/args_sep.c:77-84 | strsep ends one run in place and leaves the rest |
| ArgsSep.Separate | irC6/src/lib/args_sep.c:39-99 | both passes agree, so the mismatch error is never reached; argv points at the words in order |
| ArgsSep.Join | irC6/src/lib/args_sep.c:101-129 | the words with one blank between, ended by a zero byte, in a buffer that is just large enough; for no words at all the zero byte goes in front of the buffer |
| RoomName.DecodeEncode | irC6/src/irc/room.c:40-101 | decoding undoes encoding for every name |
| RoomName.EncodeInjective | irC6/src/irc/room.c:40-62 | different rooms have different channel names |
| RoomName.EncodedMore | irC6/src/irc/room.c:48-56 | byte by byte: digits and letters stay, any other byte becomes a percent sign and two digits of 0 to 9 and A to F |
| RoomName.EscapeDecoded | irC6/src/irc/room.c:64-74 | a percent sign and two hex digits of either case become the byte of that value |
| RoomName.PercentKept | irC6/src/irc/room.c:84-97 | a percent sign without two hex digits behind it stays |
| RoomName.ChannelName | irC6/src/irc/room.c:40-62 | the encoding is a hash sign and alphanumerics and %XX triplets only: a channel name of section 1.3 of RFC 1459, in the space allotted |
| RoomName.DecodeFitsIff | irC6/src/irc/room.c:77-101 | a decoded name and its zero byte fit where they are written, if and only if the name starts with a hash sign or holds an escape |
| RoomName.Encode | irC6/src/irc/room.c:40-62 | the pointer loop writes the encoding and its zero byte within the buffer |
| RoomName.Decode | irC6/src/irc/room.c:77-101 | the pointer loop writes the decoding, and its zero byte fits within the buffer exactly for the names of the condition above |
| Area.Node.NeverInvalid | irC6/src/lib/area.c:93-94 | a linked chunk is never taken for an invalid pointer |
| Area.Node.AddChunk | irC6/src/lib/area.c:96-100 | the chunk is first in the list and the counter grows by its size |
| Area.Extract | irC6/src/lib/area.c:102-106 | exactly this chunk leaves the list it is in, wherever that is, and the sizes of that list shrink by its size |
| Area.Unlink | irC6/src/missing/sys/queue.h:211-216 | removal through the back link, for the first chunk and for any other |
| Area.Balance | irC6/src/lib/area.c:102-106 | charging a chunk of one area to another leaves the accounts right if and only if the two are one or the chunk is empty |
| Area.Malloc | irC6/src/lib/area.c:198-224 | a fresh chunk of the recorded size exactly if there is room for it, else nothing changed; all accounts of the tree stay right |
| Area.Free | irC6/src/lib/area.c:350-363 | a chunk of any area of the tree is freed, exactly it, or the right error is given and nothing changes, whatever the counters say; by how much each counter is then off; right accounts stay right if and only if the chunk was in the area named, or empty, or refused |
| Area.RealRealloc | irC6/src/lib/area.c:226-240 | the chunk is replaced exactly if there is room, else unlinked and leaked |
| Area.Realloc | irC6/src/lib/area.c:242-259 | null and invalid pointers are allocations, an equal size changes nothing, else the chunk is replaced, whatever the counters say and whichever area it is in; by how much each counter is then off, and when right accounts stay right |
| Area.Relink | irC6/src/lib/area.c:416-431 | moving a chunk conserves the total and every chunk, whatever the counters say and whichever area it was in; without a new area exactly this chunk leaves; by how much each counter is then off, and when right accounts stay right |
| Area.Size | irC6/src/lib/area.c:183-196 | the counters of the area and of everything below |
| Area.TotalIsSizes | irC6/src/lib/area.c:96-106 | the counters of a tree add up to the recorded sizes of its chunks and what the counters are off by |
| Area.GapsShifted | irC6/src/lib/area.c:102-106 | charging a chunk of one area to another shifts what two counters are off by, and the sum over the tree stays |
| Area.AreaSize | irC6/src/lib/area.c:183-196 | area_size is the sum of the recorded sizes of all chunks in the area and below it and what the counters there are off by; with right counters, of the sizes alone |
| Area.AreaRoot | irC6/src/lib/area.c:109-136 | one area is always made; it is returned only with a handler and the memory for it, and no counter changes |
| Area.AreaNode | irC6/src/lib/area.c:138-155 | the tree with one more area, empty, first below the given one, exactly if there is room for it; counters and total as before |
| Area.FreeChunks | irC6/src/lib/area.c:169-173 | every chunk of the list is freed, once, each link read before its chunk is gone |
| Area.DestroyKids | irC6/src/lib/area.c:163-167 | the loop over a list whose members take themselves out of it frees every area and chunk below |
| Area.Destroy | irC6/src/lib/area.c:157-181 | every area and chunk from here down is freed exactly once and the parent's list loses this area |
| Area.AreaDestroy | irC6/src/lib/area.c:157-181 | the rest of the tree stands as it was, right counters or not, and the total shrinks by that of what was destroyed |
| AreaRun.Conserved | irC6/src/lib/area.c:102-106 | one call on a chunk of any area leaves the counters of the tree off by as much as before, all together |
| AreaRun.Program.GiveBack | irC6/src/lib/area.c:350-363 | a program that records where its chunks are still does so after exactly this chunk is freed, whichever area the call names |
| AreaRun.Program.Move | irC6/src/lib/area.c:416-431 | the same after a chunk is moved to another area |
| AreaRun.Program.Resize | irC6/src/lib/area.c:226-259 | the same after a reallocation, which may lose the chunk |
| AreaRun.Program.Tear | irC6/src/lib/area.c:157-181 | the same after exactly an area and all below it are gone, and how much wrong accounts go with them |
| AreaRun.Run | irC6/src/lib/area.c:109-431 | after any run of the operations, over any areas and chunks, whichever areas the calls name: the tree and its lists are in order, no chunk is in two areas, nothing is freed that is not allocated, and the counters add up to the recorded sizes but for what destroyed areas were off by; if each chunk was charged to its own area, every counter is right |

## Left out

Parts of the repository that are not modelled:

- Sockets, events, signals, logging and the wording of replies: reads are arbitrary byte strings and replies are events in a trace.
- Teardown by setjmp and longjmp: a closed session takes no more input.
- The chat commands behind their guards, user tables, console windows and the XML scraping: their effect is one event.
- The lookup cache of the hash table: the cache size is 0, as the connection tables have it.
- HASHTABLE_ALLOWCOLL, HASHTABLE_DUPASCOLL, hash_collisions and the collision counters: no caller uses them.
- hashtable_find_id, hashtable_wrap, hash_dup and hash_get: wrappers around the modelled operations.
- The two concrete hash functions: they are arbitrary functions of the key bytes.
- The compression function of MD5 and the tables of Blowfish: they are arbitrary; no property needs their values.
- c6_nick_encode, c6_packet_encode and the XOR codings of c6/codifica.c: loops without state across bytes.
- buf_copy, buf_insert_size and the other buffer moves: plain copies.
- lib/area_chunk.c: chunks come from allocation and go back by release.
- Error callbacks and area_errfunc: they do not touch the accounts.
- a_realloc0, the expand calls and a_memdup: they differ from the modelled calls by filling or copying bytes.
- signals.c, list.c, status.c, userinfo.c: one-branch wrappers and dispatch.
- SPLAY_NEXT and RB_AUGMENT: a splay and a walk down left links; an empty macro.
- Overflow of size_t in sizes and format numbers: sizes are unbounded.

What the modelled members leave open:

- RbTree.Tree.Insert: that an equal key changes no member is stated through the shape, whose links and colours the heap spells out.
- SplayTree.Tree.MinMax: an argument of 0 makes the loop of the source run forever and is excluded.
- HashTable.HashTable.SetupNode: there is memory for the bucket; HashTable.HashTable.AddStarved has the other case.
- HashTable.HashTable.Add: there is memory for the bucket and the entry; the other cases are those of HashTable.HashTable.AddStarved, and HashTable.Run has no such call; key bytes and value are kept by the entry as they are, without the copying or sharing of HASHTABLE_DUPDATA.
- Md5.Digest: each update is shorter than the range of its length argument, which is that of a word.
- Codifica.Code: keys are not empty; the callers pass sixteen bytes.
- C6Frame.Connection.ReadAll: every read returns at least one byte and at most the room left in the buffer, as the source asks of the socket.
- C6Frame.Connection.ParseIndata: the kept bytes are moved all at once; the source copies them with memcpy between areas that may overlap (`irC6/src/c6/c6.c:221`), which C leaves undefined.
- IrcLines.Connection.Split: the same for `irC6/src/irc/irc.c:274`.
- PackCodec.RoundTrip: bytes skipped behind a length of their own are read (`%$%k`) but not claimed to come back, as their values do not show the length; no format of the repository does that.
- PackCodec.UnpackData: positional arguments (a number with a dollar sign) end the model in an outcome of their own, because the source does not leave its loop there; the host is little-endian; long integers have eight bytes and are refused, as nothing in the repository defines SIZEOFLONG_DIF_SIZEOFINT (`irC6/src/lib/buffer.c:707`).
- PackCodec.NewPack: memory never runs out.
- PackCodec.BuildPackQueue: memory never runs out; long integers are refused, for the same reason (`irC6/src/lib/buffer.c:366`); arguments are typed values; a call whose arguments do not match the format is undefined.
- Registration.Session.Play: the welcome comes only after the login. It is emitted by `irC6/src/c6/server.c:130` alone, on a connection that `connect` has opened, and `connect` is emitted at the end of a login (`irC6/src/irc/comandi.c:62`).
- Registration.Session.Welcome: the login is complete, for the same reason; before it, the loop would append each kept line again behind the last one, drop a single one and never end with two. The greeting lines before the flag is set are not modelled.
- ArgsSep.Separate: allocation does not fail and the arguments are not null.
- ArgsSep.Join: allocation does not fail.
- RoomName.Encode: isalnum is that of the C locale.
- Area.AreaRoot: the source clears a list in the new area before it looks whether it got one; that the area was allocated is taken for granted.
- Area.AreaNode: the sibling list of areas is a sequence, so the singly linked list of queue.h is not modelled there; chunk lists are linked.
- Area.DestroyKids: the same sequence is walked.
- Area.AreaSize: counters are whole numbers; a counter that would be negative wraps in the source, where the sums hold modulo the range of size_t.
- AreaRun.Run: which operation comes next, on what, is arbitrary; memory may run out in every call, and calls on null or on pointers that no link leads to are those of Area.Free, Area.Realloc and Area.Relink.
