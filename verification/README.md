# Models and proofs for defuse

defuse runs user-space file systems inside the processes that use them. Its two heavy parts are
a dynamic linker (a modified musl `ldso`) that pulls the file systems in, and the file-system
back ends themselves (HDFS and SSHFS) with a small path library between them. This project
models the algorithms at the core of those parts in Dafny and proves what they promise.

`dafny verify dfyconfig.toml` checks everything.

| file | what it models |
|---|---|
| `Common`, `Words` | bytes, options; machine words as natural numbers with bitwise operators |
| `Crc32cSpec`, `Crc32cPoly`, `Crc32cSoftware`, `Crc32cHardware` | CRC-32C bit by bit; as a remainder of polynomials; by eight tables; by the processor's instruction on three streams |
| `Graph`, `Dsos` | reachability; a loaded object with the fields the linker updates |
| `CtorOrder`, `QueueCtors` | the depth-first constructor queue, on values and in the shared queue/stack buffer |
| `BfsDeps` | the breadth-first dependency list that grows while it is scanned |
| `CtorProtocol`, `CtorExits`, `CtorProgress` | constructors and destructors run by many threads, as a state machine; several threads in `exit`; which threads can go on |
| `SymbolLookup` | GNU and SysV hash tables, the Bloom filter, lookup along the symbol chain |
| `LazyRelocs`, `LazyRedo`, `LazyOpen` | one relocation table, deferring what is missing; retrying all objects' deferred relocations; making room for them when an object is opened |
| `TlsLayout`, `TlsThread`, `TlsInstall` | static TLS offsets, a new thread's block, TLS of libraries loaded at run time |
| `Dlopen` | the lists an object joins when it is opened, and undoing a failed opening |
| `ReadAhead`, `WriteFlush` | SSHFS reads with speculation; pending writes on circular lists and flush |
| `Packets`, `Receiving` | HDFS block data in checksummed packets, sent; the byte stream they make, received |
| `ResolvePath`, `Symlink` | path canonicalisation in place; absolute links made relative |

## How the pieces fit

Sequential code that updates arrays, fields or lists is modelled by methods on arrays and
classes. Each is proved against a function or predicate on plain values, and the value level
carries the theorems:

* **One checksum, three programs.** `Crc` is defined one message bit at a time. The table
  version and the three-stream version are both proved equal to it for every start value, address and
  input, so switching implementation cannot change a result. It is the remainder of the message by the
  CRC-32C generator polynomial of RFC 3720, and no other word is (`CrcIsRemainder`).
* **Dependencies.** `SortedCtors` says what the constructor queue must be on any graph, cycles
  included, and it is the order of a recursive depth-first visit (`PostOrder`); `BreadthFirst` says that
  the extended list is exactly the reachable objects, in order of distance, and `InOrder` that each is
  listed when it is first named, which leaves one list only (`OneList`). `DependenciesFirst` carries the
  first over to every interleaving of threads.
* **Lookup.** Both hash tables, with or without the filter, give what a plain scan of the symbols
  gives: the first object whose symbol of that name may be bound to, in the numbers of the ELF
  specification (`ScanMeaning`).
* **TLS.** The bit masks are shown to be remainders; from there every load sequence gives disjoint,
  aligned blocks, in both architecture variants, and the sizes reserved beforehand suffice.
* **Files.** Any sequence of reads, writes and truncations with read-ahead returns what plain reads
  would, which is byte by byte what was written last (`ReadInRun`); in every run, a flush ends only after every write it found pending has.
* **Deferred relocations.** The room made when an object is opened suffices for its three tables;
  whatever is left is retried in place, and the list of objects linked anew.

Where the code does not meet a promise, the exact condition is proved:

* `crc32c_zeros_op` says it wants a power of two; for other lengths it rounds down (`ZerosOp`).
* `hadoop_rpc_send_packets` plans a packet past the end of the data, and then stops at an assertion,
  exactly when the data does not satisfy `Fits`: it ends inside the checksum unit it starts in, or inside one that
  a packet of broken units left unfinished. A packet size of zero sends an empty block (`FitsNext`,
  `SendPackets`, `Misfits`).
* `hadoop_rpc_receive_packets` never reads past a packet's checksums, so they are taken for data.
  Whatever the bytes are, each wanted one is read from its own place in the stream if and only if no
  packet read carries checksums, apart from a last one of which nothing is wanted
  (`ChecksumsDeliver`); then the data is delivered (`InPlaceIsCorrect`). What `SendPackets` sends with
  checksums is not read in place unless nothing is asked for or sent (`ChecksumsDisplace`), and it can
  arrive wrong (`ChecksumsReadAsData`) or right by chance (`ChecksumLooksRight`). Sent without, it
  arrives whole (`RoundTrip`).
* The same function takes a short read for a full one. A connection that closes or fails inside the
  last read goes unnoticed (`StopUnnoticed`); exactly when a stop is noticed is `StopNoticed`, and
  when one that is not is harmless is `StopDelivers`.
* `resolve_path` moves more bytes than the text needs; it stays inside its buffer exactly when
  `InBounds` holds of the input: wherever the path goes up, the parent directory's path, that of the
  directory left, and the rest of the text fit the buffer one after the other. That always holds for
  a path of at most half the buffer (`ResolvePath`, `HalfIsEnough`) and fails for a deep path that
  goes up at its end (`DeepOutOfBounds`).
* A failed `dlopen` that was the first to need the linker's own object leaves that object with a
  predecessor although it is on no chain, and gives it up to `free` although it was never allocated
  (`FailedDlopen`, `SelfKeepsPredecessor`).
* A lazy `dlopen` keeps every object on the deferred list if and only if the object opened does not
  depend on itself and names no dependency that is to be prepared twice. Otherwise the list leads back
  into itself and every object on it before is lost (`OpenLazily`; `CycleBreaksList` and
  `RepeatBreaksList` are the two ways), so that what those have deferred is never retried
  (`RetryOpened`). Retrying copes with a list that leads back into itself, and leaves it so exactly if
  the object it leads back to still has something missing (`RedoLazyRelocs`).
* A library's TLS lands in the gap above the thread pointer exactly when the application has no TLS
  and the first library's image is congruent to an address in the gap (`LoadAll`, `LandsInGap`).
* Finalizers can run twice if two threads call `exit` (`FinalizedTwice`). In every reachable state no
  object's have if and only if no two exits are past the same constructed object, so with one exit
  they never do (`FinalizedOnceIff`); when two exits are done each has finalized everything
  (`TwoExits`).
* Threads running constructors can come to wait for each other, and then do so for ever
  (`DeadlockHappens`, `DeadlockForever`). Nobody can go on exactly when all that work on a queue wait
  for each other (`NobodySteps`), which takes a constructor that opens a library (`Progress`).
* A symbolic link to the base directory itself stays absolute if written as the base is, and is
  rewritten if written with a further slash (`TransformSymlink`, `BaseItself`).

## Model

| member | source | states |
|---|---|---|
| Crc32cSpec.BitStepLinear | usfs_wrap/hdfs/crc32c.c:54-65 | one step of the register is linear under exclusive-or |
| Crc32cSpec.ZeroBitsLinear | usfs_wrap/hdfs/crc32c.c:109-125 | so is appending any number of zero bits |
| Crc32cSpec.FoldIsZeroBits | usfs_wrap/hdfs/crc32c.c:253-265 | folding a message in bit by bit equals xoring it in whole, as a little-endian number, and stepping once per bit; this is what the crc instruction relies on |
| Crc32cSpec.FoldStreams | usfs_wrap/hdfs/crc32c.c:253-269 | the CRC of a concatenation is the first part's register moved over the second part's length, xor the second part's CRC from zero |
| Crc32cSpec.CrcAppend | usfs_wrap/hdfs/crc32c.c:331-343 | a CRC passed back in continues: `Crc(Crc(c, s), t) == Crc(c, s + t)` |
| Crc32cSpec.CrcBound | usfs_wrap/hdfs/crc32c.c:333-343 | the result is a 32-bit word |
| Crc32cPoly.RemainderUnique | usfs_wrap/hdfs/crc32c.c:43 | a polynomial over GF(2) has one remainder of degree below 32 by the generator |
| Crc32cPoly.ReversedPolynomial | usfs_wrap/hdfs/crc32c.c:42-43 | the constant is the generator `11edc6f41` without its highest term, bits reversed |
| Crc32cPoly.FoldBitsRemainder | usfs_wrap/hdfs/crc32c.c:54-65 | for every start value and bit sequence, the register read in the usual bit order is the remainder of start value and message, followed by 32 zeros, by the generator |
| Crc32cPoly.CrcIsRemainder | usfs_wrap/hdfs/crc32c.c:333-343 | a word is the CRC of the data if and only if, complemented and reversed, it is that remainder from the complemented start value |
| Crc32cPoly.MessageBitAt | usfs_wrap/hdfs/crc32c.c:54-65 | the message's bits are those of its bytes in order, lowest first |
| Crc32cPoly.CrcOfOneByte | usfs_wrap/hdfs/crc32c.c:333-343 | the CRC of the byte 127 as a number |
| Crc32cSoftware.TableStep | usfs_wrap/hdfs/crc32c.c:84-86 | eight steps are one lookup of the low byte and a shift |
| Crc32cSoftware.SliceStep | usfs_wrap/hdfs/crc32c.c:89-101 | stepping a wide word `8k` times splits into its low byte's `8k` steps and the rest's `8(k-1)` |
| Crc32cSoftware.InitSw | usfs_wrap/hdfs/crc32c.c:50-73 | table `k` maps a byte to the register after it and `k` zero bytes |
| Crc32cSoftware.StepQuadword | usfs_wrap/hdfs/crc32c.c:89-101 | eight lookups fold eight message bytes in |
| Crc32cSoftware.StepByte | usfs_wrap/hdfs/crc32c.c:84-87 | one lookup folds one message byte in |
| Crc32cSoftware.CrcSw | usfs_wrap/hdfs/crc32c.c:78-107 | the table version equals the bitwise CRC, which `CrcIsRemainder` characterises, for every start, address and input |
| Crc32cHardware.GfTimes | usfs_wrap/hdfs/crc32c.c:113-125 | the loop computes the matrix-vector product over GF(2) |
| Crc32cHardware.GfSquare | usfs_wrap/hdfs/crc32c.c:129-135 | column by column, the matrix applied to itself |
| Crc32cHardware.TimesLinear | usfs_wrap/hdfs/crc32c.c:113-125 | the product is linear in the vector |
| Crc32cHardware.SquareComposes | usfs_wrap/hdfs/crc32c.c:129-135 | the square applied once is the matrix applied twice, for any matrix and vector |
| Crc32cHardware.TimesAppendsZeros | usfs_wrap/hdfs/crc32c.c:142-177 | a matrix whose columns step the unit vectors steps every vector |
| Crc32cHardware.SquareDoubles | usfs_wrap/hdfs/crc32c.c:158-177 | squaring the operator for `n` zeros gives the one for `2n` |
| Crc32cHardware.FloorPow2Meaning | usfs_wrap/hdfs/crc32c.c:137-142 | the length the operator is built for is the largest power of two not above the one given (1 for 0) |
| Crc32cHardware.ZerosOp | usfs_wrap/hdfs/crc32c.c:142-177 | alternating squarings end with the operator for that many zero bytes in `even` |
| Crc32cHardware.Zeros | usfs_wrap/hdfs/crc32c.c:181-193 | the four tables hold the operator for a byte in each position |
| Crc32cHardware.Shift | usfs_wrap/hdfs/crc32c.c:196-200 | four lookups append those zeros to any register |
| Crc32cHardware.ThreeStreams | usfs_wrap/hdfs/crc32c.c:253-269 | three interleaved registers, recombined with two shifts, equal one pass over the three blocks |
| Crc32cHardware.Blocks | usfs_wrap/hdfs/crc32c.c:253-289 | the loop over triples keeps the register equal to the fold of what is consumed |
| Crc32cHardware.Quadwords | usfs_wrap/hdfs/crc32c.c:293-299 | so does the loop over eight-byte units |
| Crc32cHardware.CrcHw | usfs_wrap/hdfs/crc32c.c:227-313 | the hardware version equals the same CRC for every start, address and input |
| Crc32cHardware.InitHw | usfs_wrap/hdfs/crc32c.c:220-224 | the shift tables match the two block sizes exactly |
| Crc32cHardware.Crc32c.Compute | usfs_wrap/hdfs/crc32c.c:333-343 | whichever version is chosen, with its tables built on first use, the answer is that CRC |
| CtorOrder.PushKeeps | musl/ldso/dynlink.c:1457-1462 | entering an unvisited dependency keeps the search invariant |
| CtorOrder.EmitKeeps | musl/ldso/dynlink.c:1463-1465 | so does moving a finished object to the queue |
| CtorOrder.Finish | musl/ldso/dynlink.c:1451-1466 | an empty stack means the queue lists exactly the reachable objects, once, each after every dependency it is not in a cycle with, in the order of a recursive depth-first visit |
| QueueCtors.Room | musl/ldso/dynlink.c:1417-1449 | stack and queue together never exceed the number of reachable objects, so they can share one buffer |
| QueueCtors.SortCtors | musl/ldso/dynlink.c:1441-1466 | the loop over the shared buffer leaves that queue and a terminator |
| QueueCtors.QueueCtors | musl/ldso/dynlink.c:1410-1470 | the whole call, for any dependency graph: the queue of the recursive visit, null terminator, marks cleared |
| QueueCtors.QueueOpened | musl/ldso/dynlink.c:2056-2060 | an object being opened, for the first time or again, gets such a queue |
| BfsDeps.FoundByLength | musl/ldso/dynlink.c:1238-1264 | every object reachable in `n` steps is listed at level `n` or earlier |
| BfsDeps.LevelIsDistance | musl/ldso/dynlink.c:1238-1264 | an entry's level is the length of the shortest path to it |
| BfsDeps.Finish | musl/ldso/dynlink.c:1220-1269 | a list scanned to its end is exactly the reachable objects, nearest first, after the direct ones; each later entry comes at the first place that names it, and those places are in order |
| BfsDeps.ScanEntry | musl/ldso/dynlink.c:1241-1264 | scanning one entry lists its unlisted dependencies within the room counted for them |
| BfsDeps.ExtendBfsDeps | musl/ldso/dynlink.c:1220-1269 | the whole call terminates on cyclic graphs with that list, entry by entry in the order of those places, and all marks cleared; a second call changes nothing |
| BfsDeps.OneList | musl/ldso/dynlink.c:1238-1264 | no other list is breadth-first with its entries in that order |
| CtorProtocol.EventKeeps | musl/ldso/dynlink.c:1380-1510 | every step of every thread, at start-up, in nested opening and in any number of exits, keeps the protocol's invariant |
| CtorProtocol.RunKeeps | musl/ldso/dynlink.c:1472-1510 | so does every interleaving |
| CtorProtocol.Safety | musl/ldso/dynlink.c:1380-1510 | in every reachable state: no constructor started twice, destructors listed in reverse start order, each exit finalises only constructed objects and each once |
| CtorProtocol.StartSafety | musl/ldso/dynlink.c:1479-1490 | when a constructor starts, everything before it in the queue is constructed or being constructed by the same thread, and nothing starts after shutdown |
| CtorProtocol.DependenciesFirst | musl/ldso/dynlink.c:1472-1510 | with a queue from `QueueCtors`, that covers every dependency outside a cycle |
| CtorProtocol.ExitComplete | musl/ldso/dynlink.c:1380-1408 | when a thread's exit is done, exactly the constructed objects are finalised, in list order; any other is under construction by that thread |
| CtorExits.TwoExits | musl/ldso/dynlink.c:1380-1408 | two exits have both finalised exactly the constructed objects of the list that both are past; when both are done, each has finalised the whole list |
| CtorExits.FinalizedOnceIff | musl/ldso/dynlink.c:1380-1408 | in every reachable state no finaliser has run twice if and only if no two exits are past the same constructed object; so with one exit none does |
| CtorExits.FinalizedTwice | musl/ldso/dynlink.c:1380-1408 | a run in which two exits finalise the same object |
| CtorProgress.NobodySteps | musl/ldso/dynlink.c:1472-1508 | before shutdown, nobody can take a step exactly when all threads that work on a queue wait for each other |
| CtorProgress.Progress | musl/ldso/dynlink.c:1472-1508 | then each thread waited for has called out of a constructor; without nested calls somebody can always take a step |
| CtorProgress.ExitProgress | musl/ldso/dynlink.c:1393-1396 | an exit goes on, or waits for a thread inside a constructor that can leave it, has called out of it or exits itself |
| CtorProgress.DeadlockForever | musl/ldso/dynlink.c:1472-1508 | threads that wait for each other do so in every continuation |
| CtorProgress.DeadlockHappens | musl/ldso/dynlink.c:1472-1508 | a run in which two constructors that open each other's object come to that |
| SymbolLookup.SysvHashIsElfHash | musl/ldso/dynlink.c:220-229 | masking once at the end equals the ELF specification's hash, which masks at every character |
| SymbolLookup.TopNibbleIsMask | musl/ldso/dynlink.c:226 | what is folded back in is the shifted and masked word, and the top four bits moved down |
| SymbolLookup.GnuHashIsNumber | musl/ldso/dynlink.c:231-238 | the GNU hash is the name read as a number in base 33 with leading digit 5381, modulo 2^32 |
| SymbolLookup.FirstMeaning | musl/ldso/dynlink.c:246-249 | the first match has the name and is not hidden by its version; all before it, or all where there is none, have another name or are hidden |
| SymbolLookup.BloomBits | musl/ldso/dynlink.c:277-282 | the filter's words are pairs of 32-bit words, low half first |
| SymbolLookup.GnuMatchOnChain | musl/ldso/dynlink.c:254-273 | a matching symbol is on its hash's chain, with no chain end before it, and passes the filter |
| SymbolLookup.GnuLookup | musl/ldso/dynlink.c:254-273 | the chain walk returns the first matching symbol of the whole table, or none exactly when there is none |
| SymbolLookup.FilteredOut | musl/ldso/dynlink.c:275-285 | a name the Bloom filter rejects matches nothing |
| SymbolLookup.GnuLookupFiltered | musl/ldso/dynlink.c:275-285 | lookup behind the filter gives the same answer |
| SymbolLookup.SysvLookup | musl/ldso/dynlink.c:240-252 | the bucket's chain gives its first match |
| SymbolLookup.FirstInBucket | musl/ldso/dynlink.c:240-252 | and that is the first match of all chains together |
| SymbolLookup.FindSym | musl/ldso/dynlink.c:297-326 | the search along the symbol chain finds the definition a plain scan of every object would, which `ScanMeaning` characterises |
| SymbolLookup.AcceptableMeaning | musl/ldso/dynlink.c:287-288 | the masks and tests admit just the types none, object, function, common and TLS with the bindings global, weak and unique, with an address unless TLS, defined where that is needed |
| SymbolLookup.ScanMeaning | musl/ldso/dynlink.c:297-326 | the definition found is the first match of its object and may be bound to in those terms; no earlier object has one, and one is found if any object has one |
| SymbolLookup.ScanStops | musl/ldso/dynlink.c:297-326 | objects after the first definition do not matter |
| LazyRelocs.LeftoverMembers | musl/ldso/dynlink.c:386-394 | exactly the relocations of types 6 and 7 that name a symbol that is missing are left |
| LazyRelocs.PossibleMeaning | musl/ldso/dynlink.c:380-396 | which entries are without error, by type number: a missing symbol for types 6 and 7 with an array to defer to, else types 0, 1, 6, 7, 8 and what is not refused |
| LazyRelocs.PatchedSlot | musl/ldso/dynlink.c:417-432 | of each entry of a table: the slot ends up with the symbol (types 1, 6, 7) or base (type 8) plus the addend of a triple, plus the old word in a pair of type 1 or 8, plus nothing in a pair of type 6 or 7, modulo 2^64, unless a later entry stores to it again |
| LazyRelocs.PatchedElsewhere | musl/ldso/dynlink.c:417-432 | a word that no entry stores to is unchanged |
| LazyRelocs.PlainSpares | musl/ldso/dynlink.c:417-432 | an entry that stores symbol or base plus addend stores to its own slot only |
| LazyRelocs.DeferNext | musl/ldso/dynlink.c:386-394 | storing a deferred triple never touches one not read yet, even when the table is the array itself |
| LazyRelocs.DoRelocs | musl/ldso/dynlink.c:333-511 | one pass over a table of pairs or triples, possibly the object's own array: it is without error exactly when every missing symbol can be deferred and no other entry is refused; then, and at start-up in any case, the array holds the old entries followed by those put off in order, and memory is patched in order |
| LazyRelocs.LassoIsNoList | musl/ldso/dynlink.c:514-532 | links that lead back into themselves form no list |
| LazyRedo.RelinkedMembers | musl/ldso/dynlink.c:523-530 | the new list holds an object exactly when something of it is left |
| LazyRedo.AgainNothing | musl/ldso/dynlink.c:514-532 | going over what is left once more changes neither it nor memory |
| LazyRedo.RedoLazyRelocs | musl/ldso/dynlink.c:514-532 | after retrying all objects of a list, even one that leads back into itself: each array is compacted to its leftovers, memory is patched once in list order, dropped objects have no array, and the new links form the list of exactly the objects kept, or again lead back if and only if the object led back to is kept |
| LazyRedo.EitherLeads | musl/ldso/dynlink.c:514-532 | whatever opening and retrying make of the list can be retried |
| LazyOpen.PrepareLazy | musl/ldso/dynlink.c:1962-1982 | unless symbols are wanted at once, the object gets room computed from its table sizes and goes in front of the list |
| LazyOpen.PrepareOpened | musl/ldso/dynlink.c:2061-2066 | the object and its dependencies not yet relocated join, in order; if none joins twice they are in front of all that was on the list, which is one if it was; otherwise it leads back into itself and all that was on it is off it |
| LazyOpen.OpenLazily | musl/ldso/dynlink.c:2056-2066 | on the dependency list as extended, the first is so if and only if the object is not reachable from itself and its direct dependencies that join are distinct |
| LazyOpen.RetryOpened | musl/ldso/dynlink.c:514-532 | objects lost from the list are not retried: their arrays and links stay as they are |
| LazyOpen.CycleBreaksList | musl/ldso/dynlink.c:2061-2066 | two objects that need each other: no list is left |
| LazyOpen.RepeatBreaksList | musl/ldso/dynlink.c:1198-1207 | an object that names one dependency twice: no list is left |
| LazyOpen.RoomSuffices | musl/ldso/dynlink.c:1969-1975 | the array prepared for an object has room for every entry of its three tables |
| LazyOpen.RelocateObject | musl/ldso/dynlink.c:1325-1348 | the three passes over an object with that array: without error exactly when all entries can be done or deferred, and then, or at start-up, the array holds all those put off in order |
| TlsLayout.MaskIsRemainder | musl/ldso/dynlink.c:1148-1154 | masking an unsigned word with alignment minus one is the remainder, for negative operands too |
| TlsLayout.MaxP2IsMax | musl/ldso/dynlink.c:30 | the bit trick is the maximum of two alignments, and both divide it |
| TlsLayout.LibraryPlaced | musl/ldso/dynlink.c:1144-1156 | a library's block starts past all earlier ones, congruent to its image, wasting less than its alignment, above and below the thread pointer |
| TlsLayout.AppPlaced | musl/ldso/dynlink.c:1814-1828 | so does the application's, which also clears the gap above the thread pointer |
| TlsLayout.PlaceKeeps | musl/ldso/dynlink.c:1144-1156 | adding a block keeps the whole layout disjoint and aligned |
| TlsLayout.TlsState.PlaceApp | musl/ldso/dynlink.c:1814-1828 | start-up places the application if it has TLS and sets the counters |
| TlsLayout.TlsState.PlaceLibrary | musl/ldso/dynlink.c:1144-1163 | each load keeps the invariant, gives the offset computed, never lowers the end and takes the larger alignment |
| TlsLayout.LoadAll | musl/ldso/dynlink.c:1144-1163 | any sequence of loads ends in a valid layout of exactly those modules in that order; above the thread pointer the gap stays free if and only if the application has TLS or the first library is congruent to no address in it |
| TlsLayout.LandsInGap | musl/ldso/dynlink.c:1144-1163 | a library that lands in the gap |
| TlsLayout.BlocksDisjoint | musl/ldso/dynlink.c:1144-1156 | in every thread with an aligned thread pointer the blocks are disjoint addresses, each congruent to its image |
| TlsThread.AlignUpBounds | musl/ldso/dynlink.c:31 | the mask form of rounding up gives the next multiple |
| TlsThread.PlacesArranged | musl/ldso/dynlink.c:1530-1540 | a block of the computed size holds DTV, descriptor and all modules without overlap, in both variants |
| TlsThread.CopyTls | musl/src/env/__init_tls.c:40-78 | filling it: every DTV entry points to an aligned copy of its image inside the block, copies are disjoint, nothing outside changes |
| TlsInstall.ReservationFits | musl/ldso/dynlink.c:1117-1159 | the single allocation of a run-time library holds its name, all threads' enlarged DTVs and a TLS copy per thread; the overflow guard's request cannot have been granted |
| TlsInstall.CopyInSlot | musl/ldso/dynlink.c:1563-1572 | each thread's copy is congruent to the image and inside its slot |
| TlsInstall.NewCopiesDisjoint | musl/ldso/dynlink.c:1561-1574 | no two copies overlap, of one library or of two |
| TlsInstall.InstallModule | musl/ldso/dynlink.c:1563-1572 | one library: every thread's new DTV entry and image bytes, nothing outside the reservation |
| TlsInstall.FillRows | musl/ldso/dynlink.c:1542-1574 | the enlarged DTVs keep all old entries and gain every new module; stopping at the highest number misses none; no byte outside the reservations changes |
| TlsInstall.InstallNewTls | musl/ldso/dynlink.c:1542-1590 | every thread switches to its enlarged DTV, and no byte outside the reservations changes |
| Dlopen.OnSymChain | musl/ldso/dynlink.c:1285-1291 | the link-or-tail test is exactly membership in the symbol chain |
| Dlopen.AddSyms | musl/ldso/dynlink.c:1285-1291 | the chain gains the object unless it has it, and stays duplicate-free and terminated |
| Dlopen.RevertSyms | musl/ldso/dynlink.c:1293-1303 | cutting after a saved tail restores the chain that ended there and clears every link behind it |
| Dlopen.Linker.PublishBriefly | musl/ldso/dynlink.c:2067-2083 | any additions followed by the revert leave the symbol chain as it was |
| Dlopen.Linker.Load | musl/ldso/dynlink.c:1130-1168 | a new object joins the chain and, with TLS, the module list, with the counters its placement gives |
| Dlopen.PlaceDescribes | musl/ldso/dynlink.c:1144-1163 | those counters go on describing all modules placed: their number, an end past all of them, an alignment for all, blocks disjoint |
| Dlopen.Linker.LoadLibc | musl/ldso/dynlink.c:1018-1025 | the linker's own object joins the chain unless it is on it |
| Dlopen.Linker.Perform | musl/ldso/dynlink.c:2041-2074 | every step only appends to the lists |
| Dlopen.Linker.Rollback | musl/ldso/dynlink.c:2016-2044 | all lists, tails and counters return to what was saved; what is given up is exactly what was added; the state is valid again if and only if that does not include the linker's own object |
| Dlopen.Linker.FailedDlopen | musl/ldso/dynlink.c:1984-2044 | the same after any sequence of steps, with a deferred list that is one or that an earlier opening broke; the condition is that the linker's object was on the chain before or was never asked for, and exactly otherwise that object is among those freed |
| Dlopen.SelfKeepsPredecessor | musl/ldso/dynlink.c:1018-1025 | a run in which it fails |
| ReadAhead.Collect | usfs_wrap/sshfs/sshfs_wrap.c:2931-2987 | waiting for a chunk returns the file's bytes, short only at its end, and leaves the rest of the replies matching the rest of the file |
| ReadAhead.ReadChunk.Wait | usfs_wrap/sshfs/sshfs_wrap.c:2931-2987 | the same on a chunk, which advances by what was taken |
| ReadAhead.OpenFile.SendRead | usfs_wrap/sshfs/sshfs_wrap.c:2885-2929 | requests of limited size cover the range without gap or overlap |
| ReadAhead.OpenFile.SyncRead | usfs_wrap/sshfs/sshfs_wrap.c:2989-2996 | a read without speculation returns the file's bytes |
| ReadAhead.OpenFile.AsyncRead | usfs_wrap/sshfs/sshfs_wrap.c:3022-3070 | so does one that uses what was read ahead, in part or whole, and reads ahead again |
| ReadAhead.OpenFile.Write | usfs_wrap/sshfs/sshfs_wrap.c:3209-3225 | a write overwrites the file as `OverwriteBytes` says and outdates what was read ahead |
| ReadAhead.OverwriteBytes | usfs_wrap/sshfs/sshfs_wrap.c:3209-3225 | each byte written is at its offset, every other byte is as before, and a gap past the end is zeros |
| ReadAhead.ResizeBytes | usfs_wrap/sshfs/sshfs_wrap.c:3272-3307 | a truncated file has its old bytes, and zeros beyond them |
| ReadAhead.OpenFile.Truncate | usfs_wrap/sshfs/sshfs_wrap.c:3272-3307 | so does a truncation, made by the server or by the workaround |
| ReadAhead.OpenFile.Shrink | usfs_wrap/sshfs/sshfs_wrap.c:3379-3423 | the workaround that reads a file's beginning back, empties the file and writes it again shortens the file |
| ReadAhead.Run | usfs_wrap/sshfs/sshfs_wrap.c:3022-3070 | any sequence of reads, writes and truncations returns what plain reads of the changing file return, as `ReadInRun` says it |
| ReadAhead.ReadInRun | usfs_wrap/sshfs/sshfs_wrap.c:3022-3070 | each read of a run gets, at every offset within the length the operations before it made, the byte last written there, zero where a gap or truncation left none, or the file's own |
| ReadAhead.WrittenIsRead | usfs_wrap/sshfs/sshfs_wrap.c:3022-3070 | what was just written is read back |
| ReadAhead.SliceBytes | usfs_wrap/sshfs/sshfs_wrap.c:2989-2996 | a plain read gets the bytes from its offset on, short only at the end of the file |
| WriteFlush.ListAdd | usfs_wrap/sshfs/sshfs_wrap.c:598-606 | links a node into a ring after another, keeping all other nodes in order |
| WriteFlush.ListDel | usfs_wrap/sshfs/sshfs_wrap.c:608-615 | closes a ring around the node taken out |
| WriteFlush.EmptyRing | usfs_wrap/sshfs/sshfs_wrap.c:617-620 | a head points at itself exactly when its ring is empty |
| WriteFlush.Splice | usfs_wrap/sshfs/sshfs_wrap.c:2775-2780 | a flush's head takes over the whole ring in order and the file's ring is empty |
| WriteFlush.OpenFile.WriteBegin | usfs_wrap/sshfs/sshfs_wrap.c:3085-3089 | a write joins the file's pending list |
| WriteFlush.OpenFile.WriteEnd | usfs_wrap/sshfs/sshfs_wrap.c:3091-3108 | a write that ends leaves whichever list it is on, the file's or a flush's, and records its error |
| WriteFlush.OpenFile.FlushBegin | usfs_wrap/sshfs/sshfs_wrap.c:2762-2780 | a flush takes exactly the writes pending when it starts |
| WriteFlush.OpenFile.FlushDone | usfs_wrap/sshfs/sshfs_wrap.c:2781-2782 | it stops waiting exactly when all of them have ended |
| WriteFlush.OpenFile.FlushEnd | usfs_wrap/sshfs/sshfs_wrap.c:2784-2787 | and hands the recorded error over once, also when it found nothing pending |
| WriteFlush.OpenFile.Perform | usfs_wrap/sshfs/sshfs_wrap.c:2762-2788 | each of these calls is a step of a state machine on values |
| WriteFlush.FlushCompletes | usfs_wrap/sshfs/sshfs_wrap.c:2762-2788 | in every run of that machine, every write pending at a flush's start ends between that and its stop |
| Packets.Gather | usfs_wrap/hdfs/hadooprpc.c:667-725 | assembling from any list of real and zero buffers gives the wanted slice of their concatenation |
| Packets.BufferBytes | usfs_wrap/hdfs/hadooprpc.c:688-716 | a buffer with data reads as it, one without as zeros |
| Packets.ChecksumsAt | usfs_wrap/hdfs/hadooprpc.c:727-748 | checksum `i` is the CRC of unit `i` of the data |
| Packets.ChecksumsCount | usfs_wrap/hdfs/hadooprpc.c:639-640 | there are as many as the rounded-up quotient |
| Packets.ComputeChecksums | usfs_wrap/hdfs/hadooprpc.c:727-748 | the loop computes them all |
| Packets.SendPacket | usfs_wrap/hdfs/hadooprpc.c:586-813 | what is sent, how far the position moves and what is returned, for every kind of checksum and answer; a failed write to the socket moves nothing |
| Packets.BlockMeaning | usfs_wrap/hdfs/hadooprpc.c:815-860 | the packets of a block carry the data whole and in order, numbered and placed consecutively, with one empty last packet |
| Packets.NextLengthMeaning | usfs_wrap/hdfs/hadooprpc.c:830-840 | from a unit boundary a packet takes all the packet size and the data left allow; otherwise it ends at the next boundary |
| Packets.BlockPlanned | usfs_wrap/hdfs/hadooprpc.c:815-860 | every packet of a block has that length and the checksums of its own data |
| Packets.BlockWithinUnits | usfs_wrap/hdfs/hadooprpc.c:834-840 | no checksum covers bytes of two units of the block |
| Packets.OvershootIffUnaligned | usfs_wrap/hdfs/hadooprpc.c:830-840 | a planned packet is longer than what is left exactly when the data ends inside the unit begun before it, for every packet size |
| Packets.FitsNext | usfs_wrap/hdfs/hadooprpc.c:828-840 | the closed form of the condition is exact at every packet: it holds before one if and only if the packet stays within the data and it holds after |
| Packets.WholeUnitsFit | usfs_wrap/hdfs/hadooprpc.c:830-840 | for packets of whole units the condition is that the data reaches the first unit boundary |
| Packets.Misfits | usfs_wrap/hdfs/hadooprpc.c:830-840 | data for which it fails, in each of the two ways |
| Packets.SendPackets | usfs_wrap/hdfs/hadooprpc.c:815-860 | data that fits is sent exactly as the block's packets, up to a refusal or a failed write; data that does not fit, if nothing is refused, ends at the failed assertion; an unsupported checksum sends nothing; packet size zero sends the empty packet only |
| Receiving.ReceivePackets | usfs_wrap/hdfs/hadooprpc.c:496-584 | for every stream of packets, complete or broken off, closed or failing: what is returned, and what bytes of the stream are delivered, checksums among them |
| Receiving.SameForAll | usfs_wrap/hdfs/hadooprpc.c:540-571 | how a call ends does not depend on the bytes, and what it delivers is mapped as they are |
| Receiving.ChecksumsDeliver | usfs_wrap/hdfs/hadooprpc.c:540-571 | for every complete stream, success with every wanted byte read from its own place if and only if no packet read has checksums, but for a last one of which nothing is wanted |
| Receiving.InPlaceIsCorrect | usfs_wrap/hdfs/hadooprpc.c:540-571 | then the data is what is delivered |
| Receiving.StopNoticed | usfs_wrap/hdfs/hadooprpc.c:518-566 | a stream without checksums that stops: an error is returned exactly when a read gets nothing or more is to be read; a close never is, and one between packets leaves the lengths unreceived; inside the last read either goes unnoticed |
| Receiving.StopDelivers | usfs_wrap/hdfs/hadooprpc.c:555-566 | after a stop, success is right if and only if the wanted bytes came before it |
| Receiving.StopUnnoticed | usfs_wrap/hdfs/hadooprpc.c:555-566 | a stream that closes or fails in mid-packet and succeeds with bytes missing |
| Receiving.WindowAt | usfs_wrap/hdfs/hadooprpc.c:540-571 | what is wanted of a stream: its bytes from an offset on, up to a length |
| Receiving.Be32Value | usfs_wrap/hdfs/hadooprpc.c:71-75 | a checksum is sent as four bytes, highest first |
| Receiving.RoundTrip | usfs_wrap/hdfs/hadooprpc.c:496-584 | any window of a block is received as `SendPackets` sends it without checksums, which is how the caller asks for it |
| Receiving.ChecksumsDisplace | usfs_wrap/hdfs/hadooprpc.c:595-610 | what is sent with checksums is read in place only if nothing is sent or asked for |
| Receiving.ChecksumsReadAsData | usfs_wrap/hdfs/hadooprpc.c:540-571 | a block of two bytes that arrives wrong |
| Receiving.ChecksumLooksRight | usfs_wrap/hdfs/hadooprpc.c:540-571 | a block of one byte whose checksum happens to start with that byte, so that the bytes alone do not tell |
| ResolvePath.WalkAppend | libdefuse/util.c:78-111 | a path leads where its parts lead one after the other |
| ResolvePath.WalkComponent | libdefuse/util.c:78-111 | nothing and `.` stay, `..` goes up and stays at the root, any other name goes down |
| ResolvePath.WalkCancel | libdefuse/util.c:55-75 | a name followed by `..` can be dropped |
| ResolvePath.StripAllKeeps | libdefuse/util.c:43-53 | removing every `/./` or `//` keeps where the path leads and brings back no pattern already gone |
| ResolvePath.RemovePathString | libdefuse/util.c:43-53 | the in-place loop does that, inside the buffer exactly when the over-long move fits |
| ResolvePath.UpStep | libdefuse/util.c:55-75 | one cancellation keeps where the path leads |
| ResolvePath.RemoveDotDot | libdefuse/util.c:55-75 | no `/../` is left except at the root, and there exactly if some `..` of the text is met at the root; in bounds exactly when `UpInBounds` holds of the text it starts from |
| ResolvePath.MovesFitMeaning | libdefuse/util.c:55-75 | going move by move, every one fits if and only if at each `/../` reached the lengths of the parent and current directory and of the text left add up to at most the buffer |
| ResolvePath.DeepOutOfBounds | libdefuse/util.c:55-75 | a path shorter than the buffer that is out of bounds |
| ResolvePath.HalfIsEnough | libdefuse/util.c:78-111 | a path of at most half the buffer is always in bounds |
| ResolvePath.ResolvePath | libdefuse/util.c:78-111 | null and empty give null; otherwise the result leads where the input leads from the current directory and is canonical, but for a leading `/../` exactly if some `..` is met at the root; in bounds if and only if `InBounds` |
| Symlink.WalkIsFollow | usfs_wrap/sshfs/sshfs_wrap.c:2033-2043 | walking a path is following its components |
| Symlink.CountComponents | usfs_wrap/sshfs/sshfs_wrap.c:2033-2043 | counts them, whatever the slashes |
| Symlink.StripCommon | usfs_wrap/sshfs/sshfs_wrap.c:2045-2056 | drops the same components from both paths and stops at the first difference |
| Symlink.SameTarget | usfs_wrap/sshfs/sshfs_wrap.c:2058-2097 | climbing out of the link's directory and down again reaches the target |
| Symlink.TransformSymlink | usfs_wrap/sshfs/sshfs_wrap.c:2058-2097 | a link is rewritten if and only if it leads to the base or below it, is not written as the base is, and does not lead to below its own place; then it is relative and leads from its own directory where the absolute one led |
| Symlink.BaseItself | usfs_wrap/sshfs/sshfs_wrap.c:2058-2097 | the base written in two ways: one stays, one is rewritten |

## Left out

- The kernel module, the FUSE shim, the launcher and the file-descriptor table: bookkeeping without a property beyond its code.
- Mapping of ELF files, search paths, environment handling, `dladdr`, `dlsym` and the debugger interface of the linker.
- Allocation failures, except where the code itself turns an overflow into one (`AllocSize`).
- Widths of sums of sizes and addresses: they are natural numbers, assumed to fit the machine word where a mask needs it.
- The SFTP and HDFS wire encodings, connections and authentication; replies are given as inputs.
- The SSHFS attribute cache and the rest of the HDFS wrapper.
- Crc32cHardware.CrcHw: the crc instruction is taken to do what section 12.1 of RFC 3720 and the processor manual define; the instruction itself is an input.
- QueueCtors.QueueCtors: takes the dependency lists as already loaded; the wait for constructors of other threads is in `CtorProtocol`.
- CtorProtocol.EventKeeps: locks and condition variables appear as which steps are enabled, not as objects, which allows more interleavings than they do; whether a step that is enabled is ever taken is not modelled.
- SymbolLookup.FindSym: names are compared as values, not through string tables; well-formed tables are assumed as the linker assumes them.
- LazyRelocs.DoRelocs: type numbers are those of x86-64; what lookup finds is given, and so are the refusals and stores of the types other than symbol plus addend and base plus addend; the addends the linker saves for its own table are not modelled.
- TlsThread.CopyTls: DTV words are a sequence beside the bytes of memory.
- TlsInstall.InstallNewTls: signal masks, the thread-list lock and the memory barrier are not modelled; no thread starts or ends meanwhile.
- Dlopen.Linker.Load: file names, inodes and memory maps are not modelled.
- Dlopen.Linker.FailedDlopen: dependency lists and relocated memory of objects that stay are not part of the state compared.
- ReadAhead.OpenFile.AsyncRead: the server answers every request without error and short only at the end of the file; several open handles of one file are one handle.
- ReadAhead.OpenFile.Truncate: the reads and writes of the workaround succeed.
- WriteFlush.OpenFile.WriteEnd: mutexes and the condition variable appear as the order of calls.
- Packets.SendPackets: 32-bit packet fields do not overflow; the checksum unit is not zero.
- Receiving.ReceivePackets: the header decoder is given; a connection that stops inside a packet's lengths or header is not modelled; a stream in which a checksum or left-over data would be decoded as a header, and lengths that were not received, are outcomes of their own and not followed further; what memory holds where nothing arrived is unknown.
- Symlink.TransformSymlink: the target is compared for paths without `.` and `..`, which is how the file system is called.
