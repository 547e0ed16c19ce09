# Verified models of the shared data-structure and codec code

This project models the parts of the repository that the rest of it is built on, in Dafny, and proves what they are
for.  `dafny verify dfyconfig.toml` checks all of it.

| files | what they model |
|---|---|
| `AvlShape`, `AvlLinks`, `AvlRepair`, `AvlOrder`, `Avl` | the AVL tree of `avl.c`: a class over nodes with parent links, child slots and stored balances, changed in place |
| `QsortSpec`, `Qsort` | `qsort.c`: the ternary quicksort on an array, with its explicit stack |
| `Taskq`, `TaskqProof` | the task queue of `taskq.c`: a state machine of workers, dispatchers, waiting threads and one destroying thread, in every interleaving, with spurious wake-ups |
| `NvData`, `NvNative`, `NvRoundTrip`, `NvStream` | name-value lists as values, their native packed bytes, the encoder and the decoder |
| `NvlistSpec`, `Nvlist` | the linked list of pairs, its operations and flags, and the table it stands for |
| `NvUnpacked` | what unpacking can deliver, and what a copy makes of it |
| `NvLayout` | the packed bytes by their offsets |
| `NvXdr`, `NvXdrBytes` | the sizes of the XDR form, the decoder's plausibility test, and the bytes written |
| `Utf`, `UtfConvert`, `Uconv` | the six converters of `uconv.c` with their flags, byte orders and byte order marks |
| `UtfMemory`, `UtfErrors` | conversions by the bytes in memory, and by the errors they end with |
| `U8Validate` | `u8_validate` |
| `CanonOrder`, `CombSeq` | the canonical ordering loop of `u8_textprep.c`, on the bytes and tables it swaps |
| `ByteOrder`, `Errno` | numbers as bytes; error numbers |

Code that changes things in place is modelled in place: the AVL tree, the pair list, the packing stream, the sorted
array, the output buffers and the collected combining sequence are classes and arrays.  Every such method is proved
against a function of the old state, and the properties are proved of that function.  Locks and condition variables
have their usual meaning: a thread that waits on a condition gives up the lock, and may wake up at any time.

## Model

| member | source | states |
|---|---|---|
| `AvlRepair.RotatedFacts` | usr/src/common/avl/avl.c:298-464 | rotation keeps the in-order sequence and the set of nodes, restores the AVL condition, and lowers the height by one exactly unless the taller child was level |
| `Avl.Tree.constructor` | usr/src/common/avl/avl.c:819-836 | a new tree is well formed and empty |
| `Avl.Tree.Rotation` | usr/src/common/avl/avl.c:298-464 | the pointer and balance updates produce exactly the rotated shape, linked where the old one was; the result is true exactly when the subtree lost one level |
| `Avl.Tree.Find` | usr/src/common/avl/avl.c:250-281 | in an ordered tree, a node found compares equal; otherwise the reported slot is free and lies where everything before is smaller and everything behind greater |
| `Avl.Tree.GrowUp` | usr/src/common/avl/avl.c:518-553 | the climb after an insertion ends with a level tree and the same contents, after at most one rotation |
| `Avl.Tree.Insert` | usr/src/common/avl/avl.c:478-553 | the tree stays well formed (links both ways, stored balance equal to the true height difference, AVL condition, count), and its contents gain exactly the node, at the index of the slot |
| `Avl.Tree.InsertHere` | usr/src/common/avl/avl.c:567-622 | the node appears directly before or directly after the given one |
| `Avl.Tree.Add` | usr/src/common/avl/avl.c:627-645 | the node is added exactly when nothing in the tree compares equal to it, and the order is kept |
| `Avl.Tree.ShrinkUp` | usr/src/common/avl/avl.c:778-813 | the climb after a removal, with any number of rotations, ends with a level tree and the same contents |
| `Avl.Tree.Exchange` | usr/src/common/avl/avl.c:698-744 | a node with two children changes places with the adjacent one; the placeholder left in its name has at most one child and only the two names differ in the contents |
| `Avl.Tree.Remove` | usr/src/common/avl/avl.c:670-814 | the tree stays well formed, its contents lose exactly the node, and if they were in order they still are |
| `Avl.Tree.Walk` | usr/src/common/avl/avl.c:131-172 | using parent links only, the next or previous node in order, or none at the end |
| `Avl.Tree.WalkBack` | usr/src/common/avl/avl.c:131-172 | the two directions are inverse |
| `Avl.Tree.Outermost` | usr/src/common/avl/avl.c:178-210 | the first or last node in order, or none in an empty tree |
| `Avl.Tree.Enumerate` | usr/src/common/avl/avl.c:131-210 | stepping from one end until nothing is left visits exactly the contents, in order or in reverse |
| `Avl.Tree.Nearest` | usr/src/common/avl/avl.c:221-238 | the node just before or just behind a free slot |
| `Avl.Tree.NearestFits` | usr/src/common/avl/avl.c:221-281 | at the slot a failed search ended at, these are the greatest smaller and the least greater node |
| `Avl.Tree.DestroyNodes` | usr/src/common/avl/avl.c:883-974 | each call hands out the next node in post-order and never writes to one handed out; when none is left the tree is empty |
| `Avl.Tree.DestroyAll` | usr/src/common/avl/avl.c:883-974 | calling until nothing comes back hands out every node exactly once, children before parents, and leaves no root and a count of zero |
| `Qsort.Med3` | usr/src/common/util/qsort.c:58-60 | the index of a median of three |
| `Qsort.Pass` | usr/src/common/util/qsort.c:236-437 | one pass rearranges the partition into less, equal and greater blocks, although the pivot moves and duplicates are parked at both ends |
| `Qsort.InsertionSort` | usr/src/common/util/qsort.c:207-222 | a small partition is sorted by rearranging it and nothing else |
| `QsortSpec.RoomForTwo` | usr/src/common/util/qsort.c:455-471 | pushing the larger part first, a partition that is split always finds room for two within floor(log2 n) + 1 entries |
| `Qsort.Sort` | usr/src/common/util/qsort.c:112-473 | terminates with a sorted permutation for every total preorder, using at most floor(log2 n) + 1, hence 31, of the 65 stack entries |
| `Taskq.Prepopulate` | usr/src/cmd/ztest/taskq.c:189-194 | leaves exactly the minimum number of free tasks |
| `TaskqProof.StepKeeps` | usr/src/cmd/ztest/taskq.c:58-235 | every step of every thread keeps the invariant of the queue |
| `TaskqProof.OnePlace` | usr/src/cmd/ztest/taskq.c:103-169 | in every reachable state each linked task is queued, being run or has run, exactly one of these and once |
| `TaskqProof.TakenInOrder` | usr/src/cmd/ztest/taskq.c:139-169 | over every run, tasks leave the queue in the order in which they were linked, none skipped, none twice |
| `TaskqProof.WaitDone` | usr/src/cmd/ztest/taskq.c:130-137 | when the exit condition of taskq_wait holds, every task linked so far has run exactly once |
| `TaskqProof.Counters` | usr/src/cmd/ztest/taskq.c:58-169 | tq_active is the initial number of threads minus those in cv_wait; tq_nalloc is free plus queued plus in-flight tasks |
| `TaskqProof.FreeTasks` | usr/src/cmd/ztest/taskq.c:58-101 | before the drain there are never more free tasks than tq_minalloc, tq_nalloc never falls below it once it is reached, and when taskq_wait may return no more than that many are allocated, all of them free |
| `TaskqProof.MinimumKept` | usr/src/cmd/ztest/taskq.c:189-194 | of a prepopulated queue exactly tq_minalloc are |
| `TaskqProof.NoLostWakeUp` | usr/src/cmd/ztest/taskq.c:113-152 | while there is work some worker is not blocked, and whoever sleeps in taskq_wait or taskq_destroy still has a true condition to wait for |
| `TaskqProof.WorkFalls` | usr/src/cmd/ztest/taskq.c:139-169 | every step of a worker uses up work |
| `TaskqProof.Settles` | usr/src/cmd/ztest/taskq.c:139-169 | without new work, spurious wake-ups of workers and the shutdown broadcast the workers take only boundedly many steps |
| `TaskqProof.NotStuck` | usr/src/cmd/ztest/taskq.c:130-235 | while the queue is active and the condition of taskq_wait holds, or while taskq_destroy sleeps, some worker can take a step |
| `TaskqProof.AtRest` | usr/src/cmd/ztest/taskq.c:130-235 | once no worker can take a step, every linked task has run once, taskq_destroy does not sleep, and the condition of taskq_wait is over exactly while the queue is active; then nobody sleeps in it |
| `TaskqProof.NeverReturns` | usr/src/cmd/ztest/taskq.c:130-169 | after the shutdown, with the workers at rest, no run lets a thread in taskq_wait return |
| `TaskqProof.WaiterStranded` | usr/src/cmd/ztest/taskq.c:130-235 | a reachable state with such a thread asleep |
| `TaskqProof.DrainFalls` | usr/src/cmd/ztest/taskq.c:218-222 | the drain finds a free task whenever one is counted |
| `TaskqProof.DestroyDone` | usr/src/cmd/ztest/taskq.c:203-235 | when destruction ends, no worker and no task structure is left and every linked task has run once |
| `NvRoundTrip.RoundTrip` | usr/src/common/nvpair/nvpair.c:1737-1773 | unpacking the packed bytes of a list gives the list back: flags (at the top any 32 bits), order, names, types and values at every level of nesting, in both byte orders |
| `NvStream.Size` | usr/src/common/nvpair/nvpair.c:1775-1796 | nvlist_size is the exact total over all levels, or EINVAL past INT32_MAX |
| `NvStream.Stream.EncodePair` | usr/src/common/nvpair/nvpair.c:2323-2453 | succeeds exactly when the pair fits the rest of the buffer and its names fit, and then appends exactly its packed bytes |
| `NvStream.Stream.ClearPointers` | usr/src/common/nvpair/nvpair.c:2247-2321 | nothing of the memory addresses in a copied pair is left |
| `NvStream.Pack` | usr/src/common/nvpair/nvpair.c:2025-2070 | succeeds exactly when the size and all names fit, with exactly nvlist_size bytes, all of them written and laid out as the format says; the error is EINVAL for the size and EFAULT for a name |
| `NvLayout.PackedLayout` | usr/src/common/nvpair/nvpair.c:2186-2453 | in the packed bytes the header, the version, the flags and, of every pair at every level, the size, name size, element count, type, name, value and embedded pairs are at their offsets, numbers byte by byte in the order of the host, with zeros where pointers were |
| `NvLayout.TypeCodes` | usr/src/uts/common/sys/nvpair.h:44-72 | the type numbers are those of the enumeration, 1 to 26, and no others are known |
| `NvLayout.Types` | usr/src/common/nvpair/nvpair.c:700-809 | every value has the type of its form and writes that number |
| `NvLayout.Kinds` | usr/src/common/nvpair/nvpair.c:700-809 | the sizes and ranges of the element types |
| `NvStream.RawChecked` | usr/src/common/nvpair/nvpair.c:2323-2360 | the checks on a copied pair accept it exactly when its name is at most 32766 bytes long |
| `NvStream.LongNameUnpackable` | usr/src/common/nvpair/nvpair.c:892-892 | a boolean under a name of 32767 bytes is a list the add functions build and nvlist_pack refuses |
| `NvStream.ReadPairs` | usr/src/common/nvpair/nvpair.c:1737-1773 | the decoding loop reads what the recursive reading of the bytes says, errors included |
| `NvStream.BuiltBack` | usr/src/common/nvpair/nvpair.c:1921-2001 | every list built by a run of add, remove, remove_all and merge from names that fit comes back from its packed bytes |
| `NvUnpacked.UnpackedSound` | usr/src/common/nvpair/nvpair.c:1737-1773 | whatever bytes nvlist_unpack accepts, the list can be held, its names fit, and packing and unpacking it again gives it back |
| `NvUnpacked.UnpackedSize` | usr/src/common/nvpair/nvpair.c:1737-1773 | an accepted buffer is at least as long as nvlist_size says of the result, and bytes behind it do not matter |
| `NvUnpacked.Truncated` | usr/src/common/nvpair/nvpair.c:1737-1773 | no part of a packed list that lacks its end is accepted |
| `NvNative.ValueOffsetExact` | usr/src/common/nvpair/nvpair.c:892-916 | the value is put behind the name exactly when the name is at most 32766 bytes long |
| `NvNative.ValueMisplaced` | usr/src/common/nvpair/nvpair.c:892-916 | with 32767 bytes it goes in front of the pair, with 65540 over the name |
| `Nvlist.List.Link` | usr/src/common/nvpair/nvpair.c:339-353 | forward and backward links describe the old sequence with the pair at its end |
| `Nvlist.List.Unlink` | usr/src/common/nvpair/nvpair.c:358-379 | they describe the old sequence without the pair, and the cursor moves off it |
| `Nvlist.List.RemoveAll` | usr/src/common/nvpair/nvpair.c:633-660 | exactly the pairs of that name are gone; ENOENT exactly if there were none |
| `Nvlist.List.Remove` | usr/src/common/nvpair/nvpair.c:665-690 | the first pair of that name and type is gone; ENOENT exactly if there was none |
| `Nvlist.List.AddPair` | usr/src/common/nvpair/nvpair.c:834-959 | invalid values (EINVAL) and pairs too large for an int (ENOMEM) change nothing; otherwise what the flags say gives way and a copy of the pair comes last, for every value of the C types, embedded lists with clashing pairs included |
| `Nvlist.List.LookUpValue` | usr/src/common/nvpair/nvpair.c:1230-1253 | the value of the first pair of that name and type, ENOENT without one, ENOTSUP without a uniqueness flag |
| `Nvlist.List.Next` | usr/src/common/nvpair/nvpair.c:1120-1145 | the pair behind the cursor, the first pair, or a pair of the list that is not under the cursor itself |
| `Nvlist.List.Walk` | usr/src/common/nvpair/nvpair.c:1120-1145 | a walk meets every pair once, in order, and ends |
| `Nvlist.Unpacked` | usr/src/common/nvpair/nvpair.c:1737-1773 | decoding links every pair as it comes, so the list in memory is the decoded one, clashes and flags included |
| `Nvlist.Dup` | usr/src/common/nvpair/nvpair.c:610-628 | a list of its own, the copy of the source; equal to it exactly when, at every level, no pairs clash and the flags are those nvlist_init keeps |
| `Nvlist.Merge` | usr/src/common/nvpair/nvpair.c:1659-1669 | a copy of every pair of the source is added in order; merging a list with itself changes nothing |
| `NvlistSpec.AddedByFlags` | usr/src/common/nvpair/nvpair.c:949-954 | by the bits of the flags: with NV_UNIQUE_NAME every pair of the name gives way, with NV_UNIQUE_NAME_TYPE alone the first of the name and type, without either none, and nothing else |
| `NvlistSpec.DistinctByFlags` | usr/src/common/nvpair/nvpair.c:949-954 | what clashing means, by the bits: equal names, equal names and types, or never |
| `NvlistSpec.LookUpByFlags` | usr/src/common/nvpair/nvpair.c:1230-1253 | ENOTSUP exactly without either bit; otherwise the first pair of the name and type, or ENOENT |
| `NvlistSpec.RunFollows` | usr/src/common/nvpair/nvpair.c:834-959 | over every run of operations the list is a table: nothing clashes, nothing is lost, nothing stays too long |
| `NvlistSpec.RunLookUp` | usr/src/common/nvpair/nvpair.c:1230-1253 | after every run a look-up returns the last surviving add of that name and type and nothing else, and no two pairs clash |
| `NvlistSpec.MergePrefers` | usr/src/common/nvpair/nvpair.c:500-519 | a merge prefers the source: for every name and type the last pair of the source that displaces it decides what is there, and where none does everything stays; the source may clash with itself |
| `NvlistSpec.CopiedListExactly` | usr/src/common/nvpair/nvpair.c:811-829 | for every list, the copy is equal to it exactly when, at every level, no pairs clash and no flags are lost |
| `NvlistSpec.CopiedListDeep` | usr/src/common/nvpair/nvpair.c:811-829 | a copy has no clashes at any level, so copying it again changes nothing |
| `NvlistSpec.RunBuilt` | usr/src/common/nvpair/nvpair.c:834-959 | whatever a run builds has no clashes and is valid at every level, even from pairs whose embedded lists clash |
| `NvUnpacked.ClashNotCopied` | usr/src/common/nvpair/nvpair.c:610-628 | two pairs of one name under NV_UNIQUE_NAME come back from their packed bytes, and not from nvlist_dup |
| `NvUnpacked.InnerClashNotCopied` | usr/src/common/nvpair/nvpair.c:811-829 | nor does a list that only embeds them, and has no clash of its own |
| `NvUnpacked.FlagsNotCopied` | usr/src/common/nvpair/nvpair.c:252-260 | nor does a list with flags that nvlist_init does not keep |
| `NvXdr.SizeExact` | usr/src/common/nvpair/nvpair.c:2764-2858 | the calculated XDR size exceeds what is written by one word for each numeric array without elements, other than a byte array, at any level, and by nothing else |
| `NvXdrBytes.XdrLayout` | usr/src/common/nvpair/nvpair.c:2540-2762 | the bytes written are as many as that says, and hold every field at its offset at every level: big endian words, counts in front of arrays but not of bytes and strings, lengths in front of strings, padding |
| `NvXdrBytes.XdrNumberBack` | usr/src/common/nvpair/nvpair.c:2646-2690 | every number is read back from its word or two words |
| `NvXdr.PlausibleExactly` | usr/src/common/nvpair/nvpair.c:2881-2933 | the decoder's test on the size of a pair refuses exactly this: no name, an array of empty strings, 1 to 4 modulo 8 of them, at most nine bytes behind the pair |
| `NvXdr.NamedPlausible` | usr/src/common/nvpair/nvpair.c:2881-2933 | with names that are not empty, it never refuses what the encoder wrote, at any level |
| `NvXdr.ListPlausible` | usr/src/common/nvpair/nvpair.c:2881-2933 | with any number of bytes behind the encoding, it refuses a list exactly when it refuses the last pair of the outermost level |
| `NvXdr.PackedPlausible` | usr/src/common/nvpair/nvpair.c:2025-2070 | the same for the buffer nvlist_pack returns, which has the calculated size |
| `NvXdr.UnnamedRefused` | usr/src/common/nvpair/nvpair.c:2881-2933 | one empty string without a name, in that buffer, is refused |
| `Utf.ReadBack` | usr/src/common/unicode/uconv.c:310-851 | what is written for a scalar value is read back as that value, whatever follows, in each form |
| `Utf.BytesOnly` | usr/src/common/unicode/uconv.c:776-851 | from UTF-8 only what is written for a scalar value is read: no overlong form, no surrogate, nothing too large |
| `UtfMemory.Surrogates` | usr/src/common/unicode/uconv.c:560-575 | above U+FFFF the high surrogate has the upper ten bits of what is above it and the low one the lower ten, section 2.1 of RFC 2781 |
| `UtfMemory.Surrogate` | usr/src/common/unicode/uconv.c:380-390 | and they are read so |
| `UtfMemory.Orders` | usr/src/common/unicode/uconv.c:252-274 | what is saved and what is read is, byte by byte, in the order its flags ask for, and in that of the host without flags |
| `UtfMemory.BytesToBytes` | usr/src/common/unicode/uconv.c:252-851 | from bytes to bytes: text in the order of the input flags becomes the text in the order of the output flags, behind a mark in that order if one is emitted, on either kind of host |
| `UtfMemory.MarkedToBytes` | usr/src/common/unicode/uconv.c:276-308 | likewise behind an accepted mark, which decides the order whatever the flags say |
| `UtfErrors.Outcomes` | usr/src/common/unicode/uconv.c:310-851 | with room enough and nulls ignored, UTF-8 and UTF-16 input is converted exactly if it is text; the error is EINVAL exactly if it is text cut off within a character, and EILSEQ otherwise |
| `UtfErrors.Outcomes32` | usr/src/common/unicode/uconv.c:514-663 | UTF-32 input is converted exactly if no unit is above U+10FFFF, with EILSEQ otherwise |
| `UtfErrors.UpToNul` | usr/src/common/unicode/uconv.c:310-851 | a NUL that is not ignored ends the input, except that within a UTF-8 character it is an illegal byte |
| `UtfErrors.RoomDecides` | usr/src/common/unicode/uconv.c:310-851 | of a conversion that succeeds with more room, the room decides whether the output fits, with E2BIG if not, and nothing else; one that fails with more room fails the same way or with E2BIG |
| `UtfErrors.BothOrders` | usr/src/common/unicode/uconv.c:252-274 | EBADF exactly if both byte orders are asked for |
| `UtfConvert.ConvertsText` | usr/src/common/unicode/uconv.c:310-851 | text in one form becomes the same text in the other, and all of it is consumed |
| `UtfConvert.ReadsText` | usr/src/common/unicode/uconv.c:310-851 | whatever is accepted from UTF-8 or UTF-16 is text, and its conversion is what comes out |
| `UtfConvert.RoundTrip` | usr/src/common/unicode/uconv.c:252-851 | for every sequence of scalar values, any two forms and any byte orders, there and back gives the sequence; a mark emitted and accepted overrides the input order; U+0000 is included if nulls are ignored; text without a mark must not look marked where a mark is accepted |
| `UtfConvert.TextExactly` | usr/src/common/unicode/uconv.c:276-308 | text without a mark is converted to the text, exactly unless a mark is accepted and the first character is U+FEFF, or U+FFFE in UTF-16 |
| `UtfConvert.LeadingMarkDropped` | usr/src/common/unicode/uconv.c:276-308 | in that case a leading U+FEFF is dropped and the rest is converted, whatever the byte order |
| `UtfConvert.MarkedTwoWays` | usr/src/common/unicode/uconv.c:276-291 | a leading U+FFFE in UTF-16 is the mark of the other byte order |
| `UtfConvert.DirectConvert` | usr/src/common/unicode/uconv.c:310-851 | the direct converters give the return code, output and consumed length of the two steps through UTF-32, exactly unless a mark is emitted for an input without text |
| `UtfConvert.MarkWithoutText` | usr/src/common/unicode/uconv.c:665-774 | the input that shows the exception: a string that a NUL ends at once |
| `Uconv.U16ToU32` | usr/src/common/unicode/uconv.c:310-418 | the loop computes the conversion: return code, output and both lengths |
| `Uconv.U16ToU8` | usr/src/common/unicode/uconv.c:420-512 | likewise |
| `Uconv.U32ToU16` | usr/src/common/unicode/uconv.c:514-595 | likewise |
| `Uconv.U32ToU8` | usr/src/common/unicode/uconv.c:597-663 | likewise |
| `Uconv.U8ToU16` | usr/src/common/unicode/uconv.c:665-774 | likewise |
| `Uconv.U8ToU32` | usr/src/common/unicode/uconv.c:776-851 | likewise |
| `U8Validate.ConvertsExactly` | usr/src/common/unicode/uconv.c:776-851 | uconv_u8tou32, nulls ignored, succeeds on exactly the strings of the syntax in section 4 of RFC 3629 |
| `U8Validate.Validate` | usr/src/common/unicode/u8_textprep.c:336-446 | the loop computes the verdict: how far it is valid, or the error |
| `U8Validate.ValidExactly` | usr/src/common/unicode/u8_textprep.c:336-446 | u8_validate of the entire input returns its length exactly on those strings, so exactly when the converter succeeds |
| `U8Validate.OneExactly` | usr/src/common/unicode/u8_textprep.c:362-440 | the verdict on one character by the syntax, the ranges of its first byte and the characters to refuse, with each of the four errors |
| `U8Validate.VerdictExactly` | usr/src/common/unicode/u8_textprep.c:336-446 | for every set of flags: the whole input passes exactly if every character is allowed, and otherwise the error is that of the first that is not |
| `CanonOrder.CanonInOrder` | usr/src/common/unicode/u8_textprep.c:1687-1695 | no non-starter stands behind one of a greater class |
| `CanonOrder.CanonMultiset` | usr/src/common/unicode/u8_textprep.c:1687-1695 | canonical ordering is a permutation |
| `CanonOrder.CanonStable` | usr/src/common/unicode/u8_textprep.c:1687-1695 | characters of one class keep their order |
| `CanonOrder.CanonStarter` | usr/src/common/unicode/u8_textprep.c:1687-1695 | nothing crosses a starter |
| `CanonOrder.CanonSwap` | usr/src/common/unicode/u8_textprep.c:1687-1695 | an exchange that the loop makes does not change the canonical ordering |
| `CombSeq.Collected.Swap` | usr/src/common/unicode/u8_textprep.c:169-178 | exchanges two adjacent characters of different lengths in the bytes and in all three tables, and writes nowhere else |
| `CombSeq.Collected.Order` | usr/src/common/unicode/u8_textprep.c:1687-1695 | the loop leaves exactly the canonical ordering, section 3.11 of the Unicode Standard, with the tables describing the buffer contiguously |

## Findings

Properties one would expect that the code does not have.  Each comes with an input and with the exact condition.

- Packing what the add functions built: fails for a boolean under a name of 32767 bytes (`NvStream.LongNameUnpackable`).
  nvp_name_sz has 16 bits and is set from an int (nvpair.c:892), so the check of the name on the copied pair
  (nvpair.c:434) fails and nvlist_pack returns EFAULT.  It succeeds if and only if the total size is at most INT32_MAX
  and every name, at every level, is at most 32766 bytes long (`NvStream.Pack`, `NvStream.RawChecked`).
- Adding a pair: the value of a pair is put where the cut name size says.  With a name of 32767 bytes that is in front
  of the pair, with 65540 bytes it is over the name (`NvNative.ValueMisplaced`).  It is behind the name if and only if
  the name is at most 32766 bytes long (`NvNative.ValueOffsetExact`).  A DATA_TYPE_BOOLEAN pair has no value and is
  stored under any name; so is an array without elements.  `Nvlist.List.AddPair` is about the names that can be stored.
- Direct conversion against two steps: with UCONV_OUT_EMIT_BOM, uconv_u8tou16 of a string whose first byte is NUL saves
  a mark, and the two steps save nothing, because the second has no input (`UtfConvert.MarkWithoutText`).  With room
  enough they agree if and only if no mark is emitted, or the input is empty, or there is text behind its mark
  (`UtfConvert.DirectConvert`, `HasText`).
- Decoding the encoder's own XDR output: a list whose last pair has no name and holds one empty string in a string
  array is refused (`NvXdr.UnnamedRefused`).  In the buffer nvlist_pack returns, a list is accepted if and only if it
  is empty, or some numeric array in it other than a byte array has no elements, or the last pair of the outermost level
  is not an unnamed array of n empty strings with n modulo 8 from 1 to 4 (`NvXdr.PackedPlausible`).
- Copying a list: nvlist_dup drops pairs that clash under the flags of the list they are in, at any level, and flags
  other than the two uniqueness flags.  Three lists that come back from their packed bytes and not from nvlist_dup are
  `NvUnpacked.ClashNotCopied`, `InnerClashNotCopied` and `FlagsNotCopied`.  The copy is equal if and only if, at every
  level, no two pairs clash and the flags are below 4 (`DeepList` in `Nvlist.Dup` and `NvlistSpec.CopiedListExactly`).
  Whatever the operations build has this property (`NvlistSpec.RunBuilt`); an unpacked list need not.
- Waiting for tasks: a thread that calls taskq_wait and tests its condition after taskq_destroy has cleared TASKQ_ACTIVE
  and the workers have exited sleeps for good, because an exiting worker is not taken off tq_active
  (`TaskqProof.WaiterStranded`, `TaskqProof.NeverReturns`).  With the workers at rest the condition is over if and only
  if the queue is active (`TaskqProof.AtRest`).
- Converting text that starts with U+FEFF: where a mark is accepted the first character of text without a mark is taken
  for one (`UtfConvert.LeadingMarkDropped`, `UtfConvert.MarkedTwoWays`).  The text is converted as it is if and only if
  that does not happen: no mark is accepted, or the form is UTF-8, or the first character is neither U+FEFF nor, in
  UTF-16, U+FFFE (`UtfConvert.TextExactly`).
- The size of the XDR form: nvs_xdr_nvp_size counts a word more than is written for every numeric array without
  elements, other than a byte array, and is exact if and only if there is no such array at any level
  (`NvXdr.SizeExact`).

## Left out

- Nvlist.List.AddPair: does not say what happens to a value that takes room under a name over 32766 bytes; memory outside the pair is not modelled.
- NvStream.RawChecked: in the memory image of a pair with too long a name the value stands behind the name, where the code has put it elsewhere; exact for DATA_TYPE_BOOLEAN and arrays without elements, and the checks fail on the name before the value is looked at.
- Nvlist.List.constructor: sets the cursor to null; nv_priv_init clears only as many bytes as a pointer has (nvpair.c:211), so in the code the cursor of a new list is what the allocator left there.
- NvStream.ReadPairs: a string without a terminating NUL gives EFAULT; in the code strlen reads on past the pair.
- CombSeq.Collected.Order: is about the case in which the loop runs; collect_a_seq skips it when no further non-starter was collected (u8_textprep.c:1688), relying on the decomposition tables.
- Qsort.Sort: record counts below 2^31, because the code keeps partition counts in an int; records are array elements, so record sizes, the byte-wise swap variants and pointer alignment are not modelled.
- Avl.Tree.Add: refuses a node that compares equal to one in the tree; avl_add panics in the kernel and asserts elsewhere, and with assertions compiled out it goes on to insert at a place that was never set (avl.c:638-644).
- Nvlist.List.LookUpValue: returns the value; storage that a returned embedded list shares with the pair, and changes made through it, are not modelled.
- UtfConvert.RoundTrip: the output buffer has room; how a short buffer ends a conversion is in the contracts of the six converters only.
- Adding a list to itself, null pointer arguments, and failing memory allocation in the lists and the converters.
- The queue of tasks is a sequence: the doubly linked task list of taskq.c is not modelled; nor are dispatching once destruction has begun, taskq_now, taskq_member, and the limit on allocations, so that a dispatch may fail in the model where it need not in the code.
- The typed wrappers around nvlist_add_common and nvlist_lookup_common, nvlist_lookup_pairs and printing.
- Decoding of XDR streams beyond the test on the decoded size.
- NvXdrBytes.XdrLayout: a byte above 127 is taken for a negative char by xdr_char, as where char is signed; the word that holds it differs elsewhere in its upper three bytes.
- Decomposition, composition and case tables of u8_textprep.c, which are data.
- Bit masks and shifts are written as arithmetic on numbers.
- The command-line programs, and the wrappers over threads, files and devices.
