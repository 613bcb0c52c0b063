# Verified models of the MKSD kernel's algorithms

MKSD is a small x86_64 kernel. This project models the six files of it that hold self-contained algorithms, in the form
they have there (classes whose fields and arrays are updated in place, loops over buffers), and proves what each is for.
`dafny verify dfyconfig.toml` checks everything.

- **The hash map** (`sys/include/lib/hashmap.h`). `ProbeTable` says what a slot array means: the map it stands for and
  the invariant of a legal table. `Moves` says where a rehash puts each entry, which is the first to find no room, and
  what is lost by then; `Allocation` is the heap as the map sees it, with an account of every table asked for; `Growth`
  is what a put comes to as a function of the table, the key and what the heap grants, and when growth stops. `HashMap`
  is the code, with put, rehash and iterate mutually recursive over mutable tables, for *every* hash function, every
  table size from 1 to 2^31 and every allocation outcome. `HashMapRuns` takes the map through arbitrary sequences of
  operations, `LostEntries` through one that, under the kernel's own hash, loses fourteen entries. `Displacement` is
  the pigeonhole argument, `KernelMap` what it means for that hash.
- **The hash** (same file). `Crc32Table`, `Crc32` and `ShiftRegister` take the table-driven CRC down to polynomial
  division; `HashMix` shows the mix to be a bijection and the hash eight-to-one.
- **The frame allocator** (`sys/src/mm/pmm.c`): `FrameBitmap`, `MemoryMap`, `Pmm`, `PmmRuns`.
- **The Internet checksum** (`sys/src/net/checksum.c`): `Checksum` is the code, `OnesComplement` the definition of
  section 1 of RFC 1071 and exactly when the two agree.
- **Strings and numbers** (`sys/src/lib/string.c`): `CString`, `NumText`.
- **Path resolution** (`sys/src/fs/vfs.c`): `Paths`, `Vfs` and `VfsRuns`, on top of the map and the splitter.
- **The heap** (`sys/src/mm/heap.c`): `HeapList`, `HeapRuns`.

`Bits` holds bitwise operators and powers of two on natural numbers.

## What the code does that one might not expect

- A full table makes `hashmap_put` grow even to overwrite a key it holds (`HasRoom`).
- Eight live keys with one 32-bit hash make a ninth unstorable for good: put keeps doubling until a table is refused.
  With the kernel's hash, keys made of zero bytes only all collide, so no table holds any nine of them
  (`KernelMap.NineZeroKeysNeverFit`). The initial value 0 of the CRC is what does it.
- A put that fails may lose entries that were in the map before. It loses none exactly when the table refused is the
  first replacement for the one it is growing from. When it is a replacement's replacement, the entries already moved go
  with the abandoned table, eight of them at least (`HashMap.HashMap.LosesExactly`). A run of sixteen puts of one-byte
  keys that ends by losing fourteen of fifteen entries is `LostEntries.LoseFourteen`. What is left is always a legal
  table.
- The tables one put asks for are successive doublings, at most 32 of them, and it succeeds exactly when all are
  granted. How many there are depends on the table and the key alone (`Growth.NeedsExactly`): one, if no entry is
  blocked in the move and the new table then has room (`Growth.OneTable`). With a heap that refuses nothing a put fails
  only where the size has wrapped to 0.
- `pmm_alloc(n)` takes exactly one frame for every n from 1 up. If frame 0 is free, it is lost: address 0 means failure.
- With F frames of memory, F mod 32768 in 1 to 7 leaves frames without a bit (`MemoryMap.BitmapCovers`).
- A directory's map has room for its first eight children as it is; for the ninth it must grow (`VfsRuns.RoomUnder`),
  and whether that succeeded is not looked at (`vfs_make_node` drops the result of `hashmap_put`). A node made under a
  name its parent already holds replaces the other, whose subtree is out of reach from then on.
- The checksum's mid-loop fold uses `|` where RFC 1071 adds. It is right up to 65539 bytes and wrong for a buffer of
  65540; in general it is right exactly when the number of folds that lose a bit is a multiple of 65535.
- `kfree` gives nothing back to `kmalloc`: the bump pointer only moves up (`HeapRuns.RoundsLeak`), and the size check
  does not count headers or what was freed (`HeapRuns.CheckLetsArenaOverflow`).
- `vfs_path_to_node("/")` is NULL, never the root.
- In `dec2str` the argument is unsigned, so the branches for negative numbers are dead.

## Premises

Each is a `requires` of the member concerned.

- Keys are shorter than 2^32 bytes. They are values: the map's caller keeps them unchanged.
- `hashmap_create` for a new node's children is granted: `vfs_make_node` does not look at its result, and the kernel's
  kcalloc writes through the null pointer before there is one. Names are not empty, have neither slashes nor NULs, and
  are at most 256 bytes long (the size of the name field). In the scripts of `VfsRuns` no two nodes have one path.
- For a lookup, the directories on the way exist, and, if the path ends in a slash, so does its last node: the source
  dereferences them unchecked.
- Usable entries of the memory map are page-aligned, disjoint, not empty and below 2^64, as a Limine boot loader gives
  them. Each frame that initialisation releases has a bit (`Fits`), or the source clears bits past its bitmap;
  `Pmm.SizeFits` says when the bitmap's size guarantees it. A client gives back only frames it holds.
- The arena is zeroed and address sums do not wrap. Each live block is freed once.

## Model

| member | source | states |
|---|---|---|
| Allocation.Allocator.Kcalloc | sys/src/mm/heap.c:61-67 | A request the heap grants yields a new array of free slots, and one it refuses yields null; each is counted as asked |
| Allocation.Allocator.SizesGrow | sys/include/lib/hashmap.h:528-535 | Every table asked for on the way has a power of two of slots, at least twice as many as the one grown from, unless the size has wrapped to 0 |
| Allocation.Allocator.AtMost32 | sys/include/lib/hashmap.h:209-213 | No put asks for more than 32 tables, however deep its growth nests |
| Allocation.Allocator.AccountCounts | sys/include/lib/hashmap.h:209-213 | A put that succeeds has met no refusal, one that fails exactly one, its last |
| Allocation.Allocator.RefusedSize | sys/include/lib/hashmap.h:528-537 | If the heap refuses nothing, growth fails only where the size has wrapped to 0 |
| Allocation.Allocator.WrapsAt32 | sys/include/lib/hashmap.h:528-537 | And then exactly when the size has been doubled 32 times from 1 |
| Allocation.RequestsAppend | sys/include/lib/hashmap.h:194-199 | Request numbers run on from one put to the next |
| HashMap.HashMap.Create | sys/include/lib/hashmap.h:185-202 | Succeeds exactly when the size is a power of two and the heap grants it, and then the map is legal and empty; the bit trick is tied to powers of two |
| Bits.PowerTest | sys/include/lib/hashmap.h:190-192 | The mask test accepts exactly the powers of two among positive sizes |
| Bits.DoubleWraps | sys/include/lib/hashmap.h:528-529 | Doubling in 32 bits gives the next power of two except that 2^31 wraps to 0, which is why growth ends |
| HashMap.HashMap.HashHelperIntHelper | sys/include/lib/hashmap.h:440-459 | A key's home is its hash reduced to the table's size |
| HashMap.HashMap.MatchHelper | sys/include/lib/hashmap.h:461-464 | A slot matches exactly when its key is the key asked for, byte for byte and in length |
| HashMap.HashMap.HashHelper | sys/include/lib/hashmap.h:466-512 | Finds a slot exactly when the table is not full and either holds the key or has a free slot among its eight; the slot is the key's own or the free one met first, sizes below 8 included |
| HashMap.HashMap.Get | sys/include/lib/hashmap.h:230-251 | Returns the abstract map's value, or null if the key is absent, although removals leave no tombstones |
| HashMap.HashMap.Remove | sys/include/lib/hashmap.h:253-279 | Removes exactly the key from the abstract map, reports whether it was there, and blanks one slot, its own |
| HashMap.HashMap.RemoveAndReturnKey | sys/include/lib/hashmap.h:281-311 | Removes exactly the key and hands back the stored one; only the key length stays behind in the freed slot |
| HashMap.HashMap.BlankSlot | sys/include/lib/hashmap.h:265-269 | Zeroing a live slot takes its key, and no other, from the map and keeps the invariant and the count |
| HashMap.HashMap.VacateSlot | sys/include/lib/hashmap.h:296-302 | Freeing a slot field by field drops its key only and leaves the key length |
| HashMap.HashMap.FindPlace | sys/include/lib/hashmap.h:208-213 | Growing until there is a place leaves the contents alone and comes to what `PutOf` says: it stops at the first table with room; on failure, what is left and why |
| HashMap.HashMap.Grow | sys/include/lib/hashmap.h:209-213 | One more round continues the account of tables asked for, each twice the last |
| HashMap.HashMap.StoreAt | sys/include/lib/hashmap.h:215-227 | Filling the slot found updates the abstract map at the key and nowhere else, and the count stays that of live slots |
| HashMap.HashMap.Put | sys/include/lib/hashmap.h:204-228 | For every hash, table and allocation outcome it terminates and comes to what `PutOf` says, table, result and requests; it returns 0 exactly when every table it asks for, each twice the last, is granted, and then the map is updated at the key and nowhere else; on 1 the table is legal and holds what it held, or all but eight or more entries, by which table was refused; it asks for nothing exactly if there is room |
| HashMap.HashMap.LosesExactly | sys/include/lib/hashmap.h:209-213 | A failed put has lost nothing exactly when the table refused was the first replacement for the one it grew from, and otherwise eight entries or more; what is left is a sub-map |
| HashMap.HashMap.GivesUpAtWrap | sys/include/lib/hashmap.h:528-537 | With a heap that refuses nothing a put fails only where the size has wrapped to 0 |
| Growth.PutBlocked | sys/include/lib/hashmap.h:527-545 | If an entry is blocked on the way into a granted replacement, another table is asked for, and if that is refused exactly the slots before that entry have gone |
| Growth.FreeMove | sys/include/lib/hashmap.h:337-351 | Up to the first entry that finds no room a move asks for nothing and puts each entry in the slot chosen for it |
| Growth.BlockedMove | sys/include/lib/hashmap.h:337-351 | At that entry it asks for memory, and a table refused there ends it with the slots before moved |
| Growth.PutIsRun | sys/include/lib/hashmap.h:204-213 | No table the loop of a put looks at before the last has room for the key; the put succeeds exactly if the last one has, and is then that table with the entry in it |
| Growth.RunExists | sys/include/lib/hashmap.h:204-213 | Every put has such a run: growth ends |
| Growth.OneTable | sys/include/lib/hashmap.h:204-213 | If no entry is blocked in the move to twice the size and the table so filled has room, a put asks for one table, succeeds exactly if it is granted, and leaves that table with the entry in it |
| Growth.EightGrow | sys/include/lib/hashmap.h:204-213 | From a table of eight entries or fewer no entry is ever blocked, so that room in the doubled table is all it takes |
| Growth.SpreadKeysFit | sys/include/lib/hashmap.h:204-213 | If all keys, the new one included, have homes of their own in a table of twice the size, a put costs exactly one table |
| Growth.LargestTable | sys/include/lib/hashmap.h:527-537 | From 2^31 slots a put without room asks for size 0, is refused and changes nothing |
| Growth.NeedsExactly | sys/include/lib/hashmap.h:204-213 | How many tables a put needs, and the table it ends with, depend on table and entry alone: it succeeds exactly with a heap that grants that many, or with none |
| Growth.WithHolds | sys/include/lib/hashmap.h:215-227 | With room, the table after a put maps the key to the value and all other keys as before |
| HashMap.HashMap.RehashIterator | sys/include/lib/hashmap.h:514-523 | Moves one entry into the new table as `PutOf` says, however often that has itself to grow; -1 exactly when all the tables this takes are granted |
| HashMap.HashMap.HandOver | sys/include/lib/hashmap.h:337-341 | Handing entry i over extends what the new map holds by it; if that fails, eight entries or more had moved before |
| HashMap.HashMap.MoveEntry | sys/include/lib/hashmap.h:337-351 | One round of the move keeps old and new table apart, with old plus new the original; if it breaks off, eight entries or more are missing here |
| HashMap.HashMap.IteratePairs | sys/include/lib/hashmap.h:328-354 | A completed move leaves the whole original map in the new table; a broken one has taken a prefix of the slots with eight entries or more, and was broken by a table that was refused; both tables and all requests are what `MoveOf` says |
| HashMap.HashMap.RehashHelper | sys/include/lib/hashmap.h:527-552 | On 0, exactly when all tables asked for are granted, the same key/value pairs at the last size granted, invariant re-established; otherwise what is missing follows from which was refused |
| HashMap.HashMap.Replacement | sys/include/lib/hashmap.h:527-537 | A table of twice the size is asked for; 2^31 wraps and is refused |
| HashMap.HashMap.MoveInto | sys/include/lib/hashmap.h:539-545 | The move into it succeeds or loses eight entries or more, by the tables granted |
| HashMap.HashMap.Destroy | sys/include/lib/hashmap.h:356-359 | The map is zeroed |
| HashMap.HashMap.CopyFrom | sys/include/lib/hashmap.h:547-549 | Installing the replacement takes over its storage, contents and legality |
| ProbeTable.KeyAbsent | sys/include/lib/hashmap.h:238-250 | A key met in none of its eight slots is nowhere in the map, though the probe never stops at a free slot |
| ProbeTable.FreeFound | sys/include/lib/hashmap.h:498-509 | The first free slot of the second probe is the nearest one there is |
| ProbeTable.NoneFree | sys/include/lib/hashmap.h:500-511 | If all slots met are live, an absent key has no room |
| ProbeTable.ProbeStep | sys/include/lib/hashmap.h:483-494 | Stepping modulo the size meets each slot in turn and, once round a table smaller than eight, revisits and adds none |
| ProbeTable.Store | sys/include/lib/hashmap.h:215-225 | An entry in the slot chosen for its key updates the map and keeps keys unique and near home |
| ProbeTable.FillFree | sys/include/lib/hashmap.h:222-225 | An absent key in a free slot among its eight adds one entry and keeps the invariant |
| ProbeTable.Overwrite | sys/include/lib/hashmap.h:215-218 | Writing to a key's own slot changes its value only |
| ProbeTable.Free | sys/include/lib/hashmap.h:296-302 | Freeing a live slot removes its key only, whatever is left in the slot |
| ProbeTable.MoveSlot | sys/include/lib/hashmap.h:337-345 | Moving the next slot out passes its entry from what is left to what has moved |
| ProbeTable.MoveConserves | sys/include/lib/hashmap.h:514-552 | At every moment of a move the moved and unmoved entries share no key and together are the original map |
| Moves.WithIs | sys/include/lib/hashmap.h:498-509 | Where put places an entry is determined: there is one chosen slot |
| Moves.NoRoomMeansEight | sys/include/lib/hashmap.h:473-511 | A table that is not full and has no room for an absent key holds eight entries at least, sizes below 8 included |
| Moves.StuckAfterEight | sys/include/lib/hashmap.h:337-341 | An entry that finds no room in the larger table has eight or more moved before it |
| Moves.MovedMissing | sys/include/lib/hashmap.h:342-345 | What is left and what has moved add up to what there was |
| Moves.EightMissing | sys/include/lib/hashmap.h:337-350 | So a move that breaks off has taken eight entries or more from the table |
| HashMapRuns.RunOne | sys/include/lib/hashmap.h:204-279 | One put, get or remove is a step of a table's run: the table it leaves is exactly determined; it refines a step of the abstract map; it asks for memory exactly if it is a put that finds no room; it fails exactly if a table of its account, each twice the last, is refused; it then loses nothing exactly if that was the first replacement, and otherwise eight entries or more |
| HashMapRuns.RunAll | sys/include/lib/hashmap.h:204-279 | Any sequence of operations takes the table from what it was to what it is through such steps, with the heap's requests, from first to last, accounted for |
| HashMapRuns.Refines | sys/include/lib/hashmap.h:80-134 | A table's run is a run of the abstract map, with the same replies |
| HashMapRuns.FailuresAreRefusals | sys/include/lib/hashmap.h:209-213 | Over every run puts fail exactly as often as tables are refused, and request numbers have no gap |
| HashMapRuns.NeverStale | sys/include/lib/hashmap.h:80-134 | Over every run from an empty map, a key's value is the one last put and not removed since; it can be missing only if some put failed |
| HashMapRuns.PutNinth | sys/include/lib/hashmap.h:209-213 | Putting a ninth key of one 32-bit hash returns 1 at every size and whatever the heap grants, and invents nothing |
| LostEntries.SixteenRoom | sys/include/lib/hashmap.h:440-512 | Fifteen one-byte keys, eight of hash 9 and seven of hash 16 modulo 32 by the kernel's hash, each find room in a table of sixteen slots, and where |
| LostEntries.NoRoomForLast | sys/include/lib/hashmap.h:440-512 | The key 63, of hash 10 modulo 32, finds none |
| LostEntries.BlockedAtFifteen | sys/include/lib/hashmap.h:337-341 | In the move to thirty-two slots the entry of slot 15 is the first to find no room: nested growth does occur under the kernel's hash |
| LostEntries.FillSixteen | sys/include/lib/hashmap.h:185-228 | Fifteen puts of these keys, in this order, fill a new map of sixteen slots that way and ask for nothing more |
| LostEntries.RefusedAtThird | sys/include/lib/hashmap.h:209-213 | On a heap that refuses its third request the sixteenth put makes two calls and leaves slot 15 only |
| LostEntries.LoseFourteen | sys/include/lib/hashmap.h:204-213 | There the sixteenth put returns 1 and leaves one of the fifteen entries: an input on which the code loses entries |
| LostEntries.HashesAre | sys/include/lib/hashmap.h:431-458 | The kernel's hash of each of the sixteen keys, modulo 32 |
| Displacement.Pigeonhole | sys/include/lib/hashmap.h:483-509 | Live keys with homes in k consecutive slots number at most k + 7 and at most the table's size |
| Displacement.EightCollideAtMost | sys/include/lib/hashmap.h:458 | No legal table of any size holds nine keys of one 32-bit hash |
| Displacement.NinthCannotEnter | sys/include/lib/hashmap.h:209-213 | No legal table stands for a map of eight colliding keys and a ninth |
| Displacement.DoubledHome | sys/include/lib/hashmap.h:529 | In the doubled table a key's home is its old home or that plus the old size |
| Displacement.RoomExactly | sys/include/lib/hashmap.h:466-512 | There is room exactly if some slot is free, and the key is there or one of the eight slots from its home on, stepping modulo the size, is free |
| Displacement.PlaceExactly | sys/include/lib/hashmap.h:497-509 | An absent key's place is the first free slot of those eight |
| KernelMap.NineZeroKeysNeverFit | sys/include/lib/hashmap.h:365-459 | With the kernel's own hash no table holds more than eight keys of zero bytes only, whatever their lengths |
| Crc32Table.TableIsDivision | sys/include/lib/hashmap.h:376-429 | Each of the 256 words is its index divided for eight steps by the reflected polynomial 0x82F63B78 |
| Crc32.Crc32Helper | sys/include/lib/hashmap.h:431-436 | The loop computes the byte-wise CRC of the whole string |
| Crc32.ByteStepShifts | sys/include/lib/hashmap.h:432-434 | One table look-up does what eight one-bit shifts of the register do |
| Crc32.CrcIsSerial | sys/include/lib/hashmap.h:431-436 | For every string the result is that of the bit-serial circuit, lowest bit of each byte first |
| Crc32.CrcIsRemainder | sys/include/lib/hashmap.h:376-436 | For every string the result is, bit-reversed, the remainder of the message polynomial times x^32 on division by 0x11EDC6F41: the CRC of section 12.1 of RFC 3720 with initial value 0 and no final complement |
| Crc32.CrcLinear | sys/include/lib/hashmap.h:431-436 | On strings of one length the CRC of the XOR is the XOR of the CRCs |
| Crc32.CrcLeadingZeros | sys/include/lib/hashmap.h:367-436 | Zero bytes in front do not change the CRC |
| ShiftRegister.SerialIsPadded | sys/include/lib/hashmap.h:431-436 | Feeding bits at the output end is dividing them with 32 zeros appended |
| ShiftRegister.SerialBytes | sys/include/lib/hashmap.h:431-436 | A byte step that shifts eight bits makes the byte-wise fold the bit-wise one |
| ShiftRegister.BytesLinear | sys/include/lib/hashmap.h:431-436 | Linearity of the step carries to whole strings |
| HashMix.Mix | sys/include/lib/hashmap.h:445-453 | The eight in-place steps compute the function shown to be a bijection |
| HashMix.Hash32 | sys/include/lib/hashmap.h:443-456 | The 32-bit hash of a key, as the collision theorems speak of it |
| HashMix.HashHelperIntHelper | sys/include/lib/hashmap.h:440-459 | The kernel's code is the instance of the map's hash with this function |
| HashMix.MixIsUndone | sys/include/lib/hashmap.h:445-453 | The Jenkins mix has a left inverse on all 32-bit values |
| HashMix.UnmixIsUndone | sys/include/lib/hashmap.h:445-453 | And a right inverse: it is a bijection |
| HashMix.EightToOne | sys/include/lib/hashmap.h:443-456 | The CRC values that share a hash are exactly the eight siblings that differ in the three bits dropped |
| HashMix.EightSiblings | sys/include/lib/hashmap.h:456 | The eight siblings do share the hash and all differ: exactly eight to one |
| HashMix.HashInImage | sys/include/lib/hashmap.h:456 | Every hash, multiplied by the inverse of the Knuth factor, is below 2^29 |
| HashMix.ImageHashed | sys/include/lib/hashmap.h:456 | And every word of that kind is some CRC's hash |
| HashMix.ZeroKeysCollide | sys/include/lib/hashmap.h:367-458 | Keys of zero bytes only have one hash, whatever their lengths |
| FrameBitmap.SetChangesOne | sys/src/mm/pmm.c:24-28 | Setting a bit changes that bit and no other |
| FrameBitmap.UnsetChangesOne | sys/src/mm/pmm.c:30-34 | Clearing a bit changes that bit and no other |
| FrameBitmap.UnsetAfterSet | sys/src/mm/pmm.c:24-34 | Clearing a bit just set restores the bitmap bit for bit |
| FrameBitmap.SetTakes | sys/src/mm/pmm.c:24-28 | On the set of free frames, setting takes one away |
| FrameBitmap.UnsetReleases | sys/src/mm/pmm.c:30-34 | And clearing adds one |
| Pmm.FrameAllocator.BitmapSetBit | sys/src/mm/pmm.c:24-28 | The store in place refines setting on the whole bitmap |
| Pmm.FrameAllocator.BitmapUnsetBit | sys/src/mm/pmm.c:30-34 | The store in place refines clearing on the whole bitmap |
| Pmm.FrameAllocator.BitmapTest | sys/src/mm/pmm.c:37-41 | Answers whether the frame is taken |
| Pmm.FrameAllocator.FindHighestMemChunk | sys/src/mm/pmm.c:43-65 | The usable entry of highest base, the first of equals; none exactly when no entry is usable |
| MemoryMap.HighestExists | sys/src/mm/pmm.c:44-65 | If any entry is usable there is a highest |
| Pmm.FrameAllocator.GetBitmapSize | sys/src/mm/pmm.c:67-74 | The size follows from where the highest entry ends |
| MemoryMap.AlignUpPage | sys/include/lib/math.h:5 | The mask expression rounds up to the next multiple of the page size |
| MemoryMap.BitmapCovers | sys/src/mm/pmm.c:67-74 | The size is the fewest whole pages with a bit for each group of eight frames; with F frames there is a bit for each exactly when F mod 32768 is not in 1 to 7 |
| MemoryMap.CarveKeepsHighest | sys/src/mm/pmm.c:88-94 | Cutting the bitmap's storage off an entry leaves the highest address alone, except when it empties an entry before the highest in the map that ends where that begins |
| Pmm.CarveKeepsSize | sys/src/mm/pmm.c:92-124 | The size recomputed on every allocation step is never larger than the bitmap, and is the same but for that one case |
| Pmm.SizeFits | sys/src/mm/pmm.c:67-111 | But for the seven residues every frame that initialisation releases has a bit |
| Pmm.FrameAllocator.CarveBitmap | sys/src/mm/pmm.c:84-96 | The storage comes from the front of the first entry of kind 0 at least that long, all bits set, that entry shrunk by it; otherwise nothing changes |
| Pmm.FrameAllocator.ReleaseEntry | sys/src/mm/pmm.c:106-109 | The inner loop clears exactly the bits of the entry's frames |
| Pmm.FrameAllocator.ReleaseAll | sys/src/mm/pmm.c:100-111 | From an all-set bitmap, the frames free are then those of the entries of kind 0 at least as long as the bitmap, wherever they lie |
| Pmm.FrameAllocator.InitBitmap | sys/src/mm/pmm.c:76-112 | On the map as it was: a frame is free exactly when it lies in an entry of kind 0 at least as long as the bitmap, behind the bitmap's own storage in the first of these; no bitmap exactly when there is no such entry; asks only that no bit past the bitmap be needed |
| Pmm.ReleasesExactly | sys/src/mm/pmm.c:100-111 | The clear bits in terms of kind, length and address alone |
| Pmm.BootsExactly | sys/src/mm/pmm.c:76-112 | The same of the map before the carve |
| Pmm.FrameAllocator.PmmInit | sys/src/mm/pmm.c:114-119 | After start-up the allocator is ready, unless no entry can hold the bitmap: which entry was carved, where the bitmap lies, what the map has become and which frames are free; the size it recomputes fits the bitmap, and is the bitmap's own but for one case |
| Pmm.BitmapKeepsItself | sys/src/mm/pmm.c:84-111 | No clear bit is that of a frame that overlaps the bitmap's own storage |
| Pmm.FrameAllocator.AllocInner | sys/src/mm/pmm.c:121-134 | First fit over eight frames a byte of the recomputed size: the address of the lowest free frame, whose bit alone is set; 0 exactly when none of these is free, or frame 0 is |
| Pmm.FrameAllocator.Alloc | sys/src/mm/pmm.c:136-147 | For every positive count exactly one frame is taken, the lowest free one; for 0, none |
| Pmm.FrameAllocator.Free | sys/src/mm/pmm.c:150-158 | Clears the bits of the frames from the pointer's on and no others |
| Pmm.TakenIs | sys/src/mm/pmm.c:124-131 | First fit has one answer only |
| Pmm.TakenExactly | sys/src/mm/pmm.c:121-134 | On sets of frames: 0 exactly when none below the limit is free or the lowest is frame 0, else the address of the lowest |
| Pmm.GivenFrees | sys/src/mm/pmm.c:150-158 | After giving back n frames those are free, and no others that were not |
| PmmRuns.StepConserves | sys/src/mm/pmm.c:121-158 | Each ask keeps live and spare frames disjoint, their union and their number |
| PmmRuns.TakeAnswers | sys/src/mm/pmm.c:121-147 | An answer is the lowest free frame and never a live one; 0 exactly when none below the limit is free, or frame 0 is |
| PmmRuns.TakeThenGive | sys/src/mm/pmm.c:121-158 | Taking a frame and giving it back restores bitmap and live set |
| PmmRuns.FrameZeroLost | sys/src/mm/pmm.c:126-145 | An answer of 0 changes the bitmap exactly when frame 0 was free |
| PmmRuns.RunConserves | sys/src/mm/pmm.c:121-158 | At every moment of every run live plus spare is the set released at start-up, less frame 0 |
| PmmRuns.RunSafe | sys/src/mm/pmm.c:121-158 | Over every run a frame handed out is one released at start-up and not one still out |
| PmmRuns.RunAnswers | sys/src/mm/pmm.c:121-147 | Over every run an ask is answered with 0 only when every frame the search covers is out, or frame 0 is free; where it covers the bitmap, when none is free at all |
| PmmRuns.NeverTwice | sys/src/mm/pmm.c:121-158 | Over every run no two asks get the same frame unless it has been given back in between |
| PmmRuns.RunSparesBitmap | sys/src/mm/pmm.c:76-147 | Over every run from an initialised bitmap each frame handed out is a page of usable memory and does not overlap the bitmap |
| PmmRuns.AskOne | sys/src/mm/pmm.c:136-158 | Each ask of a client, for n frames or to give back what an earlier ask was answered with, is a step of the runs; only to give back what is not live makes no call |
| PmmRuns.RunAll | sys/src/mm/pmm.c:121-158 | Any sequence of asks of a ready allocator is a run, from its bitmap to its bitmap, with its answers |
| PmmRuns.BootAndRun | sys/src/mm/pmm.c:76-158 | From start-up on, for every memory map and every sequence of asks: what is free at first is exactly what of the usable entries is long enough, less the bitmap; each answer but 0 is a page of usable memory apart from the bitmap's storage, none is given twice unless given back, and 0 is answered only when none is left, or frame 0 is free |
| Checksum.Accumulate | sys/src/net/checksum.c:18-23 | One round adds the big-endian word in 32 bits and folds with OR, and leaves the top bit clear |
| Checksum.FoldHalves | sys/src/net/checksum.c:28-31 | The closing loop ends, with a 16-bit word, without wrapping |
| Checksum.Complement | sys/src/net/checksum.c:32 | Complementing 32 bits and converting the low 16 complements and swaps the word |
| Checksum.InternetChecksum | sys/src/net/checksum.c:10-33 | The checksum, over the even-length prefix, that the theorems compare with the RFC's |
| Checksum.ConvertIsWord | sys/src/net/checksum.c:3-8 | Converting an x86 load gives the word the two bytes spell on the wire |
| Checksum.OrTop | sys/src/net/checksum.c:22 | ORing in a power of two adds it if that bit is clear and otherwise loses it |
| Checksum.FoldIsSmall | sys/src/net/checksum.c:20-23 | The fold only ever meets a high half of 0x8000, and loses it exactly when bit 15 is set below |
| OnesComplement.OnesSumIs | sys/src/net/checksum.c:10-33 | The end-around-carry sum of section 1 of RFC 1071 is the plain sum modulo 65535, 0 only for 0 |
| OnesComplement.FoldDownIs | sys/src/net/checksum.c:28-31 | The closing fold is that same residue |
| OnesComplement.RunningIs | sys/src/net/checksum.c:16-26 | The running sum is the plain one less 0x8000 for every bad fold, modulo 65535 |
| OnesComplement.RightExactly | sys/src/net/checksum.c:10-33 | For every buffer the result is the RFC's exactly when the number of bad folds is a multiple of 65535 |
| OnesComplement.NoBadFolds | sys/src/net/checksum.c:20-23 | No fold at all up to 32768 words, and an exact one at the 32769th |
| OnesComplement.RightUpToBound | sys/src/net/checksum.c:10-33 | Up to 65539 bytes the result is always the RFC's |
| OnesComplement.WrongBeyondBound | sys/src/net/checksum.c:20-23 | For a buffer of 65540 bytes it is not: the bound is sharp |
| OnesComplement.OrderIrrelevant | sys/src/net/checksum.c:16-26 | Permuting the 16-bit words does not change the checksum (section 2(A) of RFC 1071) |
| OnesComplement.Verifies | sys/src/net/checksum.c:10-33 | With the result stored in a zero field at an even offset the checksum becomes 0 |
| OnesComplement.UpdateRule | sys/src/net/checksum.c:10-33 | Replacing a word changes the sum by equation 3 of RFC 1624, but for the two zeros |
| OnesComplement.UpdateComputed | sys/src/net/checksum.c:10-33 | The rule holds of the source's own results, in memory order, within the bound |
| CString.Strlen | sys/src/lib/string.c:15-22 | The length of what precedes the first NUL |
| CString.Memcmp | sys/src/lib/string.c:171-183 | 0 exactly when the n bytes agree, else 1 |
| CString.StrdilmCount | sys/src/lib/string.c:202-216 | How often the delimiter occurs before the first NUL |
| CString.SkipPart | sys/src/lib/string.c:225-240 | Steps past one delimiter and drops exactly the first part, or finds that there is no other |
| CString.CopyPart | sys/src/lib/string.c:243-253 | The buffer then holds, as a terminated string, the first part from here on |
| CString.Strsplit | sys/src/lib/string.c:218-256 | NULL exactly when the index exceeds the count of delimiters; otherwise the text of that part |
| CString.JoinParts | sys/src/lib/string.c:218-256 | The parts, joined by the delimiter, give the text back, and none holds the delimiter |
| CString.PartsOfJoin | sys/src/lib/string.c:218-256 | Splitting what was joined gives the parts back: the split is the only one |
| CString.PartsCount | sys/src/lib/string.c:202-256 | There is one part more than strdilm_count counts |
| NumText.HexDigits | sys/src/lib/string.c:41-49 | The loop writes all hexadecimal digits, lowest first |
| NumText.DecDigits | sys/src/lib/string.c:89-94 | The loop writes all decimal digits, lowest first |
| NumText.Finish | sys/src/lib/string.c:53-56 | "0x", backwards, and the terminator follow what is there |
| NumText.ReverseInPlace | sys/src/lib/string.c:58-66 | Swapping ends until they meet reverses exactly the text and leaves the terminator and the rest |
| NumText.Hex2Str | sys/src/lib/string.c:24-70 | The text and its terminator fit the 80 bytes, for every 64-bit number |
| NumText.Dec2Str | sys/src/lib/string.c:72-112 | The text and its terminator fit the 80 bytes, for every 64-bit number |
| NumText.DigitsRead | sys/src/lib/string.c:41-94 | In either base, digits produced lowest first and reversed read as the number |
| NumText.HexReads | sys/src/lib/string.c:24-70 | For every 64-bit number the text is "0x" and at least two digits that read as the number |
| NumText.HexPlain | sys/src/lib/string.c:24-70 | Its digits are 0 to 9 and A to F, with no leading zero but where it pads to two digits |
| NumText.DecReads | sys/src/lib/string.c:72-112 | For every 64-bit number the text is digits only, reads as the number and has no leading zero but "0" itself |
| Paths.PlainPath | sys/src/fs/vfs.c:22-39 | Proper names joined by slashes are the names the loop looks up, as a file |
| Paths.DirectoryPath | sys/src/fs/vfs.c:22-39 | With a slash after them the same names, as a directory |
| Paths.ComponentCount | sys/src/fs/vfs.c:25-32 | The source's count of rounds is the number of names, whether or not the path ends in a slash |
| Vfs.FileSystem.NewNode | sys/src/fs/vfs.c:58-65 | A node with its name, its flags and an empty map of its own, of eight slots |
| Vfs.FileSystem.VfsInit | sys/src/fs/vfs.c:110-114 | A valid tree of one directory, the root, all of it newly made |
| Vfs.FileSystem.PutInto | sys/src/fs/vfs.c:69 | The put succeeds exactly when every table it asks for is granted, with none if there is room |
| Vfs.FileSystem.PutOnly | sys/src/fs/vfs.c:69-70 | The put reaches the parent's map only; all other nodes' maps and storage are as they were; the node is linked exactly when every table asked for is granted |
| Vfs.FileSystem.PutChild | sys/src/fs/vfs.c:69-70 | And the others still hold exactly their children |
| Vfs.FileSystem.Link | sys/src/fs/vfs.c:67-71 | The new node is in the tree, in place of any of that name and all below it, exactly when every table asked for is granted; if the ignored put failed the tree loses the subtrees of the children lost; it is valid either way |
| Vfs.FileSystem.Attach | sys/src/fs/vfs.c:67-71 | Nothing but the new node and new storage for the parent is added to what the tree is made of |
| Vfs.FileSystem.MakeNode | sys/src/fs/vfs.c:53-72 | The same for a node newly made: linked exactly when every table asked for is granted, at once if the parent's map has room; the tree stays valid, its footprint grows by new objects only, and the parent's count rises even when the put failed |
| Vfs.GrowChildren | sys/src/fs/vfs.c:67-71 | A new node is a child of its parent and of no other, whether or not it replaces one |
| Vfs.GrownByOne | sys/src/fs/vfs.c:67-71 | Under a name new to the parent it is one node more, and nothing is replaced |
| Vfs.PruneChildren | sys/src/fs/vfs.c:67-71 | After a failed put the nodes left hold exactly their children left |
| Vfs.StepDown | sys/src/fs/vfs.c:37 | A look-up by the next name finds the next node of the chain exactly when there is one |
| Vfs.FileSystem.Child | sys/src/fs/vfs.c:36-38 | The text cut out by the splitter is the i-th name, and what comes back is the child of that name or NULL |
| Vfs.FileSystem.Descend | sys/src/fs/vfs.c:36-38 | One round goes from the node of i names to that of i + 1 |
| Vfs.FileSystem.Walk | sys/src/fs/vfs.c:34-39 | The loop arrives at the node of the whole chain, or at NULL if there is none |
| Vfs.FileSystem.Rounds | sys/src/fs/vfs.c:25-32 | The number of rounds is that of the names the path spells, and a directory is insisted on exactly if it ends in a slash |
| Vfs.FileSystem.PathToNode | sys/src/fs/vfs.c:15-50 | It returns the node that the path leads to along a chain of the tree, and NULL if it leads nowhere |
| Vfs.FileSystem.LeadsExactly | sys/src/fs/vfs.c:15-50 | A path resolves to a node exactly if it is "/" and the names of that node's chain joined by "/", with a slash after them only for a directory; all others resolve to NULL |
| Vfs.FileSystem.ChainMissing | sys/src/fs/vfs.c:36-49 | A chain whose last name is missing resolves to NULL |
| Paths.SpeltBack | sys/src/fs/vfs.c:22-39 | A text is the names it spells, joined, and the slash it ends in if it does |
| Vfs.FileSystem.ChainResolves | sys/src/fs/vfs.c:15-72 | For every valid tree, "/" and a chain's names joined by "/" resolves to exactly that chain's node; with a slash after it, exactly if the node is a directory |
| Vfs.FileSystem.PathsApart | sys/src/fs/vfs.c:15-72 | Distinct chains give distinct nodes, and "/" gives NULL |
| VfsRuns.RoomInEight | sys/src/fs/vfs.c:65-69 | A map of eight slots has room for a new name exactly if it is not full |
| VfsRuns.RoomUnder | sys/src/fs/vfs.c:65-69 | A directory's map, as it is made, has room for eight children and no more |
| VfsRuns.NinthChild | sys/src/fs/vfs.c:65-69 | A ninth child whose name and its eight siblings' differ in their hashes modulo 16 costs one table, and is linked exactly if that is granted |
| VfsRuns.BuiltMore | sys/src/fs/vfs.c:53-72 | A call that links its node leaves the tree at exactly the nodes made so far, each at the end of its chain |
| VfsRuns.MakeNext | sys/src/fs/vfs.c:53-72 | One call of a script: the put into the parent's map comes to what `PutOf` says of its table; it asks for memory exactly if the map has no room, links its node exactly when every table of that account, from the map's real size on, is granted, and leaves the tree built and the sizes so much further |
| VfsRuns.Build | sys/src/fs/vfs.c:53-114 | From vfs_init on, with any heap, a script builds exactly its tree, or ends at the node whose map is refused or the put that fails, with every map's size and every request up to there |
| VfsRuns.NarrowFits | sys/src/fs/vfs.c:65-69 | If no directory gets more than eight children no put fails |
| VfsRuns.SizesLogged | sys/src/fs/vfs.c:53-72 | Each map has eight slots, doubled once for each replacement it has had |
| VfsRuns.FailsAt29 | sys/src/fs/vfs.c:65-69 | With a heap that refuses nothing a put fails exactly at its directory's 29th replacement, where the size wraps |
| VfsRuns.Find | sys/src/fs/vfs.c:15-50 | The path to a chain, with or without a slash after it, finds its node, or NULL for a slash after a file or a name that is missing |
| VfsRuns.BuildAndFind | sys/src/fs/vfs.c:15-114 | Building a tree and looking a node up by its path returns the very node that call made, in a tree that is exactly the script's; otherwise, as for Build, what the heap refused |
| HeapList.Heap.HeapInit | sys/src/mm/heap.c:22-32 | The first call points both pointers at the arena and changes nothing the heap stands for |
| HeapList.Heap.WriteHeader | sys/src/mm/heap.c:48-54 | The four writes make a full header and the next one's back link, and touch nothing else |
| HeapList.Heap.Bump | sys/src/mm/heap.c:48-57 | A request that fits adds one live block above all others and returns its payload |
| HeapList.Heap.Kmalloc | sys/src/mm/heap.c:35-58 | Refused exactly when the live blocks' bytes and the request exceed 40960, with no change; otherwise a new block, list and counts in order |
| HeapList.Heap.UnlinkHeader | sys/src/mm/heap.c:75-83 | The two guarded writes join the neighbours, and touch nothing else |
| HeapList.Heap.Kfree | sys/src/mm/heap.c:69-86 | Takes exactly that block off the list and its size off the count; the bump pointer stays |
| HeapList.ExtendLinks | sys/src/mm/heap.c:48-55 | After an allocation `prev` and `next` thread the old headers and the new one |
| HeapList.UnlinkLinks | sys/src/mm/heap.c:75-83 | After a release they thread the headers left, wherever in the list the block was |
| HeapList.AllocateRepresented | sys/src/mm/heap.c:48-57 | Memory still threads exactly the live blocks and records their sizes |
| HeapList.ReleaseRepresented | sys/src/mm/heap.c:75-85 | The same after a release |
| HeapList.AllocateSound | sys/src/mm/heap.c:43-57 | Blocks stay apart and in order, and the count is that of the live bytes, within 40960 |
| HeapList.ReleaseSound | sys/src/mm/heap.c:85 | The same after a release: the subtraction never underflows |
| HeapRuns.BackVisitsLive | sys/src/mm/heap.c:8-19 | Following `prev` from `free_ptr` visits exactly the live blocks, newest first, and ends |
| HeapRuns.NextMirrorsPrev | sys/src/mm/heap.c:53-83 | `next` and `prev` undo each other at every live block |
| HeapRuns.PayloadsApart | sys/src/mm/heap.c:48-57 | No payload byte is another block's, or a header's |
| HeapRuns.RunSound | sys/src/mm/heap.c:35-86 | At every moment of every run the live blocks are apart and in order, their bytes counted exactly and within the capacity, and `free_ptr` is the start plus a header and n for each allocation ever granted |
| HeapRuns.GrantedExactly | sys/src/mm/heap.c:35-86 | Over every run a request is granted exactly if the bytes of the live blocks stay within 40960 with it; it adds one live block, and a release takes away the one it is for |
| HeapRuns.NeverReused | sys/src/mm/heap.c:35-86 | Over every run each block granted lies, header and all, behind all granted before, given back or not |
| HeapRuns.RunOne | sys/src/mm/heap.c:35-86 | Each ask of a client, for n bytes or to give back the k-th block it holds, is a step of the runs; only to give back what is not held makes no call |
| HeapRuns.RunAll | sys/src/mm/heap.c:35-86 | Any sequence of asks of a new heap is a run, with its answers, and at every moment of it memory threads exactly the live blocks by `prev` and `next` |
| HeapRuns.RunInArena | sys/src/mm/heap.c:35-58 | The trailing header lies in the arena exactly when all ever granted leaves room for it |
| HeapRuns.CheckLetsArenaOverflow | sys/src/mm/heap.c:43-46 | The size check alone does not ensure it |
| HeapRuns.RoundsLeak | sys/src/mm/heap.c:35-86 | Rounds of allocating and freeing leave nothing live and use up the arena all the same |
| HeapRuns.CheckIsExact | sys/src/mm/heap.c:43 | The 64-bit check refuses exactly what it should unless the sum wraps |

## Left out

- Allocation.Allocator.Kcalloc: for the map the heap is an oracle that grants or refuses each request; the source's kcalloc would zero through a null pointer on a refusal, where the model returns null as hashmap_create expects.
- HashMap.HashMap.IteratePairs: the callback is fixed to hashmap_rehash_iterator, the only one whose use the map itself makes; other callbacks are not modelled.
- HashMap.HashMap.RemoveAndReturnKey: keys are values, so that the pointer returned is the very one stored is not modelled.
- HashMap.HashMap.Destroy: the release of the old storage by kfree is not modelled, nor that a replacement abandoned in a failed move is never released.
- Vfs.FileSystem.PathToNode: paths through a missing directory are excluded, because the source dereferences the previous result unchecked; the release of each split string is not modelled.
- Vfs.FileSystem.NewNode: a refused map for the node's children is excluded; the kernel's kcalloc does not survive one. The name is a value; the source copies its bytes without a terminator into a field it has not cleared, so that what follows them there is not modelled.
- Vfs.FileSystem.MakeNode: as for NewNode; `fops` and a null parent other than for the root are not modelled, nor is a failing kmalloc for the node.
- Vfs.FileSystem.VfsInit: as for NewNode.
- CString.Strsplit: the fresh buffer is taken as zero-filled and as granted, because the source terminates the copy itself only at a delimiter.
- Pmm.FrameAllocator.Free: returning several frames at once clears their bits, but ownership of runs of frames is not modelled, because the allocator never hands out a run.
- Pmm.FrameAllocator.InitBitmap: maps with a released frame past the bitmap's last bit are excluded, as the source then writes past its bitmap; the bitmap's storage is an array of its own whose address is recorded; memory-map entries are values in an array, so two pointers to one entry are not modelled; log output is omitted.
- HeapList.Heap.Kmalloc: memory is modelled as headers by address; payload bytes and writes to them are not, and sums that wrap are excluded.
- Checksum.InternetChecksum: `& 0xffff` and `>> 16` are remainder and quotient on naturals; the 32-bit addition is reduced modulo 2^32.
- Crc32Table.TableIsDivision: the 256-word array is a look-up function in sixteen rows.
- The SSE4.2 branch of the CRC, whose intrinsic is not part of this model, and the inline-assembly memory routines.
- hashmap_iterate and hashmap_num_entries, which would only add easy members.
- Key lifetime, and the caller in sys/src/drivers/hdd/ahci.c that frees a buffer the map still holds as a key.
- Page tables (sys/src/mm/vmm.c, sys/src/mm/mmap.c): map-then-lookup does not hold of that code, which leaves flag bits in table pointers and does not zero new tables.
- The checksum's callers in sys/src/net/ip.c and sys/src/net/icmp.c.
- krealloc, snprintf, the VECTOR macros, fopen and fclose, and that hex2str and dec2str overwrite their static buffers on the next call.
- Drivers, interrupts, ARP, Ethernet and UDP framing, ext2, logging and ACPI.
