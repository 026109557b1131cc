# assoofs and the hex range check, modelled in Dafny

This project models two parts of an operating-systems lab repository.

1. **`is_within_range`.** This small Python function decides whether a hexadecimal number lies inside a range written `start-end`.
   - The range is split at its hyphen.
   - One optional `0x` prefix is stripped from each token.
   - Each token is parsed in base 16.
   - The range is inclusive at both ends.
   - A malformed input raises `ValueError`. The model returns that as a `Failure` value instead.
2. **assoofs.** This is a teaching filesystem for the Linux kernel. The model covers its kernel module (`assoofs.c`, `assoofs.h`) and its formatter (`mkassoofs.c`).
   - Blocks are 4096 bytes.
   - Block 0 holds the superblock, whose fields are version, magic, block size, `inodes_count` and a 64-bit free-block bitmap.
   - Block 1 is the inode store, an array of 32-byte inode records.
   - Every other block is either the array of 264-byte directory records of a directory, or the bytes of one regular file.
   - An inode record's union holds the file size or the directory's child count.

The device is modelled as an immutable `Image`:
- the superblock;
- the slots of the inode store;
- a map from block numbers to their content.

Slots and bytes that were never written read as zero, as on a freshly zeroed device.

Each kernel operation is a pure function from the image, plus the in-memory inode record it is given, to a result record. The result carries the C return value, the new image and any updated in-memory state. `mkassoofs` is modelled as its five write steps applied to a blank device. The outcome of each step's I/O is an input.

`Invariant.WellFormed` states what a consistent device looks like:
- the superblock fields are fixed and within bounds;
- slot k holds record k + 1;
- every record's union matches its type and fits in its block;
- every record owns a distinct block that is marked in use;
- every directory entry names a stored record;
- the root directory is record 1 on block 2.

The following is proved:
- the formatter produces a well-formed image;
- write preserves well-formedness;
- create and mkdir preserve it, once a directory-capacity check is added (see Findings);
- on a well-formed image, mounting succeeds, every record resolves and no lookup dangles.

The modules follow the source files:

| module | file | models |
|---|---|---|
| `Wrappers` | `wrappers.dfy` | `Option` and `Result` |
| `HexRange` | `hex_range.dfy` | the Python range check |
| `AssoofsLayout` | `assoofs_layout.dfy` | the constants and records of `assoofs.h` |
| `InodeStore` | `assoofs_store.dfy` | the inode-store functions and the block allocator |
| `FileOps` | `assoofs_file.dfy` | read and write |
| `DirOps` | `assoofs_dir.dfy` | `get_inode`, iterate, lookup, create and mkdir |
| `SuperBlockCodec` and `Mount` | `assoofs_mount.dfy` | the superblock's byte layout and `fill_super` |
| `Mkassoofs` | `mkassoofs.dfy` | the formatter |
| `Invariant` | `assoofs_invariant.dfy` | the well-formedness invariant and its preservation |

`assoofs_mkdir` receives permission bits and stores `S_IFDIR | mode` as the new directory's mode. `assoofs_lookup` always returns NULL. It binds the dentry when it finds the entry, and the model reports which of its three outcomes occurred.

Where the source's comments and its code differ, the model follows the code. The comment that closes `mkassoofs`' `main` (mkassoofs.c:268) says a failed step returns -1. The code returns `ret`, which starts at 1 (mkassoofs.c:238) and is only reset to 0 when all five steps succeed, so the model exits with 1.

## Model

| member | source | states |
|---|---|---|
| HexRange.DigitValue | aso-lab-02/is_within_hexadecimal_range.py:17-19 | a hex digit weighs less than 16, and a lower-case letter weighs the same as its upper-case form |
| HexRange.PositionalSnoc | aso-lab-02/is_within_hexadecimal_range.py:17-19 | appending a digit multiplies the value by 16 and adds the digit |
| HexRange.HornerIsPositional | aso-lab-02/is_within_hexadecimal_range.py:17-19 | accumulating digits from the left, as `int(s, 16)` does, gives the positional value |
| HexRange.ParseHex | aso-lab-02/is_within_hexadecimal_range.py:17-19 | parsing succeeds exactly on non-empty strings of hex digits, and the result is their positional value |
| HexRange.ParseToHex | aso-lab-02/is_within_hexadecimal_range.py:17-19 | parsing the hex numeral of n gives back n |
| HexRange.ParseIgnoresCase | aso-lab-02/is_within_hexadecimal_range.py:17-19 | changing the case of letter digits changes no parse, whether it succeeds or fails |
| HexRange.PositionalCaseFree | aso-lab-02/is_within_hexadecimal_range.py:17-19 | strings whose digits weigh the same have the same value |
| HexRange.ParseSmall | aso-lab-02/is_within_hexadecimal_range.py:17-19 | "10", "20", "15", "a", "f" and "C" parse to 16, 32, 21, 10, 15 and 12 |
| HexRange.Split | aso-lab-02/is_within_hexadecimal_range.py:4 | `str.split` always yields at least one piece (its full content is stated by `HexRange.SplitFacts`) |
| HexRange.SplitFacts | aso-lab-02/is_within_hexadecimal_range.py:4 | `split` yields one more piece than there are separators; no piece contains the separator; joining the pieces gives back the input |
| HexRange.SplitTwo | aso-lab-02/is_within_hexadecimal_range.py:4 | a string with a single hyphen splits into exactly the two pieces around it |
| HexRange.StripPrefix | aso-lab-02/is_within_hexadecimal_range.py:9-14 | the result is the input, or the input minus a leading "0x"; it differs from the input exactly when the input starts with "0x" |
| HexRange.IsWithinRange | aso-lab-02/is_within_hexadecimal_range.py:1-22 | without a hyphen the answer is False, and a True answer implies a hyphen |
| HexRange.ManyHyphensFail | aso-lab-02/is_within_hexadecimal_range.py:3-4 | with two or more hyphens the unpacking fails, reporting the number of pieces |
| HexRange.InclusiveComparison | aso-lab-02/is_within_hexadecimal_range.py:3-22 | for one hyphen: no exception exactly when all three tokens are valid, and then the answer is start <= check <= end on the prefix-stripped values |
| HexRange.Numerals | aso-lab-02/is_within_hexadecimal_range.py:3-22 | three non-empty unprefixed numerals around one hyphen are compared by value |
| HexRange.EmptyRangeNeverWithin | aso-lab-02/is_within_hexadecimal_range.py:22 | when start exceeds end, no probe is within the range |
| HexRange.EmptyStartFails | aso-lab-02/is_within_hexadecimal_range.py:17 | a range starting with a hyphen fails on the empty start token |
| HexRange.PrefixInsensitive | aso-lab-02/is_within_hexadecimal_range.py:9-14 | a leading "0x" on every token leaves the answer unchanged |
| HexRange.MixedCaseScenario | aso-lab-02/is_within_hexadecimal_range.py:17-22 | "C" lies within "a-f" |
| HexRange.PrefixScenario | aso-lab-02/is_within_hexadecimal_range.py:9-22 | "0x15" lies within "0x10-0x20" |
| HexRange.InsideScenario | aso-lab-02/is_within_hexadecimal_range.py:22 | "15" lies within "10-20" |
| HexRange.BoundaryScenario | aso-lab-02/is_within_hexadecimal_range.py:22 | both bounds of "10-20" lie within it |
| AssoofsLayout.PaddedLayouts | assoofs/assoofs.h:23-66 | the superblock is five 8-byte fields plus padding up to one block; one block of inode store holds the records of all 62 objects; a directory record is 255 + 1 + 8 = 264 bytes; 15 records fit in a block and a 16th does not |
| InodeStore.FindFrom | assoofs/assoofs.c:299-310 | the first slot in the range carrying the number, or none carries it |
| InodeStore.GetInodeInfo | assoofs/assoofs.c:271-316 | found exactly when one of the first `inodes_count` slots carries the number; the result is the first such record |
| InodeStore.AddInodeInfo | assoofs/assoofs.c:436-478 | the record goes into slot `inodes_count` and the count goes up by one; nothing else changes |
| InodeStore.SearchAsWritten | assoofs/assoofs.c:480-499 | the loop as written: its range of examined slots runs up to and including slot `inodes_count` |
| InodeStore.Search | assoofs/assoofs.c:488-495 | the intended search: the first of the `inodes_count` records with the number, or none |
| InodeStore.SearchAgreesInRange | assoofs/assoofs.c:488-495 | the two searches agree whenever the slot past the last record does not carry the number |
| InodeStore.SaveInodeInfo | assoofs/assoofs.c:501-539 | returns -1 and changes nothing exactly when no record carries the number; otherwise overwrites the first record that carries it and returns 0, leaving every other slot alone |
| InodeStore.FirstFree | assoofs/assoofs.c:411-416 | the first set flag at or after the start, with none set before it |
| InodeStore.GetFreeBlock | assoofs/assoofs.c:398-434 | fails exactly when no block in [2, 62) is free; otherwise returns the lowest free block in that range and clears exactly its flag |
| InodeStore.BlockSixtyTwoNeverAllocated | assoofs/assoofs.c:417-421 | even when block 62 is the only free block, allocation fails |
| FileOps.Read | assoofs/assoofs.c:545-596 | at or past the end it returns 0; otherwise it returns min(size - pos, len) bytes of the block from pos, and pos advances by that amount without passing the size |
| FileOps.Overwrite | assoofs/assoofs.c:629-638 | bytes [pos, pos + len) become the buffer, and every other byte is kept |
| FileOps.Write | assoofs/assoofs.c:598-660 | -1 and no change when pos + len exceeds the block; otherwise the block's bytes are replaced, size and position become pos + len, and the first record carrying the number is overwritten; it returns len exactly when such a record was found |
| FileOps.ReadAfterWrite | assoofs/assoofs.c:545-660 | reading from the same position after a write returns exactly the bytes written |
| FileOps.WriteFramesBytes | assoofs/assoofs.c:629-638 | a write changes no byte outside [pos, pos + len) and no other block |
| FileOps.ReadAtNewEnd | assoofs/assoofs.c:640-649 | reading at the position a write leaves finds end of file, even when the write shrank the file |
| DirOps.DirIsNotReg | assoofs/assoofs.c:346-354 | no mode is both a directory and a regular file, so the dispatch is unambiguous |
| DirOps.GetInode | assoofs/assoofs.c:318-364 | an inode exists exactly when the record exists and is a directory or a regular file; it gets directory operations exactly for a directory, and file operations exactly for a regular file |
| DirOps.FirstEntries | assoofs/assoofs.c:706-716 | the first n records of the block, in order |
| DirOps.Iterate | assoofs/assoofs.c:666-723 | a non-zero position emits nothing, and a non-directory fails; otherwise it emits the `dir_children_count` entries in order, and the position advances by 264 bytes per entry |
| DirOps.FindName | assoofs/assoofs.c:758-762 | the first entry with the name, or no entry has it |
| DirOps.Lookup | assoofs/assoofs.c:729-781 | no entry exactly when none of the parent's entries has the name; otherwise the first such entry is resolved through `GetInode` |
| DirOps.LookupAgreesWithIterate | assoofs/assoofs.c:666-781 | lookup finds a name exactly when iterating the directory emits an entry with it |
| DirOps.AddChild | assoofs/assoofs.c:799-879 | at the object limit, or with no free block, it returns -1 and nothing changed; on success exactly the new record, the new entry, the allocated flag and the parent's count changed; when the parent's record is not stored it returns -1 after the block, the new record, the entry and the parent's in-memory count were already changed |
| DirOps.SavedChild | assoofs/assoofs.c:871-879 | saving the parent after the record and the entry were written gives the described outcome |
| DirOps.UnsavedChild | assoofs/assoofs.c:871-879 | a failed save of the parent leaves the linked image, and no stored record carries the parent's number |
| DirOps.Create | assoofs/assoofs.c:783-883 | the new record is a regular file of size 0; the errors, and what each leaves behind, are those of `AddChild` |
| DirOps.Mkdir | assoofs/assoofs.c:885-987 | the new record has mode `S_IFDIR \| mode` and 0 children; the errors, and what each leaves behind, are those of `AddChild` |
| DirOps.CreateBounded | assoofs/assoofs.c:855-858 | create, refused beforehand when the parent's block is full; on success the new entry lies inside the parent's block |
| DirOps.MkdirBounded | assoofs/assoofs.c:959-962 | mkdir, refused beforehand when the parent's block is full; on success the new entry lies inside the parent's block |
| SuperBlockCodec.DecodeEncodeLE | assoofs/assoofs.h:23-32 | an 8-byte little-endian field gives back any value below 2^64 |
| SuperBlockCodec.BitsOfWord | assoofs/assoofs.h:29 | the 64 bitmap flags are the bits of the `free_blocks` word |
| SuperBlockCodec.EncodeSuperBlock | assoofs/assoofs.h:23-32 | block 0 is exactly one block long |
| SuperBlockCodec.SuperBlockRoundTrip | assoofs/assoofs.h:23-32 | decoding block 0 recovers every superblock field and the bitmap |
| Mount.FillSuper | assoofs/assoofs.c:1004-1079 | mounting succeeds exactly when the magic and block size are right; a wrong magic is reported before a wrong block size; maxbytes is 4096 and the root's record is looked up |
| Mkassoofs.WelcomeBodyBytes | assoofs/mkassoofs.c:206 | one byte longer than the text; byte i is the code of the text's character i, and the last byte is the terminating NUL |
| Mkassoofs.InitialFreeBlocks | assoofs/mkassoofs.c:81 | the bitmap has 64 flags |
| Mkassoofs.Apply | assoofs/mkassoofs.c:72-200 | each write step stores exactly its own part (the superblock, inode slot 0 or 1, the root directory block holding the entry "README.txt", or the welcome file's body) and leaves everything else as it was |
| Mkassoofs.RunFrom | assoofs/mkassoofs.c:238-263 | the steps run in order up to the first failure |
| Mkassoofs.RunMkfs | assoofs/mkassoofs.c:202-270 | exit status 0 exactly when the arguments and the device are fine and every step succeeds; -1 for a bad argument count or a device that cannot be opened; 1 on a step failure; the device holds the steps done |
| Mkassoofs.AllStepsFormat | assoofs/mkassoofs.c:72-200 | the five steps on a blank device give exactly the formatted image |
| Mkassoofs.WordOfSuffix | assoofs/mkassoofs.c:81 | a bitmap whose flags k..n-1 are set is the word 2^n - 2^k |
| Mkassoofs.InitialWord | assoofs/mkassoofs.c:81 | the initial bitmap is the word `~0 & ~15` read as 64 bits |
| Mkassoofs.InitialBitmap | assoofs/mkassoofs.c:81 | blocks 0-3 are in use and blocks 4-63 are free |
| Mkassoofs.FormattedSuperBlockFacts | assoofs/mkassoofs.c:75-81 | version 1, the magic, 4096-byte blocks and two inodes, and the superblock round-trips through block 0 |
| Mkassoofs.FormattedMounts | assoofs/assoofs.c:1028-1072 | the formatted device passes the mount checks and yields the root's record |
| Mkassoofs.FormattedInodes | assoofs/mkassoofs.c:99-220 | the root is directory 1 on block 2 with one child; the welcome file is regular file 2 on block 3 with 61 bytes; the root block holds the entry ("README.txt", 2) |
| Invariant.SlotFound | assoofs/assoofs.c:299-310 | on a well-formed image, record k + 1 is found in slot k |
| Invariant.CoherentSlot | assoofs/assoofs.c:299-310 | a record that agrees with the store sits in the slot below its number |
| Invariant.WellFormedMounts | assoofs/assoofs.c:1028-1072 | a well-formed image mounts with a directory as root |
| Invariant.EveryRecordResolves | assoofs/assoofs.c:318-364 | every record of a well-formed image becomes a kernel inode carrying that record |
| Invariant.LookupNeverDangles | assoofs/assoofs.c:758-777 | on a well-formed image, no lookup meets an entry whose inode cannot be built |
| Invariant.ReservedBlocksStayReserved | assoofs/assoofs.h:4-10 | on a well-formed image the allocator never hands out a block at or below the root directory's, and record 1 is the root directory on block 2 |
| Invariant.SearchReadsPastLastRecord | assoofs/assoofs.c:488-495 | on the formatted device, the search as written finds inode 0 in slot 2, just past the last record, and the intended search finds nothing |
| Invariant.SearchAsWrittenHarmless | assoofs/assoofs.c:488-495 | on a well-formed image, the search as written agrees with the intended one for every non-zero number |
| Invariant.FormattedWellFormed | assoofs/mkassoofs.c:72-200 | the formatted image is well formed |
| Invariant.AddChildPreserves | assoofs/assoofs.c:799-879 | adding a child to a directory with room preserves well-formedness; on success the parent stays coherent and the new record is found; on failure nothing changed |
| Invariant.CreateBoundedPreserves | assoofs/assoofs.c:783-883 | create with the capacity check preserves well-formedness; on success the parent stays coherent and the new record is found |
| Invariant.DirModeOf | assoofs/assoofs.c:923 | permission bits or'ed with `S_IFDIR` form a directory mode |
| Invariant.MkdirBoundedPreserves | assoofs/assoofs.c:885-987 | mkdir with the capacity check preserves well-formedness, and the new record becomes a directory inode |
| Invariant.WritePreserves | assoofs/assoofs.c:598-660 | a write preserves well-formedness; it succeeds exactly when it fits in the block, and then the record stays coherent |
| Invariant.CreateOverflowsFullDirectory | assoofs/assoofs.c:855-863 | create as written succeeds on a parent with 15 entries; the 16th entry ends past the block, and the image is no longer well formed |

## Left out

- The interactive wrapper of the Python script (`input`/`print`, lines 25-35) is left out: it is I/O.
- `HexRange.ParseHex` accepts only the ASCII digits `0-9`, `a-f` and `A-F`. Python's `int(s, 16)` accepts more, and on each of these inputs the model reports an invalid literal where Python answers:
  - surrounding whitespace, including Unicode whitespace;
  - a leading sign;
  - underscores between digits;
  - an upper-case `0X` prefix, which lines 9-14 do not strip, so `("0X10-0X20", "0X15")` is True in Python;
  - a second `0x` or `0X` left after the stripped one;
  - non-ASCII decimal digits such as U+0663.

  The model is exact on every token made of ASCII hex digits with at most one leading lower-case `0x`.
- Kernel plumbing is outside the model. This covers:
  - `sb_bread`, `brelse`, `mark_buffer_dirty` and `sync_dirty_buffer`;
  - the inode cache;
  - module registration, `assoofs_mount`, `assoofs_init`, `assoofs_exit` and `assoofs_destroy_inode`;
  - `inode_init_owner`, `d_add` and `d_make_root`;
  - timestamps and `printk`.

  Every buffer is taken to read and write the device directly.
- Failures of `sb_bread`, `copy_to_user` and `copy_from_user` are not modelled. The device and user memory are always readable.
- `assoofs_save_sb_info` is modelled as taking effect at once: every superblock change is visible in the image. The source reassigns the buffer's data pointer rather than copying into it. Whether the bytes reach the disk then depends on the buffer cache.
- Integers are unbounded. `pos + len`, sizes and counts cannot wrap around as `size_t`, `loff_t` or `uint64_t` can.
- `InodeStore.GetFreeBlock`: the bitmap is modelled as an exact 64-bit set of flags, and blocks 2-61 can all be handed out. The source tests and clears bit i with the `int` shift `1 << i` (assoofs.c:413, 427), which is undefined for i >= 31. Compiled with wrapping arithmetic, `1 << 31` is `INT_MIN`, which widens to 0xFFFFFFFF80000000. So at i = 31 the test asks whether any of flags 31-63 is set, and allocating block 31 ANDs the word with 0x7FFFFFFF, which clears flags 31-63 at once. After that no block above 30 is ever handed out: the compiled code has room for 28 new objects (blocks 4-31), where the model has room for 58.
- The byte layout of inode records and directory records is not modelled. The model keeps them as typed slots. Only the superblock is encoded to bytes.
- A name is stored with `strcpy` into a 255-byte field. Names of 255 bytes or more overflow it. The model stores the name whole.
- Iterate ignores `dir_emit`'s return value, and so does the model. A full user buffer is not modelled.
- `DirOps.Iterate` emits each entry's stored name. The source passes `ASSOOFS_FILENAME_MAXLEN` (255) to `dir_emit` as the name length, not the name's real length (assoofs.c:709). What user space then sees past the name's NUL is not modelled.
- Create and mkdir do not check for an existing entry with the same name. The kernel's VFS does that before calling them.
- `DirOps.Lookup` reports which of the three outcomes occurred. The source always returns NULL and only binds the dentry in the third case.
- `Invariant.CreateBoundedPreserves` assumes a mode with `S_IFREG` set, as the VFS passes to create.
- `Invariant.MkdirBoundedPreserves` assumes permission bits only, as the VFS passes to mkdir.
- The device is modelled as zero-filled. Slots, records and bytes that were never written read as zero. On a real device they hold whatever was there before:
  - `mkassoofs` skips the padding of the inode store and of the root directory block with `lseek` (mkassoofs.c:142-144, 174-176) instead of writing zeros;
  - create and mkdir do not clear a newly allocated block (assoofs.c:836-843, 940-947).

  For example, on a reused device, write 10 bytes at position 100 of a new file and then read from 0. The source returns 100 stale bytes, where `FileOps.Read` returns 100 zeros. The witness of the first row under "## Findings" also reads a zero slot.
- Concurrency is not modelled. assoofs takes no lock around `inodes_count` or `free_blocks` (assoofs.c:398-434, 799-843). Two creates running at once could take the same inode number or the same block. The model runs every operation atomically, one after another.
- `mkassoofs`' partial writes and `lseek` results are summarised as one success flag per step.
- The model uses the corrected in-range search for `InodeStore.SaveInodeInfo`. The source uses the search as written (see Findings). `Invariant.SearchAsWrittenHarmless` shows the two agree on well-formed images.

## Findings

| source | as written | input that shows it | evidently intended | confidence | as-written member | corrected member |
|---|---|---|---|---|---|---|
| assoofs/assoofs.c:488-495 | the search loop stops once `count` reaches `inodes_count`, then compares the slot it stopped at, so the slot past the last record is examined too | the formatted device (two records), searched for inode 0: the zeroed slot 2 past the last record matches | examine only the `inodes_count` records | not executed | InodeStore.SearchAsWritten (Invariant.SearchReadsPastLastRecord) | InodeStore.Search (InodeStore.SearchAgreesInRange, Invariant.SearchAsWrittenHarmless) |
| assoofs/assoofs.c:855-863 | create (and mkdir at 959-967) writes the new entry at index `dir_children_count` of the parent's block without checking that it fits | a parent directory with 15 entries: the 16th record starts at byte 15 * 264 = 3960 and ends at byte 4223, past the 4096-byte block | refuse the request when the parent's block already holds 15 entries | not executed | DirOps.Create (Invariant.CreateOverflowsFullDirectory) | DirOps.CreateBounded, DirOps.MkdirBounded (Invariant.CreateBoundedPreserves, Invariant.MkdirBoundedPreserves) |
