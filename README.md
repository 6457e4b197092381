# BrisaFS in Dafny

BrisaFS is a teaching FUSE file system kept entirely in memory. Its state is two
arrays. The first is the inode table `superbloco`: sixteen slots of name, rights,
size and block number, where block 0 marks a free slot. The second is the disk
`disco`: seventeen blocks of 4096 bytes, with block 0 holding the table. Slot *i*
stores its file in block *i + 1*, and a file is meant never to grow past that block. The
handlers `getattr`, `readdir`, `read`, `write`, `truncate`, `mknod` and `create`
scan the table in slot order. Names are compared after dropping their leading
slashes. `init_brisafs` starts the system with one welcome file.
A Rust rewrite has begun with a `Disk` of memory blocks: block 0 is an inode
table and the other blocks hold data.

The project has three modules:

- `BrisaSpec` (brisafs_spec.dfy) holds the constants, the `Inode` datatype and
  the invariant of the state. It states every handler as a pure function over
  `FsState(table, disk)` and proves the handlers' properties as lemmas: the
  name comparison, first match, lowest free slot, the effect of each handler on
  the table and on every block, and that no sequence of handlers ever frees a
  slot.
- `BrisaFS` (brisafs.dfy) is the class `FileSystem` with the two arrays as
  fields. Its methods run the same scans as the C code, with loops and in-place
  `memcpy`/`memset`. Each method is proved to return what the `BrisaSpec`
  function returns and to leave the state that function gives.
- `Persistence` (persistence.dfy) is the Rust `Disk`: its constructor's block
  layout and its accessor that panics on the table block.

The C handlers return an int: 0 or a byte count for success, and an error code
that is negative for not-found and I/O errors but POSITIVE for `EFBIG`, `ENOSPC`
and `EINVAL`. The model keeps each error kind as an `Errno` value.
`Errno.ReturnCode` gives the int with the sign the C code uses.

Two facts of the C code that the model keeps:

- The welcome file is 31 bytes long, `strlen` of its text (brisafs_v3.c:102, 104).
- `truncate` of a new name stores the requested size and zeroes that many bytes
  of the new block (brisafs_v3.c:264, 85-88).

## Model

| member | source | states |
|---|---|---|
| BrisaSpec.LayoutConstants | brisafs_v3.c:38-46 | an inode takes 256 bytes, so MAX_FILES = 4096 / 256 = 16 slots fill block 0 exactly; MAX_BLOCOS is 17 and the disk is 17 blocks |
| BrisaSpec.Errno.ReturnCode | brisafs_v3.c:148-288 | every error code is non-zero; it is negative exactly for not-found and I/O error (-ENOENT, -EIO) and positive for EFBIG, ENOSPC and EINVAL |
| BrisaSpec.BlockOffset | brisafs_v3.c:71 | DISCO_OFFSET: block b starts at b * 4096; every content block 1 to 16 lies inside the 17-block disk, after block 0 |
| BrisaSpec.SpliceInBlock | brisafs_v3.c:224 | a memcpy at offset q inside block b replaces bytes q to q + n of that block and leaves every other block unchanged |
| BrisaSpec.StripSlashes | brisafs_v3.c:77-79 | the name with its leading '/' dropped: never longer than the name and never starting with '/'; StripSlashesDropsSlashRun shows that exactly the leading run is dropped |
| BrisaSpec.StripSlashesDropsSlashRun | brisafs_v3.c:111-115 | what is stripped from a name is exactly its run of leading '/' and the rest is an unchanged suffix |
| BrisaSpec.ComparaNome | brisafs_v3.c:108-119 | compara_nome is equality of the two names once StripSlashes has dropped their leading slashes; ComparaNomeMeaning, ComparaNomeSymmetric and ComparaNomeIsCaseSensitive state what that means |
| BrisaSpec.ComparaNomeMeaning | brisafs_v3.c:108-119 | two names are the same exactly when their parts after the leading slashes are equal byte for byte |
| BrisaSpec.ComparaNomeIgnoresLeadingSlashes | brisafs_v3.c:111-115 | prefixing any number of '/' to either name never changes the comparison |
| BrisaSpec.ComparaNomeSymmetric | brisafs_v3.c:108-119 | the comparison gives the same answer with its arguments swapped |
| BrisaSpec.ComparaNomeIsCaseSensitive | brisafs_v3.c:118 | "/a.txt" is the same name as "a.txt" but not as "A.txt": strcmp does no case folding |
| BrisaSpec.FindFileFrom | brisafs_v3.c:136-145 | the result is a slot in use whose name matches, with no matching slot before it; None means no slot in use matches |
| BrisaSpec.FindFileIsFirstMatch | brisafs_v3.c:136-145 | the table scan finds a file exactly when a first match exists, and then it returns that slot |
| BrisaSpec.FindFreeFrom | brisafs_v3.c:280-285 | the result is a free slot with every earlier slot in use; None means no slot is free |
| BrisaSpec.FindFreeIsLowestFree | brisafs_v3.c:280-285 | the free-slot scan returns the lowest free slot, and finds one exactly when one exists |
| BrisaSpec.Populate | brisafs_v3.c:74-89 | preenche_bloco on the state value: slot i gets the stripped name and the given fields, and the first tamanho bytes of block bloco get the content or zeros; PopulateEffect states its effect on every slot and block |
| BrisaSpec.PopulateEffect | brisafs_v3.c:74-89 | filling slot i with block i + 1 stores the name without leading slashes and the given fields; the first tamanho bytes of the block get the content or zeros; the rest of that block, every other slot and every other block are unchanged; the invariant is kept |
| BrisaSpec.PopulateKeepsInv | brisafs_v3.c:74-84 | a slot filled with block i + 1 keeps the table invariant: free slots are blank, slot i in use owns block i + 1, and names carry no leading '/' |
| BrisaSpec.InitState | brisafs_v3.c:96-105 | init_brisafs: the zeroed table and disk with the welcome text put in slot 0 and block 1 by Populate; InitStateShape states the resulting state |
| BrisaSpec.InitStateShape | brisafs_v3.c:96-105 | after init only slot 0 is in use, holding "UFABC SO 2019.txt" with rights 0644, size 31 and block 1; block 1 starts with the welcome text and is zero after it; every other block is zero |
| BrisaSpec.Getattr | brisafs_v3.c:124-149 | getattr_brisafs: the root directory for "/", else the first matching slot's attributes, else not-found; GetattrMeaning states its cases |
| BrisaSpec.GetattrMeaning | brisafs_v3.c:124-149 | "/" is a directory with rights 0755 and 2 links; any other path gives the first matching slot as a regular file with 1 link, its rights and its size; not-found exactly when no slot in use matches |
| BrisaSpec.ActiveNames | brisafs_v3.c:164-168 | the names the loop hands to filler, one per slot in use, in slot order; ActiveNamesAreSlotNames ties each to its slot |
| BrisaSpec.Readdir | brisafs_v3.c:155-171 | readdir_brisafs: ".", ".." then ActiveNames; ReaddirMeaning states the listing |
| BrisaSpec.ActiveSlots | brisafs_v3.c:164-168 | the slots in use are listed in strictly increasing order, and every slot in use is listed |
| BrisaSpec.ReaddirMeaning | brisafs_v3.c:155-171 | the listing is ".", "..", then the name of each slot in use, in increasing slot order |
| BrisaSpec.Read | brisafs_v3.c:183-209 | read_brisafs as written: not-found, no bytes at or past the end, else min(size, tamanho - offset) bytes copied from the start of the block; ReadNotFound and ReadFound state it, ReadIgnoresOffset shows the offset is not applied |
| BrisaSpec.ReadNotFound | brisafs_v3.c:187-208 | a read is not-found exactly when no slot in use answers to the path |
| BrisaSpec.ReadFound | brisafs_v3.c:187-205 | a read of the first matching file yields min(size, tamanho - offset) bytes, none at or past the end, always taken from the START of its block |
| BrisaSpec.ReadSlot | brisafs_v3.c:179-182 | the read the comment describes yields min(size, tamanho - offset) bytes taken from `offset` in the file's block |
| BrisaSpec.ReadAt | brisafs_v3.c:207-208 | the corrected read fails exactly when no slot in use answers to the path |
| BrisaSpec.Write | brisafs_v3.c:215-239 | write_brisafs: the first matching file is rewritten, else a new file takes the lowest free slot, else an I/O error; WriteExisting, WriteNew and WriteFull state the three cases |
| BrisaSpec.WriteSlot | brisafs_v3.c:222-226 | writing into slot i's file sets its size to offset + n and replaces bytes offset to offset + n of block i + 1; every other slot and block is unchanged and the invariant holds |
| BrisaSpec.WriteExisting | brisafs_v3.c:218-227 | a write to a name that slot i answers to first rewrites slot i and returns the byte count |
| BrisaSpec.WriteNew | brisafs_v3.c:229-236 | a write to a new name takes the lowest free slot i, with the stripped name, rights 0644, size n and block i + 1; the data goes to the first n bytes of the block, whatever the offset, and the rest of that block and every other block are unchanged |
| BrisaSpec.WriteFull | brisafs_v3.c:231-238 | a write to a new name when every slot is in use is an I/O error and changes nothing |
| BrisaSpec.Truncate | brisafs_v3.c:244-270 | truncate_brisafs: too-big above 4096, else the first matching file's size, else a new zero-filled file in the lowest free slot, else nothing; TruncateMeaning and TruncateNew state the cases |
| BrisaSpec.TruncateMeaning | brisafs_v3.c:244-270 | a size above 4096 is too-big and changes nothing; an existing file's size field alone is set, with no block byte touched; a new name with a full table returns success and changes nothing; the invariant is kept |
| BrisaSpec.TruncateNew | brisafs_v3.c:260-267 | truncating a new name takes the lowest free slot i with size `size` and block i + 1, and zeroes the first `size` bytes of the block |
| BrisaSpec.Create | brisafs_v3.c:312-325 | create_brisafs: an empty file in the lowest free slot, else no-space; CreateMeaning states both cases |
| BrisaSpec.IsRegular | brisafs_v3.c:275 | S_ISREG: the file-type bits of the mode are S_IFREG (0x8000 under the mask 0xF000) |
| BrisaSpec.Mknod | brisafs_v3.c:274-289 | mknod_brisafs: create for a regular mode, invalid-argument otherwise; MknodMeaning states both cases |
| BrisaSpec.CreateMeaning | brisafs_v3.c:312-325 | create gives no-space exactly when every slot is in use, and then changes nothing; otherwise it fills the lowest free slot i with the stripped name, rights 0644, size 0 and block i + 1, and leaves the disk unchanged |
| BrisaSpec.MknodMeaning | brisafs_v3.c:274-289 | mknod of a non-regular mode is invalid-argument and changes nothing, for any name however long; for a regular mode it is exactly create (so CreateMeaning applies: lowest free slot, rights 0644, size 0, no-space exactly when full), whatever the permission bits |
| BrisaSpec.CreateAllowsDuplicates | brisafs_v3.c:318-322 | creating a name that already exists, with a slot free, succeeds and leaves two slots in use that answer to that name |
| BrisaSpec.ApplyKeeps | brisafs_v3.c:215-325 | every state-changing handler keeps the invariant, frees, moves and renames no slot, and allocates at most the lowest free slot |
| BrisaSpec.Run | brisafs_v3.c:215-325 | after any sequence of handlers the invariant holds (slot i in use owns block i + 1) and no slot in use was freed |
| BrisaSpec.WelcomeFileStays | brisafs_v3.c:96-105 | after init and any sequence of handlers, slot 0 is still the welcome file in block 1 with rights 0644 |
| BrisaSpec.ReadIgnoresOffset | brisafs_v3.c:196-203 | as written, after creating "/t.txt" and writing "hello", a read of 10 bytes at offset 3 yields "he" while the corrected read yields "lo" |
| BrisaSpec.ReadSlotAfterWriteSlot | brisafs_v3.c:222-226 | with the corrected read, reading back the range just written into slot i yields exactly the data written |
| BrisaSpec.ReadAtAfterWrite | brisafs_v3.c:218-227 | by path: a write to an existing file read back over the same range with the corrected read yields the data written |
| BrisaFS.SkipSlashes | brisafs_v3.c:77-79 | the loop stops at the end of the run of leading '/', leaving the name stripped of its leading slashes |
| BrisaFS.CompareNames | brisafs_v3.c:108-119 | the two loops and strcmp answer true exactly when the names are the same name |
| BrisaFS.FileSystem.constructor | brisafs_v3.c:96-105 | init allocates a zeroed table and disk and fills slot 0 with the welcome file: the state is InitState |
| BrisaFS.FileSystem.PreencheBloco | brisafs_v3.c:74-89 | in place: slot i gets the stripped name and the fields, the first tamanho bytes of block bloco get the content or zeros; the new state is Populate of the old |
| BrisaFS.FileSystem.Getattr | brisafs_v3.c:124-149 | the loop returns the attributes Getattr gives for the table |
| BrisaFS.FileSystem.Readdir | brisafs_v3.c:155-171 | the loop returns ".", ".." and the names of the slots in use, in order |
| BrisaFS.FileSystem.Read | brisafs_v3.c:183-209 | the loop returns what Read gives, as written |
| BrisaFS.FileSystem.FirstFree | brisafs_v3.c:280-285 | the loop stops at the lowest free slot, or at 16 exactly when the table is full |
| BrisaFS.FileSystem.FindSlot | brisafs_v3.c:250-256 | the loop stops at the first slot in use answering to the path, or at 16 exactly when there is none |
| BrisaFS.FileSystem.WriteSlot | brisafs_v3.c:224-225 | in place: the memcpy and the size update leave the state WriteSlot gives |
| BrisaFS.FileSystem.Write | brisafs_v3.c:215-239 | in place: the result and new state are those of Write, and the invariant is kept |
| BrisaFS.FileSystem.Truncate | brisafs_v3.c:244-270 | in place: the result and new state are those of Truncate, and the invariant is kept |
| BrisaFS.FileSystem.Create | brisafs_v3.c:312-325 | in place: the result and new state are those of Create, and the invariant is kept |
| BrisaFS.FileSystem.Mknod | brisafs_v3.c:274-289 | in place: the result and new state are those of Mknod, and the invariant is kept |
| Persistence.Disk.constructor | src/persistence.rs:30-33 | the disk holds the given blocks in a fresh slice and the given block size |
| Persistence.Disk.New | src/persistence.rs:15-34 | a zero block size panics on the division and a block quantity of 0 panics on the range bound; any other input succeeds, and then block 0 is an empty inode table and there are max(1, quantity - 1) blocks; the data blocks are fresh, distinct boxes holding no bytes; the block size is stored as given |
| Persistence.Disk.GetContentFromBlock | src/persistence.rs:36-41 | an index past the end panics, the inode table panics, and a data block yields that block's own box, through which its bytes can be rewritten or replaced; on a disk laid out by New exactly the indices 1 to the last succeed |

## Left out

- `open_brisafs`, `fsync_brisafs` and `utimens_brisafs` are left out: each returns 0 and changes nothing.
- FUSE registration, `main`, the `printf` banner and `fuse_main` are left out: they are host plumbing.
- Of `struct stat`, only the file type, permission bits, link count and size are modelled; the rest is zeroed in C and not modelled. The `filler` callback is modelled as the returned list of names.
- The table overlays block 0 of `disco` in C. Here the table is its own array and block 0 of `disco` is never touched.
- Overflows the C code does not check are preconditions instead of modelled memory corruption: a write past the end of a block, new data longer than a block, and a name of 250 bytes or more (`WriteFits`, `TruncateFits`, `CreateFits`, `PopulateFits`). Mknod asks for `CreateFits` only for a regular mode, the one case that reaches the name copy.
- Offsets and sizes are natural numbers: a negative `off_t`, and the wrap-around of `offset + size` as `size_t`, are not modelled.
- Bytes and names are Dafny `char`, with no 8-bit bound. A name is a sequence with no NUL terminator, so a NUL inside a name is not modelled.
- BrisaFS.FileSystem.Read: the bytes are returned as a sequence, not copied into a caller's buffer.
- Concurrency is not modelled: the handlers take no locks.
- src/serialization.rs and src/main.rs are not part of this model: they hold serde declarations and mount plumbing with no logic.
- Persistence.Disk.New: the wrap-around a release build does on a block quantity of 0 is not modelled; the debug-build panic is. `FileAttr` is a type parameter and the `HashMap` is a Dafny `map` with natural-number keys, not `u64`.
- Persistence.Disk.GetContentFromBlock: the `&mut Box<[u8]>` is modelled as a reference to the block's `BoxedBytes` cell, so the caller can rewrite the bytes or put a new buffer in it. The borrow's lifetime and its exclusivity are not modelled.

## Findings

| source | as written | input that shows it | evidently intended | confidence | as-written member | corrected member |
|---|---|---|---|---|---|---|
| brisafs_v3.c:196-203 | `read_brisafs` takes the count from `offset`, but both `memcpy` calls copy from the start of the file's block, ignoring `offset` | create "/t.txt", write "hello" at offset 0, then read 10 bytes at offset 3: the result is "he" | the bytes from `offset` on, as the comment at lines 179-182 says: "lo" | high, not executed | BrisaSpec.ReadIgnoresOffset | BrisaSpec.ReadAtAfterWrite |
