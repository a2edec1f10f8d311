# A verified model of a single-block-per-file file system simulator

This project models, in Dafny, the core of a small file system that lives on a
device image of 2048-byte blocks (`filesystem.c` with `include/metadata.h` and
`include/auxiliary.h`). The system formats a partition (`mkFS`), mounts and
unmounts it (`mountFS`, `unmountFS`), creates, removes, opens, closes, reads,
writes and seeks files (`createFile` … `lseekFile`), and checks the integrity
of the metadata (`checkFS`) and of one file (`checkFile`) with CRC16 checksums.

Each file owns exactly one data block. Block 0 holds the one-byte superblock
(the inode count), the 64-byte inode map, the 16-bit metadata CRC and as many
36-byte inode records as fit (55). When a partition has more inodes, block 1
holds the overflow records and every data block moves up by one.

The model has five modules:

- `Encoding` (`encoding.dfy`): bytes, little-endian 16-bit fields, NUL-padded
  32-byte names, the inode record and the inode table as bytes, with their
  round trips.
- `Layout` (`layout.dfy`): the partition arithmetic of `mkFS`, the split that
  `mountFS` recomputes from the stored count, and `getNumBloque`.
- `Metadata` (`metadata.dfy`): the images of blocks 0 and 1 that
  `writeMetadata` writes, the bytes `updateCRCMetadata` checksums, what
  `checkFS` rebuilds from the device and what `mountFS` decodes from it, and
  the verdict of `checkFS` as a function.
- `Tables` (`tables.dfy`): the map, inode and descriptor tables as values:
  the lookups (`findFilebyName`, `firstFreeInode`, `firstFreeDesc`, `isOpen`,
  `findDescFile`), the byte counts of `readFile` and `writeFile`, the verdict
  of `checkFile`, and the invariants of the descriptor table.
- `FileSystem` (`filesystem.dfy`): class `FileSystem`, whose fields are the
  program's globals (`s_bloque`, `mapaInodos`, `ArrayInodos`, `CRCmetadata`,
  `ArrayDescriptores`, `iNodosPrimerBloque`, `iNodosExtra`) and whose methods
  are the operations. Each one is proved against the functions of the other
  modules.

The device is a `const disk: array<seq<byte>>` of blocks. `bread` and `bwrite`
(`ReadBlock`, `WriteBlock`) fail exactly when the block number lies outside
the array. The image size that `mkFS` takes from `ftell` is
`disk.Length * 2048`. The CRC16 routine is an arbitrary function
`crc16: seq<byte> -> uint16` given to the constructor. Nothing about it is
assumed, so every checksum result holds for any CRC.

The main results are these:

- A well-formed mirror written by `writeMetadata` reads back exactly. `checkFS`
  rebuilds the very bytes the CRC was computed over, and `mountFS` recovers
  the count, the map and the table (`Metadata.MetadataRoundTrip`).
- `checkFS` therefore accepts every device `mkFS`, `createFile`, `closeFile`
  and `unmountFS` leave behind.
- `checkFile` accepts a file that `createFile` or `closeFile` has just
  committed, whenever its name is held by one slot and no descriptor carries
  that slot.
- A write followed by a read from the same cursor returns the bytes written
  (`Tables.WriteThenRead`).
- The descriptor table keeps one descriptor per slot, and no file is bound to
  two descriptors in use. While any file is closed, a free descriptor exists
  (`Tables.FreeDescriptorExists`).

Where the code and its design notes differ, the model follows the code:

- `checkFile` settles on the last record carrying the name, because its loop
  has no `break`.
- `isOpen` compares `idFichero` without looking at `estado`.
- `lseekFile` from the beginning ignores the offset.
- `createFile` writes the metadata before it sets the map bit, so the stored
  map still shows the slot as free.
- `removeFile` writes nothing to the device.

## Model

| member | source | states |
|---|---|---|
| Encoding.EncodeU16 | include/metadata.h:16-20 | a 16-bit field is stored in two bytes that decode back to the same value |
| Encoding.CString | include/metadata.h:16-20 | the C string read from a name field is the prefix before the first NUL, has no NUL, and is followed by a NUL unless it fills the field |
| Encoding.EncodeName | filesystem.c:201 | strcpy into a zeroed field yields 32 bytes that begin with the name |
| Encoding.NameRoundTrip | filesystem.c:201 | a name of at most 32 non-NUL bytes, stored in its field, reads back as exactly that name |
| Encoding.EncodeInode | include/metadata.h:16-20 | an inode record occupies 36 bytes |
| Encoding.DecodeInode | include/metadata.h:16-20 | a record read from 36 bytes has a name that fits its field and has no NUL |
| Encoding.InodeRoundTrip | include/metadata.h:16-20 | a well-formed record survives being written to bytes and read back |
| Encoding.EncodeInodes | filesystem.c:750 | a table of n records occupies 36·n bytes |
| Encoding.DecodeInodes | filesystem.c:119 | decoding n records yields n well-formed records |
| Encoding.EncodeInodesAt | filesystem.c:721 | record k of an encoded table sits at byte offset 36·k |
| Encoding.EncodeInodesAppend | filesystem.c:718-733 | encoding a table split in two is encoding the halves one after the other |
| Encoding.DecodeEncodedAt | filesystem.c:119 | record k of an encoded table decodes to the k-th record, whatever bytes follow |
| Encoding.InodesRoundTrip | filesystem.c:119-126 | decoding an encoded table, followed by any padding, gives the table back |
| Layout.PrimaryCapacity | filesystem.c:52-53 | 55 records fit in block 0 after the 67-byte header and a 56th does not; the minimum and maximum capacities are 2 and 66 blocks |
| Layout.FormatGeometry | filesystem.c:35-62 | mkFS's split: when it succeeds, the inodes are the primary plus the overflow records, at least one, and fewer than the partition's blocks (FormatFailsIff and FormatLayout state the rest) |
| Layout.FormatFailsIff | filesystem.c:35-48 | mkFS's arithmetic fails exactly when the request exceeds the image or is below two blocks; a request above the maximum is cut to 66 blocks |
| Layout.FormatLayout | filesystem.c:46-65 | a formatted split fits the blocks and the map, holds at least one inode, and puts every data block past the metadata blocks, inside the partition and the image |
| Layout.MountGeometry | filesystem.c:108-116 | mountFS's split from the stored count: every inode in block 0 up to 55, otherwise 55 there and the rest in block 1; its properties are stated by MountFits and MountAgreesWithFormat, since a contract on it makes the callers' proofs too costly |
| Layout.MountAgreesWithFormat | filesystem.c:108-116 | the split mountFS recomputes from the count alone equals the split mkFS chose |
| Layout.MountFits | filesystem.c:108-116 | any count of at most 64 yields a split that fits blocks 0 and 1 |
| Layout.DataBlock | filesystem.c:700-705 | getNumBloque: block id + 1, or id + 2 when block 1 holds overflow inodes; that it is injective and avoids the metadata blocks is stated by DataBlocksDistinct |
| Layout.DataBlocksDistinct | filesystem.c:700-705 | distinct inodes own distinct data blocks, and no data block is a metadata block |
| Metadata.MetadataBytes | filesystem.c:745-750 | the bytes updateCRCMetadata checksums: the count, the map and the whole table as records, in that order; RebuiltIsMetadata ties them to what checkFS rebuilds |
| Metadata.RebuiltMetadata | filesystem.c:537-545 | the bytes checkFS rebuilds from blocks 0 and 1: the count and map, then the primary records, then the overflow records, skipping the stored CRC |
| Metadata.Block0 | filesystem.c:717-724 | the image of block 0 is exactly one block |
| Metadata.Block1 | filesystem.c:727-733 | the image of block 1 is exactly one block |
| Metadata.DecodedTable | filesystem.c:102-127 | the table read back from the metadata blocks has one well-formed record per inode |
| Metadata.FormattedTable | filesystem.c:98-127 | a device mountFS reads safely has a count of at most 64, a split that fits blocks 0 and 1, and stored sizes within a block |
| Metadata.Block0Fields | filesystem.c:718-721 | block 0 holds, in order, the count, the map, the stored CRC and the primary records, then zeros |
| Metadata.RebuiltIsMetadata | filesystem.c:537-545 | checkFS rebuilds from the written blocks exactly the bytes updateCRCMetadata checksummed |
| Metadata.PrimaryDecoded | filesystem.c:119 | the records decoded from block 0 after the header are the table's first iNodosPrimerBloque records |
| Metadata.OverflowDecoded | filesystem.c:121-127 | the records decoded from block 1 are the table's remaining iNodosExtra records |
| Metadata.DecodedIsTable | filesystem.c:119-126 | mountFS decodes from the written blocks exactly the in-memory table |
| Metadata.MetadataRoundTrip | filesystem.c:711-739 | after writeMetadata, checkFS rebuilds the checksummed bytes and finds the stored CRC, and mountFS recovers the count, the map and the table |
| Metadata.WrittenImageFormatted | filesystem.c:711-739 | a device holding the written images is one mountFS reads safely: count at most 64, every size within a block |
| Metadata.OverflowFromBlocks | filesystem.c:51-58 | overflow inodes exist exactly for partitions of 58 blocks or more |
| Metadata.OverflowAsWrittenOutOfBounds | filesystem.c:729 | as written, the overflow copy starts at record 1980 of a table of at most 64 records, whenever overflow inodes exist |
| Metadata.OverflowStartCorrect | filesystem.c:726-733 | the corrected overflow part is exactly the table from slot iNodosPrimerBloque to its end, with iNodosExtra records |
| Metadata.Persist | filesystem.c:711-739 | a successful writeMetadata keeps the number of blocks and changes no block past the metadata blocks |
| Metadata.CheckFSOutcome | filesystem.c:515-562 | checkFS's verdict: its contract says it is one of 0, -1 and -2; the definition gives -2 while a descriptor is in use or a metadata block is missing, otherwise 0 exactly when the stored CRC is the CRC of the rebuilt bytes, and PersistedMetadataChecks proves the 0 for written devices |
| Metadata.PersistedMetadataChecks | filesystem.c:515-562 | metadata persisted with the CRC of its own bytes is intact: checkFS answers 0 with no descriptor in use, and -2 with one in use |
| Metadata.PersistedFormatted | filesystem.c:90-127 | every persisted image of a well-formed mirror is one mountFS reads safely |
| Tables.FindName | filesystem.c:630-638 | the lowest slot whose name is the argument, and -1 exactly when no slot has it |
| Tables.LastName | filesystem.c:597-603 | the highest slot whose name is the argument, and -1 exactly when no slot has it |
| Tables.FirstFree | filesystem.c:644-652 | the lowest free map entry, and -1 exactly when every entry is in use |
| Tables.FirstUnused | filesystem.c:658-666 | the lowest descriptor not in use, and -1 exactly when all are in use |
| Tables.FindDesc | filesystem.c:686-694 | the lowest descriptor carrying the id, and -1 exactly when none does |
| Tables.Bound | filesystem.c:672-680 | isOpen: some descriptor carries the id, whatever its estado; BoundIffFound ties it to findDescFile |
| Tables.BoundIffFound | filesystem.c:672-694 | isOpen and findDescFile agree: an id is bound exactly when findDescFile finds it |
| Tables.ReadCount | filesystem.c:362-365 | readFile's count never exceeds the request, never takes the cursor past the size, and is either the whole request or exactly what lies up to the size |
| Tables.WriteCount | filesystem.c:413-416 | writeFile's count never exceeds the request, never takes the cursor past the block end, and is either the whole request or exactly what lies up to the block end |
| Tables.ReadCountBounds | filesystem.c:362-370 | a read returns at most the bytes asked, never passes the file size, returns all of them when they lie within the size, and returns nothing from a cursor at or past the size |
| Tables.WriteCountBounds | filesystem.c:413-420 | a write copies at most the bytes asked, never passes the block end, copies all of them when they fit, and copies nothing from the block end |
| Tables.Overwrite | filesystem.c:436 | the block after memmove keeps its length |
| Tables.OverwriteReadBack | filesystem.c:436 | the overwritten span holds the written data, and every other byte is unchanged |
| Tables.WriteThenRead | filesystem.c:363-452 | reading from the cursor a write started at returns exactly the bytes it copied, all of the request when it fits the block, and the rest of the block is untouched |
| Tables.UpdateKeepsTable | filesystem.c:201-213 | replacing one record by a well-formed one whose size fits a block keeps the mirror well formed |
| Tables.FreeDescriptorExists | filesystem.c:281-285 | with one descriptor per slot and no file bound twice, a free descriptor exists whenever some file is closed |
| Tables.OpenKeepsTable | filesystem.c:287-290 | binding a free descriptor to a closed file keeps the descriptor table well formed |
| Tables.CloseKeepsTable | filesystem.c:332-335 | freeing a descriptor keeps the table well formed and leaves its file unbound |
| Tables.MoveKeepsTable | filesystem.c:483-505 | moving a cursor within the block keeps the descriptor table well formed |
| Tables.CheckFileOutcome | filesystem.c:568-624 | checkFile's verdict: its contract says it is one of 0, -1 and -2; the definition gives -2 when the slot is bound or a metadata block is missing, otherwise the verdict of the on-disk record, and PersistedFileChecks proves the 0 for committed files |
| Tables.RecordVerdict | filesystem.c:594-624 | the second half of checkFile: its contract says the verdict is one of 0, -1 and -2; the definition gives -2 when no record read back carries the name or its data block is missing, 0 when the last such record's CRC matches its block, -1 otherwise |
| Tables.PersistedTable | filesystem.c:579-591 | the table checkFile reads back from a persisted device is the in-memory table |
| Tables.PersistedFileChecks | filesystem.c:568-624 | a closed file whose persisted record carries the CRC of its data block, and whose name no other slot holds, passes checkFile |
| Tables.FreshNameSole | filesystem.c:182-201 | a name no slot holds, stored in one slot, is held by that slot alone and found there |
| FileSystem.FileSystem.constructor | include/metadata.h:23-26 | the globals start zero, with an empty map and no tables, all freshly allocated, in the mounted-state invariant |
| FileSystem.FileSystem.ReadBlock | filesystem.c:94-96 | bread: 0 and a copy of the block when the block number lies on the device, -1 otherwise; the buffer always holds one block |
| FileSystem.FileSystem.WriteBlock | filesystem.c:208-210 | bwrite: 0 and the block replaced when the block number lies on the device, -1 and the device unchanged otherwise |
| FileSystem.FileSystem.UpdateCRCMetadata | filesystem.c:745-753 | the metadata CRC becomes the CRC of the count, the map and the whole table |
| FileSystem.FileSystem.WriteMetadata | filesystem.c:711-739 | succeeds exactly when the metadata blocks exist; the device then holds the mirror's images and checkFS accepts it; on failure only block 0 may have been written |
| FileSystem.FileSystem.FindFilebyName | filesystem.c:630-638 | the loop returns the lowest slot carrying the name, or -1 |
| FileSystem.FileSystem.FirstFreeInode | filesystem.c:644-652 | the loop returns the lowest free slot among the first numInodos entries of the map, or -1 |
| FileSystem.FileSystem.FirstFreeDesc | filesystem.c:658-666 | the loop returns the lowest free descriptor, or -1 |
| FileSystem.FileSystem.IsOpen | filesystem.c:672-680 | 1 exactly when some descriptor carries the id |
| FileSystem.FileSystem.AnyDescriptorInUse | filesystem.c:519-523 | the loop of checkFS (and of unmountFS, lines 155-159) reports exactly whether some descriptor is in use |
| FileSystem.FileSystem.FindDescFile | filesystem.c:686-694 | the loop returns the lowest descriptor carrying the id, or -1 |
| FileSystem.FileSystem.CheckFS | filesystem.c:515-562 | -2 while a descriptor is in use or a metadata block is missing; otherwise 0 exactly when the stored CRC matches the rebuilt metadata, else -1 |
| FileSystem.FileSystem.ReadMetadataBlocks | filesystem.c:579-591 | returns the metadata blocks of the device, or -2 when one is missing |
| FileSystem.FileSystem.LastRecord | filesystem.c:597-603 | the loop settles on the highest slot carrying the name, or -1, together with that record's data CRC |
| FileSystem.FileSystem.CheckFile | filesystem.c:568-624 | the verdict of checkFile on the device for the name |
| FileSystem.FileSystem.FormatGlobals | filesystem.c:64-71 | the globals take the chosen split, an empty map and an all-zero table |
| FileSystem.FileSystem.MkFS | filesystem.c:21-82 | succeeds exactly when the request fits the image and two blocks; on failure nothing changes; on success the globals hold the formatted split, the device holds its metadata, and checkFS and mountFS accept it |
| FileSystem.FileSystem.LoadSuperblock | filesystem.c:98-116 | the count, map and CRC come from block 0, and the split is recomputed from the count |
| FileSystem.FileSystem.LoadPrimaryInodes | filesystem.c:102-119 | a fresh table whose first iNodosPrimerBloque slots are the records of block 0 and whose other slots are zero |
| FileSystem.FileSystem.LoadOverflowInodes | filesystem.c:121-127 | the slots after the primary ones take the records of block 1 |
| FileSystem.FileSystem.LoadTable | filesystem.c:102-127 | 0 exactly when the metadata blocks exist, and the fresh table is then the one decoded from blocks 0 and 1; -1 otherwise |
| FileSystem.FileSystem.InitDescriptors | filesystem.c:133-137 | a fresh table of one free descriptor per inode, none in use |
| FileSystem.FileSystem.MountFS | filesystem.c:90-145 | when the metadata blocks exist: the mirror is the decoded device, every descriptor is free, and the result is 0 exactly when the metadata CRC matches; -1 when a metadata block is missing |
| FileSystem.FileSystem.ClearGlobals | filesystem.c:166-173 | the globals are zero, the map is empty, and there is no table |
| FileSystem.FileSystem.UnmountFS | filesystem.c:151-176 | -1 while a descriptor is in use or a metadata block is missing, keeping the state; on success the device holds the mounted count, map and table, a remount recomputes the same split, checkFS accepts it, and the globals are cleared |
| FileSystem.FileSystem.PrepareFile | filesystem.c:200-213 | the slot holds the name with size 0 and the CRC of a zero block, and the data block is zeroed; -2 when it is not on the device |
| FileSystem.FileSystem.CommitNewFile | filesystem.c:215-224 | the metadata is written with the old map, then the slot is marked in use; checkFS accepts the device, and checkFile accepts the new file unless its slot is bound |
| FileSystem.FileSystem.MarkInUse | filesystem.c:224 | the map entry of the new slot becomes 1 and no other entry changes |
| FileSystem.FileSystem.CreateFile | filesystem.c:182-227 | -1 exactly when the name exists; 0 exactly when the name is new, fits its field, a slot is free and its data block exists; the first free slot then holds the new file, the only one with its name, accepted by checkFS and, unless bound, by checkFile; refused names change nothing |
| FileSystem.FileSystem.RemoveFile | filesystem.c:234-254 | -1 when no slot carries the name, -2 when its slot is bound; otherwise that slot is freed in the map and zeroed, and the name is no longer found there |
| FileSystem.FileSystem.OpenFile | filesystem.c:261-294 | -1 when the name is missing; -2 exactly when the slot is bound, checkFile refuses it or no descriptor is free; otherwise the first free descriptor is bound to the slot with cursor 0 and returned |
| FileSystem.FileSystem.BindDescriptor | filesystem.c:281-293 | the first free descriptor is bound to the slot with cursor 0 and returned, or -2 and nothing changes when all are in use |
| FileSystem.FileSystem.CommitClose | filesystem.c:321-335 | the record takes the CRC of its data block, the metadata is written, and the descriptor is freed; checkFS accepts the device, and checkFile accepts the file when its name is unique |
| FileSystem.FileSystem.CloseFile | filesystem.c:300-338 | 0 exactly for a descriptor in range, in use and with a readable block, and then as CommitClose; otherwise -1 and nothing changes |
| FileSystem.FileSystem.ReadFile | filesystem.c:344-392 | -1 for a bad descriptor or an empty request; 0 when nothing lies between the cursor and the size; otherwise the bytes of the data block from the cursor, clamped to the size, with the cursor moved past them |
| FileSystem.FileSystem.WriteFile | filesystem.c:398-456 | -1 for a bad descriptor or an empty request; 0 at the block end; otherwise the request, clamped to the block, overwrites the data block at the cursor, the cursor moves past it and the size grows to the cursor |
| FileSystem.FileSystem.AdvanceCursor | filesystem.c:446-452 | the cursor moves to the new position and the size grows to it when the cursor passes it; the descriptor and mirror invariants are kept |
| FileSystem.FileSystem.LseekFile | filesystem.c:462-509 | 0 exactly for a descriptor in use on a non-empty file with whence BEGIN, END, or CUR within [0, size]; the cursor then goes to 0, to the size, or by the offset; otherwise -1 and nothing changes |

## Left out

- Memory management (`malloc`, `calloc`, `free`) is not modelled: buffers are sequences and the tables are arrays the methods replace.
- FileSystem.FileSystem.MkFS: keeps the zeroed inode table after formatting, where the source frees `ArrayInodos` (filesystem.c:79); the model never reads it before a mount replaces it.
- FileSystem.FileSystem.MkFS: leaves the descriptor table as it was, as the source does, so the mounted-state invariant holds after a format only once `mountFS` rebuilds the descriptors.
- FileSystem.FileSystem.MountFS: requires a device whose stored count is at most 64 and whose stored sizes fit a block; on other images the source copies past its buffers, which C leaves undefined.
- FileSystem.FileSystem.MountFS: the map entries loaded from block 0 are not constrained to 0 or 1, as in the source.
- The byte order of the 16-bit fields is fixed as little-endian; the source copies a `uint16_t` with `memcpy`, so the order is the host's.
- Encoding.DecodeInode: name fields are normalised to NUL padding. The source keeps whatever bytes follow the NUL in a 32-byte name field: bytes loaded from the device (filesystem.c:119-126), or the tail of a longer stale name that `strcpy` overwrites (filesystem.c:201). It writes those bytes back (filesystem.c:721, 729) and checksums them (filesystem.c:750). The model keeps only the name and Encoding.EncodeName pads it with zeros, so its block images and `CRCmetadata` can differ from the source's on such fields; no result an operation returns changes.
- Names are byte sequences without NUL, and `strcmp` is sequence equality. A 32-byte name leaves no terminator in its field: the source's `strcpy` writes one byte into `tamanyo`, and later comparisons can run into the size field. The model compares the whole name.
- Integer widths: the model does not capture `int` and `long` overflow in the request sizes and offsets of `mkFS`, `readFile`, `writeFile` and `lseekFile`. Sizes stay within 16 bits because they never pass 2048.
- The values of `FS_SEEK_BEGIN`, `FS_SEEK_CUR` and `FS_SEEK_END` are taken as 0, 1 and 2. The header that defines them, filesystem.h, is not part of this model.
- The device image is the block array: `fopen` and `ftell` in `mkFS` become `disk.Length * 2048`, and `bread`/`bwrite` fail only for a block outside the device (no other I/O error is modelled).
- The CRC16 routine is a parameter; no property of the particular polynomial is used.
- Tables.CheckFileOutcome: when no on-disk record carries the name, the source reads an uninitialised block number and CRC (filesystem.c:594-606); the model answers -2.
- FileSystem.FileSystem.CreateFile: keeps "every cursor within its file's size" only when no descriptor is bound to the new slot. `openFile("")` can bind a free slot, because free slots hold the empty name.
- FileSystem.FileSystem.OpenFile: its contract still lists "no descriptor free" among the -2 cases; Tables.FreeDescriptorExists shows that case cannot arise for a closed file.
- test.c, the command-line driver and the block device implementation are not modelled.
- Concurrency and crash recovery are outside the system, and are not modelled.

## Findings

| source | as written | input that shows it | evidently intended | confidence | as-written member | corrected member |
|---|---|---|---|---|---|---|
| filesystem.c:729 (also 126 and 590) | `ArrayInodos + sizeof(Inodo)*iNodosPrimerBloque` on an `Inodo*` advances by 36·55 = 1980 records, not 55 | `mkFS(58 * 2048)` on an image of 58 blocks or more: 56 inodes, one overflow record, and `writeMetadata`, `mountFS` and `checkFile` address record 1980 of a 56-record table | the overflow records are the table's slots from `iNodosPrimerBloque` on (`ArrayInodos + iNodosPrimerBloque`) | high, not executed | Metadata.OverflowAsWrittenOutOfBounds | Metadata.OverflowStartCorrect |
