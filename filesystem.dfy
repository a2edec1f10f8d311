/** The file system of filesystem.c as one object: its fields are the
    program's globals (s_bloque, mapaInodos, ArrayInodos, CRCmetadata,
    ArrayDescriptores, iNodosPrimerBloque, iNodosExtra) and its methods are
    the public operations and their auxiliary routines. The device is an
    array of 2048-byte blocks; a block read or write fails exactly when the
    block lies outside the device. The CRC16 routine is a parameter. */
module FileSystem {

  import opened Encoding
  import opened Layout
  import opened Metadata
  import opened Tables

  /** The whence values of lseekFile. */
  const FS_SEEK_BEGIN: int := 0
  const FS_SEEK_CUR: int := 1
  const FS_SEEK_END: int := 2

  class FileSystem {

    /** The device image, block by block. */
    const disk: array<seq<byte>>
    /** The checksum routine CRC16 over a byte buffer. */
    const crc16: seq<byte> -> uint16

    /** s_bloque.numInodos */
    var numInodes: byte
    /** mapaInodos: 1 for a slot in use, 0 for a free one. */
    var occupancy: array<byte>
    /** ArrayInodos */
    var inodes: array<Inode>
    /** CRCmetadata */
    var crcMetadata: uint16
    /** ArrayDescriptores */
    var descriptors: array<Descriptor>
    /** iNodosPrimerBloque and iNodosExtra */
    var primaryInodes: nat
    var extraInodes: nat

    /** The inode split the globals describe. */
    function Geo(): Geometry
      reads this
    {
      Geometry(numInodes, primaryInodes, extraInodes)
    }

    /** The map has its 64 entries and every block of the device its 2048 bytes. */
    predicate Valid()
      reads this, disk
    {
      occupancy.Length == MAX_FILE && UniformBlocks(disk[..])
    }

    /** The in-memory metadata: a count the map can describe, the split
        mountFS computes from it (which fits, by MountFits), and a
        well-formed record for each slot. */
    predicate MirrorOk()
      reads this, inodes
    {
      && numInodes <= MAX_FILE
      && Geometry(numInodes, primaryInodes, extraInodes) == MountGeometry(numInodes)
      && InodeTable(inodes[..], numInodes)
    }

    /** A mounted system: valid, with its mirror and its descriptor table. */
    predicate Ready()
      reads this, disk, inodes, descriptors
    {
      Valid() && MirrorOk() && DescriptorTable(descriptors[..], numInodes)
    }

    /** The globals before any operation: all zero, no table. */
    constructor (disk: array<seq<byte>>, crc16: seq<byte> -> uint16)
      requires UniformBlocks(disk[..])
      ensures this.disk == disk && this.crc16 == crc16
      ensures numInodes == 0 && occupancy[..] == Zeros(MAX_FILE) && crcMetadata == 0
      ensures inodes.Length == 0 && descriptors.Length == 0
      ensures fresh(occupancy) && fresh(inodes) && fresh(descriptors)
      ensures Ready()
    {
      this.disk := disk;
      this.crc16 := crc16;
      numInodes := 0;
      occupancy := new byte[MAX_FILE](_ => 0);
      inodes := new Inode[0];
      crcMetadata := 0;
      descriptors := new Descriptor[0];
      primaryInodes := 0;
      extraInodes := 0;
      new;
      assert occupancy[..] == Zeros(MAX_FILE);
      assert inodes[..] == [] && descriptors[..] == [];
    }

    /** bread: a copy of block `k`, or -1 when it is not on the device. */
    method ReadBlock(k: int) returns (r: int, b: seq<byte>)
      requires Valid()
      ensures r == (if 0 <= k < disk.Length then 0 else -1)
      ensures r == 0 ==> b == disk[k]
      ensures |b| == BLOCK_SIZE
    {
      if 0 <= k < disk.Length {
        r, b := 0, disk[k];
      } else {
        r, b := -1, Zeros(BLOCK_SIZE);
      }
    }

    /** bwrite: block `k` replaced by `b`, or -1 when it is not on the device. */
    method WriteBlock(k: int, b: seq<byte>) returns (r: int)
      requires Valid() && |b| == BLOCK_SIZE
      modifies disk
      ensures r == (if 0 <= k < disk.Length then 0 else -1)
      ensures disk[..] == if r == 0 then old(disk[..])[k := b] else old(disk[..])
      ensures Valid()
    {
      if 0 <= k < disk.Length {
        disk[k] := b;
        r := 0;
      } else {
        r := -1;
      }
    }

    /** updateCRCMetadata: the metadata CRC becomes the CRC of the superblock,
        the map and the whole inode table. */
    method UpdateCRCMetadata() returns (r: int)
      requires Valid() && MirrorOk()
      modifies this`crcMetadata
      ensures r == 0
      ensures crcMetadata == crc16(MetadataBytes(numInodes, occupancy[..], inodes[..]))
    {
      crcMetadata := crc16(MetadataBytes(numInodes, occupancy[..], inodes[..]));
      r := 0;
    }

    /** writeMetadata: refreshes the metadata CRC, writes block 0, then block 1
        when there are overflow inodes. It fails exactly when a metadata block
        is missing from the device, after writing block 0 if that one exists.
        A successful write leaves a device that checkFS accepts (and, by
        PersistedFormatted, one that mountFS can read). */
    method WriteMetadata() returns (r: int)
      requires Valid() && MirrorOk()
      modifies this`crcMetadata, disk
      ensures Valid()
      ensures crcMetadata == crc16(MetadataBytes(numInodes, occupancy[..], inodes[..]))
      ensures r == 0 <==> MetadataBlocks(Geo()) <= disk.Length
      ensures r == 0 ==> disk[..] == Persist(old(disk[..]), numInodes, occupancy[..], crcMetadata, inodes[..], Geo())
      ensures r != 0 ==>
        && r == -1
        && disk[..] == (if disk.Length == 0 then old(disk[..])
                        else old(disk[..])[0 := Block0(numInodes, occupancy[..], crcMetadata, inodes[..], Geo())])
      ensures r == 0 ==> CheckFSOutcome(crc16, disk[..], false, Geo()) == 0
    {
      var g := Geo();
      var _ := UpdateCRCMetadata();
      var table := inodes[..];
      r := WriteBlock(0, Block0(numInodes, occupancy[..], crcMetadata, table, g));
      if r < 0 {
        return -1;
      }
      if extraInodes > 0 {
        r := WriteBlock(1, Block1(table, g));
        if r != 0 {
          return -1;
        }
      }
      PersistedMetadataChecks(crc16, old(disk[..]), numInodes, occupancy[..], table, g);
      r := 0;
    }

    /** findFilebyName over the slots of the mirror. */
    method FindFilebyName(name: seq<byte>) returns (r: int)
      requires Ready()
      ensures r == FindName(inodes[..], name)
    {
      var i := 0;
      while i < numInodes as int
        invariant 0 <= i <= inodes.Length
        invariant forall j :: 0 <= j < i ==> inodes[j].name != name
      {
        if inodes[i].name == name {
          return i;
        }
        i := i + 1;
      }
      return -1;
    }

    /** firstFreeInode over the first numInodos entries of the map. */
    method FirstFreeInode() returns (r: int)
      requires Ready()
      ensures r == FirstFree(occupancy[..numInodes])
    {
      var i := 0;
      while i < numInodes as int
        invariant 0 <= i <= numInodes as int
        invariant forall j :: 0 <= j < i ==> occupancy[j] != 0
      {
        if occupancy[i] == 0 {
          return i;
        }
        i := i + 1;
      }
      return -1;
    }

    /** firstFreeDesc over the descriptor table. */
    method FirstFreeDesc() returns (r: int)
      requires Ready()
      ensures r == FirstUnused(descriptors[..])
    {
      var i := 0;
      while i < numInodes as int
        invariant 0 <= i <= descriptors.Length
        invariant forall j :: 0 <= j < i ==> descriptors[j].inUse
      {
        if !descriptors[i].inUse {
          return i;
        }
        i := i + 1;
      }
      return -1;
    }

    /** isOpen: 1 when some descriptor carries `id`, 0 otherwise. */
    method IsOpen(id: int) returns (r: int)
      requires Ready()
      ensures r == (if Bound(descriptors[..], id) then 1 else 0)
    {
      var i := 0;
      while i < numInodes as int
        invariant 0 <= i <= descriptors.Length
        invariant forall j :: 0 <= j < i ==> descriptors[j].file != id
      {
        if descriptors[i].file == id {
          return 1;
        }
        i := i + 1;
      }
      return 0;
    }

    /** findDescFile: the first descriptor carrying `id`, or -1. */
    method FindDescFile(id: int) returns (r: int)
      requires Ready()
      ensures r == FindDesc(descriptors[..], id)
    {
      var i := 0;
      while i < numInodes as int
        invariant 0 <= i <= descriptors.Length
        invariant forall j :: 0 <= j < i ==> descriptors[j].file != id
      {
        if descriptors[i].file == id {
          return i;
        }
        i := i + 1;
      }
      return -1;
    }

    /** checkFS: refuses while a descriptor is in use, then compares the CRC
        stored in block 0 with the CRC of the metadata read back from the
        device (superblock and map of block 0, then the inode records of
        blocks 0 and 1), both sized by the in-memory split. */
    method CheckFS() returns (r: int)
      requires Ready()
      ensures r == CheckFSOutcome(crc16, disk[..], AnyInUse(descriptors[..]), Geo())
    {
      var g := Geo();
      MountFits(numInodes);
      var busy := AnyDescriptorInUse();
      if busy {
        return -2;
      }
      var ok, b0, b1 := ReadMetadataBlocks();
      if ok < 0 {
        return -2;
      }
      assert RebuiltMetadata(b0, b1, g) == RebuiltMetadata(disk[0], SecondBlock(disk[..]), g);
      var crcDisk := StoredCrc(b0);
      if crcDisk == crc16(RebuiltMetadata(b0, b1, g)) {
        return 0;
      }
      return -1;
    }

    /** The loop of checkFS and unmountFS over the descriptors: whether one
        is in use. */
    method AnyDescriptorInUse() returns (busy: bool)
      requires Ready()
      ensures busy == AnyInUse(descriptors[..])
    {
      var i := 0;
      while i < numInodes as int
        invariant 0 <= i <= descriptors.Length
        invariant forall j :: 0 <= j < i ==> !descriptors[j].inUse
      {
        if descriptors[i].inUse {
          assert descriptors[..][i].inUse;
          return true;
        }
        i := i + 1;
      }
      return false;
    }

    /** The metadata blocks as checkFS and checkFile read them: block 0, and
        block 1 when there are overflow inodes; -2 when one is missing. */
    method ReadMetadataBlocks() returns (r: int, b0: seq<byte>, b1: seq<byte>)
      requires Ready()
      ensures r == (if MetadataBlocks(Geo()) <= disk.Length then 0 else -2)
      ensures |b0| == BLOCK_SIZE && |b1| == BLOCK_SIZE
      ensures r == 0 ==> b0 == disk[0] && (extraInodes > 0 ==> b1 == disk[1])
    {
      var ok;
      ok, b0 := ReadBlock(0);
      b1 := b0;
      if ok < 0 {
        return -2, b0, b1;
      }
      if extraInodes > 0 {
        ok, b1 := ReadBlock(1);
        if ok < 0 {
          return -2, b0, b1;
        }
      }
      r := 0;
    }

    /** checkFile: refuses an open name, reads the inode table back from the
        device, takes the CRC and data block of the last record carrying
        the name, and compares that CRC with the CRC of the data block. */
    method CheckFile(name: seq<byte>) returns (r: int)
      requires Ready()
      ensures r == CheckFileOutcome(crc16, disk[..], inodes[..], descriptors[..], Geo(), name)
    {
      var g := Geo();
      MountFits(numInodes);
      var id := FindFilebyName(name);
      var open := IsOpen(id);
      if open == 1 {
        return -2;
      }
      var ok, b0, b1 := ReadMetadataBlocks();
      if ok < 0 {
        return -2;
      }
      var t := DecodedTable(b0, b1, g);
      assert t == DecodedTable(disk[0], SecondBlock(disk[..]), g);
      var found, crcData := LastRecord(t, name);
      if found < 0 {
        return -2;
      }
      var block;
      ok, block := ReadBlock(DataBlock(g, found));
      if ok < 0 {
        return -2;
      }
      if crcData == crc16(block) {
        return 0;
      }
      return -1;
    }

    /** The loop of checkFile over the table read back from the device: the
        last record carrying the name, and its data CRC. */
    method LastRecord(t: seq<Inode>, name: seq<byte>) returns (found: int, crcData: uint16)
      ensures found == LastName(t, name)
      ensures found >= 0 ==> crcData == t[found].crc
    {
      found, crcData := -1, 0;
      var i := 0;
      while i < |t|
        invariant 0 <= i <= |t|
        invariant found == LastName(t[..i], name)
        invariant found >= 0 ==> crcData == t[found].crc
      {
        assert t[..i + 1][..i] == t[..i];
        if t[i].name == name {
          found := i;
          crcData := t[i].crc;
        }
        i := i + 1;
      }
      assert t[..i] == t;
    }

    /** The map reset to all free slots (memset of mapaInodos). */
    method ClearMap()
      requires occupancy.Length == MAX_FILE
      modifies occupancy
      ensures occupancy[..] == Zeros(MAX_FILE)
    {
      forall i | 0 <= i < MAX_FILE {
        occupancy[i] := 0;
      }
      assert occupancy[..] == Zeros(MAX_FILE);
    }

    /** The globals mkFS sets for split `g`: the count and split, an empty map
        and a zeroed inode table of g.inodes slots. */
    method FormatGlobals(g: Geometry)
      requires Valid() && g.inodes <= MAX_FILE && MountGeometry(g.inodes) == g
      modifies this, occupancy
      ensures Valid() && occupancy == old(occupancy) && descriptors == old(descriptors)
      ensures crcMetadata == old(crcMetadata)
      ensures Geo() == g && MirrorOk() && fresh(inodes)
      ensures inodes[..] == seq(g.inodes, _ => EmptyInode)
      ensures occupancy[..] == Zeros(MAX_FILE)
    {
      numInodes := g.inodes;
      primaryInodes := g.primary;
      extraInodes := g.extra;
      ClearMap();
      inodes := new Inode[g.inodes](_ => EmptyInode);
      assert inodes[..] == seq(g.inodes, _ => EmptyInode);
    }

    /** mkFS: formats a partition of `deviceSize` bytes on the device. It
        fails, changing nothing, when the request exceeds the image or is
        below two blocks; a request above the maximum is cut to it. The
        superblock, an empty map and a zeroed inode table are written to the
        metadata blocks; descriptors and data blocks are left alone. */
    method MkFS(deviceSize: int) returns (r: int)
      requires Valid()
      modifies this, occupancy, disk
      ensures Valid() && occupancy == old(occupancy) && descriptors == old(descriptors)
      ensures r == 0 <==> FormatGeometry(deviceSize, disk.Length * BLOCK_SIZE).Some?
      ensures r != 0 ==> r == -1 && unchanged(this) && unchanged(occupancy) && unchanged(disk)
      ensures r == 0 ==>
        var g := FormatGeometry(deviceSize, disk.Length * BLOCK_SIZE).value;
        && Geo() == g
        && MirrorOk()
        && fresh(inodes)
        && inodes[..] == seq(g.inodes, _ => EmptyInode)
        && occupancy[..] == Zeros(MAX_FILE)
        && crcMetadata == crc16(MetadataBytes(numInodes, occupancy[..], inodes[..]))
        && disk[..] == Persist(old(disk[..]), numInodes, occupancy[..], crcMetadata, inodes[..], Geo())
        && Formatted(disk[..])
        && CheckFSOutcome(crc16, disk[..], false, Geo()) == 0
    {
      var imageSize := disk.Length * BLOCK_SIZE;
      if deviceSize > imageSize {
        return -1;
      }
      if deviceSize < MIN_CAPACITY {
        return -1;
      }
      FormatLayout(deviceSize, imageSize);
      MountAgreesWithFormat(deviceSize, imageSize);
      FormatGlobals(FormatGeometry(deviceSize, imageSize).value);
      var w := WriteMetadata();
      if w == 0 {
        PersistedFormatted(old(disk[..]), numInodes, occupancy[..], crcMetadata, inodes[..], Geo());
      }
      r := if w == 0 then 0 else -1;
    }

    /** The first part of mountFS: the superblock, the map and the stored
        metadata CRC taken from block 0, and the split recomputed from the
        count. */
    method LoadSuperblock(b0: seq<byte>)
      requires Valid() && |b0| == BLOCK_SIZE && b0[0] <= MAX_FILE
      modifies this, occupancy
      ensures Valid() && occupancy == old(occupancy)
      ensures inodes == old(inodes) && descriptors == old(descriptors)
      ensures numInodes == b0[0] && numInodes <= MAX_FILE
      ensures Geo() == MountGeometry(numInodes)
      ensures occupancy[..] == b0[1..CRC_OFFSET]
      ensures crcMetadata == StoredCrc(b0)
    {
      var n: byte := b0[0];
      numInodes := n;
      forall i | 0 <= i < MAX_FILE {
        occupancy[i] := b0[1 + i];
      }
      assert occupancy[..] == b0[1..CRC_OFFSET];
      crcMetadata := StoredCrc(b0);
      primaryInodes := PRIMARY_CAPACITY;
      if n as int > primaryInodes {
        extraInodes := n as int - primaryInodes;
      } else {
        extraInodes := 0;
        primaryInodes := n;
      }
    }

    /** mountFS's fresh inode table: zeroed, then the records of block 0 copied
        into its first iNodosPrimerBloque slots. */
    method LoadPrimaryInodes(b0: seq<byte>)
      requires Valid() && numInodes <= MAX_FILE && Geo() == MountGeometry(numInodes)
      requires |b0| == BLOCK_SIZE
      modifies this`inodes
      ensures fresh(inodes) && inodes.Length == numInodes as int
      ensures inodes[..] == DecodeInodes(b0[HEADER_SIZE..], primaryInodes) + seq(extraInodes, _ => EmptyInode)
    {
      MountFits(numInodes);
      var front := DecodeInodes(b0[HEADER_SIZE..], primaryInodes);
      inodes := new Inode[numInodes](i => if 0 <= i < |front| then front[i] else EmptyInode);
      assert inodes[..] == front + seq(extraInodes, _ => EmptyInode);
    }

    /** The overflow records of block 1 copied into the slots that follow the
        primary ones. */
    method LoadOverflowInodes(b1: seq<byte>)
      requires Valid() && numInodes <= MAX_FILE && Geo() == MountGeometry(numInodes)
      requires |b1| == BLOCK_SIZE && inodes.Length == numInodes as int
      modifies inodes
      ensures inodes[..] == old(inodes[..primaryInodes]) + DecodeInodes(b1, extraInodes)
    {
      MountFits(numInodes);
      var back := DecodeInodes(b1, extraInodes);
      forall i | 0 <= i < extraInodes {
        inodes[primaryInodes + i] := back[i];
      }
      assert inodes[..] == old(inodes[..primaryInodes]) + back;
    }

    /** mountFS: reads block 0 into the superblock, the map and the metadata
        CRC, recomputes the split, reads the primary records and, when there
        are overflow inodes, block 1 and the overflow records; then gives
        every slot a free descriptor and runs checkFS. It answers -1 when a
        metadata block is missing or the metadata CRC does not match. */
    method MountFS() returns (r: int)
      requires Valid() && Formatted(disk[..])
      modifies this, occupancy
      ensures Valid() && occupancy == old(occupancy)
      ensures disk.Length == 0 ==> r == -1 && unchanged(this) && unchanged(occupancy)
      ensures disk.Length > 0 ==>
        && numInodes == disk[0][0]
        && Geo() == MountGeometry(numInodes)
        && occupancy[..] == disk[0][1..CRC_OFFSET]
        && crcMetadata == StoredCrc(disk[0])
        && fresh(inodes)
      ensures 0 < disk.Length < MetadataBlocks(Geo()) ==> r == -1 && descriptors == old(descriptors)
      ensures MetadataBlocks(Geo()) <= disk.Length ==>
        && Ready()
        && inodes[..] == DecodedTable(disk[0], SecondBlock(disk[..]), Geo())
        && CursorsWithinSize(descriptors[..], inodes[..])
        && fresh(descriptors)
        && descriptors[..] == seq(numInodes, _ => FreeDescriptor)
        && r == (if Intact(crc16, disk[0], SecondBlock(disk[..]), Geo()) then 0 else -1)
    {
      var ok, b0 := ReadBlock(0);
      if ok < 0 {
        return -1;
      }
      LoadSuperblock(b0);
      ok := LoadTable(b0);
      if ok < 0 {
        return -1;
      }
      InitDescriptors();
      var c := CheckFS();
      r := if c < 0 then -1 else 0;
    }

    /** The inode table of mountFS: the records of block 0 and, when there
        are overflow inodes, those of block 1; -1 when block 1 is missing.
        On a formatted device the table is a well-formed mirror. */
    method LoadTable(b0: seq<byte>) returns (r: int)
      requires Valid() && Formatted(disk[..]) && disk.Length > 0 && b0 == disk[0]
      requires numInodes == disk[0][0] && Geo() == MountGeometry(numInodes)
      modifies this`inodes
      ensures fresh(inodes)
      ensures r == (if MetadataBlocks(Geo()) <= disk.Length then 0 else -1)
      ensures r == 0 ==> MirrorOk() && inodes[..] == DecodedTable(disk[0], SecondBlock(disk[..]), Geo())
    {
      MountFits(numInodes);
      ghost var d := disk[..];
      FormattedTable(d);
      assert d[0] == b0;
      ghost var t := DecodedTable(b0, SecondBlock(d), Geo());
      assert SizesFit(t);
      LoadPrimaryInodes(b0);
      if extraInodes > 0 {
        var ok, b1 := ReadBlock(1);
        if ok < 0 {
          return -1;
        }
        LoadOverflowInodes(b1);
      }
      assert inodes[..] == t;
      r := 0;
    }

    /** mountFS's descriptor table: one free descriptor per slot. */
    method InitDescriptors()
      modifies this`descriptors
      ensures fresh(descriptors)
      ensures descriptors[..] == seq(numInodes, _ => FreeDescriptor)
      ensures DescriptorTable(descriptors[..], numInodes) && !AnyInUse(descriptors[..])
    {
      descriptors := new Descriptor[numInodes](_ => FreeDescriptor);
      assert descriptors[..] == seq(numInodes, _ => FreeDescriptor);
    }

    /** The globals unmountFS leaves behind: count, split and CRC zero, an
        empty map, no inode or descriptor table. */
    method ClearGlobals()
      requires Valid()
      modifies this, occupancy
      ensures occupancy == old(occupancy)
      ensures numInodes == 0 && Geo() == Geometry(0, 0, 0) && crcMetadata == 0
      ensures occupancy[..] == Zeros(MAX_FILE) && inodes.Length == 0 && descriptors.Length == 0
      ensures Ready()
    {
      inodes := new Inode[0];
      descriptors := new Descriptor[0];
      primaryInodes := 0;
      extraInodes := 0;
      crcMetadata := 0;
      ClearMap();
      numInodes := 0;
      assert inodes[..] == [] && descriptors[..] == [];
    }

    /** unmountFS: refuses while a descriptor is in use; otherwise writes the
        metadata and clears the globals. After a successful unmount the
        device holds exactly the map and table that were mounted, under a
        count from which mountFS recomputes the same split, and checkFS
        accepts it. */
    method UnmountFS() returns (r: int)
      requires Ready()
      modifies this, occupancy, disk
      ensures Valid() && occupancy == old(occupancy)
      ensures AnyInUse(old(descriptors[..])) ==> r == -1 && unchanged(this) && unchanged(occupancy) && unchanged(disk)
      ensures !AnyInUse(old(descriptors[..])) ==> r == (if MetadataBlocks(old(Geo())) <= disk.Length then 0 else -1)
      ensures r != 0 ==> Ready() && Geo() == old(Geo()) && inodes == old(inodes) && descriptors == old(descriptors)
      ensures r != 0 ==> occupancy[..] == old(occupancy[..])
      ensures r == 0 ==>
        && disk[..] == Persist(old(disk[..]), old(numInodes), old(occupancy[..]),
                               crc16(MetadataBytes(old(numInodes), old(occupancy[..]), old(inodes[..]))),
                               old(inodes[..]), old(Geo()))
        && Formatted(disk[..])
        && CheckFSOutcome(crc16, disk[..], false, old(Geo())) == 0
      ensures r == 0 ==>
        && disk[0][0] == old(numInodes)
        && MountGeometry(disk[0][0]) == old(Geo())
        && disk[0][1..CRC_OFFSET] == old(occupancy[..])
        && DecodedTable(disk[0], SecondBlock(disk[..]), old(Geo())) == old(inodes[..])
      ensures r == 0 ==>
        && numInodes == 0 && Geo() == Geometry(0, 0, 0) && crcMetadata == 0
        && occupancy[..] == Zeros(MAX_FILE) && inodes.Length == 0 && descriptors.Length == 0
        && Ready()
    {
      var busy := AnyDescriptorInUse();
      if busy {
        return -1;
      }
      ghost var g := Geo();
      ghost var n := numInodes;
      ghost var occ := occupancy[..];
      MountFits(n);
      var w := WriteMetadata();
      if w < 0 {
        assert occupancy[..] == occ;
        return -1;
      }
      MetadataRoundTrip(n, occupancy[..], crcMetadata, inodes[..], g);
      PersistedFormatted(old(disk[..]), n, occupancy[..], crcMetadata, inodes[..], g);
      PersistedTable(old(disk[..]), n, occupancy[..], crcMetadata, inodes[..], g);
      assert disk[0] == Block0(n, occupancy[..], crcMetadata, inodes[..], g);
      ClearGlobals();
      r := 0;
    }

    /** Record `id` of the mirror replaced by a well-formed record whose
        size fits its block. */
    method SetRecord(id: nat, x: Inode)
      requires MirrorOk() && id < numInodes as int && WellFormed(x) && x.size <= BLOCK_SIZE
      modifies inodes
      ensures MirrorOk()
      ensures inodes[..] == old(inodes[..])[id := x]
    {
      ghost var t0 := inodes[..];
      inodes[id] := x;
      UpdateKeepsTable(t0, numInodes, id, x);
      assert inodes[..] == t0[id := x];
    }

    /** Descriptor `d` replaced by `x`. */
    method SetDescriptor(d: nat, x: Descriptor)
      requires d < descriptors.Length
      modifies descriptors
      ensures descriptors[..] == old(descriptors[..])[d := x]
    {
      descriptors[d] := x;
    }

    /** The last steps of createFile, once the new record carries the CRC
        of its zeroed data block: the metadata written with the map as it
        was, then the slot marked in use. */
    method CommitNewFile(slot: nat)
      requires Ready() && slot < numInodes as int
      requires MetadataBlocks(Geo()) <= DataBlock(Geo(), slot) < disk.Length
      requires inodes[slot].crc == crc16(disk[DataBlock(Geo(), slot)])
      requires SoleName(inodes[..], slot)
      modifies occupancy, disk, this`crcMetadata
      ensures Ready()
      ensures occupancy[..] == old(occupancy[..])[slot := 1]
      ensures crcMetadata == crc16(MetadataBytes(numInodes, old(occupancy[..]), inodes[..]))
      ensures disk[..] == Persist(old(disk[..]), numInodes, old(occupancy[..]), crcMetadata, inodes[..], Geo())
      ensures CheckFSOutcome(crc16, disk[..], false, Geo()) == 0
      ensures !Bound(descriptors[..], slot) ==>
        CheckFileOutcome(crc16, disk[..], inodes[..], descriptors[..], Geo(), inodes[slot].name) == 0
    {
      var g := Geo();
      MountFits(numInodes);
      ghost var d0 := disk[..];
      ghost var m0 := occupancy[..];
      var w := WriteMetadata();
      assert w == 0;
      if !Bound(descriptors[..], slot) {
        PersistedFileChecks(crc16, d0, numInodes, m0, crcMetadata, inodes[..], descriptors[..], g, slot);
      }
      ghost var t, ds, d1 := inodes[..], descriptors[..], disk[..];
      MarkInUse(slot);
      assert inodes[..] == t && descriptors[..] == ds && disk[..] == d1;
    }

    /** The map entry of `slot` set to 1 (in use). */
    method MarkInUse(slot: nat)
      requires occupancy.Length == MAX_FILE && slot < MAX_FILE
      modifies occupancy
      ensures occupancy[..] == old(occupancy[..])[slot := 1]
    {
      occupancy[slot] := 1;
    }

    /** The middle of createFile, for an admitted name and the slot it gets:
        the record set to the name with size 0, the data block zeroed (-2 when
        it is not on the device), then the record's CRC set to the CRC of the
        zeroed block. */
    method PrepareFile(slot: nat, name: seq<byte>) returns (r: int)
      requires Ready() && IsCName(name) && |name| <= NAME_SIZE
      requires slot < numInodes as int && FindName(inodes[..], name) < 0
      modifies inodes, disk
      ensures Ready()
      ensures r == (if DataBlock(Geo(), slot) < disk.Length then 0 else -2)
      ensures r != 0 ==> inodes[..] == old(inodes[..])[slot := Inode(name, 0, 0)] && disk[..] == old(disk[..])
      ensures r == 0 ==>
        && inodes[..] == old(inodes[..])[slot := Inode(name, 0, crc16(Zeros(BLOCK_SIZE)))]
        && disk[..] == old(disk[..])[DataBlock(Geo(), slot) := Zeros(BLOCK_SIZE)]
        && MetadataBlocks(Geo()) <= DataBlock(Geo(), slot)
        && inodes[slot].crc == crc16(disk[DataBlock(Geo(), slot)])
        && SoleName(inodes[..], slot)
    {
      var g := Geo();
      MountFits(numInodes);
      ghost var t0 := inodes[..];
      SetRecord(slot, Inode(name, 0, 0));
      DataBlocksDistinct(g, slot, slot);
      var w := WriteBlock(DataBlock(g, slot), Zeros(BLOCK_SIZE));
      if w < 0 {
        assert Geo() == g;
        return -2;
      }
      var x := Inode(name, 0, crc16(Zeros(BLOCK_SIZE)));
      SetRecord(slot, x);
      assert inodes[..] == t0[slot := x];
      FreshNameSole(t0, slot, x);
      assert Geo() == g;
      r := 0;
    }

    /** createFile: -1 when the name is taken, -2 when no slot is free or the
        name is too long; otherwise PrepareFile and CommitNewFile on the first
        free slot. The new
        file is the only one with its name and, unless a descriptor carries
        its slot, checkFile accepts it. */
    method CreateFile(name: seq<byte>) returns (r: int)
      requires Ready() && IsCName(name)
      modifies inodes, occupancy, disk, this`crcMetadata
      ensures Ready() && Fits(Geo())
      ensures CursorsWithinSize(old(descriptors[..]), old(inodes[..]))
              && !Bound(descriptors[..], FirstFree(old(occupancy[..numInodes])))
              ==> CursorsWithinSize(descriptors[..], inodes[..])
      ensures r == -1 <==> FindName(old(inodes[..]), name) >= 0
      ensures r == 0 <==>
        && CreateAdmits(old(inodes[..]), old(occupancy[..numInodes]), name)
        && DataBlock(Geo(), FirstFree(old(occupancy[..numInodes]))) < disk.Length
      ensures r == -1 || r == -2 || r == 0
      ensures !CreateAdmits(old(inodes[..]), old(occupancy[..numInodes]), name) ==>
        && inodes[..] == old(inodes[..]) && occupancy[..] == old(occupancy[..])
        && disk[..] == old(disk[..]) && crcMetadata == old(crcMetadata)
      ensures CreateAdmits(old(inodes[..]), old(occupancy[..numInodes]), name) && r != 0 ==>
        && inodes[..] == old(inodes[..])[FirstFree(old(occupancy[..numInodes])) := Inode(name, 0, 0)]
        && occupancy[..] == old(occupancy[..])
        && disk[..] == old(disk[..]) && crcMetadata == old(crcMetadata)
      ensures r == 0 ==>
        var slot := FirstFree(old(occupancy[..numInodes]));
        && inodes[..] == old(inodes[..])[slot := Inode(name, 0, crc16(Zeros(BLOCK_SIZE)))]
        && occupancy[..] == old(occupancy[..])[slot := 1]
        && crcMetadata == crc16(MetadataBytes(numInodes, old(occupancy[..]), inodes[..]))
        && disk[..] == Persist(old(disk[..])[DataBlock(Geo(), slot) := Zeros(BLOCK_SIZE)],
                               numInodes, old(occupancy[..]), crcMetadata, inodes[..], Geo())
      ensures r == 0 ==>
        var slot := FirstFree(old(occupancy[..numInodes]));
        && CheckFSOutcome(crc16, disk[..], false, Geo()) == 0
        && FindName(inodes[..], name) == slot
        && (!Bound(descriptors[..], slot) ==>
              CheckFileOutcome(crc16, disk[..], inodes[..], descriptors[..], Geo(), name) == 0)
    {
      MountFits(numInodes);
      var found := FindFilebyName(name);
      if found != -1 {
        return -1;
      }
      var slot := FirstFreeInode();
      if slot < 0 {
        return -2;
      }
      if |name| > NAME_SIZE {
        return -2;
      }
      r := PrepareFile(slot, name);
      if r < 0 {
        return -2;
      }
      CommitNewFile(slot);
      r := 0;
    }

    /** removeFile: -1 when no slot carries the name, -2 when its slot is
        bound to a descriptor; otherwise the slot is marked free in the map
        and its record zeroed. Nothing is written to the device. */
    method RemoveFile(name: seq<byte>) returns (r: int)
      requires Ready()
      modifies occupancy, inodes
      ensures Ready()
      ensures CursorsWithinSize(old(descriptors[..]), old(inodes[..])) ==> CursorsWithinSize(descriptors[..], inodes[..])
      ensures var id := FindName(old(inodes[..]), name);
        && (r == -1 <==> id < 0)
        && (r == -2 <==> id >= 0 && Bound(descriptors[..], id))
        && (r == 0 <==> id >= 0 && !Bound(descriptors[..], id))
      ensures r != 0 ==> inodes[..] == old(inodes[..]) && occupancy[..] == old(occupancy[..])
      ensures r == 0 ==>
        var id := FindName(old(inodes[..]), name);
        && inodes[..] == old(inodes[..])[id := EmptyInode]
        && occupancy[..] == old(occupancy[..])[id := 0]
      ensures r == 0 && name != [] ==>
        FindName(inodes[..], name) == -1 || FindName(inodes[..], name) > FindName(old(inodes[..]), name)
    {
      var id := FindFilebyName(name);
      if id < 0 {
        return -1;
      }
      var open := IsOpen(id);
      if open == 1 {
        return -2;
      }
      occupancy[id] := 0;
      SetRecord(id, EmptyInode);
      r := 0;
    }

    /** openFile: -1 when no slot carries the name; -2 when its slot is already
        bound, when checkFile does not accept it or when every descriptor is
        in use. Otherwise the first free descriptor is bound to the slot with
        its cursor at 0, and its index is returned. */
    method OpenFile(name: seq<byte>) returns (r: int)
      requires Ready()
      modifies descriptors
      ensures Ready()
      ensures CursorsWithinSize(old(descriptors[..]), old(inodes[..])) ==> CursorsWithinSize(descriptors[..], inodes[..])
      ensures var id := FindName(inodes[..], name);
        && (r == -1 <==> id < 0)
        && (r == -2 <==>
              && id >= 0
              && (|| Bound(old(descriptors[..]), id)
                  || CheckFileOutcome(crc16, disk[..], inodes[..], old(descriptors[..]), Geo(), name) < 0
                  || FirstUnused(old(descriptors[..])) < 0))
      ensures r == -1 || r == -2 || r >= 0
      ensures r < 0 ==> descriptors[..] == old(descriptors[..])
      ensures r >= 0 ==>
        && r == FirstUnused(old(descriptors[..]))
        && descriptors[..] == old(descriptors[..])[r := Descriptor(true, FindName(inodes[..], name), 0)]
        && Bound(descriptors[..], FindName(inodes[..], name))
    {
      var id := FindFilebyName(name);
      if id < 0 {
        return -1;
      }
      var open := IsOpen(id);
      if open == 1 {
        return -2;
      }
      var check := CheckFile(name);
      if check < 0 {
        return -2;
      }
      r := BindDescriptor(id);
    }

    /** The end of openFile for a closed slot: the first free descriptor
        bound to it with its cursor at 0, or -2 when every descriptor is in
        use. */
    method BindDescriptor(id: nat) returns (r: int)
      requires Ready() && id < numInodes as int && !Bound(descriptors[..], id)
      modifies descriptors
      ensures Ready()
      ensures CursorsWithinSize(old(descriptors[..]), inodes[..]) ==> CursorsWithinSize(descriptors[..], inodes[..])
      ensures r == (if FirstUnused(old(descriptors[..])) < 0 then -2 else FirstUnused(old(descriptors[..])))
      ensures r < 0 ==> descriptors[..] == old(descriptors[..])
      ensures r >= 0 ==> descriptors[..] == old(descriptors[..])[r := Descriptor(true, id, 0)]
      ensures r >= 0 ==> Bound(descriptors[..], id)
    {
      var d := FirstFreeDesc();
      if d < 0 {
        return -2;
      }
      ghost var ds := descriptors[..];
      SetDescriptor(d, Descriptor(true, id, 0));
      OpenKeepsTable(ds, numInodes, d, id);
      assert descriptors[..][d].file == id;
      r := d;
    }

    /** The last steps of closeFile, once the data block has been read: the
        record's CRC set to the CRC of the block, the metadata written, and
        the descriptor freed. */
    method CommitClose(fd: nat, block: seq<byte>)
      requires Ready() && fd < numInodes as int && descriptors[fd].inUse
      requires DataBlock(Geo(), descriptors[fd].file) < disk.Length
      requires block == disk[DataBlock(Geo(), descriptors[fd].file)]
      modifies descriptors, inodes, disk, this`crcMetadata
      ensures Ready()
      ensures var id := old(descriptors[fd].file);
        && inodes[..] == old(inodes[..])[id := old(inodes[id]).(crc := crc16(block))]
        && descriptors[..] == old(descriptors[..])[fd := FreeDescriptor]
        && crcMetadata == crc16(MetadataBytes(numInodes, occupancy[..], inodes[..]))
        && disk[..] == Persist(old(disk[..]), numInodes, occupancy[..], crcMetadata, inodes[..], Geo())
      ensures CheckFSOutcome(crc16, disk[..], false, Geo()) == 0
      ensures var id := old(descriptors[fd].file);
        SoleName(inodes[..], id) ==>
          CheckFileOutcome(crc16, disk[..], inodes[..], descriptors[..], Geo(), inodes[id].name) == 0
    {
      var g := Geo();
      MountFits(numInodes);
      var id := descriptors[fd].file;
      DataBlocksDistinct(g, id, id);
      ghost var d0 := disk[..];
      SetRecord(id, inodes[id].(crc := crc16(block)));
      var w := WriteMetadata();
      assert w == 0;
      ghost var ds := descriptors[..];
      SetDescriptor(fd, FreeDescriptor);
      CloseKeepsTable(ds, numInodes, fd);
      if SoleName(inodes[..], id) {
        assert disk[DataBlock(g, id)] == block;
        PersistedFileChecks(crc16, d0, numInodes, occupancy[..], crcMetadata, inodes[..], descriptors[..], g, id);
      }
    }

    /** closeFile: -1 for a descriptor out of range or not in use, or a data
        block that cannot be read. Otherwise the record of the bound file
        takes the CRC of its data block (writes do not update it), the
        metadata are written, and the descriptor is freed. */
    method CloseFile(fd: int) returns (r: int)
      requires Ready()
      modifies descriptors, inodes, disk, this`crcMetadata
      ensures Ready()
      ensures CursorsWithinSize(old(descriptors[..]), old(inodes[..])) ==> CursorsWithinSize(descriptors[..], inodes[..])
      ensures r == 0 || r == -1
      ensures r == 0 <==>
        && 0 <= fd < numInodes as int
        && old(descriptors[fd].inUse)
        && DataBlock(Geo(), old(descriptors[fd].file)) < disk.Length
      ensures r != 0 ==>
        && inodes[..] == old(inodes[..]) && descriptors[..] == old(descriptors[..])
        && disk[..] == old(disk[..]) && crcMetadata == old(crcMetadata)
      ensures r == 0 ==>
        var id := old(descriptors[fd].file);
        && inodes[..] == old(inodes[..])[id := old(inodes[id]).(crc := crc16(disk[DataBlock(Geo(), id)]))]
        && descriptors[..] == old(descriptors[..])[fd := FreeDescriptor]
        && crcMetadata == crc16(MetadataBytes(numInodes, occupancy[..], inodes[..]))
        && disk[..] == Persist(old(disk[..]), numInodes, occupancy[..], crcMetadata, inodes[..], Geo())
        && CheckFSOutcome(crc16, disk[..], false, Geo()) == 0
      ensures r == 0 ==>
        var id := old(descriptors[fd].file);
        SoleName(inodes[..], id) ==>
          CheckFileOutcome(crc16, disk[..], inodes[..], descriptors[..], Geo(), inodes[id].name) == 0
    {
      if fd < 0 || fd >= numInodes as int {
        return -1;
      }
      if !descriptors[fd].inUse {
        return -1;
      }
      var ok, block := ReadBlock(DataBlock(Geo(), descriptors[fd].file));
      if ok != 0 {
        return -1;
      }
      ghost var g := Geo();
      CommitClose(fd, block);
      assert Geo() == g;
      r := 0;
    }

    /** readFile: -1 for a descriptor out of range or not in use, or a request
        of no bytes; 0 when nothing lies between the cursor and the file's
        size; -1 when the data block cannot be read. Otherwise the bytes from
        the cursor on, as many as asked but not past the size, are returned
        and the cursor moves past them. */
    method ReadFile(fd: int, numBytes: int) returns (r: int, buffer: seq<byte>)
      requires Ready()
      modifies descriptors
      ensures Ready()
      ensures CursorsWithinSize(old(descriptors[..]), old(inodes[..])) ==> CursorsWithinSize(descriptors[..], inodes[..])
      ensures |buffer| == (if r > 0 then r else 0)
      ensures r <= 0 ==> descriptors[..] == old(descriptors[..])
      ensures !(0 <= fd < numInodes as int && numBytes > 0 && old(descriptors[fd].inUse)) ==> r == -1
      ensures 0 <= fd < numInodes as int && numBytes > 0 && old(descriptors[fd].inUse) ==>
        var x := old(descriptors[fd]);
        var k := ReadCount(x.position, inodes[x.file].size, numBytes);
        && r == (if k <= 0 then 0 else if DataBlock(Geo(), x.file) < disk.Length then k else -1)
        && (r > 0 ==>
              && buffer == disk[DataBlock(Geo(), x.file)][x.position..x.position + k]
              && descriptors[..] == old(descriptors[..])[fd := x.(position := x.position + k)])
    {
      if fd < 0 || fd >= numInodes as int {
        return -1, [];
      }
      if numBytes <= 0 {
        return -1, [];
      }
      if !descriptors[fd].inUse {
        return -1, [];
      }
      var x := descriptors[fd];
      var id := x.file;
      var k := numBytes;
      if x.position + k > inodes[id].size as int {
        k := inodes[id].size as int - x.position;
      }
      if k <= 0 {
        return 0, [];
      }
      var ok, block := ReadBlock(DataBlock(Geo(), id));
      if ok < 0 {
        return -1, [];
      }
      buffer := block[x.position..x.position + k];
      ghost var ds := descriptors[..];
      SetDescriptor(fd, x.(position := x.position + k));
      MoveKeepsTable(ds, numInodes, fd, x.position + k);
      r := k;
    }

    /** writeFile: -1 for a descriptor out of range or not in use, or a
        request of no bytes; 0 when the cursor is at the end of the data
        block; -1 when the block cannot be read. Otherwise the bytes of
        `buffer`, as many as asked but not past the block end, overwrite the
        block from the cursor on, the cursor moves past them and the size
        grows to the cursor when it passes it. The record's CRC is not
        updated (closeFile does that). */
    method WriteFile(fd: int, buffer: seq<byte>, numBytes: int) returns (r: int)
      requires Ready() && numBytes <= |buffer|
      modifies descriptors, inodes, disk
      ensures Ready()
      ensures CursorsWithinSize(old(descriptors[..]), old(inodes[..])) ==> CursorsWithinSize(descriptors[..], inodes[..])
      ensures r <= 0 ==>
        && descriptors[..] == old(descriptors[..]) && inodes[..] == old(inodes[..])
        && disk[..] == old(disk[..])
      ensures !(0 <= fd < numInodes as int && numBytes > 0 && old(descriptors[fd].inUse)) ==> r == -1
      ensures 0 <= fd < numInodes as int && numBytes > 0 && old(descriptors[fd].inUse) ==>
        var x := old(descriptors[fd]);
        var k := WriteCount(x.position, numBytes);
        var b := DataBlock(Geo(), x.file);
        && r == (if k <= 0 then 0 else if b < disk.Length then k else -1)
        && (r > 0 ==>
              && disk[..] == old(disk[..])[b := Overwrite(old(disk[b]), x.position, buffer[..k])]
              && descriptors[..] == old(descriptors[..])[fd := x.(position := x.position + k)]
              && inodes[..] == old(inodes[..])[x.file := old(inodes[x.file]).(size :=
                   if x.position + k > old(inodes[x.file].size) then x.position + k
                   else old(inodes[x.file].size))])
    {
      if fd < 0 || fd >= numInodes as int {
        return -1;
      }
      if numBytes <= 0 {
        return -1;
      }
      if !descriptors[fd].inUse {
        return -1;
      }
      var x := descriptors[fd];
      var k := numBytes;
      if x.position + k > BLOCK_SIZE {
        k := BLOCK_SIZE - x.position;
      }
      if k <= 0 {
        return 0;
      }
      var id := x.file;
      var g := Geo();
      var ok, block := ReadBlock(DataBlock(g, id));
      if ok < 0 {
        return -1;
      }
      var w := WriteBlock(DataBlock(g, id), Overwrite(block, x.position, buffer[..k]));
      if w == 0 {
        AdvanceCursor(fd, x.position + k);
      }
      r := if w == 0 then k else -1;
      assert Geo() == g;
    }

    /** The end of a successful writeFile: the cursor of `fd` moves forward
        to `position` and the size of its file grows to it when it passes it. */
    method AdvanceCursor(fd: nat, position: int)
      requires Ready() && fd < numInodes as int && descriptors[fd].inUse
      requires descriptors[fd].position <= position <= BLOCK_SIZE
      modifies descriptors, inodes
      ensures Ready()
      ensures CursorsWithinSize(old(descriptors[..]), old(inodes[..])) ==> CursorsWithinSize(descriptors[..], inodes[..])
      ensures descriptors[..] == old(descriptors[..])[fd := old(descriptors[fd]).(position := position)]
      ensures var id := old(descriptors[fd].file);
        inodes[..] == old(inodes[..])[id := old(inodes[id]).(size :=
          if position > old(inodes[id].size) then position else old(inodes[id].size))]
    {
      var x := descriptors[fd];
      var id := x.file;
      ghost var ds := descriptors[..];
      SetDescriptor(fd, x.(position := position));
      MoveKeepsTable(ds, numInodes, fd, position);
      if position > inodes[id].size as int {
        SetRecord(id, inodes[id].(size := position));
      }
    }

    /** lseekFile: -1 for a descriptor out of range or not in use, for an
        empty file, for an unknown whence, and for a relative move that
        leaves [0, size]. Otherwise the cursor goes to 0, to the size, or by
        `offset` from where it is. */
    method LseekFile(fd: int, whence: int, offset: int) returns (r: int)
      requires Ready()
      modifies descriptors
      ensures Ready()
      ensures CursorsWithinSize(old(descriptors[..]), old(inodes[..])) ==> CursorsWithinSize(descriptors[..], inodes[..])
      ensures r == 0 || r == -1
      ensures r == -1 ==> descriptors[..] == old(descriptors[..])
      ensures r == 0 <==>
        && 0 <= fd < numInodes as int
        && old(descriptors[fd].inUse)
        && inodes[old(descriptors[fd].file)].size != 0
        && (|| whence == FS_SEEK_BEGIN
            || whence == FS_SEEK_END
            || (whence == FS_SEEK_CUR
                && 0 <= old(descriptors[fd].position) + offset <= inodes[old(descriptors[fd].file)].size))
      ensures r == 0 ==>
        var x := old(descriptors[fd]);
        var size := inodes[x.file].size;
        descriptors[..] == old(descriptors[..])[fd := x.(position :=
          if whence == FS_SEEK_BEGIN then 0
          else if whence == FS_SEEK_END then size
          else x.position + offset)]
    {
      if fd < 0 || fd >= numInodes as int {
        return -1;
      }
      if !descriptors[fd].inUse {
        return -1;
      }
      var x := descriptors[fd];
      var size := inodes[x.file].size;
      if size == 0 {
        return -1;
      }
      var target;
      if whence == FS_SEEK_BEGIN {
        target := 0;
      } else if whence == FS_SEEK_END {
        target := size;
      } else if whence == FS_SEEK_CUR {
        if x.position + offset < 0 || x.position + offset > size {
          return -1;
        }
        target := x.position + offset;
      } else {
        return -1;
      }
      ghost var ds := descriptors[..];
      SetDescriptor(fd, x.(position := target));
      MoveKeepsTable(ds, numInodes, fd, target);
      r := 0;
    }
  }
}
