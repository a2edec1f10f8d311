/** The metadata blocks: block 0 is [numInodos][occupancy map][CRC][inodes
    that fit], block 1 holds the overflow inodes, both zero padded
    (filesystem.c, writeMetadata and updateCRCMetadata); and the way mountFS,
    checkFS and checkFile read them back. */
module Metadata {

  import opened Encoding
  import opened Layout

  /** Offset of the stored metadata CRC in block 0 (after the superblock and the map). */
  const CRC_OFFSET: nat := 1 + MAX_FILE

  /** What the metadata CRC covers (updateCRCMetadata): the superblock, the
      occupancy map and the whole inode table, not the CRC field itself. */
  function MetadataBytes(n: byte, occupancy: seq<byte>, table: seq<Inode>): seq<byte>
    requires AllWellFormed(table)
  {
    [n] + occupancy + EncodeInodes(table)
  }

  /** Where the overflow inodes start in the in-memory table. */
  function OverflowStart(g: Geometry): nat
  {
    g.primary
  }

  /** The image of block 0 written by writeMetadata. */
  function Block0(n: byte, occupancy: seq<byte>, crc: uint16, table: seq<Inode>, g: Geometry): (b: seq<byte>)
    requires |occupancy| == MAX_FILE && AllWellFormed(table) && |table| == g.inodes && Fits(g)
    ensures |b| == BLOCK_SIZE
  {
    [n] + occupancy + EncodeU16(crc) + EncodeInodes(table[..g.primary])
      + Zeros(BLOCK_SIZE - HEADER_SIZE - INODE_SIZE * g.primary)
  }

  /** The image of block 1 written by writeMetadata when there are overflow
      inodes: the records from slot iNodosPrimerBloque on, zero padded. */
  function Block1(table: seq<Inode>, g: Geometry): (b: seq<byte>)
    requires AllWellFormed(table) && |table| == g.inodes && Fits(g)
    ensures |b| == BLOCK_SIZE
  {
    EncodeInodes(table[OverflowStart(g)..]) + Zeros(BLOCK_SIZE - INODE_SIZE * g.extra)
  }

  /** checkFS's reconstruction of the CRC input from the device: superblock
      and map from block 0, then the primary records after the stored CRC,
      then the overflow records from block 1. */
  function RebuiltMetadata(b0: seq<byte>, b1: seq<byte>, g: Geometry): seq<byte>
    requires |b0| == BLOCK_SIZE && (g.extra > 0 ==> |b1| == BLOCK_SIZE) && Fits(g)
  {
    b0[..CRC_OFFSET] + b0[HEADER_SIZE..HEADER_SIZE + INODE_SIZE * g.primary]
      + (if g.extra > 0 then b1[..INODE_SIZE * g.extra] else [])
  }

  /** The metadata CRC stored in block 0. */
  function StoredCrc(b0: seq<byte>): uint16
    requires |b0| == BLOCK_SIZE
  {
    DecodeU16(b0[CRC_OFFSET..HEADER_SIZE])
  }

  /** The inode table as mountFS and checkFile read it from the device. */
  function DecodedTable(b0: seq<byte>, b1: seq<byte>, g: Geometry): (t: seq<Inode>)
    requires |b0| == BLOCK_SIZE && (g.extra > 0 ==> |b1| == BLOCK_SIZE) && Fits(g)
    ensures |t| == g.inodes && AllWellFormed(t)
  {
    DecodeInodes(b0[HEADER_SIZE..], g.primary)
      + (if g.extra > 0 then DecodeInodes(b1, g.extra) else [])
  }

  /** The metadata on the device is intact: the stored CRC is the CRC of the
      bytes checkFS rebuilds. */
  predicate Intact(crc16: seq<byte> -> uint16, b0: seq<byte>, b1: seq<byte>, g: Geometry)
    requires |b0| == BLOCK_SIZE && (g.extra > 0 ==> |b1| == BLOCK_SIZE) && Fits(g)
  {
    crc16(RebuiltMetadata(b0, b1, g)) == StoredCrc(b0)
  }

  /** Every recorded size fits in one data block. */
  predicate SizesFit(t: seq<Inode>)
  {
    forall i :: 0 <= i < |t| ==> t[i].size <= BLOCK_SIZE
  }

  /** Block 1 of a device, or a zero block when the device has only one. */
  function SecondBlock(disk: seq<seq<byte>>): seq<byte>
  {
    if |disk| >= 2 then disk[1] else Zeros(BLOCK_SIZE)
  }

  predicate UniformBlocks(disk: seq<seq<byte>>)
  {
    forall k :: 0 <= k < |disk| ==> |disk[k]| == BLOCK_SIZE
  }

  /** A device that mountFS can read safely: the stored count fits the map,
      and every stored size fits a data block. mkFS and every writeMetadata
      leave the device in this state. */
  predicate Formatted(disk: seq<seq<byte>>)
    requires UniformBlocks(disk)
  {
    |disk| >= 1 ==>
      && disk[0][0] <= MAX_FILE
      && (MountFits(disk[0][0]);
          SizesFit(DecodedTable(disk[0], SecondBlock(disk), MountGeometry(disk[0][0]))))
  }

  /** What a formatted device promises mountFS: a count the map can
      describe and, under the split recomputed from it, stored sizes that
      fit a block. */
  lemma FormattedTable(disk: seq<seq<byte>>)
    requires UniformBlocks(disk) && Formatted(disk) && |disk| >= 1
    ensures disk[0][0] <= MAX_FILE && Fits(MountGeometry(disk[0][0]))
    ensures SizesFit(DecodedTable(disk[0], SecondBlock(disk), MountGeometry(disk[0][0])))
  {
    MountFits(disk[0][0]);
  }

  /** The three fields of block 0: header, stored CRC, primary records. */
  lemma Block0Fields(n: byte, occupancy: seq<byte>, crc: uint16, table: seq<Inode>, g: Geometry)
    requires |occupancy| == MAX_FILE && AllWellFormed(table) && |table| == g.inodes && Fits(g)
    ensures AllWellFormed(table[..g.primary])
    ensures var b0 := Block0(n, occupancy, crc, table, g);
      && b0[..CRC_OFFSET] == [n] + occupancy
      && b0[CRC_OFFSET..HEADER_SIZE] == EncodeU16(crc)
      && b0[HEADER_SIZE..] == EncodeInodes(table[..g.primary])
                              + Zeros(BLOCK_SIZE - HEADER_SIZE - INODE_SIZE * g.primary)
  {
    var b0 := Block0(n, occupancy, crc, table, g);
    var ef := EncodeInodes(table[..g.primary]);
    var pad0 := Zeros(BLOCK_SIZE - HEADER_SIZE - INODE_SIZE * g.primary);
    var h := [n] + occupancy;
    var a := h + EncodeU16(crc);
    ConcatAssoc(a, ef, pad0);
    assert b0 == a + (ef + pad0);
    SplitAt(a, ef + pad0);
    SplitAt(h, EncodeU16(crc));
    SliceOfPrefix(a, ef + pad0, 0, CRC_OFFSET);
    SliceOfPrefix(a, ef + pad0, CRC_OFFSET, HEADER_SIZE);
    assert a[CRC_OFFSET..HEADER_SIZE] == a[|h|..];
  }

  /** checkFS rebuilds from the written blocks exactly the CRC input. */
  lemma RebuiltIsMetadata(n: byte, occupancy: seq<byte>, crc: uint16, table: seq<Inode>, g: Geometry)
    requires |occupancy| == MAX_FILE && AllWellFormed(table) && |table| == g.inodes && Fits(g)
    ensures RebuiltMetadata(Block0(n, occupancy, crc, table, g), Block1(table, g), g)
         == MetadataBytes(n, occupancy, table)
  {
    var b0 := Block0(n, occupancy, crc, table, g);
    var b1 := Block1(table, g);
    var p := g.primary;
    Block0Fields(n, occupancy, crc, table, g);
    var front, back := table[..p], table[p..];
    assert AllWellFormed(back);
    var ef, eb := EncodeInodes(front), EncodeInodes(back);
    assert b0[HEADER_SIZE..HEADER_SIZE + INODE_SIZE * p] == ef by {
      assert b0[HEADER_SIZE..HEADER_SIZE + INODE_SIZE * p] == b0[HEADER_SIZE..][..INODE_SIZE * p];
    }
    assert front + back == table;
    EncodeInodesAppend(front, back);
    if g.extra > 0 {
      assert b1[..INODE_SIZE * g.extra] == eb;
    } else {
      assert back == [];
    }
  }

  /** The primary records decode from block 0 as the front of the table. */
  lemma PrimaryDecoded(n: byte, occupancy: seq<byte>, crc: uint16, table: seq<Inode>, g: Geometry)
    requires |occupancy| == MAX_FILE && AllWellFormed(table) && |table| == g.inodes && Fits(g)
    ensures DecodeInodes(Block0(n, occupancy, crc, table, g)[HEADER_SIZE..], g.primary) == table[..g.primary]
  {
    var front := table[..g.primary];
    Block0Fields(n, occupancy, crc, table, g);
    InodesRoundTrip(front, Zeros(BLOCK_SIZE - HEADER_SIZE - INODE_SIZE * g.primary));
  }

  /** The overflow records decode from block 1 as the back of the table. */
  lemma OverflowDecoded(table: seq<Inode>, g: Geometry)
    requires AllWellFormed(table) && |table| == g.inodes && Fits(g)
    ensures DecodeInodes(Block1(table, g), g.extra) == table[g.primary..]
  {
    var back := table[g.primary..];
    assert AllWellFormed(back) && |back| == g.extra;
    var pad := Zeros(BLOCK_SIZE - INODE_SIZE * g.extra);
    assert Block1(table, g) == EncodeInodes(back) + pad;
    InodesRoundTrip(back, pad);
  }

  /** mountFS and checkFile decode from the written blocks exactly the table. */
  lemma DecodedIsTable(n: byte, occupancy: seq<byte>, crc: uint16, table: seq<Inode>, g: Geometry)
    requires |occupancy| == MAX_FILE && AllWellFormed(table) && |table| == g.inodes && Fits(g)
    ensures DecodedTable(Block0(n, occupancy, crc, table, g), Block1(table, g), g) == table
  {
    PrimaryDecoded(n, occupancy, crc, table, g);
    OverflowDecoded(table, g);
    assert table[..g.primary] + table[g.primary..] == table;
    if g.extra == 0 {
      assert table[..g.primary] == table;
    }
  }

  /** Writing the metadata and reading it back: checkFS rebuilds exactly the
      bytes the CRC was computed over, finds the CRC that was stored, and
      mountFS recovers the superblock, the map and the table. */
  lemma MetadataRoundTrip(n: byte, occupancy: seq<byte>, crc: uint16, table: seq<Inode>, g: Geometry)
    requires |occupancy| == MAX_FILE && AllWellFormed(table) && |table| == g.inodes && Fits(g)
    ensures var b0 := Block0(n, occupancy, crc, table, g);
            var b1 := Block1(table, g);
      && RebuiltMetadata(b0, b1, g) == MetadataBytes(n, occupancy, table)
      && StoredCrc(b0) == crc
      && DecodedTable(b0, b1, g) == table
      && b0[0] == n && b0[1..CRC_OFFSET] == occupancy
  {
    var b0 := Block0(n, occupancy, crc, table, g);
    Block0Fields(n, occupancy, crc, table, g);
    assert b0[1..CRC_OFFSET] == b0[..CRC_OFFSET][1..];
    RebuiltIsMetadata(n, occupancy, crc, table, g);
    DecodedIsTable(n, occupancy, crc, table, g);
  }

  /** The images writeMetadata produces leave the device mountable. */
  lemma WrittenImageFormatted(disk: seq<seq<byte>>, n: byte, occupancy: seq<byte>, crc: uint16, table: seq<Inode>, g: Geometry)
    requires |occupancy| == MAX_FILE && AllWellFormed(table) && |table| == g.inodes && Fits(g)
    requires n == g.inodes && g == MountGeometry(n) && SizesFit(table)
    requires UniformBlocks(disk) && |disk| >= 1 && disk[0] == Block0(n, occupancy, crc, table, g)
    requires g.extra > 0 ==> |disk| >= 2 && disk[1] == Block1(table, g)
    ensures Formatted(disk)
  {
    MetadataRoundTrip(n, occupancy, crc, table, g);
    var b1 := SecondBlock(disk);
    assert DecodedTable(disk[0], b1, g) == DecodedTable(disk[0], Block1(table, g), g);
  }

  /** Overflow inodes exist exactly for partitions of 58 blocks or more. */
  lemma OverflowFromBlocks(deviceSize: int, imageSize: int)
    requires FormatGeometry(deviceSize, imageSize).Some?
    ensures FormatGeometry(deviceSize, imageSize).value.extra > 0
        <==> PartitionBlocks(deviceSize) >= 58
  {
  }

  /** Where writeMetadata, mountFS and checkFile actually take the overflow
      records from: `ArrayInodos + sizeof(Inodo) * iNodosPrimerBloque` on an
      Inodo pointer advances by that many records, not bytes. */
  function OverflowStartAsWritten(g: Geometry): nat
  {
    INODE_SIZE * g.primary
  }

  /** As written, whenever overflow inodes exist the copy starts 1980 records
      into a table of at most 64, far outside it. */
  lemma OverflowAsWrittenOutOfBounds(g: Geometry)
    requires Fits(g) && g.extra > 0
    ensures OverflowStartAsWritten(g) == 1980
    ensures OverflowStartAsWritten(g) + g.extra > g.inodes
  {
  }

  /** The corrected start: the overflow records are exactly the table's
      slots from iNodosPrimerBloque to its end. */
  lemma OverflowStartCorrect(table: seq<Inode>, g: Geometry)
    requires Fits(g) && |table| == g.inodes
    ensures OverflowStart(g) + g.extra == g.inodes
    ensures table[..g.primary] + table[OverflowStart(g)..] == table
    ensures |table[OverflowStart(g)..]| == g.extra
  {
  }

  /** Metadata blocks writeMetadata writes: block 0, and block 1 when there
      are overflow inodes. */
  function MetadataBlocks(g: Geometry): nat
  {
    if g.extra > 0 then 2 else 1
  }

  /** The device after a successful writeMetadata: block 0 (and block 1 when
      there are overflow inodes) replaced by the images of the mirror, every
      other block as it was. */
  function Persist(disk: seq<seq<byte>>, n: byte, occupancy: seq<byte>, crc: uint16,
                   table: seq<Inode>, g: Geometry): (d: seq<seq<byte>>)
    requires |occupancy| == MAX_FILE && AllWellFormed(table) && |table| == g.inodes && Fits(g)
    requires MetadataBlocks(g) <= |disk|
    ensures |d| == |disk|
    ensures forall k :: MetadataBlocks(g) <= k < |d| ==> d[k] == disk[k]
  {
    var d0 := disk[0 := Block0(n, occupancy, crc, table, g)];
    if g.extra > 0 then d0[1 := Block1(table, g)] else d0
  }

  /** checkFS's verdict on a device: -2 while a descriptor is in use or when
      a metadata block cannot be read, 0 when the stored CRC matches the
      rebuilt bytes, -1 otherwise. */
  function CheckFSOutcome(crc16: seq<byte> -> uint16, disk: seq<seq<byte>>, anyOpen: bool, g: Geometry): (r: int)
    requires UniformBlocks(disk) && Fits(g)
    ensures r == 0 || r == -1 || r == -2
  {
    if anyOpen || |disk| < MetadataBlocks(g) then -2
    else if Intact(crc16, disk[0], SecondBlock(disk), g) then 0
    else -1
  }

  /** The CRC round trip: metadata persisted with the CRC of its own bytes is
      intact, so checkFS on it answers 0 once no descriptor is in use. */
  lemma PersistedMetadataChecks(crc16: seq<byte> -> uint16, disk: seq<seq<byte>>, n: byte,
                                occupancy: seq<byte>, table: seq<Inode>, g: Geometry)
    requires |occupancy| == MAX_FILE && AllWellFormed(table) && |table| == g.inodes && Fits(g)
    requires MetadataBlocks(g) <= |disk| && UniformBlocks(disk)
    ensures var d := Persist(disk, n, occupancy, crc16(MetadataBytes(n, occupancy, table)), table, g);
      && UniformBlocks(d)
      && Intact(crc16, d[0], SecondBlock(d), g)
      && CheckFSOutcome(crc16, d, false, g) == 0
      && CheckFSOutcome(crc16, d, true, g) == -2
  {
    var crc := crc16(MetadataBytes(n, occupancy, table));
    var d := Persist(disk, n, occupancy, crc, table, g);
    MetadataRoundTrip(n, occupancy, crc, table, g);
    assert d[0] == Block0(n, occupancy, crc, table, g);
    if g.extra > 0 {
      assert SecondBlock(d) == Block1(table, g);
    } else {
      assert RebuiltMetadata(d[0], SecondBlock(d), g)
          == RebuiltMetadata(d[0], Block1(table, g), g);
    }
  }

  /** A persisted image is one mountFS accepts as formatted. */
  lemma PersistedFormatted(disk: seq<seq<byte>>, n: byte, occupancy: seq<byte>, crc: uint16,
                           table: seq<Inode>, g: Geometry)
    requires |occupancy| == MAX_FILE && AllWellFormed(table) && |table| == g.inodes && Fits(g)
    requires n == g.inodes && g == MountGeometry(n) && SizesFit(table)
    requires MetadataBlocks(g) <= |disk| && UniformBlocks(disk)
    ensures Formatted(Persist(disk, n, occupancy, crc, table, g))
  {
    var d := Persist(disk, n, occupancy, crc, table, g);
    WrittenImageFormatted(d, n, occupancy, crc, table, g);
  }
}
