/** Partition layout arithmetic: how mkFS sizes a partition and splits the
    inode table between block 0 and an optional overflow block 1, how mountFS
    recomputes that split from the stored inode count alone, and which data
    block belongs to each inode (filesystem.c, mkFS, mountFS, getNumBloque). */
module Layout {

  import opened Encoding

  const BLOCK_SIZE: nat := 2048
  /** Most files the system manages; also the length of the occupancy map. */
  const MAX_FILE: nat := 64
  /** Bytes of block 0 before the inode records: the one-byte superblock, the
      64-byte occupancy map and the 16-bit metadata CRC. */
  const HEADER_SIZE: nat := 1 + 64 + 2
  /** Inode records that fit in block 0 after the header, (2048 - 67) / 36
      (see PrimaryCapacity). */
  const PRIMARY_CAPACITY: nat := 55
  /** Smallest partition: one metadata block and one data block (2 * 2048). */
  const MIN_CAPACITY: nat := 4096
  /** Largest partition: two metadata blocks and 64 data blocks ((2 + 64) * 2048). */
  const MAX_CAPACITY: nat := 135168

  /** The capacities are the ones mkFS and mountFS compute from the record
      sizes: a 56th record would overrun block 0. */
  lemma PrimaryCapacity()
    ensures PRIMARY_CAPACITY == (BLOCK_SIZE - HEADER_SIZE) / INODE_SIZE
    ensures HEADER_SIZE + INODE_SIZE * PRIMARY_CAPACITY <= BLOCK_SIZE < HEADER_SIZE + INODE_SIZE * (PRIMARY_CAPACITY + 1)
    ensures MIN_CAPACITY == 2 * BLOCK_SIZE && MAX_CAPACITY == (2 + MAX_FILE) * BLOCK_SIZE
  {
  }

  datatype Option<T> = None | Some(value: T)

  /** The inode split kept in s_bloque.numInodos, iNodosPrimerBloque and
      iNodosExtra. */
  datatype Geometry = Geometry(inodes: nat, primary: nat, extra: nat)

  /** The partition size mkFS formats: a request above the maximum is
      silently truncated to it. */
  function PartitionSize(deviceSize: int): int
  {
    if deviceSize > MAX_CAPACITY then MAX_CAPACITY else deviceSize
  }

  /** Whole blocks of the formatted partition. */
  function PartitionBlocks(deviceSize: int): int
  {
    PartitionSize(deviceSize) / BLOCK_SIZE
  }

  /** mkFS's arithmetic: None when the request exceeds the image or is below
      two blocks; otherwise one inode per data block, with one block taken
      from the data blocks for overflow inodes when they do not all fit in
      block 0. */
  function FormatGeometry(deviceSize: int, imageSize: int): (r: Option<Geometry>)
    ensures r.Some? ==>
      && r.value.inodes == r.value.primary + r.value.extra
      && 1 <= r.value.inodes < PartitionBlocks(deviceSize)
  {
    if deviceSize > imageSize || deviceSize < MIN_CAPACITY then None
    else
      var dataBlocks := PartitionBlocks(deviceSize) - 1;
      if dataBlocks - PRIMARY_CAPACITY > 0 then
        Some(Geometry(dataBlocks - 1, PRIMARY_CAPACITY, dataBlocks - 1 - PRIMARY_CAPACITY))
      else
        Some(Geometry(dataBlocks, dataBlocks, 0))
  }

  /** mountFS's arithmetic: the split recomputed from the stored count. */
  function MountGeometry(n: nat): Geometry
  {
    if n > PRIMARY_CAPACITY then Geometry(n, PRIMARY_CAPACITY, n - PRIMARY_CAPACITY)
    else Geometry(n, n, 0)
  }

  /** getNumBloque: inode `id` owns block id + 1, or id + 2 when block 1
      holds overflow inodes. */
  function DataBlock(g: Geometry, id: nat): nat
  {
    if g.extra == 0 then id + 1 else id + 2
  }

  /** A split that fits: the table is exactly the two parts, block 0 holds the
      header and the primary records, block 1 holds the overflow records. */
  predicate Fits(g: Geometry)
  {
    && g.inodes == g.primary + g.extra
    && g.inodes <= MAX_FILE
    && g.primary <= PRIMARY_CAPACITY
    && (g.extra > 0 ==> g.primary == PRIMARY_CAPACITY)
    && HEADER_SIZE + INODE_SIZE * g.primary <= BLOCK_SIZE
    && INODE_SIZE * g.extra <= BLOCK_SIZE
  }

  /** mkFS fails exactly when the request exceeds the image or is below the
      two-block minimum; a request above the maximum is not an error. */
  lemma FormatFailsIff(deviceSize: int, imageSize: int)
    ensures FormatGeometry(deviceSize, imageSize).None?
        <==> deviceSize > imageSize || deviceSize < MIN_CAPACITY
    ensures MAX_CAPACITY < deviceSize <= imageSize ==>
              FormatGeometry(deviceSize, imageSize).Some? && PartitionBlocks(deviceSize) == 2 + MAX_FILE
  {
  }

  /** A formatted partition: the split fits, the inode count fits the
      superblock's byte and the occupancy map, and every inode's data block
      lies inside the partition, past the metadata blocks, which lies inside
      the image. */
  lemma FormatLayout(deviceSize: int, imageSize: int)
    requires FormatGeometry(deviceSize, imageSize).Some?
    ensures var g := FormatGeometry(deviceSize, imageSize).value;
      && Fits(g)
      && 1 <= g.inodes
      && 2 <= PartitionBlocks(deviceSize) <= imageSize / BLOCK_SIZE
      && (forall id :: 0 <= id < g.inodes ==>
            (if g.extra > 0 then 2 else 1) <= DataBlock(g, id) < PartitionBlocks(deviceSize))
  {
    var g := FormatGeometry(deviceSize, imageSize).value;
    var blocks := PartitionBlocks(deviceSize);
    assert 2 <= blocks <= 2 + MAX_FILE;
    assert PartitionSize(deviceSize) <= imageSize;
    assert blocks <= imageSize / BLOCK_SIZE;
    assert g.inodes + (if g.extra > 0 then 2 else 1) <= blocks;
  }

  /** mountFS recomputes from numInodos alone exactly the split mkFS chose. */
  lemma MountAgreesWithFormat(deviceSize: int, imageSize: int)
    requires FormatGeometry(deviceSize, imageSize).Some?
    ensures var g := FormatGeometry(deviceSize, imageSize).value;
      MountGeometry(g.inodes) == g
  {
  }

  /** Any count the occupancy map can describe yields a split that fits. */
  lemma MountFits(n: nat)
    requires n <= MAX_FILE
    ensures Fits(MountGeometry(n)) && MountGeometry(n).inodes == n
    ensures MountGeometry(n).extra <= MAX_FILE - PRIMARY_CAPACITY
  {
  }

  /** Distinct inodes own distinct data blocks, none of them a metadata block. */
  lemma DataBlocksDistinct(g: Geometry, i: nat, j: nat)
    ensures DataBlock(g, i) == DataBlock(g, j) <==> i == j
    ensures 1 <= DataBlock(g, i) && (g.extra > 0 ==> 2 <= DataBlock(g, i))
  {
  }
}
