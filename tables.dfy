/** The slot-indexed tables of the mounted system (occupancy map, inode
    table, descriptor table) as values: the lookups filesystem.c performs
    with its for-loops, the byte counts readFile and writeFile clamp to, and
    the verdict of checkFile. The methods of FileSystem.FileSystem are
    proved against these definitions. */
module Tables {

  import opened Encoding
  import opened Layout
  import opened Metadata

  /** One open-file session (auxiliary.h, Descriptor): whether it is in use
      (estado), the inode slot it reads (idFichero) and its cursor (posicion). */
  datatype Descriptor = Descriptor(inUse: bool, file: int, position: int)

  /** A free descriptor: calloc'd, with idFichero set to -1 by mountFS and
      closeFile. */
  const FreeDescriptor := Descriptor(false, -1, 0)

  /** findFilebyName: the lowest slot whose name is `name`, or -1. Free slots
      hold the empty name, so it takes no account of the map. */
  function FindName(t: seq<Inode>, name: seq<byte>): (r: int)
    ensures -1 <= r < |t|
    ensures r == -1 <==> forall i :: 0 <= i < |t| ==> t[i].name != name
    ensures r >= 0 ==> t[r].name == name && forall i :: 0 <= i < r ==> t[i].name != name
  {
    if |t| == 0 then -1
    else if t[0].name == name then 0
    else
      var k := FindName(t[1..], name);
      assert forall i :: 1 <= i < |t| ==> t[i] == t[1..][i - 1];
      if k < 0 then -1 else k + 1
  }

  /** The slot checkFile settles on: its loop has no break, so the highest
      slot whose name is `name`, or -1. */
  function LastName(t: seq<Inode>, name: seq<byte>): (r: int)
    ensures -1 <= r < |t|
    ensures r == -1 <==> forall i :: 0 <= i < |t| ==> t[i].name != name
    ensures r >= 0 ==> t[r].name == name && forall i :: r < i < |t| ==> t[i].name != name
  {
    if |t| == 0 then -1
    else if t[|t| - 1].name == name then |t| - 1
    else LastName(t[..|t| - 1], name)
  }

  /** firstFreeInode: the lowest slot whose map entry is 0, or -1. */
  function FirstFree(m: seq<byte>): (r: int)
    ensures -1 <= r < |m|
    ensures r == -1 <==> forall i :: 0 <= i < |m| ==> m[i] != 0
    ensures r >= 0 ==> m[r] == 0 && forall i :: 0 <= i < r ==> m[i] != 0
  {
    if |m| == 0 then -1
    else if m[0] == 0 then 0
    else
      var k := FirstFree(m[1..]);
      assert forall i :: 1 <= i < |m| ==> m[i] == m[1..][i - 1];
      if k < 0 then -1 else k + 1
  }

  /** firstFreeDesc: the lowest descriptor not in use, or -1. */
  function FirstUnused(ds: seq<Descriptor>): (r: int)
    ensures -1 <= r < |ds|
    ensures r == -1 <==> forall i :: 0 <= i < |ds| ==> ds[i].inUse
    ensures r >= 0 ==> !ds[r].inUse && forall i :: 0 <= i < r ==> ds[i].inUse
  {
    if |ds| == 0 then -1
    else if !ds[0].inUse then 0
    else
      var k := FirstUnused(ds[1..]);
      assert forall i :: 1 <= i < |ds| ==> ds[i] == ds[1..][i - 1];
      if k < 0 then -1 else k + 1
  }

  /** findDescFile: the lowest descriptor whose idFichero is `id`, or -1. */
  function FindDesc(ds: seq<Descriptor>, id: int): (r: int)
    ensures -1 <= r < |ds|
    ensures r == -1 <==> forall i :: 0 <= i < |ds| ==> ds[i].file != id
    ensures r >= 0 ==> ds[r].file == id && forall i :: 0 <= i < r ==> ds[i].file != id
  {
    if |ds| == 0 then -1
    else if ds[0].file == id then 0
    else
      var k := FindDesc(ds[1..], id);
      assert forall i :: 1 <= i < |ds| ==> ds[i] == ds[1..][i - 1];
      if k < 0 then -1 else k + 1
  }

  /** isOpen: some descriptor carries `id`. The descriptor's in-use flag is
      not consulted; free descriptors carry -1. */
  predicate Bound(ds: seq<Descriptor>, id: int)
  {
    exists d :: 0 <= d < |ds| && ds[d].file == id
  }

  /** Some descriptor is in use (the loops of checkFS and unmountFS). */
  predicate AnyInUse(ds: seq<Descriptor>)
  {
    exists d :: 0 <= d < |ds| && ds[d].inUse
  }

  /** isOpen and findDescFile agree: an id is bound exactly when some
      descriptor is found for it. */
  lemma BoundIffFound(ds: seq<Descriptor>, id: int)
    ensures Bound(ds, id) <==> FindDesc(ds, id) >= 0
  {
    if FindDesc(ds, id) >= 0 {
      assert ds[FindDesc(ds, id)].file == id;
    }
  }

  /** Bytes readFile copies: the request, cut to what lies between the cursor
      and the logical size (zero or less means nothing to read). */
  function ReadCount(position: int, size: int, numBytes: int): (r: int)
    ensures r <= numBytes && position + r <= size
    ensures r == numBytes || position + r == size
  {
    if position + numBytes > size then size - position else numBytes
  }

  /** Bytes writeFile copies: the request, cut so that the cursor never
      passes the end of the one data block. */
  function WriteCount(position: int, numBytes: int): (r: int)
    ensures r <= numBytes && position + r <= BLOCK_SIZE
    ensures r == numBytes || position + r == BLOCK_SIZE
  {
    if position + numBytes > BLOCK_SIZE then BLOCK_SIZE - position else numBytes
  }

  /** A read never returns more than asked, and a read that returns bytes
      stays within the logical size. */
  lemma ReadCountBounds(position: int, size: int, numBytes: int)
    requires 0 <= position && 0 < numBytes
    ensures ReadCount(position, size, numBytes) <= numBytes
    ensures ReadCount(position, size, numBytes) > 0 ==> position + ReadCount(position, size, numBytes) <= size
    ensures position + numBytes <= size ==> ReadCount(position, size, numBytes) == numBytes
    ensures position >= size ==> ReadCount(position, size, numBytes) <= 0
  {
  }

  /** A write never copies more than asked and never passes the block end;
      at the boundary it copies nothing, one byte short of it, at most one. */
  lemma WriteCountBounds(position: int, numBytes: int)
    requires 0 <= position <= BLOCK_SIZE && 0 < numBytes
    ensures 0 <= WriteCount(position, numBytes) <= numBytes
    ensures position + WriteCount(position, numBytes) <= BLOCK_SIZE
    ensures position + numBytes <= BLOCK_SIZE ==> WriteCount(position, numBytes) == numBytes
    ensures position == BLOCK_SIZE ==> WriteCount(position, numBytes) == 0
    ensures position == BLOCK_SIZE - 1 ==> WriteCount(position, numBytes) == 1
  {
  }

  /** The data block after writeFile's memmove of `data` at `position`. */
  function Overwrite(block: seq<byte>, position: nat, data: seq<byte>): (b: seq<byte>)
    requires position + |data| <= |block|
    ensures |b| == |block|
  {
    block[..position] + data + block[position + |data|..]
  }

  /** An overwritten span reads back as the data written, and no byte
      outside it changes. */
  lemma OverwriteReadBack(block: seq<byte>, position: nat, data: seq<byte>)
    requires position + |data| <= |block|
    ensures Overwrite(block, position, data)[position..position + |data|] == data
    ensures forall k :: 0 <= k < |block| && !(position <= k < position + |data|) ==>
              Overwrite(block, position, data)[k] == block[k]
  {
    var b := Overwrite(block, position, data);
    assert b == (block[..position] + data) + block[position + |data|..];
    forall k | 0 <= k < |block| && !(position <= k < position + |data|)
      ensures b[k] == block[k]
    {
      if k < position {
        assert b[k] == block[..position][k];
      } else {
        assert b[k] == block[position + |data|..][k - position - |data|];
      }
    }
  }

  /** checkFile's verdict on a device for `name`. It asks isOpen about the
      slot findFilebyName returns, so a missing name (-1) is refused with -2
      whenever some descriptor is free (free descriptors carry -1). -2 also
      when a block cannot be read or when no on-disk record carries the name
      (the source then reads an uninitialised block number). Otherwise 0
      when the CRC of the data block equals the CRC stored in the last
      on-disk record with that name, and -1 when it does not. */
  function CheckFileOutcome(crc16: seq<byte> -> uint16, disk: seq<seq<byte>>, table: seq<Inode>,
                            ds: seq<Descriptor>, g: Geometry, name: seq<byte>): (r: int)
    requires UniformBlocks(disk) && Fits(g)
    ensures r == 0 || r == -1 || r == -2
  {
    if Bound(ds, FindName(table, name)) || |disk| < MetadataBlocks(g) then -2
    else RecordVerdict(crc16, disk, DecodedTable(disk[0], SecondBlock(disk), g), g, name)
  }

  /** The second half of checkFile, on the table read back from the device. */
  function RecordVerdict(crc16: seq<byte> -> uint16, disk: seq<seq<byte>>, t: seq<Inode>,
                         g: Geometry, name: seq<byte>): (r: int)
    requires UniformBlocks(disk)
    ensures r == 0 || r == -1 || r == -2
  {
    var k := LastName(t, name);
    if k < 0 || DataBlock(g, k) >= |disk| then -2
    else if crc16(disk[DataBlock(g, k)]) == t[k].crc then 0
    else -1
  }

  /** Writing through a cursor and reading back from the same cursor: the
      read returns exactly the bytes the write copied (all of the request
      when it fits the block), and the rest of the block is untouched. */
  lemma WriteThenRead(block: seq<byte>, position: nat, size: nat, data: seq<byte>, numBytes: int)
    requires |block| == BLOCK_SIZE && position <= BLOCK_SIZE && size <= BLOCK_SIZE
    requires 0 < numBytes <= |data|
    ensures var k := WriteCount(position, numBytes);
      var grown := if position + k > size then position + k else size;
      var written := Overwrite(block, position, data[..k]);
      && ReadCount(position, grown, numBytes) == k
      && written[position..position + k] == data[..k]
      && (position + numBytes <= BLOCK_SIZE ==> k == numBytes)
      && (forall j :: 0 <= j < BLOCK_SIZE && !(position <= j < position + k) ==> written[j] == block[j])
  {
    var k := WriteCount(position, numBytes);
    WriteCountBounds(position, numBytes);
    OverwriteReadBack(block, position, data[..k]);
  }

  /** createFile's admission: the name is new, a slot of the map is free,
      and the name fits its field. */
  predicate CreateAdmits(t: seq<Inode>, free: seq<byte>, name: seq<byte>)
  {
    FindName(t, name) < 0 && FirstFree(free) >= 0 && |name| <= NAME_SIZE
  }

  /** A descriptor as mountFS, openFile and closeFile leave it: free and
      reset, or bound to a slot with its cursor inside the data block. */
  predicate DescriptorOk(x: Descriptor, n: nat)
  {
    if x.inUse then 0 <= x.file < n && 0 <= x.position <= BLOCK_SIZE
    else x == FreeDescriptor
  }

  /** The descriptor table: one descriptor per inode, each well formed, and
      no file bound to two descriptors in use (openFile refuses open files). */
  predicate DescriptorTable(ds: seq<Descriptor>, n: nat)
  {
    && |ds| == n
    && (forall d :: 0 <= d < |ds| ==> DescriptorOk(ds[d], n))
    && (forall d, e :: 0 <= d < e < |ds| && ds[d].inUse && ds[e].inUse ==> ds[d].file != ds[e].file)
  }

  /** Every cursor in use lies within the size of the file it is bound to. */
  predicate CursorsWithinSize(ds: seq<Descriptor>, t: seq<Inode>)
  {
    forall d :: 0 <= d < |ds| && ds[d].inUse && 0 <= ds[d].file < |t| ==> ds[d].position <= t[ds[d].file].size
  }

  /** The inode mirror: one well-formed record per slot, each size inside
      its data block. */
  predicate InodeTable(t: seq<Inode>, n: nat)
  {
    |t| == n && AllWellFormed(t) && SizesFit(t)
  }

  /** Replacing one record by a well-formed one whose size fits its block
      keeps the mirror well formed. */
  lemma UpdateKeepsTable(t: seq<Inode>, n: nat, k: nat, x: Inode)
    requires InodeTable(t, n) && k < n && WellFormed(x) && x.size <= BLOCK_SIZE
    ensures InodeTable(t[k := x], n)
  {
  }

  /** The files bound by the first `k` descriptors, all in use: distinct
      files, so as many as the descriptors. */
  lemma {:induction false} BoundFilesCount(ds: seq<Descriptor>, n: nat, k: nat)
    requires DescriptorTable(ds, n) && k <= n
    requires forall d :: 0 <= d < k ==> ds[d].inUse
    ensures |set d | 0 <= d < k :: ds[d].file| == k
  {
    var files := set d | 0 <= d < k :: ds[d].file;
    if k == 0 {
      assert files == {};
    } else {
      var m: nat := k - 1;
      BoundFilesCount(ds, n, m);
      var before := set d | 0 <= d < m :: ds[d].file;
      assert files == before + {ds[m].file};
      assert ds[m].file !in before;
      assert |before + {ds[m].file}| == |before| + 1;
    }
  }

  /** Slot `f` of a table of `n`. */
  predicate Slot(f: int, n: nat)
  {
    0 <= f < n
  }

  /** The slots of a table of `n` other than `id`. */
  lemma {:induction false} OtherSlotsCount(n: nat, id: int)
    requires 0 <= id < n
    ensures |set f | 0 <= f < n && Slot(f, n) && f != id| == n - 1
  {
    var m: nat := n - 1;
    if m == id {
      assert (set f | 0 <= f < n && Slot(f, n) && f != id) == set f | 0 <= f < m && Slot(f, m);
      SlotsCount(m);
    } else {
      OtherSlotsCount(m, id);
      assert (set f | 0 <= f < n && Slot(f, n) && f != id) == (set f | 0 <= f < m && Slot(f, m) && f != id) + {m};
    }
  }

  /** The slots of a table of `n`. */
  lemma {:induction false} SlotsCount(n: nat)
    ensures |set f | 0 <= f < n && Slot(f, n)| == n
  {
    if n > 0 {
      var m: nat := n - 1;
      SlotsCount(m);
      assert (set f | 0 <= f < n && Slot(f, n)) == (set f | 0 <= f < m && Slot(f, m)) + {m};
    }
  }

  /** While file `id` is closed, the descriptors in use at the front of the
      table bind distinct files other than `id`: fewer than the slots. */
  lemma InUsePrefixBound(ds: seq<Descriptor>, n: nat, id: int, k: nat)
    requires DescriptorTable(ds, n) && 0 <= id < n && !Bound(ds, id) && k <= n
    requires forall d :: 0 <= d < k ==> ds[d].inUse
    ensures k <= n - 1
  {
    BoundFilesCount(ds, n, k);
    OtherSlotsCount(n, id);
    var files := set d | 0 <= d < k :: ds[d].file;
    var others := set f | 0 <= f < n && Slot(f, n) && f != id;
    assert files <= others;
    assert others == files + (others - files);
    assert files * (others - files) == {};
  }

  /** One descriptor per slot and no file bound twice: while some file is
      closed, some descriptor is free, so openFile's lack-of-descriptor
      error cannot arise for a closed file. */
  lemma FreeDescriptorExists(ds: seq<Descriptor>, n: nat, id: int)
    requires DescriptorTable(ds, n) && 0 <= id < n && !Bound(ds, id)
    ensures FirstUnused(ds) >= 0
  {
    if FirstUnused(ds) < 0 {
      InUsePrefixBound(ds, n, id, n);
      assert false;
    }
  }

  /** Binding a free descriptor to a closed file keeps the table well formed. */
  lemma OpenKeepsTable(ds: seq<Descriptor>, n: nat, d: nat, id: int)
    requires DescriptorTable(ds, n) && d < n && !ds[d].inUse
    requires 0 <= id < n && !Bound(ds, id)
    ensures DescriptorTable(ds[d := Descriptor(true, id, 0)], n)
  {
    var ds' := ds[d := Descriptor(true, id, 0)];
    forall i, j | 0 <= i < j < |ds'| && ds'[i].inUse && ds'[j].inUse
      ensures ds'[i].file != ds'[j].file
    {
      if i == d {
        assert ds[j].file != id;
      } else if j == d {
        assert ds[i].file != id;
      }
    }
  }

  /** Freeing a descriptor keeps the table well formed, and leaves the file
      it carried unbound. */
  lemma CloseKeepsTable(ds: seq<Descriptor>, n: nat, d: nat)
    requires DescriptorTable(ds, n) && d < n && ds[d].inUse
    ensures DescriptorTable(ds[d := FreeDescriptor], n)
    ensures !Bound(ds[d := FreeDescriptor], ds[d].file)
  {
    var ds' := ds[d := FreeDescriptor];
    var id := ds[d].file;
    forall e | 0 <= e < |ds'| ensures ds'[e].file != id {
      if e != d && ds[e].inUse {
        if e < d {
          assert ds[e].file != ds[d].file;
        } else {
          assert ds[d].file != ds[e].file;
        }
      }
    }
  }

  /** Moving the cursor of a descriptor in use, within the data block,
      keeps the table well formed. */
  lemma MoveKeepsTable(ds: seq<Descriptor>, n: nat, d: nat, position: int)
    requires DescriptorTable(ds, n) && d < n && ds[d].inUse
    requires 0 <= position <= BLOCK_SIZE
    ensures DescriptorTable(ds[d := ds[d].(position := position)], n)
  {
    var ds' := ds[d := ds[d].(position := position)];
    assert forall i :: 0 <= i < |ds'| ==> ds'[i].inUse == ds[i].inUse && ds'[i].file == ds[i].file;
  }

  /** The persisted table is what checkFile reads back from the device. */
  lemma PersistedTable(disk: seq<seq<byte>>, n: byte, occupancy: seq<byte>, crc: uint16,
                       table: seq<Inode>, g: Geometry)
    requires |occupancy| == MAX_FILE && AllWellFormed(table) && |table| == g.inodes && Fits(g)
    requires MetadataBlocks(g) <= |disk| && UniformBlocks(disk)
    ensures var d := Persist(disk, n, occupancy, crc, table, g);
      UniformBlocks(d) && DecodedTable(d[0], SecondBlock(d), g) == table
  {
    var d := Persist(disk, n, occupancy, crc, table, g);
    MetadataRoundTrip(n, occupancy, crc, table, g);
    if g.extra == 0 {
      assert DecodedTable(d[0], SecondBlock(d), g) == DecodedTable(d[0], Block1(table, g), g);
    }
  }

  /** Slot `id` is the only one whose record carries its name. */
  predicate SoleName(t: seq<Inode>, id: nat)
    requires id < |t|
  {
    forall i :: 0 <= i < |t| && i != id ==> t[i].name != t[id].name
  }

  /** A record given a name no slot carries is the only one with that name. */
  lemma FreshNameSole(t: seq<Inode>, k: nat, x: Inode)
    requires k < |t| && FindName(t, x.name) < 0
    ensures SoleName(t[k := x], k) && FindName(t[k := x], x.name) == k
  {
  }

  /** The integrity check passes on a file whose persisted record carries the
      CRC of its data block: with its name held by one slot only, closed,
      checkFile answers 0. This is the state createFile and closeFile leave. */
  lemma PersistedFileChecks(crc16: seq<byte> -> uint16, disk: seq<seq<byte>>, n: byte,
                            occupancy: seq<byte>, crc: uint16, table: seq<Inode>,
                            ds: seq<Descriptor>, g: Geometry, id: nat)
    requires |occupancy| == MAX_FILE && AllWellFormed(table) && |table| == g.inodes && Fits(g)
    requires MetadataBlocks(g) <= |disk| && UniformBlocks(disk)
    requires id < |table| && DataBlock(g, id) < |disk|
    requires SoleName(table, id) && !Bound(ds, id)
    requires var d := Persist(disk, n, occupancy, crc, table, g);
      table[id].crc == crc16(d[DataBlock(g, id)])
    ensures var d := Persist(disk, n, occupancy, crc, table, g);
      CheckFileOutcome(crc16, d, table, ds, g, table[id].name) == 0
  {
    var d := Persist(disk, n, occupancy, crc, table, g);
    PersistedTable(disk, n, occupancy, crc, table, g);
    var name := table[id].name;
    assert FindName(table, name) == id;
    assert LastName(table, name) == id;
  }
}
