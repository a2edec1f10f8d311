/** Byte-level encodings of the on-disk records: little-endian 16-bit
    fields, NUL-padded 32-byte names and the 36-byte inode record
    (include/metadata.h, struct Inodo). */
module Encoding {

  type byte = x: int | 0 <= x < 0x100
  type uint16 = x: int | 0 <= x < 0x1_0000

  /** Width of the name field of an inode record (char nombre[32]). */
  const NAME_SIZE: nat := 32
  /** Bytes taken by one inode record: 32-byte name, 16-bit size, 16-bit CRC. */
  const INODE_SIZE: nat := 36

  /** A block of `n` zero bytes, as produced by calloc or memset(.., 0, ..). */
  function Zeros(n: nat): (z: seq<byte>)
    ensures |z| == n
    ensures forall i :: 0 <= i < n ==> z[i] == 0
  {
    seq(n, _ => 0)
  }

  /** A 16-bit field stored little-endian in two bytes. */
  function EncodeU16(x: uint16): (b: seq<byte>)
    ensures |b| == 2 && DecodeU16(b) == x
  {
    [x % 0x100, x / 0x100]
  }

  function DecodeU16(b: seq<byte>): uint16
    requires |b| == 2
  {
    var lo: int := b[0];
    var hi: int := b[1];
    lo + 0x100 * hi
  }

  /** A C string holds no NUL byte before its terminator. */
  predicate IsCName(s: seq<byte>)
  {
    forall i :: 0 <= i < |s| ==> s[i] != 0
  }

  /** The C string held in a fixed-width field: the bytes before the first
      NUL, or the whole field when it holds none. */
  function CString(b: seq<byte>): (s: seq<byte>)
    ensures |s| <= |b| && s == b[..|s|] && IsCName(s)
    ensures |s| < |b| ==> b[|s|] == 0
  {
    if |b| == 0 || b[0] == 0 then [] else [b[0]] + CString(b[1..])
  }

  /** strcpy into a zeroed 32-byte field: the name, then NUL padding. */
  function EncodeName(name: seq<byte>): (b: seq<byte>)
    requires |name| <= NAME_SIZE
    ensures |b| == NAME_SIZE && b[..|name|] == name
  {
    name + Zeros(NAME_SIZE - |name|)
  }

  /** A C name followed by NUL padding reads back as that name. */
  lemma {:induction false} CStringPadded(name: seq<byte>, k: nat)
    requires IsCName(name)
    ensures CString(name + Zeros(k)) == name
  {
    var b := name + Zeros(k);
    if name != [] {
      assert b[0] == name[0] != 0;
      assert b[1..] == name[1..] + Zeros(k);
      CStringPadded(name[1..], k);
      assert name == [name[0]] + name[1..];
    } else if k > 0 {
      assert b[0] == 0;
    }
  }

  /** Reading back a padded name gives the name, so strcmp against the
      field compares against exactly the stored name. */
  lemma NameRoundTrip(name: seq<byte>)
    requires |name| <= NAME_SIZE && IsCName(name)
    ensures CString(EncodeName(name)) == name
  {
    CStringPadded(name, NAME_SIZE - |name|);
  }

  /** One inode (struct Inodo): name, size in bytes, CRC of its data block. */
  datatype Inode = Inode(name: seq<byte>, size: uint16, crc: uint16)

  /** The record of a free slot: memset to zero, so the name is empty. */
  const EmptyInode := Inode([], 0, 0)

  /** An inode whose name fits its field as a C string. */
  predicate WellFormed(i: Inode)
  {
    |i.name| <= NAME_SIZE && IsCName(i.name)
  }

  function EncodeInode(i: Inode): (b: seq<byte>)
    requires |i.name| <= NAME_SIZE
    ensures |b| == INODE_SIZE
  {
    EncodeName(i.name) + EncodeU16(i.size) + EncodeU16(i.crc)
  }

  /** A well-formed record survives being written out and read back. */
  lemma InodeRoundTrip(i: Inode)
    requires WellFormed(i)
    ensures DecodeInode(EncodeInode(i)) == i
  {
    var b := EncodeInode(i);
    assert b[..NAME_SIZE] == EncodeName(i.name);
    assert b[NAME_SIZE..NAME_SIZE + 2] == EncodeU16(i.size);
    assert b[NAME_SIZE + 2..INODE_SIZE] == EncodeU16(i.crc);
    NameRoundTrip(i.name);
  }

  function DecodeInode(b: seq<byte>): (i: Inode)
    requires |b| == INODE_SIZE
    ensures WellFormed(i)
  {
    Inode(CString(b[..NAME_SIZE]), DecodeU16(b[NAME_SIZE..NAME_SIZE + 2]),
          DecodeU16(b[NAME_SIZE + 2..INODE_SIZE]))
  }

  /** Every record of a table is well formed. */
  predicate AllWellFormed(s: seq<Inode>)
  {
    forall i :: 0 <= i < |s| ==> WellFormed(s[i])
  }

  /** The records of a table, back to back (memcpy of the Inodo array). */
  function EncodeInodes(s: seq<Inode>): (b: seq<byte>)
    requires AllWellFormed(s)
    ensures |b| == INODE_SIZE * |s|
  {
    if s == [] then [] else EncodeInode(s[0]) + EncodeInodes(s[1..])
  }

  /** The `count` records at the start of `b`. */
  function DecodeInodes(b: seq<byte>, count: nat): (s: seq<Inode>)
    requires INODE_SIZE * count <= |b|
    ensures |s| == count
    ensures AllWellFormed(s)
  {
    seq(count, i requires 0 <= i < count =>
      DecodeInode(b[INODE_SIZE * i..INODE_SIZE * i + INODE_SIZE]))
  }

  /** Record `k` of an encoded table sits at byte offset 36 * k. */
  lemma {:induction false} EncodeInodesAt(s: seq<Inode>, k: nat)
    requires AllWellFormed(s) && k < |s|
    ensures EncodeInodes(s)[INODE_SIZE * k..INODE_SIZE * k + INODE_SIZE] == EncodeInode(s[k])
  {
    var e := EncodeInodes(s);
    assert e == EncodeInode(s[0]) + EncodeInodes(s[1..]);
    if k > 0 {
      EncodeInodesAt(s[1..], k - 1);
      assert e[INODE_SIZE * k..INODE_SIZE * k + INODE_SIZE]
          == EncodeInodes(s[1..])[INODE_SIZE * (k - 1)..INODE_SIZE * (k - 1) + INODE_SIZE];
    }
  }

  lemma ConcatAssoc(x: seq<byte>, y: seq<byte>, z: seq<byte>)
    ensures x + (y + z) == (x + y) + z
  {
  }

  /** Encoding a table split in two is encoding each half in turn. */
  lemma {:induction false} EncodeInodesAppend(a: seq<Inode>, b: seq<Inode>)
    requires AllWellFormed(a) && AllWellFormed(b)
    ensures AllWellFormed(a + b)
    ensures EncodeInodes(a + b) == EncodeInodes(a) + EncodeInodes(b)
  {
    var c := a + b;
    if a == [] {
      assert c == b;
    } else {
      assert c[0] == a[0] && c[1..] == a[1..] + b;
      EncodeInodesAppend(a[1..], b);
      var x := EncodeInode(a[0]);
      assert EncodeInodes(c) == x + EncodeInodes(c[1..]);
      assert EncodeInodes(a) == x + EncodeInodes(a[1..]);
      ConcatAssoc(x, EncodeInodes(a[1..]), EncodeInodes(b));
    }
  }

  lemma SplitAt(x: seq<byte>, y: seq<byte>)
    ensures (x + y)[..|x|] == x && (x + y)[|x|..] == y
  {
  }

  lemma SliceOfPrefix(e: seq<byte>, rest: seq<byte>, lo: nat, hi: nat)
    requires lo <= hi <= |e|
    ensures (e + rest)[lo..hi] == e[lo..hi]
  {
  }

  /** Record `k` of an encoded table, whatever follows it, decodes to `s[k]`. */
  lemma DecodeEncodedAt(s: seq<Inode>, rest: seq<byte>, k: nat)
    requires AllWellFormed(s) && k < |s|
    ensures INODE_SIZE * |s| <= |EncodeInodes(s) + rest|
    ensures DecodeInodes(EncodeInodes(s) + rest, |s|)[k] == s[k]
  {
    var e := EncodeInodes(s);
    var b := e + rest;
    var lo := INODE_SIZE * k;
    EncodeInodesAt(s, k);
    assert lo + INODE_SIZE <= |e|;
    SliceOfPrefix(e, rest, lo, lo + INODE_SIZE);
    InodeRoundTrip(s[k]);
    assert DecodeInode(b[lo..lo + INODE_SIZE]) == s[k];
    var d := DecodeInodes(b, |s|);
    assert d[k] == DecodeInode(b[lo..lo + INODE_SIZE]);
  }

  /** Decoding an encoded table, whatever follows it, gives the table back. */
  lemma InodesRoundTrip(s: seq<Inode>, rest: seq<byte>)
    requires AllWellFormed(s)
    ensures DecodeInodes(EncodeInodes(s) + rest, |s|) == s
  {
    var d := DecodeInodes(EncodeInodes(s) + rest, |s|);
    forall k | 0 <= k < |s| ensures d[k] == s[k] {
      DecodeEncodedAt(s, rest, k);
    }
  }
}
