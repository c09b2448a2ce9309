/** fs/c14c_inode.c: the inode table on the disk. A record takes 76 bytes, so records straddle
    sectors; a sync must touch its own 76 bytes only. */
module Inodes {
  import opened Bytes
  import opened Ide

  const TABLE_SECTORS := 76  // what partition_format_init reserves

  /** The fields that survive on the disk. */
  datatype Fields = Fields(id: word, size: word, blocks: seq<word>)

  class Inode {
    var id: word
    var size: word
    var openCount: nat
    var writeDeny: bool
    var blocks: seq<word>  // 12 direct blocks and the indirect table

    /** inode_init */
    constructor (id: word)
      ensures this.id == id && size == 0 && openCount == 0 && !writeDeny && blocks == seq(13, _ => 0)
    {
      this.id := id;
      size := 0;
      openCount := 0;
      writeDeny := false;
      blocks := seq(13, _ => 0);
    }

    constructor Loaded(f: Fields)
      ensures id == f.id && size == f.size && blocks == f.blocks && openCount == 1 && !writeDeny
    {
      id := f.id;
      size := f.size;
      blocks := f.blocks;
      openCount := 1;
      writeDeny := false;
    }

    function Persistent(): Fields
      reads this
    {
      Fields(id, size, blocks)
    }
  }

  /** The record a sync writes. */
  function Encode(f: Fields): (bs: seq<byte>)
    requires |f.blocks| == 13
    ensures |bs| == 76
  {
    WordsToBytes([f.id, f.size, 0, 0] + f.blocks + [0, 0])
  }

  lemma ZeroDigit(i: nat)
    requires i < 4
    ensures Digit(0, i) == 0
  {
  }

  /** The fields are where the structure has them; open count, write flag and list links go out as zero. */
  lemma RecordBytes(f: Fields)
    requires |f.blocks| == 13
    ensures var bs := Encode(f);
      && WordAt(bs, 0) == f.id && WordAt(bs, 4) == f.size
      && (forall k :: 8 <= k < 16 ==> bs[k] == 0)
      && (forall j :: 0 <= j < 13 ==> WordAt(bs, 16 + 4 * j) == f.blocks[j])
      && forall k :: 68 <= k < 76 ==> bs[k] == 0
  {
    hide WordAt, Digit;
    var ws := [f.id, f.size, 0, 0] + f.blocks + [0, 0];
    forall k | 8 <= k < 16 || 68 <= k < 76 ensures Encode(f)[k] == 0 {
      assert ws[k / 4] == 0;
      ZeroDigit(k % 4);
    }
    WordsToBytesAt(ws, 0);
    WordsToBytesAt(ws, 1);
    forall j | 0 <= j < 13 ensures WordAt(Encode(f), 16 + 4 * j) == f.blocks[j] {
      WordsToBytesAt(ws, 4 + j);
    }
  }

  function Decode(bs: seq<byte>): (f: Fields)
    requires |bs| == 76
    ensures |f.blocks| == 13
  {
    var ws := BytesToWords(bs);
    Fields(ws[0], ws[1], ws[4..17])
  }

  lemma DecodeEncode(f: Fields)
    requires |f.blocks| == 13
    ensures Decode(Encode(f)) == f
  {
    var ws := [f.id, f.size, 0, 0] + f.blocks + [0, 0];
    WordsRoundTrip(ws);
    assert ws[4..17] == f.blocks;
  }

  datatype Position = Position(twoSectors: bool, sector: nat, offset: nat)

  /** inode_locate: where a record starts and whether it runs into the next sector. */
  function Locate(id: nat): (p: Position)
    ensures p.offset < 512 && 512 * p.sector + p.offset == 76 * id
    ensures p.twoSectors <==> p.offset + 76 > 512
    ensures id < 512 ==> p.sector + (if p.twoSectors then 2 else 1) <= TABLE_SECTORS
  {
    var bytes := 76 * id;
    Position(512 - bytes % 512 < 76, bytes / 512, bytes % 512)
  }

  /** The disk has the sectors of record `id`. */
  predicate Reaches(sectors: seq<Sector>, table: nat, id: nat) {
    table + Locate(id).sector + (if Locate(id).twoSectors then 2 else 1) <= |sectors|
  }

  /** Byte `k` of record `id`, in its first sector or in the one after. */
  function RecordByte(sectors: seq<Sector>, table: nat, id: nat, k: nat): byte
    requires Reaches(sectors, table, id) && k < 76
  {
    var pos := Locate(id);
    if pos.offset + k < 512 then sectors[table + pos.sector][pos.offset + k]
    else sectors[table + pos.sector + 1][pos.offset + k - 512]
  }

  function RecordAt(sectors: seq<Sector>, table: nat, id: nat): (bs: seq<byte>)
    requires Reaches(sectors, table, id)
    ensures |bs| == 76
  {
    seq(76, k requires 0 <= k < 76 => RecordByte(sectors, table, id, k))
  }

  function Join(a: seq<byte>, b: seq<byte>): seq<byte> {
    a + b
  }

  function Spliced(buf: seq<byte>, at: nat, part: seq<byte>): (r: seq<byte>)
    requires at + |part| <= |buf|
    ensures |r| == |buf|
  {
    buf[..at] + part + buf[at + |part|..]
  }

  function SyncedByte(before: seq<Sector>, table: nat, id: nat, record: seq<byte>, l: nat, o: nat): byte
    requires table <= l < |before| && o < 512 && |record| == 76
  {
    var p := 512 * (l - table) + o;
    if 76 * id <= p < 76 * id + 76 then record[p - 76 * id] else before[l][o]
  }

  /** What a sync of record `id` must leave: its own bytes in the table, everything else as before. */
  ghost predicate OnlyRecordChanged(before: seq<Sector>, after: seq<Sector>, table: nat, id: nat, record: seq<byte>)
    requires table + TABLE_SECTORS <= |before| && |after| == |before| && id < 512 && |record| == 76
  {
    && (forall l, o :: table <= l < table + TABLE_SECTORS && 0 <= o < 512 ==>
         after[l][o] == SyncedByte(before, table, id, record, l, o))
    && forall l :: 0 <= l < |before| && !(table <= l < table + TABLE_SECTORS) ==> after[l] == before[l]
  }

  /** A record within one sector. */
  lemma SpliceOne(before: seq<Sector>, table: nat, id: nat, record: seq<byte>)
    requires table + TABLE_SECTORS <= |before| && id < 512 && |record| == 76 && !Locate(id).twoSectors
    ensures var pos := Locate(id); var lba := table + pos.sector;
      OnlyRecordChanged(before, Overlay(before, lba, [Spliced(before[lba], pos.offset, record)]), table, id, record)
  {
    var pos := Locate(id);
    var lba := table + pos.sector;
    var after := Overlay(before, lba, [Spliced(before[lba], pos.offset, record)]);
    forall l, o | table <= l < table + TABLE_SECTORS && 0 <= o < 512
      ensures after[l][o] == SyncedByte(before, table, id, record, l, o)
    {
      PositionOf(id, table, l, o);
    }
  }

  /** A record that runs into the next sector. */
  lemma SpliceTwo(before: seq<Sector>, table: nat, id: nat, record: seq<byte>)
    requires table + TABLE_SECTORS <= |before| && id < 512 && |record| == 76 && Locate(id).twoSectors
    ensures var pos := Locate(id); var lba := table + pos.sector;
      var bytes := Spliced(Join(before[lba], before[lba + 1]), pos.offset, record);
      OnlyRecordChanged(before, Overlay(before, lba, [bytes[..512], bytes[512..]]), table, id, record)
  {
    var pos := Locate(id);
    var lba := table + pos.sector;
    var bytes := Spliced(Join(before[lba], before[lba + 1]), pos.offset, record);
    var after := Overlay(before, lba, [bytes[..512], bytes[512..]]);
    forall l, o | table <= l < table + TABLE_SECTORS && 0 <= o < 512
      ensures after[l][o] == SyncedByte(before, table, id, record, l, o)
    {
      PositionOf(id, table, l, o);
    }
  }

  /** Byte `o` of sector `l`, counted from where the record starts. */
  lemma PositionOf(id: nat, table: nat, l: nat, o: nat)
    requires table <= l
    ensures 512 * (l - table) + o == 76 * id + 512 * (l - (table + Locate(id).sector)) + o - Locate(id).offset
  {
  }

  lemma SplicePlacesRecord(before: seq<Sector>, table: nat, id: nat, record: seq<byte>)
    requires table + TABLE_SECTORS <= |before| && id < 512 && |record| == 76
    ensures var pos := Locate(id); var lba := table + pos.sector;
      if pos.twoSectors then
        var bytes := Spliced(Join(before[lba], before[lba + 1]), pos.offset, record);
        OnlyRecordChanged(before, Overlay(before, lba, [bytes[..512], bytes[512..]]), table, id, record)
      else
        OnlyRecordChanged(before, Overlay(before, lba, [Spliced(before[lba], pos.offset, record)]), table, id, record)
  {
    hide Locate, Overlay, Spliced, Join, OnlyRecordChanged;
    if Locate(id).twoSectors {
      SpliceTwo(before, table, id, record);
    } else {
      SpliceOne(before, table, id, record);
    }
  }

  /** Putting a record in its place, in one sector or across two. */
  method PutRecord(disk: Disk, table: nat, id: nat, record: seq<byte>)
    requires table + TABLE_SECTORS <= |disk.sectors| <= MAX_LBA + 1 && id < 512 && |record| == 76
    modifies disk
    ensures |disk.sectors| == |old(disk.sectors)|
    ensures OnlyRecordChanged(old(disk.sectors), disk.sectors, table, id, record)
  {
    var pos := Locate(id);
    var lba := table + pos.sector;
    SplicePlacesRecord(disk.sectors, table, id, record);
    hide OnlyRecordChanged, Spliced;
    if pos.twoSectors {
      var buf := disk.Read(lba, 2);
      var bytes := Spliced(Join(buf[0], buf[1]), pos.offset, record);
      disk.Write(lba, [bytes[..512], bytes[512..]]);
    } else {
      var buf := disk.Read(lba, 1);
      disk.Write(lba, [Spliced(buf[0], pos.offset, record)]);
    }
  }

  /** inode_sync. The record number passes through an unsigned char. */
  method Sync(disk: Disk, table: nat, inode: Inode)
    requires table + TABLE_SECTORS <= |disk.sectors| <= MAX_LBA + 1
    requires |inode.blocks| == 13
    modifies disk
    ensures |disk.sectors| == |old(disk.sectors)|
    ensures OnlyRecordChanged(old(disk.sectors), disk.sectors, table, inode.id % 256, Encode(inode.Persistent()))
  {
    PutRecord(disk, table, inode.id % 256, Encode(inode.Persistent()));
  }

  /** The part of inode_open that reads a record the cache does not hold. Numbers from 512 on are let
      through; their records are behind the table. */
  method Load(disk: Disk, table: nat, id: nat) returns (inode: Inode)
    requires id < 4096 && Reaches(disk.sectors, table, id) && |disk.sectors| <= MAX_LBA + 1
    ensures fresh(inode) && inode.openCount == 1
    ensures inode.Persistent() == Decode(RecordAt(disk.sectors, table, id))
  {
    var pos := Locate(id);
    var bytes: seq<byte>;
    if pos.twoSectors {
      var buf := disk.Read(table + pos.sector, 2);
      bytes := Join(buf[0], buf[1]);
    } else {
      var buf := disk.Read(table + pos.sector, 1);
      bytes := buf[0];
    }
    assert bytes[pos.offset..pos.offset + 76] == RecordAt(disk.sectors, table, id);
    inode := new Inode.Loaded(Decode(bytes[pos.offset..pos.offset + 76]));
  }

  /** A sync puts its record in place and leaves every other record of the table alone. */
  lemma TableAfterSync(before: seq<Sector>, after: seq<Sector>, table: nat, id: nat, record: seq<byte>, other: nat)
    requires table + TABLE_SECTORS <= |before| && |after| == |before| && id < 512 && |record| == 76 && other < 512
    requires OnlyRecordChanged(before, after, table, id, record)
    ensures RecordAt(after, table, other) == if other == id then record else RecordAt(before, table, other)
  {
    var pos := Locate(other);
    forall k: nat | k < 76
      ensures RecordByte(after, table, other, k)
           == if other == id then record[k] else RecordByte(before, table, other, k)
    {
      var q := pos.offset + k;
      var s, o := if q < 512 then pos.sector else pos.sector + 1, if q < 512 then q else q - 512;
      assert 512 * s + o == 76 * other + k;
      assert RecordByte(after, table, other,
                        k) == after[table + s][o] == SyncedByte(before, table, id, record, table + s, o);
    }
  }

  /** After a sync, inode_open finds the fields again when the id fits in the unsigned char; a
      larger id is written over the record of another inode and its own stays stale. */
  lemma SyncThenOpen(before: seq<Sector>, after: seq<Sector>, table: nat, f: Fields)
    requires table + TABLE_SECTORS <= |before| && |after| == |before| && |f.blocks| == 13 && f.id < 512
    requires OnlyRecordChanged(before, after, table, f.id % 256, Encode(f))
    ensures RecordAt(after, table, f.id % 256) == Encode(f) && Decode(Encode(f)) == f
    ensures f.id >= 256 ==> RecordAt(after, table, f.id) == RecordAt(before, table, f.id)
  {
    DecodeEncode(f);
    var record := Encode(f);
    TableAfterSync(before, after, table, f.id % 256, record, f.id);
    TableAfterSync(before, after, table, f.id % 256, record, f.id % 256);
  }
}
