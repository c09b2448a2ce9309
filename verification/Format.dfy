/** fs/c14a_fs.c: partition_format_init lays a file system out on a partition, mount_partition reads it in. */
module Formats {
  import opened Debug
  import opened Bytes
  import opened Ide
  import opened BitSectors
  import opened Inodes
  import opened Volumes
  import opened OpenInodes
  import opened FileData
  import opened DirData
  import opened Dirs
  import opened Names
  import opened MakeDirs

  const MAGIC: word := 0x1959_0318
  const OVERHEAD := 79  // boot block, super block, inode bitmap, inode table
  const MAX_FILES: word := 4096

  function RoundUp(x: nat): nat {
    (x + BITS_PER_SECTOR - 1) / BITS_PER_SECTOR
  }

  /** The first guess at the size of the block bitmap is taken off the free sectors. */
  function FirstGuess(sectors: nat): nat
    requires sectors >= OVERHEAD
  {
    RoundUp(sectors - OVERHEAD)
  }

  /** block_bitmap_bit_len */
  function BitLen(sectors: nat): (n: nat)
    requires sectors >= OVERHEAD
    ensures n + FirstGuess(sectors) + OVERHEAD == sectors
  {
    sectors - OVERHEAD - FirstGuess(sectors)
  }

  /** What is left decides the size again; it may now be one sector less. */
  function MapSectors(sectors: nat): (n: nat)
    requires sectors >= OVERHEAD
    ensures n <= FirstGuess(sectors) && n <= 1 + (sectors - OVERHEAD) / BITS_PER_SECTOR
    ensures BITS_PER_SECTOR * n >= BitLen(sectors) > BITS_PER_SECTOR * (n - 1)
    ensures n == 0 <==> sectors <= OVERHEAD + 1
  {
    RoundUp(BitLen(sectors))
  }

  function DataStart(start: nat, sectors: nat): nat
    requires sectors >= OVERHEAD
  {
    start + OVERHEAD + MapSectors(sectors)
  }

  /** How many bits of the block bitmap partition_format_init leaves to hand out. */
  function Usable(sectors: nat): nat
    requires sectors >= OVERHEAD
  {
    if BitLen(sectors) % BITS_PER_SECTOR == 0 then BitLen(sectors) else BitLen(sectors) + 1
  }

  /** Bit `b` of the block bitmap on a fresh partition. */
  predicate FreshBit(sectors: nat, b: nat)
    requires sectors >= OVERHEAD
  {
    (b == 0 && BitLen(sectors) >= 8) || b > BitLen(sectors)
  }

  /** The loop that clears the bits of the last byte runs one bit too far: the bitmap hands out blocks
      of the partition only when that bit is not in it, or when a sector was saved. */
  lemma HandsOutOwnBlocks(start: nat, sectors: nat)
    requires sectors > OVERHEAD + 1
    ensures (forall b: nat :: b < BITS_PER_SECTOR * MapSectors(sectors) && !FreshBit(sectors, b) ==>
               DataStart(start, sectors) + b < start + sectors)
      <==> BitLen(sectors) % BITS_PER_SECTOR == 0 || MapSectors(sectors) < FirstGuess(sectors)
  {
    var n := BitLen(sectors);
    if n % BITS_PER_SECTOR != 0 && MapSectors(sectors) == FirstGuess(sectors) {
      assert n < BITS_PER_SECTOR * MapSectors(sectors) && !FreshBit(sectors, n);
    }
  }

  /** A partition of 8192 sectors is such a case: its bitmap offers the first sector behind it. */
  lemma OffersOneTooMany(start: nat)
    ensures !FreshBit(8192, BitLen(8192)) && BitLen(8192) < BITS_PER_SECTOR * MapSectors(8192)
    ensures DataStart(start, 8192) + BitLen(8192) == start + 8192
  {
  }

  function Filled(buf: seq<bool>, from: nat, to: nat): (r: seq<bool>)
    requires from <= to <= |buf|
    ensures |r| == |buf| && forall b :: 0 <= b < |buf| ==> r[b] == (from <= b < to || buf[b])
  {
    seq(|buf|, b requires 0 <= b < |buf| => from <= b < to || buf[b])
  }

  lemma WholeSectors(n: nat, m: nat)
    requires BITS_PER_SECTOR * (m - 1) < n <= BITS_PER_SECTOR * m
    ensures var end := 8 * (n / 8) + 8 * (512 - n / 8 % 512);
      end <= BITS_PER_SECTOR * (m + 1) && (n < BITS_PER_SECTOR * m ==> end == BITS_PER_SECTOR * m)
  {
    var q, r := n / 8 / 512, n / 8 % 512;
    assert n / 8 == 512 * q + r;
    assert 8 * (n / 8) + 8 * (512 - r) == BITS_PER_SECTOR * (q + 1);
    assert BITS_PER_SECTOR * q <= n < BITS_PER_SECTOR * (q + 1);
  }

  /** From the last byte to the end of its sector; behind the bitmap when that ends with the sector. */
  lemma LastSector(sectors: nat, lastByte: nat, lastSize: nat)
    requires sectors > OVERHEAD + 1 && lastByte == BitLen(sectors) / 8 && lastSize == 512 - lastByte % 512
    ensures 8 * lastByte + 8 * lastSize <= BITS_PER_SECTOR * (MapSectors(sectors) + 1)
    ensures BitLen(sectors) < BITS_PER_SECTOR * MapSectors(sectors) ==>
      8 * lastByte + 8 * lastSize == BITS_PER_SECTOR * MapSectors(sectors)
  {
    hide MapSectors, BitLen;
    WholeSectors(BitLen(sectors), MapSectors(sectors));
  }

  lemma FreshByParts(sectors: nat, lastByte: nat, lastSize: nat, b: nat)
    requires sectors > OVERHEAD + 1 && lastByte == BitLen(sectors) / 8 && lastSize == 512 - lastByte % 512
    requires b < BITS_PER_SECTOR * MapSectors(sectors)
    ensures FreshBit(sectors, b) <==>
      (8 * lastByte <= b < 8 * lastByte + 8 * lastSize || b == 0) && !(8 * lastByte <= b <= BitLen(sectors))
  {
    hide MapSectors, BitLen;
    LastSector(sectors, lastByte, lastSize);
  }

  /** The block bitmap in the buffer, before it goes to the disk. */
  method BlockMapBits(sectors: nat, size: nat) returns (buf: seq<bool>)
    requires sectors > OVERHEAD + 1 && size > MapSectors(sectors)
    ensures |buf| == BITS_PER_SECTOR * size
    ensures forall b: nat :: b < BITS_PER_SECTOR * MapSectors(sectors) ==> (buf[b] <==> FreshBit(sectors, b))
  {
    hide FreshBit, MapSectors, BitLen;
    var n := BitLen(sectors);
    buf := seq(BITS_PER_SECTOR * size, _ => false);
    buf := buf[0 := true];
    var lastByte, lastBit := n / 8, n % 8;
    var lastSize := 512 - lastByte % 512;
    LastSector(sectors, lastByte, lastSize);
    buf := Filled(buf, 8 * lastByte, 8 * lastByte + 8 * lastSize);
    ghost var filled := buf;
    var bit := 0;
    while bit <= lastBit
      invariant bit <= lastBit + 1 && |buf| == |filled|
      invariant forall b :: 0 <= b < |buf| ==> buf[b] == (filled[b] && !(8 * lastByte <= b < 8 * lastByte + bit))
    {
      buf := buf[8 * lastByte + bit := false];
      bit := bit + 1;
    }
    forall b: nat | b < BITS_PER_SECTOR * MapSectors(sectors) ensures buf[b] <==> FreshBit(sectors, b) {
      FreshByParts(sectors, lastByte, lastSize, b);
    }
  }

  /** The super block's 13 words. */
  function Super(start: nat, sectors: nat): (ws: seq<word>)
    requires OVERHEAD + 1 < sectors && start + sectors <= MAX_LBA + 1
    ensures |ws| == 13
  {
    var n := MapSectors(sectors);
    [MAGIC, sectors, MAX_FILES, start, start + 2, n, start + 2 + n, 1,
     start + 3 + n, TABLE_SECTORS, start + OVERHEAD + n, 0, ENTRY]
  }

  /** What filesys_init looks for in the super block. */
  predicate HasFileSystem(super: Sector) {
    WordAt(super, 0) == 0x1959_0318
  }

  /** Super block, block bitmap, inode bitmap, inode table and data area follow each other behind the boot
      sector, the inode bitmap has a bit for each of the 4096 inodes, and the table has as many sectors as
      76 * 4096 bytes are by 4096 bytes to the sector. */
  lemma SuperLayout(start: nat, sectors: nat)
    requires OVERHEAD + 1 < sectors && start + sectors <= MAX_LBA + 1
    ensures var ws := Super(start, sectors);
      && ws[0] == 0x1959_0318 && ws[1] == sectors && ws[3] == start && ws[11] == 0 && ws[12] == 24
      && ws[4] == start + 2 && ws[6] == ws[4] + ws[5] && ws[8] == ws[6] + ws[7] && ws[10] == ws[8] + ws[9]
      && ws[2] == BITS_PER_SECTOR * ws[7] && ws[9] == (76 * ws[2] + 4095) / 4096
      && BITS_PER_SECTOR * (ws[5] - 1) < BitLen(sectors) <= BITS_PER_SECTOR * ws[5]
  {
  }

  /** The first sector of the inode table holds the root's record. */
  function RootRecordSector(data: word): Sector {
    Encode(Record(0, DirNode(data))) + Zeros(436)
  }

  /** What a freshly formatted partition holds. */
  ghost predicate Formatted(disk: seq<Sector>, start: nat, sectors: nat) {
    && OVERHEAD + 1 < sectors && start + sectors <= |disk| <= MAX_LBA + 1
    && (forall i :: 0 <= i < 13 ==> WordAt(disk[start + 1], 4 * i) == Super(start, sectors)[i])
    && (forall b: nat :: b < BITS_PER_SECTOR * MapSectors(sectors) ==>
          BitAt(disk, start + 2, b) == FreshBit(sectors, b))
    && (forall b: nat :: b < BITS_PER_SECTOR ==> BitAt(disk, start + 2 + MapSectors(sectors), b) == RootBit()[b])
    && disk[start + 3 + MapSectors(sectors)] == RootRecordSector(DataStart(start, sectors))
    && disk[DataStart(start, sectors)] == DotSector(0, 0)
  }

  /** Only bit 0 of the inode bitmap is set. */
  function RootBit(): (bits: seq<bool>)
    ensures |bits| == BITS_PER_SECTOR
  {
    seq(BITS_PER_SECTOR, b => b == 0)
  }

  /** What the five writes put on the disk, from the super block to the root's first block. */
  function ImageAt(start: nat, sectors: nat, buf: seq<bool>, rest: seq<byte>, i: nat): Sector
    requires OVERHEAD + 1 < sectors && start + sectors <= MAX_LBA + 1
    requires |buf| >= BITS_PER_SECTOR * MapSectors(sectors) && |rest| == 460
  {
    var n := MapSectors(sectors);
    if i == 0 then WordsToBytes(Super(start, sectors)) + rest
    else if i <= n then Packed(buf, n)[i - 1]
    else if i == n + 1 then Packed(RootBit(), 1)[0]
    else if i == n + 2 then RootRecordSector(start + OVERHEAD + n)
    else if i < n + 78 then BlankSector()
    else DotSector(0, 0)
  }

  function Image(start: nat, sectors: nat, buf: seq<bool>, rest: seq<byte>): (image: seq<Sector>)
    requires OVERHEAD + 1 < sectors && start + sectors <= MAX_LBA + 1
    requires |buf| >= BITS_PER_SECTOR * MapSectors(sectors) && |rest| == 460
    ensures |image| == OVERHEAD + MapSectors(sectors)
  {
    seq(OVERHEAD + MapSectors(sectors), i requires 0 <= i => ImageAt(start, sectors, buf, rest, i))
  }

  function Laid(disk: seq<Sector>, start: nat, sectors: nat, buf: seq<bool>, rest: seq<byte>): (d: seq<Sector>)
    requires OVERHEAD + 1 < sectors && start + sectors <= |disk| <= MAX_LBA + 1
    requires |buf| >= BITS_PER_SECTOR * MapSectors(sectors) && |rest| == 460
    ensures |d| == |disk|
  {
    Overlay(disk, start + 1, Image(start, sectors, buf, rest))
  }

  lemma SuperReads(disk: seq<Sector>, lba: nat, start: nat, sectors: nat, rest: seq<byte>, i: nat)
    requires OVERHEAD + 1 < sectors && start + sectors <= MAX_LBA + 1 && lba < |disk| && i < 13 && |rest| == 460
    requires disk[lba] == WordsToBytes(Super(start, sectors)) + rest
    ensures WordAt(disk[lba], 4 * i) == Super(start, sectors)[i]
  {
    hide Super;
    WordsToBytesAt(Super(start, sectors), i);
  }

  lemma LaidReads(disk: seq<Sector>, start: nat, sectors: nat, buf: seq<bool>, rest: seq<byte>, l: nat)
    requires OVERHEAD + 1 < sectors && start + sectors <= |disk| <= MAX_LBA + 1 && l < |disk|
    requires |buf| >= BITS_PER_SECTOR * MapSectors(sectors) && |rest| == 460
    ensures Laid(disk, start, sectors, buf, rest)[l] ==
            if start < l <= DataStart(start, sectors) then Image(start, sectors, buf, rest)[l - start - 1] else disk[l]
  {
    hide Image, BitLen, MapSectors;
  }

  lemma SuperLaid(disk: seq<Sector>, start: nat, sectors: nat, buf: seq<bool>, rest: seq<byte>, i: nat)
    requires OVERHEAD + 1 < sectors && start + sectors <= |disk| <= MAX_LBA + 1 && i < 13
    requires |buf| >= BITS_PER_SECTOR * MapSectors(sectors) && |rest| == 460
    ensures WordAt(Laid(disk, start, sectors, buf, rest)[start + 1], 4 * i) == Super(start, sectors)[i]
  {
    hide Laid, Super, WordAt, WordsToBytes, Packed, RootBit, RootRecordSector, DotSector, BlankSector;
    LaidReads(disk, start, sectors, buf, rest, start + 1);
    SuperReads(Laid(disk, start, sectors, buf, rest), start + 1, start, sectors, rest, i);
  }

  lemma BlockMapLaid(disk: seq<Sector>, start: nat, sectors: nat, buf: seq<bool>, rest: seq<byte>, b: nat)
    requires OVERHEAD + 1 < sectors && start + sectors <= |disk| <= MAX_LBA + 1
    requires b < BITS_PER_SECTOR * MapSectors(sectors)
    requires |buf| >= BITS_PER_SECTOR * MapSectors(sectors) && |rest| == 460
    ensures BitAt(Laid(disk, start, sectors, buf, rest), start + 2, b) == buf[b]
  {
    hide Laid, Super, WordsToBytes, Packed, RootBit, RootRecordSector, DotSector, BlankSector, BitAt, BitLen;
    var n, d := MapSectors(sectors), Laid(disk, start, sectors, buf, rest);
    forall j: nat | j < n ensures d[start + 2 + j] == Packed(buf, n)[j] {
      LaidReads(disk, start, sectors, buf, rest, start + 2 + j);
    }
    assert d[start + 2..start + 2 + n] == Packed(buf, n);
    BitReadsBack(d, start + 2, buf, n, b);
  }

  lemma InodeMapLaid(disk: seq<Sector>, start: nat, sectors: nat, buf: seq<bool>, rest: seq<byte>, b: nat)
    requires OVERHEAD + 1 < sectors && start + sectors <= |disk| <= MAX_LBA + 1 && b < BITS_PER_SECTOR
    requires |buf| >= BITS_PER_SECTOR * MapSectors(sectors) && |rest| == 460
    ensures BitAt(Laid(disk, start, sectors, buf, rest), start + 2 + MapSectors(sectors), b) == RootBit()[b]
  {
    hide Laid, Super, WordsToBytes, Packed, RootBit, RootRecordSector, DotSector, BlankSector, BitAt, BitLen;
    var n, d := MapSectors(sectors), Laid(disk, start, sectors, buf, rest);
    LaidReads(disk, start, sectors, buf, rest, start + 2 + n);
    assert d[start + 2 + n] == Packed(RootBit(), 1)[0];
    assert d[start + 2 + n..start + 2 + n + 1] == [d[start + 2 + n]] == Packed(RootBit(), 1);
    BitReadsBack(d, start + 2 + n, RootBit(), 1, b);
  }

  lemma LaidIsFormatted(disk: seq<Sector>, start: nat, sectors: nat, buf: seq<bool>, rest: seq<byte>)
    requires OVERHEAD + 1 < sectors && start + sectors <= |disk| <= MAX_LBA + 1
    requires |buf| >= BITS_PER_SECTOR * MapSectors(sectors) && |rest| == 460
    requires forall b: nat :: b < BITS_PER_SECTOR * MapSectors(sectors) ==> (buf[b] <==> FreshBit(sectors, b))
    ensures Formatted(Laid(disk, start, sectors, buf, rest), start, sectors)
  {
    hide Laid, Super, FreshBit, RootRecordSector, DotSector, BitAt, BlankSector, Packed, RootBit, WordAt,
      WordsToBytes;
    var n, d := MapSectors(sectors), Laid(disk, start, sectors, buf, rest);
    forall i: nat | i < 13 ensures WordAt(d[start + 1], 4 * i) == Super(start, sectors)[i] {
      SuperLaid(disk, start, sectors, buf, rest, i);
    }
    forall b: nat | b < BITS_PER_SECTOR * n ensures BitAt(d, start + 2, b) == FreshBit(sectors, b) {
      BlockMapLaid(disk, start, sectors, buf, rest, b);
    }
    forall b: nat | b < BITS_PER_SECTOR ensures BitAt(d, start + 2 + n, b) == RootBit()[b] {
      InodeMapLaid(disk, start, sectors, buf, rest, b);
    }
    LaidReads(disk, start, sectors, buf, rest, start + 3 + n);
    LaidReads(disk, start, sectors, buf, rest, start + OVERHEAD + n);
  }

  /** Outside the partition's own metadata and first data block nothing changes. */
  lemma LaidOutside(disk: seq<Sector>, start: nat, sectors: nat, buf: seq<bool>, rest: seq<byte>)
    requires OVERHEAD + 1 < sectors && start + sectors <= |disk| <= MAX_LBA + 1
    requires |buf| >= BITS_PER_SECTOR * MapSectors(sectors) && |rest| == 460
    ensures forall l: nat :: l < |disk| && !(start < l <= DataStart(start, sectors)) ==>
      Laid(disk, start, sectors, buf, rest)[l] == disk[l]
  {
    hide Laid;
    forall l: nat | l < |disk| && !(start < l <= DataStart(start, sectors))
      ensures Laid(disk, start, sectors, buf, rest)[l] == disk[l]
    {
      LaidReads(disk, start, sectors, buf, rest, l);
    }
  }

  /** All records but the root's are zero. */
  lemma LaidBlank(disk: seq<Sector>, start: nat, sectors: nat, buf: seq<bool>, rest: seq<byte>)
    requires OVERHEAD + 1 < sectors && start + sectors <= |disk| <= MAX_LBA + 1
    requires |buf| >= BITS_PER_SECTOR * MapSectors(sectors) && |rest| == 460
    ensures DataStart(start, sectors) < |disk|
    ensures forall l: nat :: start + 3 + MapSectors(sectors) < l < DataStart(start, sectors) ==>
      Laid(disk, start, sectors, buf, rest)[l] == BlankSector()
  {
    hide Laid, Super, WordsToBytes, Packed, RootBit, RootRecordSector, DotSector, BlankSector;
    forall l: nat | start + 3 + MapSectors(sectors) < l < DataStart(start, sectors)
      ensures Laid(disk, start, sectors, buf, rest)[l] == BlankSector()
    {
      LaidReads(disk, start, sectors, buf, rest, l);
    }
  }

  lemma Parts(start: nat, sectors: nat, buf: seq<bool>, rest: seq<byte>)
    requires OVERHEAD + 1 < sectors && start + sectors <= MAX_LBA + 1
    requires |buf| >= BITS_PER_SECTOR * MapSectors(sectors) && |rest| == 460
    ensures var n, image := MapSectors(sectors), Image(start, sectors, buf, rest);
      && image[..1] == [WordsToBytes(Super(start, sectors)) + rest] && image[1..1 + n] == Packed(buf, n)
      && image[1 + n..2 + n] == Packed(RootBit(), 1)
      && image[2 + n..78 + n] == [RootRecordSector(start + OVERHEAD + n)] + seq(75, _ => BlankSector())
      && image[78 + n..] == [DotSector(0, 0)]
  {
    hide Super, RootRecordSector, DotSector, BlankSector, Packed, RootBit, BitLen;
  }

  method WriteParts(disk: Disk, start: nat, sectors: nat, buf: seq<bool>, rest: seq<byte>)
    requires OVERHEAD + 1 < sectors && start + sectors <= |disk.sectors| <= MAX_LBA + 1
    requires |buf| >= BITS_PER_SECTOR * MapSectors(sectors) && |rest| == 460
    modifies disk
    ensures disk.sectors == Laid(old(disk.sectors), start, sectors, buf, rest)
  {
    hide Image, Super, RootRecordSector, DotSector, BitLen, BlankSector, Packed, RootBit, Overlay;
    var n := MapSectors(sectors);
    ghost var s0, image := disk.sectors, Image(start, sectors, buf, rest);
    Parts(start, sectors, buf, rest);
    disk.Write(start + 1, [WordsToBytes(Super(start, sectors)) + rest]);
    disk.Write(start + 2, Packed(buf, n));
    OverlayChunk(s0, start + 1, image, 1, 1 + n);
    disk.Write(start + 2 + n, Packed(RootBit(), 1));
    OverlayChunk(s0, start + 1, image, 1 + n, 2 + n);
    disk.Write(start + 3 + n, [RootRecordSector(start + OVERHEAD + n)] + seq(75, _ => BlankSector()));
    OverlayChunk(s0, start + 1, image, 2 + n, 78 + n);
    disk.Write(start + OVERHEAD + n, [DotSector(0, 0)]);
    OverlayChunk(s0, start + 1, image, 78 + n, 79 + n);
    assert image[78 + n..79 + n] == image[78 + n..] && image[..79 + n] == image;
  }

  /** partition_format_init. With less than two free sectors the block bitmap is empty and ide_write's
      ASSERT stops the kernel. */
  method Format(disk: Disk, start: nat, sectors: nat, rest: seq<byte>) returns (halted: bool)
    requires OVERHEAD <= sectors && start + sectors <= |disk.sectors| <= MAX_LBA + 1 && |rest| == 460
    modifies disk
    ensures halted <==> sectors <= OVERHEAD + 1
    ensures !halted ==> Formatted(disk.sectors, start, sectors) && |disk.sectors| == |old(disk.sectors)|
    ensures !halted ==>
      forall l: nat :: l < |disk.sectors| && !(start < l <= DataStart(start, sectors)) ==>
        disk.sectors[l] == old(disk.sectors)[l]
    ensures !halted ==>
      forall l: nat :: start + 3 + MapSectors(sectors) < l < DataStart(start, sectors) ==>
        disk.sectors[l] == BlankSector()
  {
    hide Formatted, FreshBit, BitLen, Laid, BlankSector;
    var n := MapSectors(sectors);
    if n == 0 {  // ASSERT
      return true;
    }
    var buf := BlockMapBits(sectors, if n >= TABLE_SECTORS then n + 1 else TABLE_SECTORS);
    LaidIsFormatted(disk.sectors, start, sectors, buf, rest);
    LaidOutside(disk.sectors, start, sectors, buf, rest);
    LaidBlank(disk.sectors, start, sectors, buf, rest);
    WriteParts(disk, start, sectors, buf, rest);
    halted := false;
  }

  /** What filesys_init does with a partition: one without a file system is formatted. */
  method FindOrFormat(disk: Disk, start: nat, sectors: nat, rest: seq<byte>) returns (halted: bool)
    requires OVERHEAD <= sectors && start + sectors <= |disk.sectors| <= MAX_LBA + 1 && |rest| == 460
    modifies disk
    ensures HasFileSystem(old(disk.sectors)[start + 1]) ==> !halted && disk.sectors == old(disk.sectors)
    ensures !HasFileSystem(old(disk.sectors)[start + 1]) ==>
      (halted <==> sectors <= OVERHEAD + 1) && (!halted ==> Formatted(disk.sectors, start, sectors))
    ensures !halted ==> |disk.sectors| == |old(disk.sectors)| && HasFileSystem(disk.sectors[start + 1])
  {
    hide HasFileSystem, Formatted;
    var super := disk.ReadSector(start + 1);
    if HasFileSystem(super) {
      return false;
    }
    halted := Format(disk, start, sectors, rest);
    if !halted {
      SuperSays(disk.sectors, start, sectors);
    }
  }

  function RootNodes(data: word): map<nat, Node> {
    map[0 := DirNode(data)]
  }

  function RootOwners(data: word): map<nat, Owner> {
    map[data as nat := Owner(0, 0)]
  }

  /** The bitmaps of a fresh partition say that the root owns the first block. */
  lemma FreshMapsAgree(disk: seq<Sector>, start: nat, sectors: nat)
    requires Formatted(disk, start, sectors) && BitLen(sectors) >= 8
    ensures var n, data := MapSectors(sectors), DataStart(start, sectors);
      && BitmapAgrees(Unpacked(disk[start + 2..start + 2 + n]), RootOwners(data), data, Usable(sectors))
      && IdsAgree(Unpacked(disk[start + 2 + n..start + 2 + n + 1]), RootNodes(data).Keys)
  {
    hide BitAt, Super, RootRecordSector, DotSector, Unpacked, WordAt, DirNode, MapSectors;
    var n, data := MapSectors(sectors), DataStart(start, sectors);
    MapSize(sectors);
    var bits, ids := Unpacked(disk[start + 2..start + 2 + n]), Unpacked(disk[start + 2 + n..start + 2 + n + 1]);
    forall b: nat | b < |bits| ensures bits[b] <==> b >= Usable(sectors) || data + b in RootOwners(data) {
      UnpackedAt(disk, start + 2, n, b);
      assert BitAt(disk, start + 2, b) == FreshBit(sectors, b);
    }
    forall i: nat | i < |ids| ensures ids[i] <==> i in RootNodes(data).Keys {
      UnpackedAt(disk, start + 2 + n, 1, i);
      assert BitAt(disk, start + 2 + n, i) == RootBit()[i];
    }
  }

  lemma MapSize(sectors: nat)
    requires sectors >= OVERHEAD
    ensures Usable(sectors) <= BITS_PER_SECTOR * MapSectors(sectors) < Usable(sectors) + BITS_PER_SECTOR
  {
  }

  /** The root's inode and block are where the owner map says, and read back. */
  lemma FreshRoot(disk: seq<Sector>, start: nat, sectors: nat)
    requires Formatted(disk, start, sectors)
    ensures var data := DataStart(start, sectors);
      && OwnersAgree(RootNodes(data), RootOwners(data)) && TablesIn(disk, RootNodes(data), {})
      && RecordsIn(disk, start + 3 + MapSectors(sectors), RootNodes(data), {})
      && Shows(disk, RootNodes(data)[0], DotEntries(0, 0)) && DirOk(RootNodes(data)[0], DotEntries(0, 0), 0, 0)
  {
    hide BitAt, Super, DotSector, DotEntries, WordAt, FreshBit, MapSectors, Encode, ShowsBlock;
    var table, data := start + 3 + MapSectors(sectors), DataStart(start, sectors);
    DirNodeShows(disk, data, 0, 0);
    DirNodeOk(data, 0, 0);
    assert DirNode(data).slots[13..] == EmptyNode().slots[13..] == Cleared(128);
    forall i, s ensures Slot(RootNodes(data), i, s) == if i == 0 && s == 0 then data else 0 {}
    assert RecordAt(disk, table, 0) == Encode(Record(0, DirNode(data))) by {
      forall k: nat | k < 76 ensures RecordByte(disk, table, 0, k) == Encode(Record(0, DirNode(data)))[k] {}
    }
  }

  lemma SuperSays(disk: seq<Sector>, start: nat, sectors: nat)
    requires Formatted(disk, start, sectors)
    ensures start + 1 < |disk|
    ensures var s, n := disk[start + 1], MapSectors(sectors);
      && WordAt(s, 4) == sectors && WordAt(s, 16) == start + 2 && WordAt(s, 20) == n && WordAt(s, 24) == start + 2 + n
      && WordAt(s, 32) == start + 3 + n && WordAt(s, 40) == start + OVERHEAD + n && HasFileSystem(s)
  {
    hide WordAt, BitAt, FreshBit, RootRecordSector, DotSector, BitLen;
    var s := disk[start + 1];
    assert WordAt(s, 4 * 1) == Super(start, sectors)[1] && WordAt(s, 4 * 4) == Super(start, sectors)[4];
    assert WordAt(s, 4 * 5) == Super(start, sectors)[5] && WordAt(s, 4 * 6) == Super(start, sectors)[6];
    assert WordAt(s, 4 * 8) == Super(start, sectors)[8] && WordAt(s, 4 * 10) == Super(start, sectors)[10];
    assert WordAt(s, 4 * 0) == Super(start, sectors)[0];
  }

  /** The super block of the partition describes the partition. */
  ghost predicate Described(part: Partition, start: nat, sectors: nat) {
    && sectors >= OVERHEAD && part.blockCount == Usable(sectors) && part.blockBitmapLba == start + 2
    && part.inodeBitmapLba > part.blockBitmapLba && part.inodeTableLba == part.inodeBitmapLba + 1
    && HasFileSystem(part.super) && WordAt(part.super, 4) == sectors && WordAt(part.super, 16) == part.blockBitmapLba
    && WordAt(part.super, 20) == part.inodeBitmapLba - part.blockBitmapLba
    && WordAt(part.super, 24) == part.inodeBitmapLba && WordAt(part.super, 32) == part.inodeTableLba
    && WordAt(part.super, 40) == part.dataStart
  }

  lemma FreshIsValid(part: Partition, start: nat, sectors: nat)
    requires Formatted(part.disk.sectors, start, sectors) && BitLen(sectors) >= 8
    requires DataStart(start, sectors) + Usable(sectors) <= |part.disk.sectors|
    requires part.blockBitmapLba == start + 2 && part.inodeBitmapLba == start + 2 + MapSectors(sectors)
    requires part.inodeTableLba == start + 3 + MapSectors(sectors) && part.dataStart == DataStart(start, sectors)
    requires part.blockCount == Usable(sectors) && part.super == part.disk.sectors[start + 1]
    requires part.blockMap == Unpacked(part.disk.sectors[part.blockBitmapLba..part.inodeBitmapLba])
    requires part.inodeMap == Unpacked(part.disk.sectors[part.inodeBitmapLba..part.inodeTableLba])
    requires part.nodes == RootNodes(part.dataStart) && part.owners == RootOwners(part.dataStart)
    ensures part.Valid()
  {
    hide OwnersAgree, BitmapAgrees, IdsAgree, TablesIn, RecordsIn, Shows, DirOk, DotEntries, BitAt, FreshBit,
      RootRecordSector, DotSector, WordAt, BitLen, BlocksSynced;
    FreshMapsAgree(part.disk.sectors, start, sectors);
    FreshRoot(part.disk.sectors, start, sectors);
    MapSize(sectors);
    MountedSynced(part.disk.sectors, start + 2, MapSectors(sectors), part.owners, part.dataStart);
    assert part.disk.sectors[part.inodeBitmapLba..part.inodeTableLba] == [part.disk.sectors[part.inodeBitmapLba]];
  }

  /** mount_partition: layout from the super block, bitmaps from where it says. The inodes and owners that the
      caller knows of come along as ghosts. */
  method MountPartition(disk: Disk, start: nat, ghost nodes: map<nat, Node>, ghost owners: map<nat, Owner>)
    returns (part: Partition)
    requires start + 1 < |disk.sectors|
    requires var s := disk.sectors[start + 1];
      && WordAt(s, 4) >= OVERHEAD && WordAt(s, 24) < |disk.sectors| <= MAX_LBA + 1
      && 0 < WordAt(s, 20) && WordAt(s, 16) + WordAt(s, 20) <= |disk.sectors|
    ensures fresh(part) && part.disk == disk && part.super == disk.sectors[start + 1]
    ensures part.blockBitmapLba == WordAt(part.super, 16) && part.inodeBitmapLba == WordAt(part.super, 24)
    ensures part.inodeTableLba == WordAt(part.super, 32) && part.dataStart == WordAt(part.super, 40)
    ensures part.blockCount == Usable(WordAt(part.super, 4))
    ensures part.blockMap ==
            Unpacked(disk.sectors[part.blockBitmapLba..part.blockBitmapLba + WordAt(part.super, 20)])
    ensures part.inodeMap == Unpacked(disk.sectors[part.inodeBitmapLba..part.inodeBitmapLba + 1])
    ensures part.nodes == nodes && part.owners == owners
  {
    hide Unpacked, WordAt, Usable;
    var super := disk.ReadSector(start + 1);
    var total, blockLba, n := WordAt(super, 4), WordAt(super, 16), WordAt(super, 20);
    var inodeLba, table, data := WordAt(super, 24), WordAt(super, 32), WordAt(super, 40);
    var blockMap := disk.Read(blockLba, n);
    var inodeMap := disk.Read(inodeLba, 1);
    part := new Partition(disk, super, blockLba, inodeLba, table, data, Usable(total), Unpacked(blockMap),
                          Unpacked(inodeMap), nodes, owners);
  }

  /** mount_partition, of a partition just formatted. */
  method Mount(disk: Disk, start: nat, ghost sectors: nat) returns (part: Partition)
    requires Formatted(disk.sectors, start, sectors) && BitLen(sectors) >= 8
    requires DataStart(start, sectors) + Usable(sectors) <= |disk.sectors|
    ensures fresh(part) && part.disk == disk && part.Valid() && part.dataStart == DataStart(start, sectors)
    ensures part.blockCount == Usable(sectors) && Described(part, start, sectors)
    ensures part.nodes == RootNodes(part.dataStart) && part.owners == RootOwners(part.dataStart)
    ensures Shows(disk.sectors, part.nodes[0], DotEntries(0, 0)) && DirOk(part.nodes[0], DotEntries(0, 0), 0, 0)
  {
    hide Formatted, OwnersAgree, TablesIn, RecordsIn, Shows, DirOk, DotEntries, Unpacked, WordAt, MapSectors, BitLen,
      Usable, Partition.Consistent, Partition.InodesOnDisk, DirNode, HasFileSystem;
    SuperSays(disk.sectors, start, sectors);
    FreshRoot(disk.sectors, start, sectors);
    InRange(disk.sectors, start, sectors);
    ghost var data := DataStart(start, sectors);
    part := MountPartition(disk, start, RootNodes(data), RootOwners(data));
    FreshIsValid(part, start, sectors);
  }

  lemma InRange(disk: seq<Sector>, start: nat, sectors: nat)
    requires Formatted(disk, start, sectors)
    ensures start + OVERHEAD + MapSectors(sectors) < |disk| <= MAX_LBA + 1 && MapSectors(sectors) > 0
    ensures sectors > OVERHEAD + 1
  {
    hide Super, WordAt, BitAt, FreshBit, RootRecordSector, DotSector;
  }
}
