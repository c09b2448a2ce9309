/** Bitmaps as they lie on the disk, 4096 bits to a sector. */
module BitSectors {
  import opened Bytes
  import opened Bitmaps
  import opened Ide

  const BITS_PER_SECTOR := 4096

  function PackByte(bits: seq<bool>): byte
    requires |bits| == 8
  {
    (if bits[0] then 1 else 0) + (if bits[1] then 2 else 0) + (if bits[2] then 4 else 0) + (if bits[3] then 8 else 0)
    + (if bits[4] then 16 else 0) + (if bits[5] then 32 else 0)
    + (if bits[6] then 64 else 0) + (if bits[7] then 128 else 0)
  }

  /** One sector of a bitmap, as it goes to the disk. */
  function PackSector(bits: seq<bool>): Sector
    requires |bits| == BITS_PER_SECTOR
  {
    seq(512, j requires 0 <= j < 512 => PackByte(bits[8 * j..8 * j + 8]))
  }

  /** Bit `k` of a byte. */
  function BitOf(n: nat, k: nat): bool
    requires k < 8
  {
    (if k == 0 then n % 2 else if k == 1 then n / 2 % 2 else if k == 2 then n / 4 % 2 else if k == 3 then n / 8 % 2
     else if k == 4 then n / 16 % 2 else if k == 5 then n / 32 % 2 else if k == 6 then n / 64 % 2 else n / 128) == 1
  }

  function One(b: bool): (n: nat)
    ensures n <= 1 && (n == 1 <==> b)
  {
    if b then 1 else 0
  }

  /** Dividing by a power of two leaves the upper digits. */
  lemma UpperDigits(n: nat, low: nat, power: nat, bit: nat, high: nat)
    requires low < power && bit <= 1 && n == low + power * (bit + 2 * high)
    ensures n / power % 2 == bit
  {
    Quotient(n, low, power, bit + 2 * high);
  }

  lemma Times(a: int, d: int)
    requires a >= 0
    ensures (d >= 1 ==> a * d >= a) && (d <= -1 ==> a * d <= -a)
  {
  }

  lemma Quotient(n: nat, low: nat, power: nat, q: nat)
    requires low < power && n == low + power * q
    ensures n / power == q
  {
    var p := n / power;
    assert n == power * p + n % power;
    assert power * (p - q) == power * p - power * q;
    Times(power, p - q);
  }

  lemma LowBits(n: nat, a: nat, b: nat, c: nat, d: nat, high: nat)
    requires a <= 1 && b <= 1 && c <= 1 && d <= 1 && n == a + 2 * b + 4 * c + 8 * d + 16 * high
    ensures BitOf(n, 0) == (a == 1) && BitOf(n, 1) == (b == 1) && BitOf(n, 2) == (c == 1) && BitOf(n, 3) == (d == 1)
  {
    UpperDigits(n, 0, 1, a, b + 2 * c + 4 * d + 8 * high);
    UpperDigits(n, a, 2, b, c + 2 * d + 4 * high);
    UpperDigits(n, a + 2 * b, 4, c, d + 2 * high);
    UpperDigits(n, a + 2 * b + 4 * c, 8, d, high);
  }

  lemma HighBits(n: nat, low: nat, e: nat, f: nat, g: nat, h: nat)
    requires e <= 1 && f <= 1 && g <= 1 && h <= 1 && low < 16 && n == low + 16 * e + 32 * f + 64 * g + 128 * h
    ensures BitOf(n, 4) == (e == 1) && BitOf(n, 5) == (f == 1) && BitOf(n, 6) == (g == 1) && BitOf(n, 7) == (h == 1)
  {
    UpperDigits(n, low, 16, e, f + 2 * g + 4 * h);
    UpperDigits(n, low + 16 * e, 32, f, g + 2 * h);
    UpperDigits(n, low + 16 * e + 32 * f, 64, g, h);
  }

  lemma PackSum(bits: seq<bool>)
    requires |bits| == 8
    ensures PackByte(bits) as int == One(bits[0]) + 2 * One(bits[1]) + 4 * One(bits[2]) + 8 * One(bits[3])
                                     + 16 * One(bits[4]) + 32 * One(bits[5]) + 64 * One(bits[6]) + 128 * One(bits[7])
  {
  }

  lemma LowPacked(bits: seq<bool>)
    requires |bits| == 8
    ensures var n := PackByte(bits) as int;
      BitOf(n, 0) == bits[0] && BitOf(n, 1) == bits[1] && BitOf(n, 2) == bits[2] && BitOf(n, 3) == bits[3]
  {
    hide PackByte, BitOf;
    PackSum(bits);
    var high := One(bits[4]) + 2 * One(bits[5]) + 4 * One(bits[6]) + 8 * One(bits[7]);
    LowBits(PackByte(bits) as int, One(bits[0]), One(bits[1]), One(bits[2]), One(bits[3]), high);
  }

  lemma HighPacked(bits: seq<bool>)
    requires |bits| == 8
    ensures var n := PackByte(bits) as int;
      BitOf(n, 4) == bits[4] && BitOf(n, 5) == bits[5] && BitOf(n, 6) == bits[6] && BitOf(n, 7) == bits[7]
  {
    hide PackByte, BitOf;
    PackSum(bits);
    var low := One(bits[0]) + 2 * One(bits[1]) + 4 * One(bits[2]) + 8 * One(bits[3]);
    HighBits(PackByte(bits) as int, low, One(bits[4]), One(bits[5]), One(bits[6]), One(bits[7]));
  }

  lemma PackedBit(bits: seq<bool>, k: nat)
    requires |bits| == 8 && k < 8
    ensures BitOf(PackByte(bits) as int, k) == bits[k]
  {
    hide PackByte, BitOf;
    if k < 4 {
      LowPacked(bits);
    } else {
      HighPacked(bits);
    }
  }

  /** Bit `b` of a bitmap that starts at sector `lba`. */
  function BitAt(sectors: seq<Sector>, lba: nat, b: nat): bool
    requires lba + b / BITS_PER_SECTOR < |sectors|
  {
    BitOf(sectors[lba + b / BITS_PER_SECTOR][b % BITS_PER_SECTOR / 8] as int, b % 8)
  }

  /** A bitmap as it goes to the disk. */
  function Packed(buf: seq<bool>, n: nat): (ss: seq<Sector>)
    requires |buf| >= BITS_PER_SECTOR * n
    ensures |ss| == n
  {
    seq(n, j requires 0 <= j < n => PackSector(buf[BITS_PER_SECTOR * j..BITS_PER_SECTOR * j + BITS_PER_SECTOR]))
  }

  lemma PackedByte(bits: seq<bool>, o: nat)
    requires |bits| == BITS_PER_SECTOR && o < BITS_PER_SECTOR
    ensures BitOf(PackSector(bits)[o / 8] as int, o % 8) == bits[o]
  {
    hide PackByte, BitOf;
    var piece := bits[8 * (o / 8)..8 * (o / 8) + 8];
    assert PackSector(bits)[o / 8] == PackByte(piece);
    PackedBit(piece, o % 8);
  }

  lemma PackedAt(buf: seq<bool>, n: nat, j: nat, o: nat)
    requires |buf| >= BITS_PER_SECTOR * n && j < n && o < BITS_PER_SECTOR
    ensures BitOf(Packed(buf, n)[j][o / 8] as int, o % 8) == buf[BITS_PER_SECTOR * j + o]
  {
    hide PackSector, BitOf;
    PackedByte(buf[BITS_PER_SECTOR * j..BITS_PER_SECTOR * j + BITS_PER_SECTOR], o);
  }

  /** mount_partition finds the bits that were written. */
  lemma BitReadsBack(sectors: seq<Sector>, lba: nat, buf: seq<bool>, n: nat, b: nat)
    requires |buf| >= BITS_PER_SECTOR * n && lba + n <= |sectors| && sectors[lba..lba + n] == Packed(buf, n)
    requires b < BITS_PER_SECTOR * n
    ensures BitAt(sectors, lba, b) == buf[b]
  {
    hide Packed, BitOf;
    var j, o := b / BITS_PER_SECTOR, b % BITS_PER_SECTOR;
    assert j < n && b == BITS_PER_SECTOR * j + o && o % 8 == b % 8;
    assert sectors[lba + j] == sectors[lba..lba + n][j];
    PackedAt(buf, n, j, o);
  }

  /** The bits of `n` sectors. */
  function Unpacked(ss: seq<Sector>): (bits: seq<bool>)
    ensures |bits| == BITS_PER_SECTOR * |ss|
  {
    seq(BITS_PER_SECTOR * |ss|, b requires 0 <= b < BITS_PER_SECTOR * |ss| => BitAt(ss, 0, b))
  }

  lemma UnpackedAt(sectors: seq<Sector>, lba: nat, n: nat, b: nat)
    requires lba + n <= |sectors| && b < BITS_PER_SECTOR * n
    ensures Unpacked(sectors[lba..lba + n])[b] == BitAt(sectors, lba, b)
  {
    hide BitOf;
  }

  /** A sector that was packed reads back. */
  lemma PackedReads(bits: seq<bool>)
    requires |bits| == BITS_PER_SECTOR
    ensures Unpacked([PackSector(bits)]) == bits
  {
    hide PackSector, BitOf;
    forall b: nat | b < BITS_PER_SECTOR ensures Unpacked([PackSector(bits)])[b] == bits[b] {
      PackedByte(bits, b);
    }
  }

  function Weight(b: bv8, k: nat): nat
    requires k < 8
  {
    if Bit(b, k) then Mask(k) as nat else 0
  }

  function Value(b: bv8): nat {
    b as nat
  }

  lemma SumOfBits(b: bv8)
    ensures Value(b) == Weight(b, 0) + Weight(b, 1) + Weight(b, 2) + Weight(b, 3)
                     + Weight(b, 4) + Weight(b, 5) + Weight(b, 6) + Weight(b, 7)
  {
  }

  lemma Weights(b: bv8)
    ensures Weight(b, 0) == One(Bit(b, 0)) && Weight(b, 1) == 2 * One(Bit(b, 1)) && Weight(b, 2) == 4 * One(Bit(b, 2))
    ensures Weight(b, 3) == 8 * One(Bit(b, 3)) && Weight(b, 4) == 16 * One(Bit(b, 4))
    ensures Weight(b, 5) == 32 * One(Bit(b, 5)) && Weight(b, 6) == 64 * One(Bit(b, 6))
    ensures Weight(b, 7) == 128 * One(Bit(b, 7))
  {
    hide Bit;
  }

  lemma SameByte(b: bv8)
    ensures PackByte(seq(8, k requires 0 <= k < 8 => Bit(b, k))) as int == Value(b)
  {
    hide Bit, Weight, PackByte, Value;
    SumOfBits(b);
    Weights(b);
    PackSum(seq(8, k requires 0 <= k < 8 => Bit(b, k)));
  }

  /** The bytes that go to the disk are the bytes that lib/bitmap.c keeps in memory. */
  lemma SameBytes(bytes: seq<bv8>, j: nat)
    requires |bytes| == 512 && j < 512
    ensures PackSector(Unpack(bytes))[j] as int == Value(bytes[j])
  {
    hide Bit, PackByte;
    SameByte(bytes[j]);
    forall k: nat | k < 8 ensures Unpack(bytes)[8 * j + k] == Bit(bytes[j], k) {
      UnpackAt(bytes, j, k);
    }
    assert Unpack(bytes)[8 * j..8 * j + 8] == seq(8, k requires 0 <= k < 8 => Bit(bytes[j], k));
  }
}
