/** lib/bitmap.c: a byte-packed bitmap and its first-fit scan. */
module Bitmaps {
  import opened Debug

  /** The byte with bit `k` alone. */
  function Mask(k: nat): bv8
    requires k < 8
  {
    if k < 4 then if k < 2 then if k == 0 then 1 else 2 else if k == 2 then 4 else 8
    else if k < 6 then if k == 4 then 16 else 32 else if k == 6 then 64 else 128
  }

  predicate Meets(b: bv8, m: bv8) {
    b & m != 0
  }

  predicate Bit(b: bv8, k: nat)
    requires k < 8
  {
    Meets(b, Mask(k))
  }

  lemma SameMask(b: bv8, m: bv8)
    requires m != 0
    ensures Meets(b | m, m) && !Meets(b & !m, m)
  {
  }

  lemma OtherMask(b: bv8, m: bv8, n: bv8)
    requires m & n == 0
    ensures Meets(b | m, n) == Meets(b, n) && Meets(b & !m, n) == Meets(b, n)
  {
  }

  lemma MasksDisjoint(k: nat, j: nat)
    requires k < 8 && j < 8 && k != j
    ensures Mask(k) & Mask(j) == 0
  {
  }

  lemma SetSame(b: bv8, k: nat)
    requires k < 8
    ensures Bit(b | Mask(k), k) && !Bit(b & !Mask(k), k)
  {
    SameMask(b, Mask(k));
  }

  lemma SetOther(b: bv8, k: nat, j: nat)
    requires k < 8 && j < 8 && k != j
    ensures Bit(b | Mask(k), j) == Bit(b, j)
  {
    MasksDisjoint(k, j);
    OtherMask(b, Mask(k), Mask(j));
  }

  lemma ClearOther(b: bv8, k: nat, j: nat)
    requires k < 8 && j < 8 && k != j
    ensures Bit(b & !Mask(k), j) == Bit(b, j)
  {
    MasksDisjoint(k, j);
    OtherMask(b, Mask(k), Mask(j));
  }

  lemma FullByte(b: bv8)
    ensures b == 0xff <==> forall k: nat :: k < 8 ==> Bit(b, k)
  {
    forall k: nat | k < 8 && b == 0xff ensures Bit(b, k) {}
    if forall k: nat :: k < 8 ==> Bit(b, k) {
      assert Bit(b, 0) && Bit(b, 1) && Bit(b, 2) && Bit(b, 3) && Bit(b, 4) && Bit(b, 5) && Bit(b, 6) && Bit(b, 7);
    }
  }

  /** The bits of a stretch of memory, bit 0 of each byte first. */
  function Unpack(bytes: seq<bv8>): (s: seq<bool>)
    ensures |s| == 8 * |bytes|
  {
    seq(8 * |bytes|, i requires 0 <= i < 8 * |bytes| => Bit(bytes[i / 8], i % 8))
  }

  lemma UnpackAt(bytes: seq<bv8>, b: nat, k: nat)
    requires b < |bytes| && k < 8
    ensures Unpack(bytes)[8 * b + k] == Bit(bytes[b], k)
  {
    assert (8 * b + k) / 8 == b && (8 * b + k) % 8 == k;
  }

  function WithBit(b: bv8, k: nat, value: bool): (r: bv8)
    requires k < 8
    ensures forall j: nat :: j < 8 ==> Bit(r, j) == (if j == k then value else Bit(b, j))
  {
    SetSame(b, k);
    if value then
      forall j: nat | j < 8 && j != k ensures Bit(b | Mask(k), j) == Bit(b, j) { SetOther(b, k, j); }
      b | Mask(k)
    else
      forall j: nat | j < 8 && j != k ensures Bit(b & !Mask(k), j) == Bit(b, j) { ClearOther(b, k, j); }
      b & !Mask(k)
  }

  lemma UnpackOneBit(bytes: seq<bv8>, index: nat, value: bool)
    requires index < 8 * |bytes|
    ensures Unpack(bytes[index / 8 := WithBit(bytes[index / 8], index % 8, value)]) == Unpack(bytes)[index := value]
  {
    var b, k := index / 8, index % 8;
    var after := bytes[b := WithBit(bytes[b], k, value)];
    forall i: nat | i < 8 * |bytes| ensures Unpack(after)[i] == Unpack(bytes)[index := value][i] {
      assert i == index <==> (i / 8 == b && i % 8 == k);
    }
  }

  /** `n` consecutive clear bits starting at `i`. */
  predicate FreeRun(s: seq<bool>, i: int, n: nat) {
    0 <= i && i + n <= |s| && forall k :: i <= k < i + n ==> !s[k]
  }

  /** First fit: the least start of a free run of length `n`, or -1 when there is none. */
  ghost predicate IsFirstRun(s: seq<bool>, n: nat, r: int) {
    if r == -1 then forall i :: !FreeRun(s, i, n)
    else FreeRun(s, r, n) && forall i :: i < r ==> !FreeRun(s, i, n)
  }

  /** The first run at or after `from`. */
  function FirstRun(s: seq<bool>, n: nat, from: nat): (r: int)
    ensures r == -1 ==> forall i :: from <= i ==> !FreeRun(s, i, n)
    ensures r != -1 ==> from <= r && FreeRun(s, r, n) && forall i :: from <= i < r ==> !FreeRun(s, i, n)
    decreases |s| - from
  {
    if from + n > |s| then -1
    else if FreeRun(s, from, n) then from
    else if from == |s| then -1
    else FirstRun(s, n, from + 1)
  }

  lemma FirstRunUnique(s: seq<bool>, n: nat, r: int)
    ensures IsFirstRun(s, n, r) <==> r == FirstRun(s, n, 0)
  {
  }

  lemma TakenBitBreaksRun(s: seq<bool>, k: nat, i: int, n: nat)
    requires k < |s| && s[k] && i <= k < i + n
    ensures !FreeRun(s, i, n)
  {
  }

  /** No run of `n` ends before `next`, and exactly the last `counting` bits before it are clear. */
  ghost predicate Searched(s: seq<bool>, next: nat, counting: nat, n: nat) {
    && counting < n && counting <= next <= |s|
    && FreeRun(s, next - counting, counting)
    && (counting < next ==> s[next - counting - 1])
    && forall i :: i + n <= next ==> !FreeRun(s, i, n)
  }

  lemma SearchStart(s: seq<bool>, first: nat, n: nat)
    requires first < |s| && !s[first] && n > 1
    requires forall i :: 0 <= i < first ==> s[i]
    ensures Searched(s, first + 1, 1, n)
  {
    forall i | i + n <= first + 1 ensures !FreeRun(s, i, n) {
      if 0 <= i { TakenBitBreaksRun(s, i, i, n); }
    }
  }

  lemma SearchStep(s: seq<bool>, next: nat, counting: nat, n: nat)
    requires Searched(s, next, counting, n) && next < |s|
    ensures s[next] ==> Searched(s, next + 1, 0, n)
    ensures !s[next] && counting + 1 < n ==> Searched(s, next + 1, counting + 1, n)
    ensures !s[next] && counting + 1 == n ==> IsFirstRun(s, n, next - n + 1)
  {
    if s[next] && next + 1 >= n {
      TakenBitBreaksRun(s, next, next + 1 - n, n);
    }
    if !s[next] && counting + 1 < n && n <= next + 1 {
      TakenBitBreaksRun(s, next - counting - 1, next + 1 - n, n);
    }
  }

  lemma SearchEnd(s: seq<bool>, counting: nat, n: nat)
    requires Searched(s, |s|, counting, n)
    ensures IsFirstRun(s, n, -1)
  {
  }

  /** Where a scan for one bit lands: the least clear bit, or the length when all are set. */
  function FirstClear(s: seq<bool>, from: nat): (r: nat)
    requires from <= |s|
    ensures from <= r <= |s| && (r < |s| ==> !s[r])
    ensures forall i :: from <= i < r ==> s[i]
    decreases |s| - from
  {
    if from == |s| || !s[from] then from else FirstClear(s, from + 1)
  }

  /** The clear bits of a map. */
  function FreeIn(blockMap: seq<bool>): set<nat> {
    set b: nat | b < |blockMap| && !blockMap[b]
  }

  lemma TakeFree(blockMap: seq<bool>, b: nat)
    requires b < |blockMap| && !blockMap[b]
    ensures FreeIn(blockMap[b := true]) == FreeIn(blockMap) - {b} && b in FreeIn(blockMap)
  {
  }

  lemma NothingFree(blockMap: seq<bool>)
    ensures FreeIn(blockMap) == {} <==> FirstClear(blockMap, 0) == |blockMap|
  {
    if FirstClear(blockMap, 0) < |blockMap| { assert FirstClear(blockMap, 0) in FreeIn(blockMap); }
  }

  class Bitmap {
    const len: nat          // bitmap_bytes_len
    const bits: array<bv8>  // the map and the memory that follows it

    /** The scan reads one byte past the map, so that byte must exist. */
    ghost predicate Valid() {
      0 < len < bits.Length
    }

    ghost function Map(): (s: seq<bool>)
      requires Valid()
      reads bits
      ensures |s| == 8 * len
    {
      Unpack(bits[..])[..8 * len]
    }

    /** The map and the one bit behind it, which the run search also probes. */
    ghost function Window(): (s: seq<bool>)
      requires Valid()
      reads bits
      ensures |s| == 8 * len + 1 && s[..8 * len] == Map()
    {
      var s := Unpack(bits[..])[..8 * len + 1];
      assert s[..8 * len] == Map();
      s
    }

    constructor (len: nat, memory: nat)
      requires 0 < len < memory
      ensures Valid() && this.len == len && fresh(bits)
      ensures forall i :: 0 <= i < 8 * len ==> !Map()[i]
    {
      this.len := len;
      bits := new bv8[memory](_ => 0);
      new;
      assert forall i :: 0 <= i < len ==> bits[i] == 0;
    }

    method ScanBit(index: nat) returns (r: bool)
      requires Valid() && index <= 8 * len
      ensures r == Window()[index]
    {
      UnpackAt(bits[..], index / 8, index % 8);
      r := bits[index / 8] & Mask(index % 8) != 0;
    }

    method Set(index: nat, value: bool)
      requires Valid() && index < 8 * len
      modifies bits
      ensures Unpack(bits[..]) == old(Unpack(bits[..]))[index := value]
      ensures Map() == old(Map())[index := value]
    {
      UnpackOneBit(bits[..], index, value);
      bits[index / 8] := WithBit(bits[index / 8], index % 8, value);
      assert bits[..] == old(bits[..])[index / 8 := WithBit(old(bits[index / 8]), index % 8, value)];
    }

    /** The byte search: the least byte that has a clear bit, or `len`. */
    method FirstOpenByte() returns (b: nat)
      requires Valid()
      ensures b <= len
      ensures forall i :: 0 <= i < 8 * b ==> Map()[i]
      ensures b < len ==> bits[b] != 0xff
    {
      b := 0;
      while bits[b] == 0xff && b < len
        invariant b <= len
        invariant forall i :: 0 <= i < b ==> bits[i] == 0xff
      {
        b := b + 1;
      }
      forall i | 0 <= i < 8 * b ensures Map()[i] { FullByte(bits[i / 8]); }
    }

    method FirstClearBit() returns (r: Run<nat>)
      requires Valid()
      ensures r.Halted? <==> forall i :: 0 <= i < 8 * len ==> Map()[i]
      ensures r.Done? ==> r.value < 8 * len && !Map()[r.value] && forall i :: 0 <= i < r.value ==> Map()[i]
    {
      var b := FirstOpenByte();
      if b == len { return Halted; }  // the ASSERT before `return -1`
      var k := FirstClearOf(bits[b]);
      hide Unpack, Bit;
      UnpackAt(bits[..], b, k);
      forall i | 8 * b <= i < 8 * b + k ensures Map()[i] {
        UnpackAt(bits[..], b, i - 8 * b);
      }
      assert !Map()[8 * b + k];
      return Done(8 * b + k);
    }

    /** The bit search in the byte that was found. */
    static method FirstClearOf(byte: bv8) returns (k: nat)
      requires byte != 0xff
      ensures k < 8 && !Bit(byte, k) && forall j: nat :: j < k ==> Bit(byte, j)
    {
      FullByte(byte);
      ghost var open: nat :| open < 8 && !Bit(byte, open);
      k := 0;
      while byte & Mask(k) != 0
        decreases open - k
        invariant k <= open
        invariant forall j: nat :: j < k ==> Bit(byte, j)
      {
        k := k + 1;
      }
    }

    /** bitmap_scan: first fit over the map and one bit more. */
    method Scan(count: nat) returns (r: Run<int>)
      requires Valid() && count > 0
      ensures r.Halted? <==> forall i :: 0 <= i < 8 * len ==> Map()[i]
      ensures r.Done? ==> IsFirstRun(Window(), count, r.value)
      ensures r.Done? && count == 1 ==> r.value == FirstClear(Map(), 0) < 8 * len
    {
      var first := FirstClearBit();
      if first.Halted? { return Halted; }
      if count == 1 {
        forall i | i < first.value ensures !FreeRun(Window(), i, 1) {
          if 0 <= i { TakenBitBreaksRun(Window(), i, i, 1); }
        }
        return Done(first.value);
      }
      var begin := RunFrom(first.value, count);
      return Done(begin);
    }

    method RunFrom(first: nat, count: nat) returns (begin: int)
      requires Valid() && count > 1
      requires first < 8 * len && !Window()[first] && forall i :: 0 <= i < first ==> Window()[i]
      ensures IsFirstRun(Window(), count, begin)
    {
      hide FreeRun, Searched, IsFirstRun;
      ghost var w := Window();
      SearchStart(w, first, count);
      var left, next, counting := 8 * len - first, first + 1, 1;
      begin := -1;
      while left > 0
        invariant 0 <= left && next == 8 * len + 1 - left
        invariant Searched(w, next, counting, count) && counting < count
      {
        left := left - 1;
        var taken := ScanBit(next);
        SearchStep(w, next, counting, count);
        if !taken {
          counting := counting + 1;
        } else {
          counting := 0;
        }
        if counting == count {
          begin := next - count + 1;
          return;
        }
        next := next + 1;
      }
      SearchEnd(w, counting, count);
    }
  }

  /** The extra bit is harmless exactly when it is taken, when the map holds a run anyway, or when
      the bits before it do not complete one. */
  lemma ScanStaysInside(w: seq<bool>, n: nat, r: int)
    requires |w| > 0 && n > 0 && IsFirstRun(w, n, r)
    ensures var m := w[..|w| - 1];
      IsFirstRun(m, n, r) <==> (w[|w| - 1] || (exists i :: FreeRun(m, i, n)) || !FreeRun(m, |m| - (n - 1), n - 1))
  {
    var m := w[..|w| - 1];
    forall i ensures FreeRun(m, i, n) <==> FreeRun(w, i, n) && i + n <= |m| {}
    if exists i :: FreeRun(m, i, n) {
      var i :| FreeRun(m, i, n);
      assert FreeRun(w, i, n);
    }
    if FreeRun(m, |m| - (n - 1), n - 1) && !w[|w| - 1] {
      assert FreeRun(w, |m| - (n - 1), n);
    }
    if r != -1 && !FreeRun(m, r, n) { assert r + n == |w| && !w[|w| - 1]; }
  }

  /** One byte, only bit 7 clear, free memory behind it: a scan for two bits answers 7, half of
      which lies outside the map. */
  lemma ScanLeavesMap()
    ensures var w := [true, true, true, true, true, true, true, false, false];
      IsFirstRun(w, 2, 7) && !FreeRun(w[..8], 7, 2)
  {
    var w := [true, true, true, true, true, true, true, false, false];
    forall i | i < 7 ensures !FreeRun(w, i, 2) { if 0 <= i { TakenBitBreaksRun(w, i, i, 2); } }
  }
}
