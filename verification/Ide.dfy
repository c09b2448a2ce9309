/** device/c13a_ide.c: the disk as an array of 512-byte sectors, and the chunk loops of ide_read
    and ide_write, whose sector count passes through 8 bits on its way to the controller. */
module Ide {
  import opened Bytes

  const MAX_LBA := 80 * 1024 * 1024 / 512 - 1

  type Sector = s: seq<byte> | |s| == 512 witness seq(512, _ => 0)

  /** How many sectors the controller moves for a count register: 0 stands for 256. */
  function Moved(register: nat): nat
    requires register < 256
  {
    if register == 0 then 256 else register
  }

  /** The disk once `ss` has replaced its sectors from `lba` on. */
  function Overlay(disk: seq<Sector>, lba: nat, ss: seq<Sector>): (d: seq<Sector>)
    requires lba + |ss| <= |disk|
    ensures |d| == |disk|
  {
    disk[..lba] + ss + disk[lba + |ss|..]
  }

  /** Writing the next chunk on top of the chunks already written. */
  lemma OverlayChunk(disk: seq<Sector>, lba: nat, buf: seq<Sector>, n: nat, m: nat)
    requires n <= m <= |buf| && lba + |buf| <= |disk|
    ensures Overlay(Overlay(disk, lba, buf[..n]), lba + n, buf[n..m]) == Overlay(disk, lba, buf[..m])
  {
  }

  lemma OverlayEnds(disk: seq<Sector>, lba: nat, buf: seq<Sector>)
    requires lba + |buf| <= |disk|
    ensures Overlay(disk, lba, buf[..0]) == disk && buf[..|buf|] == buf
  {
  }

  /** The 8 bits say enough: the controller moves what the command asks for. */
  lemma AllMoved(op: nat)
    requires 0 < op <= 256
    ensures Moved(op % 256) == op
  {
  }

  class Disk {
    var sectors: seq<Sector>

    constructor (sectors: seq<Sector>)
      ensures this.sectors == sectors
    {
      this.sectors := sectors;
    }

    /** ide_read: however the range is cut into commands, the buffer gets exactly its sectors. */
    method Read(lba: nat, count: nat) returns (buf: seq<Sector>)
      requires 0 < count && lba + count <= |sectors| <= MAX_LBA + 1
      ensures buf == sectors[lba..lba + count]
    {
      buf := [];
      var done := 0;
      while done < count
        invariant done <= count && buf == sectors[lba..lba + done]
      {
        var op := if done + 256 <= count then 256 else count - done;
        var moved := Moved(op % 256);
        buf := buf + sectors[lba + done..lba + done + moved];
        done := done + op;
      }
    }

    /** ide_write: the range receives the buffer and every other sector keeps its bytes. */
    method Write(lba: nat, buf: seq<Sector>)
      requires 0 < |buf| && lba + |buf| <= |sectors| <= MAX_LBA + 1
      modifies this
      ensures sectors == Overlay(old(sectors), lba, buf)
    {
      hide Overlay, Moved;
      var done := 0;
      OverlayEnds(sectors, lba, buf);
      while done < |buf|
        invariant done <= |buf| && sectors == Overlay(old(sectors), lba, buf[..done]) && |sectors| == |old(sectors)|
      {
        var op := if done + 256 <= |buf| then 256 else |buf| - done;
        AllMoved(op);
        var moved := Moved(op % 256);
        OverlayChunk(old(sectors), lba, buf, done, done + moved);
        sectors := Overlay(sectors, lba + done, buf[done..done + moved]);
        done := done + op;
      }
    }

    method ReadSector(lba: nat) returns (s: Sector)
      requires lba < |sectors| <= MAX_LBA + 1
      ensures s == sectors[lba]
    {
      var buf := Read(lba, 1);
      s := buf[0];
    }

    method WriteSector(lba: nat, s: Sector)
      requires lba < |sectors| <= MAX_LBA + 1
      modifies this
      ensures sectors == old(sectors)[lba := s]
    {
      Write(lba, [s]);
    }
  }
}
