/** The byte view of a partition: DevFS::Read and DevFS::Write on a block device
    (kernel/filesys/devfs/devfs.cpp:136-249) over the sector window of a partition
    (kernel/filesys/partition.hpp:37-107). */
module BlockDevices {
  import opened Basics
  const SECTOR: nat := 512
  const U32_LIMIT: nat := 0x1_0000_0000

  /** A cast to U32. */
  function U32(x: nat): (r: nat)
    ensures r < U32_LIMIT && (x < U32_LIMIT ==> r == x)
  {
    x % U32_LIMIT
  }

  function Min(a: nat, b: nat): nat {
    if a > b then b else a
  }

  // ----- bytes

  function Overwrite(bytes: seq<Byte>, at: nat, data: seq<Byte>): (r: seq<Byte>)
    requires at + |data| <= |bytes|
    ensures |r| == |bytes|
  {
    bytes[..at] + data + bytes[at + |data|..]
  }

  /** What was written is what is read back, and nothing else changes. */
  lemma ReadBack(bytes: seq<Byte>, at: nat, data: seq<Byte>)
    requires at + |data| <= |bytes|
    ensures Overwrite(bytes, at, data)[at..at + |data|] == data
    ensures forall i :: 0 <= i < |bytes| && !(at <= i < at + |data|) ==> Overwrite(bytes, at, data)[i] == bytes[i]
  {
  }

  /** Changing part of a window and writing the window back changes just that part. */
  lemma WindowWrite(bytes: seq<Byte>, at: nat, window: nat, offset: nat, data: seq<Byte>)
    requires at + window <= |bytes| && offset + |data| <= window
    ensures Overwrite(bytes, at, Overwrite(bytes[at..at + window], offset, data)) == Overwrite(bytes, at + offset, data)
  {
  }

  lemma WindowRead(bytes: seq<Byte>, at: nat, window: nat, offset: nat, n: nat)
    requires at + window <= |bytes| && offset + n <= window
    ensures bytes[at..at + window][offset..offset + n] == bytes[at + offset..at + offset + n]
  {
    var a, b := bytes[at..at + window][offset..offset + n], bytes[at + offset..at + offset + n];
    forall i | 0 <= i < n ensures a[i] == b[i] {
      assert bytes[at..at + window][offset + i] == bytes[at + offset + i];
    }
  }

  // ----- sectors

  function FirstLBA(pos: nat): nat { pos / SECTOR }

  function LastLBA(pos: nat, size: nat): nat
    requires size > 0
  {
    (pos + size - 1) / SECTOR
  }

  /** The sectors that a transfer touches hold it, and no fewer would. */
  lemma SectorsCover(pos: nat, size: nat)
    requires size > 0
    ensures var first, last := FirstLBA(pos), LastLBA(pos, size);
      && first <= last && first * SECTOR + pos % SECTOR == pos
      && pos % SECTOR + size <= (last - first + 1) * SECTOR < pos % SECTOR + size + SECTOR
  {
  }

  /** A U32 is wide enough for the number of sectors. */
  lemma Transfer(pos: nat, size: nat)
    requires 0 < size < U32_LIMIT
    ensures U32(LastLBA(pos, size) - FirstLBA(pos) + 1) == LastLBA(pos, size) - FirstLBA(pos) + 1
  {
  }

  /** A transfer fits into a window of n sectors exactly when its bytes do. */
  lemma FitsInBytes(pos: nat, size: nat, n: nat)
    requires size > 0
    ensures LastLBA(pos, size) + 1 <= n <==> pos + size <= n * SECTOR
  {
  }

  // ----- devices

  /** The parent device: so many bytes, transferred by sectors. A device that is not ready
      refuses, and a refused transfer changes nothing. */
  class Disk {
    var bytes: seq<Byte>
    var ready: bool

    predicate Has(lba: nat, count: nat)
      reads this`bytes, this`ready
    {
      ready && (lba + count) * SECTOR <= |bytes|
    }

    method ReadSectors(lba: nat, count: nat) returns (buf: array?<Byte>)
      ensures buf != null <==> Has(lba, count)
      ensures buf != null ==> fresh(buf) && buf[..] == bytes[lba * SECTOR..(lba + count) * SECTOR]
    {
      if !ready || (lba + count) * SECTOR > |bytes| { return null; }
      var b := bytes[lba * SECTOR..(lba + count) * SECTOR];
      buf := new Byte[|b|](i requires 0 <= i < |b| => b[i]);
      assert buf[..] == b;
    }

    method WriteSectors(lba: nat, count: nat, buf: array<Byte>) returns (ok: bool)
      requires buf.Length == count * SECTOR
      modifies this`bytes
      ensures ok == old(Has(lba, count))
      ensures bytes == if ok then Overwrite(old(bytes), lba * SECTOR, buf[..]) else old(bytes)
    {
      ok := ready && (lba + count) * SECTOR <= |bytes|;
      if ok {
        bytes := Overwrite(bytes, lba * SECTOR, buf[..]);
      }
    }
  }

  class Partition {
    const StartingLBA: nat
    const SectorCount: nat
    const ParentDevice: Disk
    var ReadOnly: bool

    constructor (startingLBA: nat, endingLBA: nat, parent: Disk)
      requires startingLBA <= endingLBA
      ensures StartingLBA == startingLBA && StartingLBA + SectorCount == endingLBA + 1 && ParentDevice == parent
      ensures ReadOnly
    {
      StartingLBA := startingLBA;
      SectorCount := endingLBA - startingLBA + 1;
      ParentDevice := parent;
      ReadOnly := true;
    }

    /** The byte of the disk at which a position in the partition lies. */
    function ByteAt(pos: nat): nat {
      StartingLBA * SECTOR + pos
    }

    /** A transfer lies inside the partition and the disk can do it. */
    predicate Allows(lba: nat, count: nat)
      reads ParentDevice`bytes, ParentDevice`ready
    {
      lba + count <= SectorCount && ParentDevice.Has(StartingLBA + lba, count)
    }

    method ReadSectors(lba: nat, count: nat) returns (buf: array?<Byte>)
      ensures buf != null <==> Allows(lba, count)
      ensures buf != null ==>
        fresh(buf) && buf[..] == ParentDevice.bytes[(StartingLBA + lba) * SECTOR..(StartingLBA + lba + count) * SECTOR]
    {
      if lba + count > SectorCount { return null; }
      buf := ParentDevice.ReadSectors(StartingLBA + lba, count);
    }

    method WriteSectors(lba: nat, count: nat, buf: array<Byte>) returns (ok: bool)
      requires buf.Length == count * SECTOR
      modifies ParentDevice`bytes
      ensures ok == (!ReadOnly && old(Allows(lba, count)))
      ensures ParentDevice.bytes == if ok then Overwrite(old(ParentDevice.bytes), (StartingLBA + lba) * SECTOR, buf[..])
                                    else old(ParentDevice.bytes)
    {
      if ReadOnly { return false; }
      if lba + count > SectorCount { return false; }
      ok := ParentDevice.WriteSectors(StartingLBA + lba, count, buf);
    }
  }

  /** String::Memcpy. */
  method Memcpy(dst: array<Byte>, at: nat, src: array<Byte>, from: nat, n: nat)
    requires at + n <= dst.Length && from + n <= src.Length && dst != src
    modifies dst
    ensures dst[..] == Overwrite(old(dst[..]), at, src[from..from + n])
  {
    for i := 0 to n
      invariant forall j ::
        0 <= j < dst.Length ==> dst[j] == if at <= j < at + i then src[from + j - at] else old(dst[j])
    {
      dst[at + i] := src[from + i];
    }
    assert dst[..] == Overwrite(old(dst[..]), at, src[from..from + n]);
  }

  /** An open block device node. */
  class BlockFile {
    const device: Partition
    var CurrentPosition: nat

    constructor (device: Partition)
      ensures this.device == device && CurrentPosition == 0
    {
      this.device, CurrentPosition := device, 0;
    }

    /** The transfer at the current position is inside the partition, byte for byte, and the
        disk can do the sectors it touches. */
    ghost predicate InRange(size: nat)
      reads this`CurrentPosition, device.ParentDevice`bytes, device.ParentDevice`ready
    {
      && CurrentPosition + size <= device.SectorCount * SECTOR
      && size > 0 && device.ParentDevice.Has(device.StartingLBA + FirstLBA(CurrentPosition),
                                             LastLBA(CurrentPosition, size) - FirstLBA(CurrentPosition) + 1)
    }

    lemma AllowsInRange(size: nat)
      requires size > 0
      ensures InRange(size) <==>
        device.Allows(FirstLBA(CurrentPosition), LastLBA(CurrentPosition, size) - FirstLBA(CurrentPosition) + 1)
      ensures InRange(size) ==> device.ByteAt(CurrentPosition) + size <= |device.ParentDevice.bytes|
      ensures InRange(size) ==>
        device.ByteAt(CurrentPosition) + size <= (device.StartingLBA + device.SectorCount) * SECTOR
    {
      SectorsCover(CurrentPosition, size);
      FitsInBytes(CurrentPosition, size, device.SectorCount);
    }

    /** DevFS::Write: a byte-array overwrite of the disk at the current position, or nothing. */
    method Write(Buffer: array?<Byte>, Size: nat) returns (n: nat)
      requires Size < U32_LIMIT && (Buffer != null ==> Size <= Buffer.Length)
      modifies this`CurrentPosition, device.ParentDevice`bytes
      ensures n == if Buffer != null && !device.ReadOnly && old(InRange(Size)) then Size else 0
      ensures CurrentPosition == old(CurrentPosition) + n
      ensures n == 0 ==> device.ParentDevice.bytes == old(device.ParentDevice.bytes)
      ensures n != 0 ==>
        && device.ByteAt(old(CurrentPosition)) + Size <= |old(device.ParentDevice.bytes)|
        && device.ByteAt(old(CurrentPosition)) + Size <= (device.StartingLBA + device.SectorCount) * SECTOR
        && device.ParentDevice.bytes
           == Overwrite(old(device.ParentDevice.bytes), device.ByteAt(old(CurrentPosition)), Buffer[..Size])
    {
      hide Overwrite, U32, InRange, Partition.Allows, Disk.Has;
      if Buffer == null || Size == 0 {
        NothingInRange();
        return 0;
      }
      AllowsInRange(Size);
      SectorsCover(CurrentPosition, Size);
      var startByte, endByte := CurrentPosition, CurrentPosition + Size;
      var firstLBA, offset := startByte / SECTOR, startByte % SECTOR;
      var lastLBA := if endByte == 0 then firstLBA else (endByte - 1) / SECTOR;
      var count := U32(lastLBA - firstLBA + 1);
      Transfer(startByte, Size);
      assert count == LastLBA(startByte, Size) - FirstLBA(startByte) + 1;
      var buf := Prepare(Buffer, Size, firstLBA, count, offset);
      if buf == null { return 0; }
      var ok := device.WriteSectors(firstLBA, count, buf);
      if !ok { return 0; }
      CurrentPosition := CurrentPosition + Size;
      return Size;
    }

    lemma NothingInRange()
      ensures !InRange(0)
    {
    }

    /** The sectors to be written: those of a transfer of whole sectors are made from scratch,
        otherwise they are read and changed in part. */
    method Prepare(Buffer: array<Byte>, Size: nat, firstLBA: nat, count: nat, offset: nat) returns (buf: array?<Byte>)
      requires Size < U32_LIMIT && Size <= Buffer.Length && offset + Size <= count * SECTOR
      ensures buf == null ==> !device.Allows(firstLBA, count)
      ensures buf != null ==> fresh(buf) && buf.Length == count * SECTOR
      ensures buf != null && device.Allows(firstLBA, count) ==>
        && device.ByteAt(firstLBA * SECTOR) + count * SECTOR <= |device.ParentDevice.bytes|
        && Overwrite(device.ParentDevice.bytes, (device.StartingLBA + firstLBA) * SECTOR, buf[..])
           == Overwrite(device.ParentDevice.bytes, device.ByteAt(firstLBA * SECTOR + offset), Buffer[..Size])
    {
      hide Overwrite;
      var bytesNeeded := count * SECTOR;
      if offset == 0 && Size >= bytesNeeded {
        buf := new Byte[bytesNeeded];
        Replaced(buf[..], Buffer[..Size]);
        Memcpy(buf, 0, Buffer, 0, Min(Size, U32(bytesNeeded)));
      } else {
        buf := device.ReadSectors(firstLBA, count);
        if buf == null { return; }
        Memcpy(buf, offset, Buffer, 0, Size);
      }
      Prepared(device.ParentDevice.bytes, (device.StartingLBA + firstLBA) * SECTOR, bytesNeeded, offset, buf[..], Buffer[..Size]);
    }

    lemma Replaced(bytes: seq<Byte>, data: seq<Byte>)
      requires |data| == |bytes|
      ensures Overwrite(bytes, 0, data) == data
    {
    }

    /** What the two ways of preparing the sectors have in common. */
    lemma Prepared(disk: seq<Byte>, at: nat, window: nat, offset: nat, buf: seq<Byte>, data: seq<Byte>)
      requires offset + |data| <= window
      requires at + window <= |disk| ==>
        if |data| == window then buf == data else buf == Overwrite(disk[at..at + window], offset, data)
      ensures at + window <= |disk| ==>
        |buf| == window && Overwrite(disk, at, buf) == Overwrite(disk, at + offset, data)
    {
      if at + window <= |disk| {
        WindowWrite(disk, at, window, offset, data);
        if |data| == window { Replaced(disk[at..at + window], data); }
      }
    }

    /** DevFS::Read: the bytes of the disk from the current position on. */
    method Read(Buffer: array?<Byte>, Size: nat) returns (n: nat)
      requires Size < U32_LIMIT && (Buffer != null ==> Size <= Buffer.Length)
      modifies this`CurrentPosition, (if Buffer == null then {} else {Buffer})
      ensures n == if Buffer != null && old(InRange(Size)) then Readable(old(CurrentPosition), Size) else 0
      ensures CurrentPosition == old(CurrentPosition) + n
      ensures n != 0 ==> device.ByteAt(old(CurrentPosition)) + n <= |device.ParentDevice.bytes|
      ensures Buffer != null ==>
        Buffer[..] == Overwrite(old(Buffer[..]), 0, if n == 0 then [] else
          device.ParentDevice.bytes[device.ByteAt(old(CurrentPosition))..device.ByteAt(old(CurrentPosition)) + n])
    {
      hide InRange, Partition.Allows, Disk.Has;
      if Buffer == null || Size == 0 {
        NothingInRange();
        return 0;
      }
      AllowsInRange(Size);
      SectorsCover(CurrentPosition, Size);
      var startByte, endByte := CurrentPosition, CurrentPosition + Size;
      var firstLBA, offset := startByte / SECTOR, startByte % SECTOR;
      var lastLBA := if endByte == 0 then firstLBA else (endByte - 1) / SECTOR;
      var count := U32(lastLBA - firstLBA + 1);
      Transfer(startByte, Size);
      DeliveredIsReadable(startByte, Size);
      n := Fetch(Buffer, Size, firstLBA, count, offset);
      CurrentPosition := CurrentPosition + n;
    }

    /** The sectors are read, and as much of them as a U32 can count is handed out. */
    method Fetch(Buffer: array<Byte>, Size: nat, firstLBA: nat, count: nat, offset: nat) returns (n: nat)
      requires Size <= Buffer.Length && offset + Size <= count * SECTOR
      modifies Buffer
      ensures n == if device.Allows(firstLBA, count) then Delivered(count * SECTOR, offset, Size) else 0
      ensures n != 0 ==> device.ByteAt(firstLBA * SECTOR + offset) + n <= |device.ParentDevice.bytes|
      ensures Buffer[..] == Overwrite(old(Buffer[..]), 0, if n == 0 then [] else
                device.ParentDevice.bytes[device.ByteAt(firstLBA * SECTOR + offset)..device.ByteAt(firstLBA * SECTOR + offset) + n])
    {
      var buf := device.ReadSectors(firstLBA, count);
      if buf == null { return 0; }
      var available := count * SECTOR;
      if offset >= U32(available) { return 0; }
      n := Min(Size, U32(available - offset));
      WindowRead(device.ParentDevice.bytes, (device.StartingLBA + firstLBA) * SECTOR, available, offset, n);
      Memcpy(Buffer, 0, buf, offset, n);
    }

    /** A write, a step back to where it began, and a read: what a write has taken the read gives
        back, as far as it is readable at all. */
    method WriteThenRead(a: array<Byte>, Size: nat, b: array<Byte>) returns (n: nat, k: nat)
      requires Size < U32_LIMIT && Size <= a.Length && Size <= b.Length
      modifies this`CurrentPosition, device.ParentDevice`bytes, b
      ensures n == if !device.ReadOnly && old(InRange(Size)) then Size else 0
      ensures n != 0 ==> k == Readable(old(CurrentPosition), Size) <= Size && b[..k] == old(a[..k])
      ensures n != 0 ==> b[k..] == old(b[k..]) && CurrentPosition == old(CurrentPosition) + k
    {
      hide Overwrite, U32, Readable, FirstLBA, LastLBA;
      ghost var pos, disk, data := CurrentPosition, device.ParentDevice.bytes, a[..Size];
      n := Write(a, Size);
      CurrentPosition := CurrentPosition - n;
      k := Read(b, Size);
      if n != 0 {
        ReadComplete(pos, Size);
        ReadBack(disk, device.ByteAt(pos), data);
        WindowRead(device.ParentDevice.bytes, device.ByteAt(pos), Size, 0, k);
        Overwritten(old(b[..]), data[..k]);
      }
    }

    lemma Overwritten(bytes: seq<Byte>, data: seq<Byte>)
      requires |data| <= |bytes|
      ensures Overwrite(bytes, 0, data) == data + bytes[|data|..]
    {
    }
  }

  /** How much of a read the casts to U32 let through. */
  function Delivered(available: nat, offset: nat, size: nat): nat
    requires offset <= available
  {
    if offset >= U32(available) then 0 else Min(size, U32(available - offset))
  }

  lemma DeliveredIsReadable(pos: nat, size: nat)
    requires 0 < size < U32_LIMIT
    ensures var available := (LastLBA(pos, size) - FirstLBA(pos) + 1) * SECTOR;
      pos % SECTOR <= available && Delivered(available, pos % SECTOR, size) == Readable(pos, size)
  {
    SectorsCover(pos, size);
  }

  /** How many bytes a read in range delivers. The sectors it touches are counted in bytes as
      a U32, which is too small when they make up 4 GiB or more. */
  function Readable(pos: nat, size: nat): nat
    requires size > 0
  {
    var available := (LastLBA(pos, size) - FirstLBA(pos) + 1) * SECTOR;
    if available < U32_LIMIT then size else if available == U32_LIMIT then 0 else SECTOR - pos % SECTOR
  }

  /** A read in range is complete exactly when its sectors make up less than 4 GiB. */
  lemma ReadComplete(pos: nat, size: nat)
    requires 0 < size < U32_LIMIT
    ensures Readable(pos, size) == size <==> (LastLBA(pos, size) - FirstLBA(pos) + 1) * SECTOR < U32_LIMIT
    ensures (pos % SECTOR + size) <= U32_LIMIT - SECTOR ==> Readable(pos, size) == size
    ensures Readable(pos, size) <= size
  {
    SectorsCover(pos, size);
  }

  /** The largest read from the start of a device delivers nothing. */
  lemma LargestReadFails()
    ensures Readable(0, U32_LIMIT - 1) == 0
  {
  }
}
