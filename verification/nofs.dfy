/**
 * NoFS ("no file system"): an append-only byte stream written straight onto
 * the sectors of a memory card. The end of the logged data is marked by an
 * ETX byte; after a restart the log resumes at the first ETX found by
 * scanning the sectors from 0 upward.
 *
 * The card is an abstract block device: a map from sector index to the
 * sector's 512 bytes. Reading or writing a sector the card does not have
 * fails and changes nothing.
 */
module NoFs {
  import opened Bytes

  /** Size of a sector and of the working buffer. */
  const SectorSize: nat := 512
  /** The working sector is flushed on every call after this many unflushed calls. */
  const FlushEvery: nat := 10

  type Disk = map<nat, seq<byte>>

  ghost predicate WellFormed(disk: Disk)
  {
    forall k :: k in disk ==> |disk[k]| == SectorSize
  }

  /** The byte at stream position `p` of a card image (0 where the image has no such sector). */
  ghost function StreamByte(image: Disk, p: nat): (b: byte)
  {
    var k, j := p / SectorSize, p % SectorSize;
    if k in image && j < |image[k]| then image[k][j] else 0
  }

  /**
   * Sector `k` with offset `j` is where a scan from sector 0 resumes on
   * `disk`: no earlier sector holds ETX, and `j` is the first ETX of sector `k`.
   */
  ghost predicate ResumePoint(disk: Disk, k: nat, j: nat)
  {
    && k in disk
    && j < |disk[k]|
    && j == IndexOf(disk[k], ETX)
    && forall i :: 0 <= i < k ==> i in disk && ETX !in disk[i]
  }

  /** A card has at most one resume point. */
  lemma ResumePointUnique(disk: Disk, k1: nat, j1: nat, k2: nat, j2: nat)
    requires ResumePoint(disk, k1, j1) && ResumePoint(disk, k2, j2)
    ensures k1 == k2 && j1 == j2
  {
  }

  /**
   * The loop guard of the resume scan, "the byte scan ran off the end and the
   * last byte is not ETX", holds exactly when the sector holds no ETX; its
   * second conjunct follows from the first.
   */
  lemma ScanGuardMeansNoEtx(sector: seq<byte>)
    requires |sector| == SectorSize
    ensures (IndexOf(sector, ETX) == SectorSize && sector[SectorSize - 1] != ETX) <==> ETX !in sector
    ensures IndexOf(sector, ETX) == SectorSize ==> sector[SectorSize - 1] != ETX
  {
  }

  /**
   * The in-sector offset after the copy loop of nofs_writeString as written,
   * starting at offset `cur` and copying `n` bytes: a full buffer is rolled
   * over only when one more byte is waiting, so the loop can end at offset 512.
   * The loop index is a uint8_t, so the loop ends only for strings shorter
   * than 256 bytes.
   */
  function CopyCursor(cur: nat, n: nat): (r: nat)
    requires cur <= SectorSize && n < 256
    ensures r <= SectorSize
    ensures n == 0 ==> r == cur
    ensures n > 0 ==> 0 < r
    decreases n, if cur == SectorSize then 1 else 0
  {
    if n == 0 then cur
    else if cur < SectorSize then CopyCursor(cur + 1, n - 1)
    else CopyCursor(0, n)
  }

  lemma {:induction false} CopyCursorClosedForm(cur: nat, n: nat)
    requires cur <= SectorSize && 0 < n < 256
    ensures CopyCursor(cur, n) == (cur + n - 1) % SectorSize + 1
    decreases n, if cur == SectorSize then 1 else 0
  {
    if cur < SectorSize {
      if n > 1 {
        CopyCursorClosedForm(cur + 1, n - 1);
      }
    } else {
      CopyCursorClosedForm(0, n);
    }
  }

  /**
   * As written, the final ETX stamp `sectorBuf[fCurrentByte]` lands one past
   * the end of the 512-byte buffer exactly when the copied string ends on a
   * sector boundary.
   */
  lemma StampIndexOutOfBounds(cur: nat, n: nat)
    requires cur <= SectorSize && 0 < n < 256
    ensures CopyCursor(cur, n) == SectorSize <==> (cur + n) % SectorSize == 0
  {
    CopyCursorClosedForm(cur, n);
  }

  /** A witness: a 12-byte string appended at byte 500 of a sector ends the loop at 512. */
  lemma StampOutOfBoundsWitness()
    ensures CopyCursor(500, 12) == SectorSize
  {
    StampIndexOutOfBounds(500, 12);
  }

  lemma PositionSplit(k: nat, j: nat)
    requires j < SectorSize
    ensures (k * SectorSize + j) / SectorSize == k
    ensures (k * SectorSize + j) % SectorSize == j
  {
  }

  lemma PositionBelow(p: nat, k: nat, j: nat)
    requires j <= SectorSize && p < k * SectorSize + j
    ensures p / SectorSize <= k
    ensures p / SectorSize == k ==> p % SectorSize < j
  {
  }

  class Log {
    /** The card. */
    var disk: Disk
    /** fCurrentSector: the sector held in the working buffer. */
    var currentSector: nat
    /** fCurrentByte: offset of the current ETX in the working buffer. */
    var currentByte: nat
    /** fWriteCount: calls since the last flush. */
    var writeCount: nat
    /** sectorBuf: the working buffer. */
    const sectorBuf: array<byte>

    ghost predicate Valid()
      reads this, sectorBuf
    {
      && sectorBuf.Length == SectorSize
      && WellFormed(disk)
      && currentByte <= SectorSize
      && writeCount <= FlushEvery
    }

    /** The stream position of the cursor. */
    ghost function Pos(): (p: nat)
      reads this
    {
      currentSector * SectorSize + currentByte
    }

    /** The card as it would be if the working buffer were flushed now. */
    ghost function Image(): (image: Disk)
      reads this, sectorBuf
    {
      disk[currentSector := sectorBuf[..]]
    }

    /**
     * The crash-safety invariant: every sector before the current one is on
     * the card and free of ETX, the card's copy of the current sector holds an
     * ETX at or before the cursor, and the buffer holds no ETX before the cursor.
     */
    ghost predicate Clean()
      reads this, sectorBuf
      requires Valid()
    {
      && (forall i :: 0 <= i < currentSector ==> i in disk && ETX !in disk[i])
      && currentSector in disk
      && IndexOf(disk[currentSector], ETX) <= currentByte
      && IndexOf(disk[currentSector], ETX) < SectorSize
      && ETX !in sectorBuf[..currentByte]
    }

    constructor (card: Disk)
      requires WellFormed(card)
      ensures Valid() && fresh(sectorBuf)
      ensures disk == card && currentSector == 0 && currentByte == 0 && writeCount == 0
    {
      disk := card;
      currentSector := 0;
      currentByte := 0;
      writeCount := 0;
      sectorBuf := new byte[SectorSize](_ => 0);
    }

    /** Reads sector `k` of the card into the working buffer. */
    method ReadSector(k: nat) returns (ok: bool)
      requires Valid()
      modifies sectorBuf
      ensures ok == (k in disk)
      ensures ok ==> sectorBuf[..] == disk[k]
      ensures !ok ==> sectorBuf[..] == old(sectorBuf[..])
    {
      ok := k in disk;
      if ok {
        var data := disk[k];
        forall i | 0 <= i < SectorSize {
          sectorBuf[i] := data[i];
        }
      }
    }

    /** Writes the working buffer to sector `k` of the card. */
    method WriteSector(k: nat) returns (ok: bool)
      requires Valid()
      modifies this`disk
      ensures ok == (k in old(disk))
      ensures disk == if ok then old(disk)[k := sectorBuf[..]] else old(disk)
      ensures Valid()
    {
      ok := k in disk;
      if ok {
        disk := disk[k := sectorBuf[..]];
      }
    }

    /**
     * nofs_init: when the card came up, scans sectors upward from the current
     * one for the first ETX and resumes there. `last` is a sector known to hold
     * an ETX; without one the scan does not end.
     */
    method Init(cardReady: bool, ghost last: nat) returns (ok: bool)
      requires Valid()
      requires cardReady ==> currentSector <= last && last in disk && ETX in disk[last]
      requires cardReady ==> forall k :: currentSector <= k <= last ==> k in disk
      modifies this, sectorBuf
      ensures Valid() && ok == cardReady
      ensures disk == old(disk) && writeCount == old(writeCount)
      ensures !ok ==> currentSector == old(currentSector) && currentByte == old(currentByte)
      ensures !ok ==> sectorBuf[..] == old(sectorBuf[..])
      ensures ok ==> old(currentSector) <= currentSector <= last
      ensures ok ==> forall k :: old(currentSector) <= k < currentSector ==> ETX !in disk[k]
      ensures ok ==> currentSector in disk && sectorBuf[..] == disk[currentSector]
      ensures ok ==> currentByte < SectorSize && currentByte == IndexOf(sectorBuf[..], ETX)
      ensures ok ==> sectorBuf[currentByte] == ETX
      ensures ok && old(currentSector) == 0 ==> Clean() && ResumePoint(disk, currentSector, currentByte)
    {
      if !cardReady {
        return false;
      }
      ghost var start := currentSector;
      var more := true;
      while more
        invariant Valid() && disk == old(disk) && writeCount == old(writeCount)
        invariant start <= currentSector <= last + 1
        invariant forall k :: start <= k <= last ==> k in disk
        invariant ETX in disk[last]
        invariant more ==> currentSector <= last
        invariant more ==> forall k :: start <= k < currentSector ==> ETX !in disk[k]
        invariant !more ==> start < currentSector
        invariant !more ==> forall k :: start <= k < currentSector - 1 ==> ETX !in disk[k]
        invariant !more ==> sectorBuf[..] == disk[currentSector - 1]
        invariant !more ==> currentByte < SectorSize && currentByte == IndexOf(sectorBuf[..], ETX)
        decreases last + 1 - currentSector, more
      {
        var read := ReadSector(currentSector);
        currentSector := currentSector + 1;
        FindEtx();
        more := currentByte == SectorSize && sectorBuf[currentByte - 1] != ETX;
        assert read && sectorBuf[..] == disk[currentSector - 1];
      }
      currentSector := currentSector - 1;
      ok := true;
    }

    /** The scan loop of nofs_init: moves the cursor to the first ETX of the buffer, or to its end. */
    method FindEtx()
      requires Valid()
      modifies this`currentByte
      ensures Valid()
      ensures currentByte == IndexOf(sectorBuf[..], ETX)
    {
      currentByte := 0;
      while currentByte < SectorSize
        invariant currentByte <= SectorSize
        invariant forall j :: 0 <= j < currentByte ==> sectorBuf[j] != ETX
      {
        if sectorBuf[currentByte] == ETX {
          IndexOfUnique(sectorBuf[..], ETX, currentByte);
          return;
        }
        currentByte := currentByte + 1;
      }
      assert ETX !in sectorBuf[..];
    }

    /**
     * The rollover branch of nofs_writeString: writes the full buffer to the
     * current sector, reads the next sector, stamps ETX at its byte 0 and
     * writes it back, so the card shows the new end marker before any further
     * byte is copied.
     */
    method Rollover()
      requires Valid() && currentByte == SectorSize
      requires currentSector in disk && currentSector + 1 in disk
      modifies this, sectorBuf
      ensures Valid() && writeCount == old(writeCount)
      ensures currentSector == old(currentSector) + 1 && currentByte == 0
      ensures disk == old(disk)[old(currentSector) := old(sectorBuf[..])]
                                [currentSector := old(disk)[currentSector][0 := ETX]]
      ensures sectorBuf[..] == disk[currentSector] && sectorBuf[0] == ETX
      ensures Pos() == old(Pos())
      ensures old(Clean()) ==> Clean()
    {
      var written := WriteSector(currentSector);
      currentSector := currentSector + 1;
      var read := ReadSector(currentSector);
      sectorBuf[0] := ETX;
      written := WriteSector(currentSector);
      currentByte := 0;
      assert IndexOf(disk[currentSector], ETX) == 0;
    }

    /**
     * nofs_writeString: appends `s` (the bytes before its NUL) to the log,
     * stamps ETX after it in the buffer and flushes the buffer on every 11th
     * call. Unlike the source, a string that ends exactly on a sector boundary
     * rolls over before the stamp, so the stamp stays inside the buffer.
     */
    method WriteString(s: seq<byte>) returns (r: bool)
      requires Valid()
      requires |s| < 256 && NUL !in s
      requires forall k :: currentSector <= k <= (Pos() + |s|) / SectorSize ==> k in disk
      modifies this, sectorBuf
      ensures r
      ensures Valid() && currentByte < SectorSize && sectorBuf[currentByte] == ETX
      ensures Pos() == old(Pos()) + |s|
      ensures forall i :: 0 <= i < |s| ==> StreamByte(Image(), old(Pos()) + i) == s[i]
      ensures forall p: nat :: p < old(Pos()) ==> StreamByte(Image(), p) == StreamByte(old(Image()), p)
      ensures disk.Keys == old(disk).Keys
      ensures forall k :: k in disk && (k < old(currentSector) || currentSector < k) ==> disk[k] == old(disk)[k]
      ensures writeCount == if old(writeCount) == FlushEvery then 0 else old(writeCount) + 1
      ensures old(writeCount) == FlushEvery ==> disk[currentSector] == sectorBuf[..]
      ensures old(writeCount) < FlushEvery && currentSector == old(currentSector) ==> disk == old(disk)
      ensures currentSector != old(currentSector) ==> currentSector == old(currentSector) + 1
      ensures old(writeCount) < FlushEvery && currentSector != old(currentSector) ==>
                disk[currentSector] == old(disk)[currentSector][0 := ETX]
      ensures old(Clean()) && ETX !in s ==> Clean()
      ensures old(Clean()) && ETX !in s && old(writeCount) == FlushEvery ==>
                ResumePoint(disk, currentSector, currentByte)
    {
      ghost var p0 := Pos();
      CopyAll(s);
      if currentByte == SectorSize {
        assert currentSector + 1 <= (p0 + |s|) / SectorSize by {
          PositionSplit(currentSector + 1, 0);
        }
        RolloverStep(p0, |s|, s);
      }
      StampAndCount();
      r := true;
    }

    /** The copy loop of nofs_writeString, rolling over lazily as the source does. */
    method CopyAll(s: seq<byte>)
      requires Valid() && |s| < 256
      requires forall k :: currentSector <= k <= (Pos() + |s|) / SectorSize ==> k in disk
      modifies this, sectorBuf
      ensures Valid() && writeCount == old(writeCount)
      ensures Pos() == old(Pos()) + |s|
      ensures currentByte == CopyCursor(old(currentByte), |s|)
      ensures old(currentSector) <= currentSector
      ensures forall k :: currentSector <= k <= Pos() / SectorSize ==> k in disk
      ensures disk.Keys == old(disk).Keys
      ensures forall k :: k in disk && (k < old(currentSector) || currentSector < k) ==> disk[k] == old(disk)[k]
      ensures currentSector == old(currentSector) ==> disk == old(disk)
      ensures currentSector != old(currentSector) ==>
                && currentSector == old(currentSector) + 1 && currentByte < SectorSize
                && disk[currentSector] == old(disk)[currentSector][0 := ETX]
      ensures forall j :: 0 <= j < |s| ==> StreamByte(Image(), old(Pos()) + j) == s[j]
      ensures forall p: nat :: p < old(Pos()) ==> StreamByte(Image(), p) == StreamByte(old(Image()), p)
      ensures old(Clean()) && ETX !in s ==> Clean()
    {
      ghost var p0 := Pos();
      ghost var last := (p0 + |s|) / SectorSize;
      ghost var wasClean := Clean();
      var i := 0;
      while i < |s|
        invariant Valid() && writeCount == old(writeCount)
        invariant i <= |s| && Pos() == p0 + i
        invariant CopyCursor(currentByte, |s| - i) == CopyCursor(old(currentByte), |s|)
        invariant old(currentSector) <= currentSector
        invariant forall k :: currentSector <= k <= last ==> k in disk
        invariant disk.Keys == old(disk).Keys
        invariant forall k :: k in disk && (k < old(currentSector) || currentSector < k) ==> disk[k] == old(disk)[k]
        invariant currentSector == old(currentSector) ==> disk == old(disk)
        invariant currentSector != old(currentSector) ==>
                    && currentSector == old(currentSector) + 1 && currentByte + |s| - i < SectorSize
                    && disk[currentSector] == old(disk)[currentSector][0 := ETX]
        invariant forall j :: 0 <= j < i ==> StreamByte(Image(), p0 + j) == s[j]
        invariant forall p: nat :: p < p0 ==> StreamByte(Image(), p) == StreamByte(old(Image()), p)
        invariant wasClean && ETX !in s ==> Clean()
        decreases |s| - i, if currentByte == SectorSize then 1 else 0
      {
        i := Step(s, i, p0, last);
      }
    }

    /** One pass of the copy loop: the next byte when the buffer has room, a rollover otherwise. */
    method Step(s: seq<byte>, i: nat, ghost p0: nat, ghost last: nat) returns (next: nat)
      requires Valid() && i < |s| < 256 && Pos() == p0 + i && last == (p0 + |s|) / SectorSize
      requires forall k :: currentSector <= k <= last ==> k in disk
      requires forall j :: 0 <= j < i ==> StreamByte(Image(), p0 + j) == s[j]
      modifies this, sectorBuf
      ensures Valid() && writeCount == old(writeCount)
      ensures next == i + 1 || (next == i && old(currentByte) == SectorSize && currentByte == 0)
      ensures Pos() == p0 + next
      ensures CopyCursor(currentByte, |s| - next) == CopyCursor(old(currentByte), |s| - i)
      ensures old(currentSector) <= currentSector
      ensures forall k :: currentSector <= k <= last ==> k in disk
      ensures disk.Keys == old(disk).Keys
      ensures forall k :: k in disk && k != old(currentSector) && k != currentSector ==> disk[k] == old(disk)[k]
      ensures currentSector == old(currentSector) ==> disk == old(disk)
      ensures currentSector != old(currentSector) ==>
                currentSector == old(currentSector) + 1 && disk[currentSector] == old(disk)[currentSector][0 := ETX]
      ensures forall j :: 0 <= j < next ==> StreamByte(Image(), p0 + j) == s[j]
      ensures forall p: nat :: p < p0 ==> StreamByte(Image(), p) == StreamByte(old(Image()), p)
      ensures old(Clean()) && ETX !in s ==> Clean()
    {
      if currentByte < SectorSize {
        CopyStep(s[i], p0, i, s);
        next := i + 1;
      } else {
        assert currentSector + 1 <= last by {
          PositionSplit(currentSector + 1, 0);
        }
        RolloverStep(p0, i, s);
        next := i;
      }
    }

    /** Stamps ETX at the cursor and counts the call, flushing on every 11th. */
    method StampAndCount()
      requires Valid() && currentByte < SectorSize && currentSector in disk
      modifies this, sectorBuf
      ensures Valid() && currentSector == old(currentSector) && currentByte == old(currentByte)
      ensures sectorBuf[..] == old(sectorBuf[..])[currentByte := ETX]
      ensures forall p: nat :: p < Pos() ==> StreamByte(Image(), p) == StreamByte(old(Image()), p)
      ensures writeCount == if old(writeCount) == FlushEvery then 0 else old(writeCount) + 1
      ensures disk == if old(writeCount) == FlushEvery then old(disk)[currentSector := sectorBuf[..]] else old(disk)
      ensures old(Clean()) ==> Clean()
      ensures old(Clean()) && old(writeCount) == FlushEvery ==> ResumePoint(disk, currentSector, currentByte)
    {
      ghost var wasClean := Clean();
      sectorBuf[currentByte] := ETX;
      forall p: nat | p < Pos()
        ensures StreamByte(Image(), p) == StreamByte(old(Image()), p)
      {
        PositionSplit(currentSector, currentByte);
        PositionBelow(p, currentSector, currentByte);
      }
      assert sectorBuf[..currentByte] == old(sectorBuf[..currentByte]);
      if writeCount == FlushEvery {
        var written := WriteSector(currentSector);
        writeCount := 0;
        if wasClean {
          IndexOfUnique(sectorBuf[..], ETX, currentByte);
        }
      } else {
        writeCount := writeCount + 1;
      }
    }

    /** One pass of the copy branch: the next byte goes to the cursor. */
    method CopyStep(b: byte, ghost p0: nat, ghost i: nat, ghost s: seq<byte>)
      requires Valid() && currentByte < SectorSize
      requires i < |s| && b == s[i] && Pos() == p0 + i
      requires forall j :: 0 <= j < i ==> StreamByte(Image(), p0 + j) == s[j]
      modifies this, sectorBuf
      ensures Valid() && disk == old(disk) && writeCount == old(writeCount)
      ensures currentSector == old(currentSector) && currentByte == old(currentByte) + 1
      ensures sectorBuf[..] == old(sectorBuf[..])[old(currentByte) := b]
      ensures forall j :: 0 <= j <= i ==> StreamByte(Image(), p0 + j) == s[j]
      ensures forall p: nat :: p < old(Pos()) ==> StreamByte(Image(), p) == StreamByte(old(Image()), p)
      ensures old(Clean()) && b != ETX ==> Clean()
    {
      ghost var image0 := Image();
      sectorBuf[currentByte] := b;
      currentByte := currentByte + 1;
      PositionSplit(currentSector, currentByte - 1);
      forall p: nat | p < old(Pos())
        ensures StreamByte(Image(), p) == StreamByte(image0, p)
      {
        PositionBelow(p, currentSector, currentByte - 1);
      }
      assert sectorBuf[..currentByte] == old(sectorBuf[..currentByte]) + [b];
    }

    /** One pass of the rollover branch, with what it keeps of the stream. */
    method RolloverStep(ghost p0: nat, ghost i: nat, ghost s: seq<byte>)
      requires Valid() && currentByte == SectorSize
      requires currentSector in disk && currentSector + 1 in disk
      requires i <= |s| && Pos() == p0 + i
      modifies this, sectorBuf
      ensures Valid() && writeCount == old(writeCount)
      ensures currentSector == old(currentSector) + 1 && currentByte == 0 && Pos() == old(Pos())
      ensures disk.Keys == old(disk).Keys
      ensures disk[currentSector] == old(disk)[currentSector][0 := ETX]
      ensures forall k :: k in disk && k != old(currentSector) && k != currentSector ==> disk[k] == old(disk)[k]
      ensures forall p: nat :: p < Pos() ==> StreamByte(Image(), p) == StreamByte(old(Image()), p)
      ensures old(Clean()) ==> Clean()
    {
      Rollover();
      forall p: nat | p < Pos()
        ensures StreamByte(Image(), p) == StreamByte(old(Image()), p)
      {
        PositionBelow(p, currentSector, 0);
        PositionBelow(p, old(currentSector), SectorSize);
      }
    }
  }
}
