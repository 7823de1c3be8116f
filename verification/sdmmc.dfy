/**
 * The SD/MMC card driver in SPI mode: the six-byte command frame of
 * section 7.3.1.1 (Command Format) of the SD Physical Layer Simplified
 * Specification, the response poll, the single-block read and write
 * transactions, the block-length command and the CMD0/CMD1 start-up.
 *
 * The SPI bus is a byte channel. `sent` records every byte handed to
 * spi_writeByte, in order; `incoming` is the script of bytes the card will
 * answer to successive spi_readByte calls. MISO has its pull-up enabled, so
 * once the script is exhausted every read returns 0xFF.
 */
module SdMmc {
  import opened Bytes

  /** SDMMC_SECTOR_SIZE, the default block length. */
  const SectorSize: nat := 512
  /** Command indices: CMD0, CMD1, CMD16, CMD17, CMD24. */
  const GoIdleState: byte := 0
  const SendOpCond: byte := 1
  const SetBlockLen: byte := 16
  const ReadSingleBlock: byte := 17
  const WriteBlock: byte := 24
  /** The precomputed CRC byte of CMD0 with argument 0. */
  const GoIdleStateCrc: byte := 0x95
  /** The CRC byte sent with every other command; SPI mode ignores it. */
  const DefaultCrc: byte := 0xFF
  /** The level of an idle MISO line, and the filler byte clocked out by reads. */
  const Idle: byte := 0xFF
  /** The token that precedes a data block in both directions. */
  const StartToken: byte := 0xFE
  /** The R1 response of a card in idle state, and of a ready card. */
  const R1Idle: byte := 0x01
  const R1Ready: byte := 0x00
  /** The data-response code for "data accepted", in the low five bits. */
  const DataAccepted: byte := 0x05
  /** Every polling loop gives up on its 256th attempt (uint8_t retry counter). */
  const MaxTries: nat := 256
  /** Dummy reads between CMD24 and the start token. */
  const WriteGap: nat := 100
  /** Dummy bytes sent before CMD0. */
  const WakeUpBytes: nat := 20

  /** The first frame byte: start bit 0, transmission bit 1, then the six-bit index. */
  function CommandByte(cmd: byte): (r: byte)
    ensures r & 0x80 == 0 && r & 0x40 == 0x40
    ensures r & 0x3F == cmd & 0x3F
  {
    (cmd & !(1 << 7)) | (1 << 6)
  }

  /** The last frame byte: the CRC with its end bit set. */
  function CrcByte(crc: byte): (r: byte)
    ensures r & 0x01 == 0x01
    ensures r & 0xFE == crc & 0xFE
  {
    crc | 1
  }

  /** The 32-bit argument, most significant byte first. */
  function ArgumentBytes(arg: bv32): (b: seq<byte>)
    ensures |b| == 4
  {
    [ ((arg & 0xFF00_0000) >> 24) as byte,
      ((arg & 0x00FF_0000) >> 16) as byte,
      ((arg & 0x0000_FF00) >> 8) as byte,
      (arg & 0x0000_00FF) as byte ]
  }

  /** The 32-bit value whose big-endian bytes are `b`. */
  function ArgumentOf(b: seq<byte>): (arg: bv32)
    requires |b| == 4
  {
    ((b[0] as bv32) << 24) | ((b[1] as bv32) << 16) | ((b[2] as bv32) << 8) | (b[3] as bv32)
  }

  /** Reassembling the four argument bytes gives back the argument. */
  lemma ArgumentRoundTrip(arg: bv32)
    ensures ArgumentOf(ArgumentBytes(arg)) == arg
  {
  }

  /** Every four bytes are the encoding of exactly one argument. */
  lemma ArgumentBytesRoundTrip(b: seq<byte>)
    requires |b| == 4
    ensures ArgumentBytes(ArgumentOf(b)) == b
  {
  }

  /** The six bytes sdmmc_writeCommand sends after its dummy byte. */
  function CommandFrame(cmd: byte, arg: bv32, crc: byte): (f: seq<byte>)
    ensures |f| == 6
    ensures f[0] & 0xC0 == 0x40 && f[0] & 0x3F == cmd & 0x3F
    ensures ArgumentOf(f[1..5]) == arg
    ensures f[5] & 0x01 == 0x01 && f[5] & 0xFE == crc & 0xFE
  {
    ArgumentRoundTrip(arg);
    var f := [CommandByte(cmd)] + ArgumentBytes(arg) + [CrcByte(crc)];
    assert f[1..5] == ArgumentBytes(arg);
    f
  }

  /** Everything sdmmc_writeCommand hands to spi_writeByte: one dummy 0xFF, then the frame. */
  function CommandBytes(cmd: byte, arg: bv32, crc: byte): (bytes: seq<byte>)
  {
    [Idle] + CommandFrame(cmd, arg, crc)
  }

  /**
   * sdmmc_writeCommand puts seven bytes on the bus: the dummy 0xFF, the command
   * byte, the four argument bytes and the CRC byte.
   */
  lemma CommandBytesLayout(cmd: byte, arg: bv32, crc: byte)
    ensures var b := CommandBytes(cmd, arg, crc);
            && |b| == 7 && b[0] == Idle
            && b[1] & 0xC0 == 0x40 && b[1] & 0x3F == cmd & 0x3F
            && ArgumentOf(b[2..6]) == arg
            && b[6] & 0x01 == 0x01 && b[6] & 0xFE == crc & 0xFE
  {
    assert CommandBytes(cmd, arg, crc)[2..6] == CommandFrame(cmd, arg, crc)[1..5];
  }

  /** SECTOR_TO_BYTE: the byte address of a sector, `sector << 9` in 32 bits. */
  function SectorToByte(sector: bv32): (addr: bv32)
    ensures addr == sector * 512
  {
    sector << 9
  }

  /** Below 2^23 sectors (4 GiB) the byte address identifies the sector. */
  lemma SectorToByteExact(sector: bv32)
    requires sector < 0x80_0000
    ensures SectorToByte(sector) / 512 == sector
  {
  }

  /** Sector 2^23 wraps around to byte address 0, the address of sector 0. */
  lemma SectorToByteWraps()
    ensures SectorToByte(0x80_0000) == SectorToByte(0)
  {
  }

  /** The answer to the `i`-th read (from 0) on a bus whose card answers with `s`. */
  function Peek(s: seq<byte>, i: nat): (b: byte)
  {
    if i < |s| then s[i] else Idle
  }

  /** What the card still has to answer after `n` reads. */
  function Drop(s: seq<byte>, n: nat): (r: seq<byte>)
    ensures |r| <= |s|
    ensures n <= |s| ==> |r| == |s| - n
  {
    if n <= |s| then s[n..] else []
  }

  /** The `i`-th answer after `n` reads is the `n + i`-th answer. */
  lemma PeekDrop(s: seq<byte>, n: nat, i: nat)
    ensures Peek(Drop(s, n), i) == Peek(s, n + i)
  {
  }

  /** Reading `a` then `b` bytes consumes the script as reading `a + b` does. */
  lemma DropDrop(s: seq<byte>, a: nat, b: nat)
    ensures Drop(Drop(s, a), b) == Drop(s, a + b)
  {
  }

  /** `x` repeated `n` times. */
  function Repeat(x: seq<byte>, n: nat): (r: seq<byte>)
  {
    if n == 0 then [] else Repeat(x, n - 1) + x
  }

  /** The outcome of a response poll: how many bytes it read and what it returned. */
  datatype Reply = Reply(count: nat, value: byte)

  /**
   * The response poll of sdmmc_writeCommand, `i` reads in: it returns the
   * first byte that is not 0xFF, but the 256th read is replaced by 0 whatever
   * it was.
   */
  function PollFrom(s: seq<byte>, i: nat): (r: Reply)
    requires i < MaxTries
    ensures i < r.count <= MaxTries
    ensures r.value != Idle
    decreases MaxTries - i
  {
    if i == MaxTries - 1 then Reply(MaxTries, 0)
    else if Peek(s, i) != Idle then Reply(i + 1, Peek(s, i))
    else PollFrom(s, i + 1)
  }

  function Poll(s: seq<byte>): (r: Reply)
    ensures 1 <= r.count <= MaxTries && r.value != Idle
  {
    PollFrom(s, 0)
  }

  /**
   * The poll, `i` reads in, skips 0xFF bytes: every read before the last one
   * was 0xFF, and the last one is the value returned unless it was the 256th.
   */
  lemma {:induction false} PollFromSkipsIdle(s: seq<byte>, i: nat)
    requires i < MaxTries
    ensures var r := PollFrom(s, i);
            && (forall j :: i <= j < r.count - 1 ==> Peek(s, j) == Idle)
            && (r.count < MaxTries ==> r.value == Peek(s, r.count - 1))
            && (r.count == MaxTries ==> r.value == 0)
    decreases MaxTries - i
  {
    if i < MaxTries - 1 && Peek(s, i) == Idle {
      PollFromSkipsIdle(s, i + 1);
    }
  }

  /**
   * When the card stays silent for 255 reads the poll returns 0, the R1
   * response of a ready card, whatever the 256th byte is.
   */
  lemma PollTimeout(s: seq<byte>)
    requires forall j :: 0 <= j < MaxTries - 1 ==> Peek(s, j) == Idle
    ensures Poll(s) == Reply(MaxTries, R1Ready)
  {
    PollFromSkipsIdle(s, 0);
  }

  /** A card that answers "idle" on the 256th read is reported as ready. */
  lemma PollDropsLastRead()
    ensures Poll(seq(MaxTries - 1, _ => Idle) + [R1Idle]) == Reply(MaxTries, R1Ready)
  {
    var s := seq(MaxTries - 1, _ => Idle) + [R1Idle];
    assert forall j :: 0 <= j < MaxTries - 1 ==> Peek(s, j) == s[j] == Idle;
    PollTimeout(s);
  }

  /**
   * The start-token wait of sdmmc_readSector, `i` reads in: the number of
   * bytes read up to and including the first 0xFE, or None when 0xFE is not
   * among the first 255 reads (the 256th read fails even if it is 0xFE).
   */
  function TokenFrom(s: seq<byte>, i: nat): (r: Option<nat>)
    requires i < MaxTries
    ensures r.Some? ==> i < r.value < MaxTries && Peek(s, r.value - 1) == StartToken
    ensures r.Some? ==> forall j :: i <= j < r.value - 1 ==> Peek(s, j) != StartToken
    ensures r.None? <==> forall j :: i <= j < MaxTries - 1 ==> Peek(s, j) != StartToken
    decreases MaxTries - i
  {
    if i == MaxTries - 1 then None
    else if Peek(s, i) == StartToken then Some(i + 1)
    else TokenFrom(s, i + 1)
  }

  /** The outcome of a retried command: success, commands sent, and the script left. */
  datatype Retried = Retried(ok: bool, attempts: nat, rest: seq<byte>)

  /**
   * One retry loop of sdmmc_init, `k` attempts in: the command is re-sent
   * until its response is `want`; the check of the retry counter follows the
   * command, so the 256th attempt fails even when it gets `want`.
   */
  function RetryFrom(s: seq<byte>, want: byte, k: nat): (r: Retried)
    requires k < MaxTries
    ensures 1 <= r.attempts <= MaxTries - k
    ensures !r.ok ==> r.attempts == MaxTries - k
    decreases MaxTries - k, 1
  {
    var reply := Poll(s);
    Continue(reply.value, Drop(s, reply.count), want, k)
  }

  /**
   * What the retry loop does once attempt `k` got `response`, with `rest`
   * of the script left: give up, accept, or retry.
   */
  function Continue(response: byte, rest: seq<byte>, want: byte, k: nat): (r: Retried)
    requires k < MaxTries
    ensures 1 <= r.attempts <= MaxTries - k
    ensures !r.ok ==> r.attempts == MaxTries - k
    decreases MaxTries - k, 0
  {
    if k == MaxTries - 1 then Retried(false, 1, rest)
    else if response == want then Retried(true, 1, rest)
    else
      var r := RetryFrom(rest, want, k + 1);
      Retried(r.ok, r.attempts + 1, r.rest)
  }

  /** `r`, preceded by `k` attempts that got no acceptable response. */
  function Later(r: Retried, k: nat): (later: Retried)
  {
    Retried(r.ok, r.attempts + k, r.rest)
  }

  /** One attempt of a retry loop, `k` attempts in. */
  lemma RetryStep(s: seq<byte>, want: byte, k: nat)
    requires k < MaxTries
    ensures var rest := Drop(s, Poll(s).count);
            RetryFrom(s, want, k) ==
              if k == MaxTries - 1 then Retried(false, 1, rest)
              else if Poll(s).value == want then Retried(true, 1, rest)
              else Later(RetryFrom(rest, want, k + 1), 1)
  {
  }

  /** The script left after `j` polls. */
  ghost function AfterPolls(s: seq<byte>, j: nat): (rest: seq<byte>)
    decreases j
  {
    if j == 0 then s else AfterPolls(Drop(s, Poll(s).count), j - 1)
  }

  /** The response to the `j`-th of successive polls, counting from 0. */
  ghost function Response(s: seq<byte>, j: nat): (b: byte)
  {
    Poll(AfterPolls(s, j)).value
  }

  /** How many of `n` successive polls come before the first response `want`; `n` when none is. */
  ghost function FirstWanted(s: seq<byte>, want: byte, n: nat): (r: nat)
    ensures r <= n
    decreases n
  {
    if n == 0 then 0
    else if Poll(s).value == want then 0
    else 1 + FirstWanted(Drop(s, Poll(s).count), want, n - 1)
  }

  /** FirstWanted is the index of the first response `want`. */
  lemma {:induction false} FirstWantedIsFirstResponse(s: seq<byte>, want: byte, n: nat)
    ensures forall j :: 0 <= j < FirstWanted(s, want, n) ==> Response(s, j) != want
    ensures FirstWanted(s, want, n) < n ==> Response(s, FirstWanted(s, want, n)) == want
    decreases n
  {
    if 0 < n && Poll(s).value != want {
      var rest := Drop(s, Poll(s).count);
      FirstWantedIsFirstResponse(rest, want, n - 1);
      forall j | 0 < j <= FirstWanted(rest, want, n - 1)
        ensures Response(s, j) == Response(rest, j - 1)
      {
      }
    }
  }

  /**
   * A retry loop, `k` attempts in, succeeds exactly when the first response
   * `want` comes before its 256th attempt, and then stops there.
   */
  lemma {:induction false} RetryStopsAtFirstWanted(s: seq<byte>, want: byte, k: nat)
    requires k < MaxTries
    ensures RetryFrom(s, want, k).ok <==> FirstWanted(s, want, MaxTries - k) < MaxTries - 1 - k
    ensures RetryFrom(s, want, k).ok ==> RetryFrom(s, want, k).attempts == FirstWanted(s, want, MaxTries - k) + 1
    decreases MaxTries - k
  {
    RetryStep(s, want, k);
    if k < MaxTries - 1 && Poll(s).value != want {
      RetryStopsAtFirstWanted(Drop(s, Poll(s).count), want, k + 1);
    }
  }

  /**
   * A retry loop of sdmmc_init succeeds exactly when one of the responses to
   * its first 255 attempts is `want`, and then stops at the first of them;
   * `want` on the 256th attempt is not taken.
   */
  lemma RetryAcceptsFirstMatch(s: seq<byte>, want: byte)
    ensures RetryFrom(s, want, 0).ok <==> exists j :: 0 <= j < MaxTries - 1 && Response(s, j) == want
    ensures RetryFrom(s, want, 0).ok ==> Response(s, RetryFrom(s, want, 0).attempts - 1) == want
    ensures forall j :: 0 <= j < RetryFrom(s, want, 0).attempts - 1 ==> Response(s, j) != want
  {
    RetryStopsAtFirstWanted(s, want, 0);
    FirstWantedIsFirstResponse(s, want, MaxTries);
  }

  /** A card that never answers never reaches the idle state: CMD0 gives up. */
  lemma {:induction false} SilentCardNeverIdle(k: nat)
    requires k < MaxTries
    ensures !RetryFrom([], R1Idle, k).ok
    decreases MaxTries - k
  {
    PollTimeout([]);
    if k < MaxTries - 1 {
      SilentCardNeverIdle(k + 1);
    }
  }

  /**
   * A card that answers CMD0 once and then falls silent is accepted by CMD1 on
   * the first attempt: the poll's timeout value is the "ready" response.
   */
  lemma SilentCardPassesOpCond()
    ensures RetryFrom([R1Idle], R1Idle, 0) == Retried(true, 1, [])
    ensures RetryFrom([], R1Ready, 0) == Retried(true, 1, [])
  {
    assert Poll([R1Idle]) == Reply(1, R1Idle);
    PollTimeout([]);
  }

  class SdCard {
    /** The bytes the card will answer to the coming reads. */
    var incoming: seq<byte>
    /** Every byte written to the bus with spi_writeByte, oldest first. */
    var sent: seq<byte>
    /** Chip select asserted (CS pin low). */
    var selected: bool
    /** fBlockLength, the bytes per block transfer (a uint16_t). */
    var blockLength: nat

    ghost predicate Valid()
      reads this
    {
      blockLength < 0x1_0000
    }

    constructor (script: seq<byte>)
      ensures Valid()
      ensures incoming == script && sent == [] && !selected && blockLength == SectorSize
    {
      incoming := script;
      sent := [];
      selected := false;
      blockLength := SectorSize;
    }

    /** spi_readByte: clocks out a dummy byte and returns the card's answer. */
    method ReadByte() returns (b: byte)
      modifies this`incoming
      ensures b == Peek(old(incoming), 0)
      ensures incoming == Drop(old(incoming), 1)
    {
      if incoming == [] {
        b := Idle;
      } else {
        b := incoming[0];
        incoming := incoming[1..];
      }
    }

    /** spi_writeByte. */
    method WriteByte(b: byte)
      modifies this`sent
      ensures sent == old(sent) + [b]
    {
      sent := sent + [b];
    }

    /**
     * The response poll at the end of sdmmc_writeCommand: reads until a byte
     * other than 0xFF arrives, giving up with 0 on the 256th read.
     */
    method PollResponse() returns (resp: byte)
      modifies this`incoming
      ensures resp == Poll(old(incoming)).value
      ensures incoming == Drop(old(incoming), Poll(old(incoming)).count)
    {
      ghost var s := incoming;
      var result := Idle;
      var retry: nat := 0;
      while result == Idle
        invariant retry < MaxTries ==> incoming == Drop(s, retry)
        invariant result == Idle ==> retry < MaxTries && Poll(s) == PollFrom(s, retry)
        invariant result != Idle ==> Poll(s) == Reply(retry, result) && incoming == Drop(s, retry)
        decreases MaxTries - retry, if result == Idle then 1 else 0
      {
        result := ReadByte();
        PeekDrop(s, retry, 0);
        DropDrop(s, retry, 1);
        var timedOut := retry == MaxTries - 1;
        retry := retry + 1;
        if timedOut {
          result := 0;
          break;
        }
      }
      resp := result;
    }

    /**
     * sdmmc_writeCommand: a dummy byte with the card deselected, then the
     * frame with the card selected, then the response poll.
     */
    method WriteCommand(cmd: byte, arg: bv32, crc: byte) returns (resp: byte)
      modifies this`incoming, this`sent, this`selected
      ensures selected
      ensures sent == old(sent) + CommandBytes(cmd, arg, crc)
      ensures resp == Poll(old(incoming)).value
      ensures incoming == Drop(old(incoming), Poll(old(incoming)).count)
    {
      var frame := CommandFrame(cmd, arg, crc);
      selected := false;
      WriteByte(Idle);
      selected := true;
      WriteByte(frame[0]);
      WriteByte(frame[1]);
      WriteByte(frame[2]);
      WriteByte(frame[3]);
      WriteByte(frame[4]);
      WriteByte(frame[5]);
      assert sent == old(sent) + CommandBytes(cmd, arg, crc);
      resp := PollResponse();
    }

    /**
     * The start-token wait of sdmmc_readSector: reads until 0xFE arrives,
     * failing on the 256th read.
     */
    method AwaitToken() returns (found: bool)
      modifies this`incoming
      ensures var t := TokenFrom(old(incoming), 0);
              && found == t.Some?
              && incoming == Drop(old(incoming), if found then t.value else MaxTries)
    {
      ghost var s := incoming;
      var response: byte := 0;
      var retry: nat := 0;
      while response != StartToken
        invariant retry <= MaxTries && incoming == Drop(s, retry)
        invariant response != StartToken ==> retry < MaxTries && TokenFrom(s, 0) == TokenFrom(s, retry)
        invariant response == StartToken ==> TokenFrom(s, 0) == Some(retry)
        decreases MaxTries - retry
      {
        response := ReadByte();
        DropDrop(s, retry, 1);
        var timedOut := retry == MaxTries - 1;
        retry := retry + 1;
        if timedOut {
          return false;
        }
      }
      found := true;
    }

    /** The block loop of sdmmc_readSector: the next `blockLength` bytes into out[0..blockLength). */
    method ReadBlock(out: array<byte>)
      requires blockLength <= out.Length
      modifies this`incoming, out
      ensures incoming == Drop(old(incoming), blockLength)
      ensures forall j :: 0 <= j < blockLength ==> out[j] == Peek(old(incoming), j)
      ensures forall j :: blockLength <= j < out.Length ==> out[j] == old(out[j])
    {
      ghost var s := incoming;
      var i := 0;
      while i < blockLength
        invariant i <= blockLength && incoming == Drop(s, i)
        invariant forall j :: 0 <= j < i ==> out[j] == Peek(s, j)
        invariant forall j :: blockLength <= j < out.Length ==> out[j] == old(out[j])
      {
        var b := ReadByte();
        DropDrop(s, i, 1);
        out[i] := b;
        i := i + 1;
      }
    }

    /**
     * sdmmc_readSector: CMD17 for the sector's byte address, the start-token
     * wait, `blockLength` data bytes into `out`, two CRC bytes discarded.
     * `out` is left untouched on failure; the card is deselected on every path.
     */
    method ReadSector(sector: bv32, out: array<byte>) returns (ok: bool)
      requires Valid() && blockLength <= out.Length
      modifies this`incoming, this`sent, this`selected, out
      ensures !selected
      ensures sent == old(sent) + CommandBytes(ReadSingleBlock, SectorToByte(sector), DefaultCrc)
      ensures var c := Poll(old(incoming));
              var s1 := Drop(old(incoming), c.count);
              var t := TokenFrom(s1, 0);
              && ok == (c.value == R1Ready && t.Some?)
              && (c.value != R1Ready ==> incoming == s1)
              && (c.value == R1Ready && t.None? ==> incoming == Drop(s1, MaxTries))
              && (ok ==> incoming == Drop(Drop(s1, t.value), blockLength + 2))
              && (ok ==> forall j :: 0 <= j < blockLength ==> out[j] == Peek(Drop(s1, t.value), j))
      ensures !ok ==> out[..] == old(out[..])
      ensures forall j :: blockLength <= j < out.Length ==> out[j] == old(out[j])
    {
      selected := true;
      var resp := WriteCommand(ReadSingleBlock, SectorToByte(sector), DefaultCrc);
      if resp != R1Ready {
        selected := false;
        return false;
      }
      ok := ReceiveBlock(out);
      selected := false;
    }

    /**
     * The data phase of sdmmc_readSector: the start-token wait, then
     * `blockLength` bytes into `out` and two CRC bytes discarded.
     */
    method ReceiveBlock(out: array<byte>) returns (found: bool)
      requires blockLength <= out.Length
      modifies this`incoming, out
      ensures var t := TokenFrom(old(incoming), 0);
              && found == t.Some?
              && (!found ==> incoming == Drop(old(incoming), MaxTries) && out[..] == old(out[..]))
              && (found ==> incoming == Drop(Drop(old(incoming), t.value), blockLength + 2))
              && (found ==> forall j :: 0 <= j < blockLength ==> out[j] == Peek(Drop(old(incoming), t.value), j))
      ensures forall j :: blockLength <= j < out.Length ==> out[j] == old(out[j])
    {
      found := AwaitToken();
      if !found {
        return;
      }
      ghost var s2 := incoming;
      ReadBlock(out);
      SkipBytes(2);
      DropDrop(s2, blockLength, 2);
    }

    /** The low five bits of a data response read `accepted`. */
    static predicate Accepted(resp: byte): (b: bool)
      ensures b ==> resp != Idle
    {
      resp & 0x1F == DataAccepted
    }

    /** `n` reads whose answers are discarded. */
    method SkipBytes(n: nat)
      modifies this`incoming
      ensures incoming == Drop(old(incoming), n)
    {
      ghost var s := incoming;
      var i := 0;
      while i < n
        invariant i <= n && incoming == Drop(s, i)
      {
        var _ := ReadByte();
        DropDrop(s, i, 1);
        i := i + 1;
      }
    }

    /** The block loop of sdmmc_writeSector: data[0..blockLength) onto the bus. */
    method SendBlock(data: array<byte>)
      requires blockLength <= data.Length
      modifies this`sent
      ensures sent == old(sent) + data[..blockLength]
    {
      var k := 0;
      while k < blockLength
        invariant k <= blockLength && sent == old(sent) + data[..k]
      {
        WriteByte(data[k]);
        assert data[..k + 1] == data[..k] + [data[k]];
        k := k + 1;
      }
    }

    /**
     * The busy wait of sdmmc_writeSector: reads until the card releases MISO
     * (0xFF). The source loop is unbounded; it ends here because the script is
     * finite and an exhausted script reads 0xFF.
     */
    method AwaitReady()
      modifies this`incoming
      ensures incoming == Drop(old(incoming), IndexOf(old(incoming), Idle) + 1)
    {
      ghost var s := incoming;
      var b := ReadByte();
      ghost var n: nat := 1;
      while b != Idle
        invariant 1 <= n && incoming == Drop(s, n) && b == Peek(s, n - 1)
        invariant n - 1 <= |s| && forall j :: 0 <= j < n - 1 ==> s[j] != Idle
        invariant b != Idle ==> n <= |s|
        decreases |s| + 1 - n
      {
        b := ReadByte();
        DropDrop(s, n, 1);
        n := n + 1;
      }
      if n - 1 < |s| {
        IndexOfUnique(s, Idle, n - 1);
      } else {
        assert Idle !in s;
      }
    }

    /**
     * The data phase of sdmmc_writeSector: 100 dummy reads, the start token,
     * the block, two dummy CRC bytes, and the data response.
     */
    method SendData(data: array<byte>) returns (accepted: bool)
      requires blockLength <= data.Length
      modifies this`incoming, this`sent
      ensures sent == old(sent) + [StartToken] + data[..blockLength] + [Idle, Idle]
      ensures accepted == Accepted(Peek(old(incoming), WriteGap))
      ensures incoming == Drop(old(incoming), WriteGap + 1)
    {
      ghost var s := incoming;
      SkipBytes(WriteGap);
      WriteByte(StartToken);
      SendBlock(data);
      WriteByte(Idle);
      WriteByte(Idle);
      var response := ReadByte();
      PeekDrop(s, WriteGap, 0);
      DropDrop(s, WriteGap, 1);
      accepted := Accepted(response);
    }

    /**
     * sdmmc_writeSector: CMD24 for the sector's byte address, the data phase,
     * and the busy wait until the card releases MISO. It succeeds only when
     * the command is answered "ready" and the data response reads "accepted";
     * the card is deselected on every path.
     */
    method WriteSector(sector: bv32, data: array<byte>) returns (ok: bool)
      requires Valid() && blockLength <= data.Length
      modifies this`incoming, this`sent, this`selected
      ensures !selected
      ensures var c := Poll(old(incoming));
              var cmd := CommandBytes(WriteBlock, SectorToByte(sector), DefaultCrc);
              var s1 := Drop(old(incoming), c.count);
              var s2 := Drop(s1, WriteGap + 1);
              && ok == (c.value == R1Ready && Accepted(Peek(s1, WriteGap)))
              && (c.value != R1Ready ==> sent == old(sent) + cmd && incoming == s1)
              && (c.value == R1Ready ==>
                    sent == old(sent) + cmd + [StartToken] + data[..blockLength] + [Idle, Idle])
              && (c.value == R1Ready && !ok ==> incoming == s2)
              && (ok ==> incoming == Drop(s2, IndexOf(s2, Idle) + 1))
    {
      selected := true;
      var resp := WriteCommand(WriteBlock, SectorToByte(sector), DefaultCrc);
      if resp != R1Ready {
        selected := false;
        return false;
      }
      var accepted := SendData(data);
      if !accepted {
        selected := false;
        return false;
      }
      AwaitReady();
      selected := false;
      ok := true;
    }

    /**
     * sdmmc_changeBlockLength: CMD16 with the new length (0 meaning 512);
     * fBlockLength changes only when the card answers "ready".
     */
    method ChangeBlockLength(len: nat) returns (ok: bool)
      requires Valid() && len < 0x1_0000
      modifies this`incoming, this`sent, this`selected, this`blockLength
      ensures Valid() && !selected
      ensures var l := if len == 0 then SectorSize else len;
              && sent == old(sent) + CommandBytes(SetBlockLen, l as bv32, DefaultCrc)
              && ok == (Poll(old(incoming)).value == R1Ready)
              && blockLength == (if ok then l else old(blockLength))
              && incoming == Drop(old(incoming), Poll(old(incoming)).count)
    {
      var l := len;
      if l == 0 {
        l := SectorSize;
      }
      selected := true;
      var resp := WriteCommand(SetBlockLen, l as bv32, DefaultCrc);
      if resp != R1Ready {
        selected := false;
        return false;
      }
      selected := false;
      blockLength := l;
      ok := true;
    }

    /**
     * One pass of a retry loop of sdmmc_init, `k` attempts in: send the
     * command, then stop with failure on the 256th attempt, stop with success
     * on the wanted response, or go on.
     */
    method Attempt(cmd: byte, crc: byte, want: byte, k: nat, ghost sent0: seq<byte>, ghost x: seq<byte>, ghost goal: Retried)
      returns (done: bool, ok: bool)
      requires k < MaxTries && x == CommandBytes(cmd, 0, crc) && sent == sent0 + Repeat(x, k)
      requires goal == Later(RetryFrom(incoming, want, k), k)
      modifies this`incoming, this`sent, this`selected
      ensures sent == sent0 + Repeat(x, k + 1)
      ensures done ==> goal == Retried(ok, k + 1, incoming) && ok == selected
      ensures !done ==> k + 1 < MaxTries && goal == Later(RetryFrom(incoming, want, k + 1), k + 1)
    {
      ghost var before := incoming;
      var response := WriteCommand(cmd, 0, crc);
      RetryStep(before, want, k);
      assert sent == sent0 + Repeat(x, k) + x;
      if k == MaxTries - 1 {
        selected := false;
        return true, false;
      }
      return response == want, response == want;
    }

    /**
     * One retry loop of sdmmc_init: sends `cmd` with argument 0 until the
     * response is `want`, at most 256 times; the retry counter is checked
     * after each command. On failure the source deasserts chip select and
     * halts in error(); here it reports false.
     */
    method RetryCommand(cmd: byte, crc: byte, want: byte) returns (ok: bool)
      modifies this`incoming, this`sent, this`selected
      ensures var r := RetryFrom(old(incoming), want, 0);
              && ok == r.ok && incoming == r.rest
              && sent == old(sent) + Repeat(CommandBytes(cmd, 0, crc), r.attempts)
      ensures ok == selected
    {
      ghost var goal := RetryFrom(incoming, want, 0);
      ghost var x := CommandBytes(cmd, 0, crc);
      ghost var sent0 := sent;
      var retry: nat := 0;
      var done := false;
      ok := false;
      while !done
        invariant retry <= MaxTries && sent == sent0 + Repeat(x, retry)
        invariant !done ==> retry < MaxTries && goal == Later(RetryFrom(incoming, want, retry), retry)
        invariant done ==> goal == Retried(ok, retry, incoming) && ok == selected
        decreases MaxTries - retry
      {
        done, ok := Attempt(cmd, crc, want, retry, sent0, x, goal);
        retry := retry + 1;
      }
    }

    /**
     * sdmmc_init: 20 dummy bytes, CMD0 until the card reports idle, CMD1
     * until it reports ready, then the card is deselected. spi_init always
     * succeeds, so its error branch is dead.
     */
    method Init() returns (ok: bool)
      modifies this`incoming, this`sent, this`selected
      ensures !selected
      ensures var a := RetryFrom(old(incoming), R1Idle, 0);
              var b := RetryFrom(a.rest, R1Ready, 0);
              && ok == (a.ok && b.ok)
              && sent == old(sent) + Repeat([Idle], WakeUpBytes)
                         + Repeat(CommandBytes(GoIdleState, 0, GoIdleStateCrc), a.attempts)
                         + (if a.ok then Repeat(CommandBytes(SendOpCond, 0, DefaultCrc), b.attempts) else [])
              && incoming == (if a.ok then b.rest else a.rest)
    {
      var i := 0;
      while i < WakeUpBytes
        invariant i <= WakeUpBytes && sent == old(sent) + Repeat([Idle], i)
        invariant incoming == old(incoming)
      {
        WriteByte(Idle);
        i := i + 1;
      }
      ok := RetryCommand(GoIdleState, GoIdleStateCrc, R1Idle);
      if !ok {
        return;
      }
      ok := RetryCommand(SendOpCond, DefaultCrc, R1Ready);
      if !ok {
        return;
      }
      selected := false;
    }
  }
}
