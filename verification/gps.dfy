/**
 * The GPS receiver interface: the serialiser for the receiver's binary
 * configuration messages (SkyTraq Venus layout: 0xA0 0xA1, a big-endian
 * payload length, the payload = message id + data, an XOR checksum of the
 * payload, CR LF) and the framer that copies one NMEA 0183 sentence
 * (`$` .. LF) out of the receive ring.
 */
module Gps {
  import opened Bytes
  import Uart

  /** GPS_ACK, the value gps_setParam returns. */
  const Ack: byte := 0x83
  /** The two start-of-sequence bytes of a binary message. */
  const Sync0: byte := 0xA0
  const Sync1: byte := 0xA1
  /** ASCII `$`, the start of an NMEA sentence. */
  const Dollar: byte := 0x24

  /**
   * The XOR of all bytes of `payload`, folded from the front as gps_calculateCS
   * does: 0 for no bytes, the byte itself for one.
   */
  function Checksum(payload: seq<byte>): (r: byte)
    ensures payload == [] ==> r == 0
    ensures |payload| == 1 ==> r == payload[0]
  {
    if payload == [] then 0
    else Checksum(payload[..|payload| - 1]) ^ payload[|payload| - 1]
  }

  /** The checksum of a concatenation is the XOR of the parts' checksums. */
  lemma {:induction false} ChecksumAppend(a: seq<byte>, b: seq<byte>)
    ensures Checksum(a + b) == Checksum(a) ^ Checksum(b)
    decreases |b|
  {
    if b == [] {
      assert a + b == a;
    } else {
      var b' := b[..|b| - 1];
      assert (a + b)[..|a + b| - 1] == a + b';
      ChecksumAppend(a, b');
    }
  }

  /** Folding from the back gives the same checksum as the front-to-back fold. */
  lemma ChecksumFromBack(payload: seq<byte>)
    requires payload != []
    ensures Checksum(payload) == payload[0] ^ Checksum(payload[1..])
  {
    assert payload == [payload[0]] + payload[1..];
    ChecksumAppend([payload[0]], payload[1..]);
  }

  /** Appending a payload's checksum to it gives a sequence whose checksum is 0. */
  lemma ChecksumSelfCancels(payload: seq<byte>)
    ensures Checksum(payload + [Checksum(payload)]) == 0
  {
    ChecksumAppend(payload, [Checksum(payload)]);
    assert Checksum([Checksum(payload)]) == Checksum([]) ^ Checksum(payload);
  }

  /** The high byte of a uint16_t, `(v & 0xFF00) >> 8`. */
  function High(v: bv16): (hi: byte)
  {
    ((v & 0xFF00) >> 8) as byte
  }

  /** The low byte of a uint16_t, `v & 0x00FF`. */
  function Low(v: bv16): (lo: byte)
  {
    (v & 0x00FF) as byte
  }

  /** The uint16_t whose big-endian bytes are `hi`, `lo`. */
  function Join(hi: byte, lo: byte): (v: bv16)
  {
    ((hi as bv16) << 8) | (lo as bv16)
  }

  /** Splitting a uint16_t into its two bytes and joining them gives it back. */
  lemma JoinSplit(v: bv16)
    ensures Join(High(v), Low(v)) == v
  {
  }

  /** Joining two bytes and splitting the result gives them back. */
  lemma SplitJoin(hi: byte, lo: byte)
    ensures High(Join(hi, lo)) == hi && Low(Join(hi, lo)) == lo
  {
  }

  /**
   * The frame gps_setParam sends for message id `cmd` with `data`. The data
   * loop index is a uint8_t compared against a uint16_t length, so a call
   * with 256 or more data bytes never returns: at most 255 can be sent.
   */
  function Frame(cmd: byte, data: seq<byte>): (f: seq<byte>)
    requires |data| < 256
    ensures |f| == |data| + 8
  {
    var len := (|data| + 1) as bv16;
    [Sync0, Sync1, High(len), Low(len), cmd] + data + [Checksum(data) ^ cmd, CR, LF]
  }

  /** The frame's header: the two sync bytes, the big-endian length of the message id plus data, the message id. */
  lemma FrameHeader(cmd: byte, data: seq<byte>)
    requires |data| < 256
    ensures var f := Frame(cmd, data);
            && f[0] == Sync0 && f[1] == Sync1
            && Join(f[2], f[3]) == (|data| + 1) as bv16
            && f[4] == cmd
  {
    JoinSplit((|data| + 1) as bv16);
  }

  /** The frame's body: the data, then the XOR checksum of the message id and data, CR and LF. */
  lemma FrameBody(cmd: byte, data: seq<byte>)
    requires |data| < 256
    ensures var f := Frame(cmd, data);
            && f[5..5 + |data|] == data
            && f[|data| + 5..] == [Checksum([cmd] + data), CR, LF]
  {
    var f := Frame(cmd, data);
    assert f[5..5 + |data|] == data;
    ChecksumAppend([cmd], data);
    assert Checksum([cmd]) == Checksum([]) ^ cmd;
  }

  /**
   * The layout of a frame: the two sync bytes, the big-endian length of the
   * message id plus data, the message id, the data, then the XOR checksum of
   * the message id and data, CR and LF.
   */
  lemma FrameLayout(cmd: byte, data: seq<byte>)
    requires |data| < 256
    ensures var f := Frame(cmd, data);
            && f[0] == Sync0 && f[1] == Sync1
            && Join(f[2], f[3]) == (|data| + 1) as bv16
            && f[4] == cmd && f[5..5 + |data|] == data
            && f[|data| + 5..] == [Checksum([cmd] + data), CR, LF]
  {
    FrameHeader(cmd, data);
    FrameBody(cmd, data);
  }

  /** Reads one binary message back: the message id and data, if `f` is well formed. */
  function ParseFrame(f: seq<byte>): (r: Option<(byte, seq<byte>)>)
    ensures r.Some? ==> |r.value.1| < 256
  {
    if |f| < 8 || |f| > 263 || f[0] != Sync0 || f[1] != Sync1 then None
    else if Join(f[2], f[3]) != (|f| - 7) as bv16 then None
    else if f[|f| - 3] != Checksum(f[4..|f| - 3]) || f[|f| - 2] != CR || f[|f| - 1] != LF then None
    else Some((f[4], f[5..|f| - 3]))
  }

  /** Parsing a serialised message gives back its id and data. */
  lemma ParseFrameRoundTrip(cmd: byte, data: seq<byte>)
    requires |data| < 256
    ensures ParseFrame(Frame(cmd, data)) == Some((cmd, data))
  {
    FrameLayout(cmd, data);
    var f := Frame(cmd, data);
    assert f[4..|f| - 3] == [cmd] + data;
    assert f[5..|f| - 3] == data;
  }

  /** Every sequence that parses is the serialisation of what it parses to. */
  lemma ParseFrameOnlyFrames(f: seq<byte>)
    requires ParseFrame(f).Some?
    ensures Frame(ParseFrame(f).value.0, ParseFrame(f).value.1) == f
  {
    var cmd, data := ParseFrame(f).value.0, ParseFrame(f).value.1;
    var g := Frame(cmd, data);
    FrameLayout(cmd, data);
    assert f[4..|f| - 3] == [cmd] + data;
    assert |g| == |f|;
    SplitJoin(f[2], f[3]);
    forall j | 0 <= j < |f|
      ensures g[j] == f[j]
    {
      if 5 <= j < 5 + |data| {
        assert g[j] == g[5..5 + |data|][j - 5];
      } else if j >= 5 + |data| {
        assert g[j] == g[|data| + 5..][j - 5 - |data|];
      }
    }
  }

  /** A run of consecutive uart_setChar calls, one per byte of `s`. */
  method SendBytes(u: Uart.UartBuffers, s: seq<byte>)
    requires u.Valid() && |u.txQueue| + |s| < Uart.RingSize
    modifies u`txWrite, u`txQueue, u`txInterrupt, u.txBuf
    ensures u.Valid() && u.txRead == old(u.txRead) && u.rxQueue == old(u.rxQueue)
    ensures u.txQueue == old(u.txQueue) + s
    ensures u.txInterrupt == (old(u.txInterrupt) || s != [])
  {
    var i := 0;
    while i < |s|
      invariant u.Valid() && u.txRead == old(u.txRead) && u.rxQueue == old(u.rxQueue)
      invariant i <= |s|
      invariant u.txQueue == old(u.txQueue) + s[..i]
      invariant u.txInterrupt == (old(u.txInterrupt) || i > 0)
    {
      u.SetChar(s[i]);
      i := i + 1;
    }
  }

  /**
   * gps_setParam: queues the frame for `cmd` and `data` on the transmit ring
   * and answers GPS_ACK. The source spins while the ring is full; here the
   * caller must leave room for the whole frame.
   */
  method SetParam(u: Uart.UartBuffers, cmd: byte, data: seq<byte>) returns (ack: byte)
    requires u.Valid() && |data| < 256
    requires |u.txQueue| + |data| + 8 < Uart.RingSize
    modifies u`txWrite, u`txQueue, u`txInterrupt, u.txBuf
    ensures u.Valid() && u.txRead == old(u.txRead) && u.txInterrupt
    ensures u.txQueue == old(u.txQueue) + Frame(cmd, data)
    ensures ack == Ack
  {
    var len := (|data| + 1) as bv16;
    var header := [Sync0, Sync1, High(len), Low(len), cmd];
    var trailer := [Checksum(data) ^ cmd, CR, LF];
    ghost var q0 := u.txQueue;
    SendBytes(u, header);
    SendBytes(u, data);
    SendBytes(u, trailer);
    assert q0 + header + data + trailer == q0 + Frame(cmd, data);
    ack := Ack;
  }

  /**
   * The first loop of gps_getNMEA: reads and discards received bytes up to
   * and including the first `$`. The source waits for it to arrive; here the
   * receive ring must already hold it.
   */
  method SkipToDollar(u: Uart.UartBuffers)
    requires u.Valid() && Dollar in u.rxQueue
    modifies u`rxRead, u`rxQueue
    ensures u.Valid() && u.rxWrite == old(u.rxWrite)
    ensures u.rxQueue == old(u.rxQueue)[IndexOf(old(u.rxQueue), Dollar) + 1..]
  {
    ghost var q := u.rxQueue;
    ghost var p := IndexOf(q, Dollar);
    var c := u.GetChar();
    ghost var k := 1;
    while c != Dollar
      invariant u.Valid() && u.rxWrite == old(u.rxWrite)
      invariant 1 <= k <= p + 1 && u.rxQueue == q[k..]
      invariant c == q[k - 1]
      decreases p + 1 - k
    {
      assert k <= p < |q|;
      assert q[k..][1..] == q[k + 1..];
      c := u.GetChar();
      k := k + 1;
    }
    assert k - 1 == p;
  }

  /**
   * The copy loop of gps_getNMEA: copies received bytes to out[1..] until a
   * line feed is copied or the index reaches maxLen - 1 (at least one byte
   * is always copied), then terminates with NUL. `m` is the number of bytes
   * copied.
   */
  method CopySentence(u: Uart.UartBuffers, out: array<byte>, maxLen: nat) returns (ghost m: nat)
    requires u.Valid() && maxLen <= out.Length && 3 <= out.Length
    requires out != u.rxBuf && out != u.txBuf
    requires LF in u.rxQueue || (1 <= |u.rxQueue| && maxLen - 2 <= |u.rxQueue|)
    modifies u`rxRead, u`rxQueue, out
    ensures u.Valid() && u.rxWrite == old(u.rxWrite)
    ensures 1 <= m <= |old(u.rxQueue)| && (m == 1 || m <= maxLen - 2)
    ensures forall j :: 1 <= j <= m ==> out[j] == old(u.rxQueue)[j - 1]
    ensures out[m + 1] == NUL
    ensures forall j :: 0 <= j < m - 1 ==> old(u.rxQueue)[j] != LF
    ensures old(u.rxQueue)[m - 1] == LF || m >= maxLen - 2
    ensures u.rxQueue == old(u.rxQueue)[m..]
    ensures out[0] == old(out[0])
    ensures forall j :: m + 1 < j < out.Length ==> out[j] == old(out[j])
  {
    ghost var q, out0 := u.rxQueue, out[..];
    var i := 1;
    var inChar: byte;
    while true
      invariant u.Valid() && u.rxWrite == old(u.rxWrite)
      invariant 1 <= i && i - 1 < |q| && (i == 1 || i < maxLen - 1)
      invariant u.rxQueue == q[i - 1..]
      invariant forall j :: 1 <= j < i ==> out[j] == q[j - 1]
      invariant forall j :: 0 <= j < i - 1 ==> q[j] != LF
      invariant forall j :: 0 <= j < out.Length && (j == 0 || i <= j) ==> out[j] == out0[j]
      decreases out.Length - i
    {
      inChar := ReadInto(u, out, i, q, out0);
      i := i + 1;
      if inChar == LF || i >= maxLen - 1 {
        break;
      }
      assert i - 1 < |q| by {
        IndexOfAtLeast(q, LF, i - 1);
      }
    }
    Terminate(out, i);
    m := i - 1;
  }

  /** Writes the string terminator at out[i]. */
  method Terminate(out: array<byte>, i: nat)
    requires i < out.Length
    modifies out
    ensures out[i] == NUL && forall j :: 0 <= j < out.Length && j != i ==> out[j] == old(out[j])
  {
    out[i] := NUL;
  }

  /**
   * One pass of the copy loop of gps_getNMEA: the oldest received byte,
   * q[i - 1], into out[i]. Bytes 1 .. i - 1 already hold q's first i - 1
   * bytes and the rest of `out` is as it was (`out0`).
   */
  method ReadInto(u: Uart.UartBuffers, out: array<byte>, i: nat, ghost q: seq<byte>, ghost out0: seq<byte>)
    returns (c: byte)
    requires u.Valid() && 1 <= i < out.Length && |out0| == out.Length
    requires out != u.rxBuf && out != u.txBuf
    requires i - 1 < |q| && u.rxQueue == q[i - 1..]
    requires forall j :: 1 <= j < i ==> out[j] == q[j - 1]
    requires forall j :: 0 <= j < out.Length && (j == 0 || i <= j) ==> out[j] == out0[j]
    modifies u`rxRead, u`rxQueue, out
    ensures u.Valid() && u.rxWrite == old(u.rxWrite)
    ensures c == q[i - 1] && u.rxQueue == q[i..]
    ensures forall j :: 1 <= j < i + 1 ==> out[j] == q[j - 1]
    ensures forall j :: 0 <= j < out.Length && (j == 0 || i + 1 <= j) ==> out[j] == out0[j]
  {
    assert q[i - 1..][1..] == q[i..];
    c := u.GetChar();
    out[i] := c;
  }

  /**
   * gps_getNMEA: discards received bytes up to and including the first `$`,
   * writes `$` to out[0], copies the sentence after it (CopySentence) and
   * terminates it with NUL. The source always returns GPS_NMEA_UNKOWN, a
   * name no header defines; here nothing is returned but the ghost count `m`
   * of bytes copied after the `$`.
   */
  method GetNmea(u: Uart.UartBuffers, out: array<byte>, maxLen: nat) returns (ghost m: nat)
    requires u.Valid() && maxLen <= out.Length && 3 <= out.Length
    requires out != u.rxBuf && out != u.txBuf
    requires Dollar in u.rxQueue
    requires var rest := u.rxQueue[IndexOf(u.rxQueue, Dollar) + 1..];
             LF in rest || (1 <= |rest| && maxLen - 2 <= |rest|)
    modifies u`rxRead, u`rxQueue, out
    ensures u.Valid() && u.rxWrite == old(u.rxWrite)
    ensures var rest := old(u.rxQueue)[IndexOf(old(u.rxQueue), Dollar) + 1..];
            && 1 <= m <= |rest| && (m == 1 || m <= maxLen - 2)
            && out[0] == Dollar
            && (forall j :: 1 <= j <= m ==> out[j] == rest[j - 1])
            && out[m + 1] == NUL
            && (forall j :: 0 <= j < m - 1 ==> rest[j] != LF)
            && (rest[m - 1] == LF || m >= maxLen - 2)
            && u.rxQueue == rest[m..]
    ensures forall j :: m + 1 < j < out.Length ==> out[j] == old(out[j])
  {
    SkipToDollar(u);
    out[0] := Dollar;
    m := CopySentence(u, out, maxLen);
  }
}
