/**
 * The two serial ring buffers: a receive FIFO filled by the receive-complete
 * interrupt and drained by the main loop, and a transmit FIFO filled by the
 * main loop and drained by the data-register-empty interrupt. Each ring has a
 * read and a write index of type uint8_t; both are pre-incremented, so the
 * unread bytes sit in the slots read+1 .. write, and read == write means empty.
 *
 * The interrupt handlers are modelled as atomic sequential steps.
 */
module Uart {
  import opened Bytes

  /** Slots per ring: the indices are uint8_t and range over 0..255. */
  const RingSize: nat := 256

  /** The pre-increment of a uint8_t index. */
  function Next(i: nat): (r: nat)
    requires i < RingSize
    ensures r < RingSize
  {
    if i == RingSize - 1 then 0 else i + 1
  }

  /** Next is the uint8_t increment `i + 1` taken modulo 256. */
  lemma NextIsUint8Increment(i: nat)
    requires i < RingSize
    ensures Next(i) == (i + 1) % RingSize
  {
  }

  /** The number of unread bytes between read index `r` and write index `w`. */
  function Count(r: nat, w: nat): (n: nat)
    requires r < RingSize && w < RingSize
    ensures n < RingSize
    ensures n == 0 <==> r == w
  {
    if r <= w then w - r else w + RingSize - r
  }

  /** Count is the uint8_t difference `w - r` taken modulo 256. */
  lemma CountIsUint8Difference(r: nat, w: nat)
    requires r < RingSize && w < RingSize
    ensures Count(r, w) == (w - r) % RingSize
  {
  }

  /** `q` is what a ring with contents `c` yields when read from read index `r` on. */
  ghost predicate Agree(c: seq<byte>, r: nat, q: seq<byte>)
    requires |c| == RingSize && r < RingSize
    decreases |q|
  {
    q == [] || (c[Next(r)] == q[0] && Agree(c, Next(r), q[1..]))
  }

  /** `q` is what a ring with contents `c` holds between read index `r` and write index `w`. */
  ghost predicate Ring(c: seq<byte>, r: nat, w: nat, q: seq<byte>)
  {
    && |c| == RingSize
    && r < RingSize && w < RingSize
    && |q| == Count(r, w)
    && Agree(c, r, q)
  }

  /** Storing `b` after the unread bytes leaves them in place and reads back after them. */
  lemma {:induction false} AgreePush(c: seq<byte>, r: nat, w: nat, q: seq<byte>, b: byte)
    requires |c| == RingSize && r < RingSize && w < RingSize
    requires |q| == Count(r, w) && |q| < RingSize - 1 && Agree(c, r, q)
    ensures Agree(c[Next(w) := b], r, q + [b])
    decreases |q|
  {
    if q == [] {
      assert (q + [b])[1..] == [];
    } else {
      assert Next(r) != Next(w);
      AgreePush(c, Next(r), w, q[1..], b);
      assert (q + [b])[1..] == q[1..] + [b];
    }
  }

  /** Storing `b` at the pre-incremented write index appends `b` to a ring that is not full. */
  lemma RingPush(c: seq<byte>, r: nat, w: nat, q: seq<byte>, b: byte)
    requires Ring(c, r, w, q) && |q| < RingSize - 1
    ensures Ring(c[Next(w) := b], r, Next(w), q + [b])
  {
    AgreePush(c, r, w, q, b);
  }

  /** Reading at the pre-incremented read index takes the oldest byte off a non-empty ring. */
  lemma RingPop(c: seq<byte>, r: nat, w: nat, q: seq<byte>)
    requires Ring(c, r, w, q) && q != []
    ensures c[Next(r)] == q[0]
    ensures Ring(c, Next(r), w, q[1..])
  {
  }

  /**
   * The full test as written, `write + 1 == read`, evaluated in int: it never
   * reports a ring full that is not.
   */
  predicate FullAsWritten(w: nat, r: nat): (b: bool)
    ensures b && w < RingSize && r < RingSize ==> Full(w, r)
  {
    w + 1 == r
  }

  /**
   * The full test on wrapped indices, advancing `w` would reach `r`: it holds
   * exactly when the ring holds 255 unread bytes.
   */
  predicate Full(w: nat, r: nat): (b: bool)
    requires w < RingSize
    ensures r < RingSize ==> (b <==> Count(r, w) == RingSize - 1)
  {
    Next(w) == r
  }

  /** The int-evaluated test misses exactly one full state: write 255, read 0. */
  lemma FullAsWrittenMisses(w: nat, r: nat)
    requires r < RingSize && w < RingSize
    ensures FullAsWritten(w, r) != Full(w, r) <==> w == RingSize - 1 && r == 0
  {
  }

  /**
   * With 255 unread bytes at write 255 and read 0, the source's test lets one
   * more byte in; the write index then wraps onto the read index and the ring
   * reads as empty, so all 256 bytes are lost.
   */
  lemma OverrunEmptiesRing()
    ensures Count(0, RingSize - 1) == RingSize - 1
    ensures !FullAsWritten(RingSize - 1, 0)
    ensures Count(0, Next(RingSize - 1)) == 0
  {
  }

  class UartBuffers {
    /** uart_inputBuf0 and its indices. */
    const rxBuf: array<byte>
    var rxRead: nat
    var rxWrite: nat
    /** The unread received bytes, oldest first. */
    ghost var rxQueue: seq<byte>

    /** uart_outputBuf0 and its indices. */
    const txBuf: array<byte>
    var txRead: nat
    var txWrite: nat
    /** The bytes waiting to be sent, oldest first. */
    ghost var txQueue: seq<byte>
    /** UDRIE0: the transmit interrupt is enabled. */
    var txInterrupt: bool

    ghost predicate Valid()
      reads this, rxBuf, txBuf
    {
      && rxBuf != txBuf
      && Ring(rxBuf[..], rxRead, rxWrite, rxQueue)
      && Ring(txBuf[..], txRead, txWrite, txQueue)
    }

    constructor ()
      ensures Valid() && fresh(rxBuf) && fresh(txBuf)
      ensures rxQueue == [] && txQueue == [] && !txInterrupt
      ensures rxRead == rxWrite == txRead == txWrite == 0
    {
      rxBuf := new byte[RingSize](_ => 0);
      txBuf := new byte[RingSize](_ => 0);
      rxRead, rxWrite, txRead, txWrite := 0, 0, 0, 0;
      rxQueue, txQueue := [], [];
      txInterrupt := false;
    }

    /** uart_hasData. */
    method HasData() returns (b: bool)
      requires Valid()
      ensures b == (rxRead != rxWrite)
      ensures b == (|rxQueue| > 0)
    {
      b := rxRead != rxWrite;
    }

    /** uart_getChar: the oldest unread byte, or NUL when there is none. */
    method GetChar() returns (c: byte)
      requires Valid()
      modifies this`rxRead, this`rxQueue
      ensures Valid() && rxWrite == old(rxWrite)
      ensures old(rxQueue) == [] ==> c == NUL && rxRead == old(rxRead) && rxQueue == []
      ensures old(rxQueue) != [] ==> c == old(rxQueue)[0] && rxQueue == old(rxQueue)[1..]
      ensures old(rxQueue) != [] ==> rxRead == Next(old(rxRead))
    {
      if rxRead != rxWrite {
        RingPop(rxBuf[..], rxRead, rxWrite, rxQueue);
        rxRead := Next(rxRead);
        c := rxBuf[rxRead];
        rxQueue := rxQueue[1..];
      } else {
        c := NUL;
      }
    }

    /**
     * ISR(USART_RX_vect) with the wrapped full test: stores the received byte
     * unless the ring is full, in which case the byte is dropped.
     */
    method RxReceive(b: byte) returns (accepted: bool)
      requires Valid()
      modifies this`rxWrite, this`rxQueue, rxBuf
      ensures Valid() && rxRead == old(rxRead)
      ensures accepted == !Full(old(rxWrite), rxRead)
      ensures accepted == (|old(rxQueue)| < RingSize - 1)
      ensures accepted ==> rxQueue == old(rxQueue) + [b] && rxWrite == Next(old(rxWrite))
      ensures !accepted ==> rxQueue == old(rxQueue) && rxWrite == old(rxWrite)
      ensures !accepted ==> rxBuf[..] == old(rxBuf[..])
    {
      accepted := !Full(rxWrite, rxRead);
      if accepted {
        RingPush(rxBuf[..], rxRead, rxWrite, rxQueue, b);
        rxWrite := Next(rxWrite);
        rxBuf[rxWrite] := b;
        rxQueue := rxQueue + [b];
      }
    }

    /** uart_clearBuf: discards every unread received byte. */
    method ClearBuf()
      requires Valid()
      modifies this`rxRead, this`rxQueue
      ensures Valid() && rxRead == rxWrite && rxWrite == old(rxWrite)
      ensures rxQueue == []
    {
      rxRead := rxWrite;
      rxQueue := [];
    }

    /**
     * uart_setChar with the wrapped full test. The source spins while the ring
     * is full; here the caller must leave room.
     */
    method SetChar(b: byte)
      requires Valid() && |txQueue| < RingSize - 1
      modifies this`txWrite, this`txQueue, this`txInterrupt, txBuf
      ensures Valid() && txRead == old(txRead)
      ensures txQueue == old(txQueue) + [b] && txWrite == Next(old(txWrite))
      ensures txInterrupt
    {
      RingPush(txBuf[..], txRead, txWrite, txQueue, b);
      txWrite := Next(txWrite);
      txBuf[txWrite] := b;
      txQueue := txQueue + [b];
      txInterrupt := true;
    }

    /** uart_setString: queues every byte of `s` (the bytes before its NUL), in order. */
    method SetString(s: seq<byte>)
      requires Valid() && NUL !in s
      requires |txQueue| + |s| < RingSize
      modifies this`txWrite, this`txQueue, this`txInterrupt, txBuf
      ensures Valid() && txRead == old(txRead)
      ensures txQueue == old(txQueue) + s
      ensures txInterrupt == (old(txInterrupt) || s != [])
    {
      var i := 0;
      while i < |s|
        invariant Valid() && txRead == old(txRead)
        invariant i <= |s|
        invariant txQueue == old(txQueue) + s[..i]
        invariant txInterrupt == (old(txInterrupt) || i > 0)
      {
        SetChar(s[i]);
        i := i + 1;
      }
    }

    /**
     * ISR(USART_UDRE_vect): hands the oldest queued byte to the transmitter,
     * or disables itself when the ring is empty.
     */
    method TxReady() returns (sent: bool, b: byte)
      requires Valid()
      modifies this`txRead, this`txQueue, this`txInterrupt
      ensures Valid() && txWrite == old(txWrite)
      ensures sent == (old(txQueue) != [])
      ensures sent ==> b == old(txQueue)[0] && txQueue == old(txQueue)[1..]
      ensures sent ==> txRead == Next(old(txRead)) && txInterrupt == old(txInterrupt)
      ensures !sent ==> txQueue == [] && txRead == old(txRead) && !txInterrupt
    {
      sent := txRead != txWrite;
      if sent {
        RingPop(txBuf[..], txRead, txWrite, txQueue);
        txRead := Next(txRead);
        b := txBuf[txRead];
        txQueue := txQueue[1..];
      } else {
        b := NUL;
        txInterrupt := false;
      }
    }

    /**
     * The copy loop of uart_getString: moves received bytes into `result`
     * until a line feed is copied, the ring runs empty or `size` bytes are
     * copied. On an empty ring it copies the NUL that GetChar returns.
     */
    method CopyLine(result: array<byte>, size: nat) returns (n: nat)
      requires Valid() && 1 <= size < RingSize && size <= result.Length
      requires result != rxBuf && result != txBuf
      modifies this`rxRead, this`rxQueue, result
      ensures Valid() && rxWrite == old(rxWrite)
      ensures 1 <= n <= size
      ensures forall j :: n <= j < result.Length ==> result[j] == old(result[j])
      ensures old(rxQueue) == [] ==> n == 1 && rxQueue == [] && result[0] == NUL
      ensures old(rxQueue) != [] ==> n <= |old(rxQueue)| && rxQueue == old(rxQueue)[n..]
      ensures old(rxQueue) != [] ==> forall j :: 0 <= j < n ==> result[j] == old(rxQueue)[j]
      ensures old(rxQueue) != [] ==> forall j :: 0 <= j < n - 1 ==> old(rxQueue)[j] != LF
      ensures old(rxQueue) != [] ==>
                old(rxQueue)[n - 1] == LF || n == |old(rxQueue)| || n == size
    {
      ghost var q := rxQueue;
      n := 0;
      while n < size
        invariant Valid() && rxWrite == old(rxWrite)
        invariant n <= size
        invariant q == [] ==> n == 0 && rxQueue == []
        invariant q != [] ==> n < |q| && rxQueue == q[n..]
        invariant forall j :: 0 <= j < n ==> result[j] == q[j] && q[j] != LF
        invariant forall j :: n <= j < result.Length ==> result[j] == old(result[j])
      {
        var c := GetChar();
        result[n] := c;
        n := n + 1;
        var more := HasData();
        if !more || result[n - 1] == LF {
          break;
        }
      }
    }

    /**
     * uart_getString: CopyLine, then NUL over the last copied byte and over
     * a carriage return just before it.
     */
    method GetString(result: array<byte>, size: nat) returns (n: nat)
      requires Valid() && 1 <= size < RingSize && size <= result.Length
      requires result != rxBuf && result != txBuf
      modifies this`rxRead, this`rxQueue, result
      ensures Valid() && rxWrite == old(rxWrite)
      ensures 1 <= n <= size
      ensures forall j :: n <= j < result.Length ==> result[j] == old(result[j])
      ensures result[n - 1] == NUL
      ensures old(rxQueue) == [] ==> n == 1 && rxQueue == []
      ensures old(rxQueue) != [] ==> n <= |old(rxQueue)| && rxQueue == old(rxQueue)[n..]
      ensures old(rxQueue) != [] ==> forall j :: 0 <= j < n - 1 ==> old(rxQueue)[j] != LF
      ensures old(rxQueue) != [] ==>
                old(rxQueue)[n - 1] == LF || n == |old(rxQueue)| || n == size
      ensures old(rxQueue) != [] && n > 1 && old(rxQueue)[n - 2] == CR ==> result[n - 2] == NUL
      ensures old(rxQueue) != [] ==> forall j :: 0 <= j < n - 1 && !(j == n - 2 && old(rxQueue)[j] == CR) ==>
                result[j] == old(rxQueue)[j]
    {
      n := CopyLine(result, size);
      result[n - 1] := NUL;
      if n > 1 && result[n - 2] == CR {
        result[n - 2] := NUL;
      }
    }
  }
}
