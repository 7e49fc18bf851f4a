/**
 * The two byte channels of DFRobot_MatrixLidar.cpp, as functions of the
 * channel's state: what `sendPacket` puts on the wire and what `recvData`
 * delivers into a buffer. The stateful methods in module Lidar are proved
 * against these definitions.
 */
module Transport {
  import opened Bytes

  /** Largest contiguous I2C write (IIC_MAX_TRANSFER). */
  const IicMaxTransfer: nat := 32
  /** Largest chunk one UART `readBytes` call is asked for (I2C_ACHE_MAX_LEN). */
  const UartChunk: nat := 32

  /**
   * The channel: an I2C bus with the device's 7-bit address, or a UART
   * stream whose 500 ms read cutoff is modelled as a number of read attempts.
   */
  datatype Link = I2C(addr: Byte) | Uart(readPolls: nat)

  /** What the channel sees of a write: bus transaction boundaries and written bytes. */
  datatype WireEvent = Begin(addr: Byte) | Write(data: seq<Byte>) | End(stop: bool)

  // ----- Writing -----

  /**
   * The loop of the I2C `sendPacket` over a non-empty packet: chunks of at
   * most 32 bytes, each but the last followed by an end of transmission
   * without a stop condition.
   */
  function I2CChunks(s: seq<Byte>): seq<WireEvent>
    requires s != []
    decreases |s|
  {
    if |s| <= IicMaxTransfer then [Write(s)]
    else [Write(s[..IicMaxTransfer]), End(false)] + I2CChunks(s[IicMaxTransfer..])
  }

  /** The events still owed for the unsent suffix `s[done..]` of a packet. */
  function I2CPending(s: seq<Byte>, done: nat): seq<WireEvent>
    requires done <= |s|
  {
    if done == |s| then [] else I2CChunks(s[done..])
  }

  /** One turn of the I2C write loop: a write of up to 32 bytes, then an end without stop if bytes remain. */
  lemma I2CPendingStep(s: seq<Byte>, done: nat, n: nat)
    requires done < |s| && n == Min(|s| - done, IicMaxTransfer)
    ensures I2CPending(s, done)
         == [Write(s[done..done + n])] + (if done + n < |s| then [End(false)] else []) + I2CPending(s, done + n)
  {
    var t := s[done..];
    assert t[..n] == s[done..done + n];
    if done + n < |s| {
      assert t[IicMaxTransfer..] == s[done + n..];
    } else {
      assert t == s[done..done + n];
    }
  }

  /** The UART `sendPacket`: one write per byte. */
  function UartBytes(s: seq<Byte>): (events: seq<WireEvent>)
  {
    seq(|s|, j requires 0 <= j < |s| => Write([s[j]]))
  }

  /** Everything `sendPacket` of `link` emits for the packet `s`; an empty packet emits nothing. */
  function Transmission(link: Link, s: seq<Byte>): seq<WireEvent>
  {
    if s == [] then []
    else match link
      case I2C(a) => [Begin(a)] + I2CChunks(s) + [End(true)]
      case Uart(_) => UartBytes(s)
  }

  /** The bytes carried by the writes of an event log, in order. */
  function WrittenBytes(events: seq<WireEvent>): seq<Byte>
  {
    if events == [] then []
    else (if events[0].Write? then events[0].data else []) + WrittenBytes(events[1..])
  }

  /** The number of write calls in an event log. */
  function WriteCount(events: seq<WireEvent>): nat
  {
    if events == [] then 0
    else (if events[0].Write? then 1 else 0) + WriteCount(events[1..])
  }

  lemma {:induction false} WrittenBytesAppend(a: seq<WireEvent>, b: seq<WireEvent>)
    ensures WrittenBytes(a + b) == WrittenBytes(a) + WrittenBytes(b)
    ensures WriteCount(a + b) == WriteCount(a) + WriteCount(b)
    decreases |a|
  {
    if a != [] {
      assert (a + b)[0] == a[0];
      assert (a + b)[1..] == a[1..] + b;
      WrittenBytesAppend(a[1..], b);
    } else {
      assert a + b == b;
    }
  }

  lemma {:induction false} I2CChunksFacts(s: seq<Byte>)
    requires s != []
    ensures WrittenBytes(I2CChunks(s)) == s
    ensures WriteCount(I2CChunks(s)) == (|s| + IicMaxTransfer - 1) / IicMaxTransfer
    ensures forall e :: e in I2CChunks(s) && e.Write? ==> 1 <= |e.data| <= IicMaxTransfer
    ensures forall e :: e in I2CChunks(s) ==> e.Write? || e == End(false)
    decreases |s|
  {
    if |s| > IicMaxTransfer {
      var head := [Write(s[..IicMaxTransfer]), End(false)];
      var rest := s[IicMaxTransfer..];
      I2CChunksFacts(rest);
      WrittenBytesAppend(head, I2CChunks(rest));
      assert WrittenBytes(head) == s[..IicMaxTransfer] by {
        assert head[1..][1..] == [];
      }
      assert WriteCount(head) == 1 by {
        assert head[1..][1..] == [];
      }
      assert s == s[..IicMaxTransfer] + rest;
    } else {
      assert [Write(s)][1..] == [];
    }
  }

  /**
   * The I2C transmission of a non-empty packet is one bus transaction: it opens
   * with the device address, carries the packet in writes of 1 to 32 bytes
   * (ceil(n/32) of them, so their lengths sum to n), and issues the stop
   * condition exactly once, at the end.
   */
  lemma I2CTransmission(addr: Byte, s: seq<Byte>)
    requires s != []
    ensures var t := Transmission(I2C(addr), s);
      && t[0] == Begin(addr) && t[|t| - 1] == End(true)
      && WrittenBytes(t) == s
      && WriteCount(t) == (|s| + IicMaxTransfer - 1) / IicMaxTransfer
      && (forall e :: e in t && e.Write? ==> 1 <= |e.data| <= IicMaxTransfer)
      && (forall i :: 0 <= i < |t| - 1 ==> t[i] != End(true))
  {
    var t := Transmission(I2C(addr), s);
    var body := I2CChunks(s);
    I2CChunksFacts(s);
    assert t == [Begin(addr)] + body + [End(true)];
    WrittenBytesAppend([Begin(addr)], body);
    WrittenBytesAppend([Begin(addr)] + body, [End(true)]);
    assert WrittenBytes([Begin(addr)]) == [] && WriteCount([Begin(addr)]) == 0 by {
      assert [Begin(addr)][1..] == [];
    }
    assert WrittenBytes([End(true)]) == [] && WriteCount([End(true)]) == 0 by {
      assert [End(true)][1..] == [];
    }
    forall i | 0 <= i < |t| - 1
      ensures t[i] != End(true)
    {
      if i > 0 {
        assert t[i] == body[i - 1];
        assert body[i - 1] in body;
      }
    }
  }

  /** The UART transmission writes the packet one byte at a time, in order. */
  lemma {:induction false} UartTransmission(readPolls: nat, s: seq<Byte>)
    ensures var t := Transmission(Uart(readPolls), s);
      && |t| == |s| && WrittenBytes(t) == s && WriteCount(t) == |s|
      && (forall i :: 0 <= i < |t| ==> t[i] == Write([s[i]]))
    decreases |s|
  {
    if s != [] {
      UartTransmission(readPolls, s[1..]);
      assert UartBytes(s)[1..] == UartBytes(s[1..]);
      assert s == [s[0]] + s[1..];
    }
  }

  /** Both channels carry exactly the packet handed to them. */
  lemma TransmissionCarriesPacket(link: Link, s: seq<Byte>)
    ensures WrittenBytes(Transmission(link, s)) == s
  {
    if s != [] {
      match link
      case I2C(a) => I2CTransmission(a, s);
      case Uart(p) => UartTransmission(p, s);
    }
  }

  // ----- The UART write loop as written -----

  /** A bounded run of a loop: the events emitted, and whether the loop exited. */
  datatype Run = Run(events: seq<WireEvent>, finished: bool)

  /**
   * The UART `sendPacket` loop as written, for at most `fuel` iterations: its
   * counter `i` is a `uint8_t`, so `i++` wraps from 255 to 0 while `remain`
   * is an `int`.
   */
  function UartSendAsWritten(s: seq<Byte>, i: Byte, fuel: nat): Run
    decreases fuel
  {
    if fuel == 0 then Run([], false)
    else if i >= |s| then Run([], true)
    else
      var rest := UartSendAsWritten(s, (i + 1) % 256, fuel - 1);
      Run([Write([s[i]])] + rest.events, rest.finished)
  }

  /** For packets of 256 bytes or more the loop never exits, however long it runs. */
  lemma {:induction false} UartCounterNeverExits(s: seq<Byte>, i: Byte, fuel: nat)
    requires |s| >= 256
    ensures !UartSendAsWritten(s, i, fuel).finished
    decreases fuel
  {
    if fuel > 0 {
      UartCounterNeverExits(s, (i + 1) % 256, fuel - 1);
    }
  }

  /** Below 256 bytes the loop as written agrees with the intended byte-per-byte transmission. */
  lemma {:induction false} UartAsWrittenAgreesBelow256(s: seq<Byte>, i: Byte, fuel: nat)
    requires |s| < 256 && i <= |s| && fuel > |s| - i
    ensures UartSendAsWritten(s, i, fuel) == Run(UartBytes(s[i..]), true)
    decreases |s| - i
  {
    if i < |s| {
      UartAsWrittenAgreesBelow256(s, i + 1, fuel - 1);
      assert UartBytes(s[i..]) == [Write([s[i]])] + UartBytes(s[i + 1..]);
    } else {
      assert s[i..] == [];
    }
  }

  // ----- Reading -----

  /**
   * How many bytes one `recvData(buf, len)` takes from a stream holding `avail`
   * unread bytes. I2C asks for each byte in turn; UART reads chunks of up to 32
   * bytes, one chunk per attempt, until its attempts run out.
   */
  function Taken(link: Link, avail: nat, len: nat): (k: nat)
    ensures k <= len && k <= avail
    ensures link.I2C? ==> k == Min(len, avail)
  {
    match link
    case I2C(_) => Min(len, avail)
    case Uart(polls) => Min(Min(len, avail), UartChunk * polls)
  }

  /** Whether `link` delivers `len` bytes in one call when the stream holds them. */
  predicate Delivers(link: Link, len: nat)
  {
    link.I2C? || UartChunk * link.readPolls >= len
  }

  /**
   * The bus traffic of one `recvData(buf, len)`: before requesting each byte
   * the I2C driver opens and closes an empty write transaction to the device
   * (a `beginTransmission` and an `endTransmission` with its stop condition).
   * The UART writes nothing while reading.
   */
  function Probes(link: Link, len: nat): seq<WireEvent>
  {
    if link.Uart? || len == 0 then []
    else Probes(link, len - 1) + [Begin(link.addr), End(true)]
  }

  /** The traffic of two reads in a row is that of one read of both lengths. */
  lemma {:induction false} ProbesAppend(link: Link, a: nat, b: nat)
    ensures Probes(link, a + b) == Probes(link, a) + Probes(link, b)
    decreases b
  {
    if link.I2C? && b > 0 {
      ProbesAppend(link, a, b - 1);
      assert a + b - 1 == a + (b - 1);
    }
  }

  /** The same, after any earlier traffic `base`. */
  lemma ProbesAfter(base: seq<WireEvent>, link: Link, a: nat, b: nat)
    ensures base + Probes(link, a) + Probes(link, b) == base + Probes(link, a + b)
  {
    ProbesAppend(link, a, b);
  }

  /**
   * An I2C read of `len` bytes puts `len` empty transactions on the bus:
   * Begin(addr) and a stop alternate, and no data byte is written.
   */
  lemma {:induction false} I2CProbes(addr: Byte, len: nat)
    ensures var t := Probes(I2C(addr), len);
      && |t| == 2 * len && WrittenBytes(t) == [] && WriteCount(t) == 0
      && (forall i :: 0 <= i < |t| ==> t[i] == if i % 2 == 0 then Begin(addr) else End(true))
    decreases len
  {
    if len > 0 {
      var t0 := Probes(I2C(addr), len - 1);
      var pair := [Begin(addr), End(true)];
      I2CProbes(addr, len - 1);
      WrittenBytesAppend(t0, pair);
      assert WrittenBytes(pair) == [] && WriteCount(pair) == 0 by {
        var stop := pair[1..];
        assert stop == [End(true)] && stop[1..] == [];
        assert WrittenBytes(stop) == [] && WriteCount(stop) == 0;
      }
      var t := t0 + pair;
      forall i | 0 <= i < |t|
        ensures t[i] == if i % 2 == 0 then Begin(addr) else End(true)
      {
        if i >= |t0| {
          assert i == 2 * (len - 1) || i == 2 * (len - 1) + 1;
        }
      }
    }
  }

  /** The buffer, stream position and return value after one `recvData` call. */
  datatype Filled = Filled(buf: seq<Byte>, pos: nat, total: int)

  /**
   * `recvData(buf + off, len)` against the stream `rx` read up to `pos`: the next
   * `Taken` stream bytes land at `off`; I2C stores 0 for each byte that did not
   * arrive and returns `len`, UART leaves the rest of the window untouched and
   * returns the count it read. Nothing outside the window changes.
   */
  function Fill(link: Link, rx: seq<Byte>, pos: nat, buf: seq<Byte>, off: nat, len: nat): (f: Filled)
    requires pos <= |rx| && off + len <= |buf|
    ensures |f.buf| == |buf| && pos <= f.pos <= |rx|
  {
    var k := Taken(link, |rx| - pos, len);
    Filled(
      seq(|buf|, j requires 0 <= j < |buf| =>
        if off <= j < off + k then rx[pos + (j - off)]
        else if link.I2C? && off + k <= j < off + len then 0
        else buf[j]),
      pos + k,
      if link.I2C? then len else k)
  }

  /**
   * When the stream holds the requested bytes and the link delivers them, the
   * window receives exactly the next `len` stream bytes, in order.
   */
  lemma FillDelivers(link: Link, rx: seq<Byte>, pos: nat, buf: seq<Byte>, off: nat, len: nat)
    requires pos + len <= |rx| && off + len <= |buf| && Delivers(link, len)
    ensures var f := Fill(link, rx, pos, buf, off, len);
      && f.buf == buf[..off] + rx[pos..pos + len] + buf[off + len..]
      && f.pos == pos + len && f.total == len
  {
    var f := Fill(link, rx, pos, buf, off, len);
    assert Taken(link, |rx| - pos, len) == len;
    assert f.buf == buf[..off] + rx[pos..pos + len] + buf[off + len..];
  }
}
