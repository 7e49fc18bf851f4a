/**
 * The driver object of DFRobot_MatrixLidar.cpp: the command facade
 * (`setRangingMode`, `getAllData`, `getFixedPointData`), the response parser
 * `recvPacket`, and the transport primitives `sendPacket` and `recvData` of
 * the I2C and UART subclasses, chosen by `link`. The device is an input
 * stream `rx` read through the cursor `pos`; all bus traffic the driver
 * issues (packets sent, and the empty transactions of I2C reads) goes to `sent`.
 * Each method is proved to compute the corresponding function of modules
 * Transport, Engine and Facade.
 */
module Lidar {
  import opened Wrappers
  import opened Bytes
  import opened Packet
  import opened Transport
  import opened Engine
  import opened Facade

  /** Allocates a command packet and fills in its fields, as each command does before sending. */
  method BuildCommand(cmd: Byte, args: seq<Byte>) returns (pkt: array<Byte>)
    ensures fresh(pkt) && pkt[..] == EncodeCommand(cmd, args)
  {
    var count := |args| + 1;
    pkt := new Byte[4 + |args|];
    pkt[0] := Head;
    pkt[1] := (count / 256) % 256;
    pkt[2] := count % 256;
    pkt[3] := cmd;
    forall j | 0 <= j < |args| {
      pkt[4 + j] := args[j];
    }
  }

  class MatrixLidar {
    /** The channel: the I2C or the UART subclass. */
    const link: Link
    /** The bytes the device answers with, in the order the channel delivers them. */
    const rx: seq<Byte>
    /** The receive timeout `_timeout`, in milliseconds. */
    const timeoutMs: nat
    /** How many bytes of `rx` have been read. */
    var pos: nat
    /** All traffic the driver has issued on the channel. */
    var sent: seq<WireEvent>
    /** Response buffers handed out by `RecvPacket` and not freed since. */
    ghost var outstanding: nat
    /** Milliseconds of settling delay issued after mode changes. */
    ghost var settledMs: nat

    ghost predicate Valid()
      reads this
    {
      pos <= |rx|
    }

    constructor (link: Link, rx: seq<Byte>)
      ensures Valid()
      ensures this.link == link && this.rx == rx && timeoutMs == DefaultTimeoutMs
      ensures pos == 0 && sent == [] && outstanding == 0 && settledMs == 0
    {
      this.link := link;
      this.rx := rx;
      timeoutMs := DefaultTimeoutMs;
      pos := 0;
      sent := [];
      outstanding := 0;
      settledMs := 0;
    }

    // ----- sendPacket -----

    /**
     * `sendPacket(pkt, length, stop)`: hands the first `length` bytes of `pkt`
     * to the channel; a NULL or empty packet sends nothing. Both channels
     * ignore `stop`.
     */
    method SendPacket(pkt: array?<Byte>, length: int, stop: bool)
      requires pkt != null ==> 0 <= length <= pkt.Length
      modifies this`sent
      ensures sent == old(sent) + (if pkt == null then [] else Transmission(link, pkt[..length]))
    {
      if link.I2C? {
        I2CSendPacket(pkt, length);
      } else {
        UartSendPacket(pkt, length);
      }
    }

    /** The I2C `sendPacket`: one transaction, written in chunks of at most 32 bytes. */
    method I2CSendPacket(pkt: array?<Byte>, length: int)
      requires link.I2C?
      requires pkt != null ==> 0 <= length <= pkt.Length
      modifies this`sent
      ensures sent == old(sent) + (if pkt == null then [] else Transmission(link, pkt[..length]))
    {
      if pkt == null || length == 0 {
        return;
      }
      ghost var s := pkt[..length];
      ghost var begun := old(sent) + [Begin(link.addr)];
      sent := sent + [Begin(link.addr)];
      var remain := length;
      var done := 0;
      while remain != 0
        invariant 0 <= done <= length && remain == length - done
        invariant begun + I2CPending(s, 0) == sent + I2CPending(s, done)
        decreases remain
      {
        var n := if remain > IicMaxTransfer then IicMaxTransfer else remain;
        var chunk := pkt[done..done + n];
        ghost var step := [Write(chunk)] + (if done + n < length then [End(false)] else []);
        I2CPendingStep(s, done, n);
        assert chunk == s[done..done + n];
        assert I2CPending(s, done) == step + I2CPending(s, done + n);
        ghost var before := sent;
        sent := sent + [Write(chunk)];
        remain := remain - n;
        done := done + n;
        if remain != 0 {
          sent := sent + [End(false)];
        }
        assert sent == before + step;
      }
      assert |s| == done && s[0..] == s;
      assert sent == begun + I2CChunks(s);
      sent := sent + [End(true)];
      assert Transmission(link, s) == [Begin(link.addr)] + I2CChunks(s) + [End(true)];
    }

    /**
     * The UART `sendPacket`: each byte written on its own. The counter is an
     * `int` here; the source's `uint8_t` counter is `Transport.UartSendAsWritten`.
     */
    method UartSendPacket(pkt: array?<Byte>, length: int)
      requires link.Uart?
      requires pkt != null ==> 0 <= length <= pkt.Length
      modifies this`sent
      ensures sent == old(sent) + (if pkt == null then [] else Transmission(link, pkt[..length]))
    {
      if pkt == null || length == 0 {
        return;
      }
      for i := 0 to length
        invariant sent == old(sent) + UartBytes(pkt[..i])
      {
        sent := sent + [Write([pkt[i]])];
        assert UartBytes(pkt[..i + 1]) == UartBytes(pkt[..i]) + [Write([pkt[i]])];
      }
      assert pkt[..length] != [];
    }

    // ----- recvData -----

    /** `recvData(buf + off, len)` of the channel. */
    method RecvData(buf: array<Byte>, off: nat, len: nat) returns (total: int)
      requires Valid() && off + len <= buf.Length
      modifies this`pos, this`sent, buf
      ensures Valid()
      ensures var f := Fill(link, rx, old(pos), old(buf[..]), off, len);
        buf[..] == f.buf && pos == f.pos && total == f.total
      ensures sent == old(sent) + Probes(link, len)
    {
      if link.I2C? {
        total := I2CRecvData(buf, off, len);
      } else {
        total := UartRecvData(buf, off, len);
      }
    }

    /**
     * The I2C `recvData`: for each byte an empty write transaction, then a
     * one-byte request; a byte that does not arrive is stored as 0.
     */
    method I2CRecvData(buf: array<Byte>, off: nat, len: nat) returns (total: int)
      requires link.I2C?
      requires Valid() && off + len <= buf.Length
      modifies this`pos, this`sent, buf
      ensures Valid()
      ensures var f := Fill(link, rx, old(pos), old(buf[..]), off, len);
        buf[..] == f.buf && pos == f.pos && total == f.total
      ensures sent == old(sent) + Probes(link, len)
    {
      ghost var p0 := pos;
      total := 0;
      for i := 0 to len
        invariant pos == p0 + Min(i, |rx| - p0) && total == i
        invariant sent == old(sent) + Probes(link, i)
        invariant forall j :: 0 <= j < buf.Length && !(off <= j < off + i) ==> buf[j] == old(buf[j])
        invariant forall j :: off <= j < off + i ==> buf[j] == if p0 + (j - off) < |rx| then rx[p0 + (j - off)] else 0
      {
        sent := sent + [Begin(link.addr), End(true)];
        if pos < |rx| {
          buf[off + i] := rx[pos];
          pos := pos + 1;
        } else {
          buf[off + i] := 0;
        }
        total := total + 1;
      }
      ghost var f := Fill(link, rx, p0, old(buf[..]), off, len);
      assert forall j :: 0 <= j < buf.Length ==> buf[j] == f.buf[j];
    }

    /**
     * The UART `recvData`: chunks of at most 32 bytes until `len` bytes have
     * arrived or the read attempts run out; returns the count read.
     */
    method UartRecvData(buf: array<Byte>, off: nat, len: nat) returns (total: int)
      requires link.Uart?
      requires Valid() && off + len <= buf.Length
      modifies this`pos, buf
      ensures Valid()
      ensures var f := Fill(link, rx, old(pos), old(buf[..]), off, len);
        buf[..] == f.buf && pos == f.pos && total == f.total
    {
      ghost var p0 := pos;
      var remaining := len;
      total := 0;
      var polls := 0;
      while remaining > 0
        invariant polls <= link.readPolls
        invariant total == Min(Min(len, |rx| - p0), UartChunk * polls)
        invariant remaining == len - total && pos == p0 + total
        invariant forall j :: 0 <= j < buf.Length && !(off <= j < off + total) ==> buf[j] == old(buf[j])
        invariant forall j :: off <= j < off + total ==> buf[j] == rx[p0 + (j - off)]
        decreases link.readPolls - polls
      {
        if polls == link.readPolls {
          break;
        }
        var chunk := if remaining > UartChunk then UartChunk else remaining;
        var got := ReadBytes(buf, off + total, chunk);
        if got > 0 {
          remaining := remaining - got;
          total := total + got;
        }
        polls := polls + 1;
      }
      ghost var f := Fill(link, rx, p0, old(buf[..]), off, len);
      assert total == Taken(link, |rx| - p0, len);
      assert forall j :: 0 <= j < buf.Length ==> buf[j] == f.buf[j];
    }

    /** The stream's `readBytes(buf + at, chunk)`: takes what has arrived, up to `chunk` bytes. */
    method ReadBytes(buf: array<Byte>, at: nat, chunk: nat) returns (got: nat)
      requires Valid() && at + chunk <= buf.Length
      modifies this`pos, buf
      ensures Valid()
      ensures got == Min(chunk, |rx| - old(pos)) && pos == old(pos) + got
      ensures forall j :: 0 <= j < buf.Length ==>
        buf[j] == if at <= j < at + got then rx[old(pos) + (j - at)] else old(buf[j])
    {
      got := Min(chunk, |rx| - pos);
      forall j | 0 <= j < got {
        buf[at + j] := rx[pos + j];
      }
      pos := pos + got;
    }

    // ----- recvPacket -----

    /**
     * `recvPacket(cmd, &errorCode)`: returns the response packet (null for
     * NULL) and what was stored through the error-code pointer.
     */
    method RecvPacket(cmd: Byte, allocOk: bool) returns (pkt: array?<Byte>, err: Option<Byte>)
      requires Valid()
      modifies this`pos, this`sent, this`outstanding
      ensures Valid()
      ensures var r := Receive(link, rx, old(pos), cmd, timeoutMs, allocOk);
        && (pkt == null <==> r.packet.None?)
        && (pkt != null ==> fresh(pkt) && pkt[..] == r.packet.value)
        && err == r.err && pos == r.pos
        && sent == old(sent) + Probes(link, r.asked)
      ensures outstanding == old(outstanding) + (if pkt == null then 0 else 1)
    {
      if cmd > CmdEnd {
        return null, Some(ErrCmdInvalid);
      }
      var hdr := new Byte[4](_ => 0);
      assert hdr[..] == Zeros(4);
      ghost var goal := Receive(link, rx, pos, cmd, timeoutMs, allocOk);
      assert goal == Poll(link, rx, pos, cmd, timeoutMs, hdr[..], allocOk, 0);
      var elapsed := 0;
      ghost var asked := 0;
      while elapsed < timeoutMs
        invariant Valid() && old(pos) <= pos && outstanding == old(outstanding)
        invariant goal == Poll(link, rx, pos, cmd, timeoutMs - elapsed, hdr[..], allocOk, asked)
        invariant sent == old(sent) + Probes(link, asked)
        decreases timeoutMs - elapsed
      {
        var got := RecvData(hdr, 0, 1);
        ProbesAfter(old(sent), link, asked, 1);
        asked := asked + 1;
        if hdr[0] != Idle {
          if IsStatus(hdr[0]) {
            pkt, err := RecvFrame(hdr, cmd, allocOk, asked, old(sent));
            return;
          }
          elapsed := elapsed + NoiseDelayMs;
        }
        elapsed := elapsed + PollDelayMs;
      }
      return null, Some(ErrResTimeout);
    }

    /**
     * The body of `recvPacket` once a status byte is in `hdr[0]`: the echoed
     * command, the length, the ceiling, the allocation and the payload read.
     * The traffic so far is `base` followed by the probes of `asked` bytes.
     */
    method RecvFrame(hdr: array<Byte>, cmd: Byte, allocOk: bool, ghost asked: nat, ghost base: seq<WireEvent>)
      returns (pkt: array?<Byte>, err: Option<Byte>)
      requires Valid() && hdr.Length == 4 && IsStatus(hdr[0])
      requires sent == base + Probes(link, asked)
      modifies this`pos, this`sent, this`outstanding, hdr
      ensures Valid()
      ensures var r := Frame(link, rx, old(pos), cmd, old(hdr[..]), allocOk, asked);
        && (pkt == null <==> r.packet.None?)
        && (pkt != null ==> fresh(pkt) && pkt[..] == r.packet.value)
        && err == r.err && pos == r.pos
        && sent == base + Probes(link, r.asked)
      ensures outstanding == old(outstanding) + (if pkt == null then 0 else 1)
    {
      ghost var echo := Fill(link, rx, pos, hdr[..], 1, 1);
      var got := RecvData(hdr, 1, 1);
      ProbesAfter(base, link, asked, 1);
      if hdr[1] != cmd {
        return null, Some(ErrResPkt);
      }
      ghost var lens := Fill(link, rx, echo.pos, echo.buf, 2, 2);
      got := RecvData(hdr, 2, 2);
      ProbesAfter(base, link, asked + 1, 2);
      assert hdr[..] == lens.buf;
      pkt, err := RecvBody(hdr, allocOk, asked + 3, base);
    }

    /**
     * The end of `recvPacket` once the header is in `hdr`: the ceiling, the
     * allocation, the copy of the header and the payload read.
     */
    method RecvBody(hdr: array<Byte>, allocOk: bool, ghost asked: nat, ghost base: seq<WireEvent>)
      returns (pkt: array?<Byte>, err: Option<Byte>)
      requires Valid() && hdr.Length == 4
      requires sent == base + Probes(link, asked)
      modifies this`pos, this`sent, this`outstanding
      ensures Valid()
      ensures var r := Body(link, rx, old(pos), hdr[..], allocOk, asked);
        && (pkt == null <==> r.packet.None?)
        && (pkt != null ==> fresh(pkt) && pkt[..] == r.packet.value)
        && err == r.err && pos == r.pos
        && sent == base + Probes(link, r.asked)
      ensures outstanding == old(outstanding) + (if pkt == null then 0 else 1)
    {
      var length := (hdr[3] as int) * 256 + hdr[2];
      assert length == PayloadLength(hdr[..]);
      if length >= MaxPayload {
        return null, None;
      }
      if !allocOk {
        return null, Some(ErrNoSpace);
      }
      pkt := new Byte[4 + length](_ => 0);
      pkt[0], pkt[1], pkt[2], pkt[3] := hdr[0], hdr[1], hdr[2], hdr[3];
      assert pkt[..] == hdr[..] + Zeros(length);
      if length > 0 {
        var got := RecvData(pkt, 4, length);
        ProbesAfter(base, link, asked, length);
      }
      outstanding := outstanding + 1;
      err := Some(ErrNone);
    }

    // ----- The command facade -----

    /**
     * `setRangingMode(matrix)`: sends SET_MODE `[0, 0, 0, matrix]`, and on a
     * SUCCESS response frees it, waits out the settling delay and returns 0.
     * Any other outcome returns 1; a FAILED response is not freed.
     */
    method SetRangingMode(matrix: Matrix, sendAlloc: bool, recvAlloc: bool) returns (code: Byte)
      requires Valid()
      modifies this`pos, this`sent, this`outstanding, this`settledMs
      ensures Valid()
      ensures !sendAlloc ==> code == Failure && unchanged(this)
      ensures sendAlloc ==>
        var r := Receive(link, rx, old(pos), CmdSetMode, timeoutMs, recvAlloc);
        && sent == old(sent) + Transmission(link, EncodeCommand(CmdSetMode, [0, 0, 0, matrix.Value()])) + Probes(link, r.asked)
        && pos == r.pos
        && code == RangingModeResult(r)
        && outstanding == old(outstanding) + (if Leaks(r) then 1 else 0)
        && settledMs == old(settledMs) + (if code == 0 then SettleMs else 0)
    {
      if !sendAlloc {
        return Failure;
      }
      var sendpkt := BuildCommand(CmdSetMode, [0, 0, 0, matrix.Value()]);
      SendPacket(sendpkt, sendpkt.Length, true);
      assert sendpkt[..sendpkt.Length] == sendpkt[..];
      var rcvpkt, err := RecvPacket(CmdSetMode, recvAlloc);
      if rcvpkt != null && rcvpkt[0] == StatusSuccess {
        outstanding := outstanding - 1;
        settledMs := settledMs + SettleMs;
        return 0;
      }
      return Failure;
    }

    /**
     * `getAllData(buf)`: sends GET_ALL and, on a SUCCESS response whose length
     * (kept in 8 bits) is at least 32, copies min(length, 128) payload bytes
     * into `buf` and returns 0; otherwise returns 1 and copies nothing.
     */
    method GetAllData(buf: array<Byte>, sendAlloc: bool, recvAlloc: bool) returns (code: Byte)
      requires Valid() && buf.Length >= AllDataMax
      modifies this`pos, this`sent, this`outstanding, buf
      ensures Valid()
      ensures !sendAlloc ==> code == Failure && unchanged(this) && unchanged(buf)
      ensures sendAlloc ==>
        var r := Receive(link, rx, old(pos), CmdAllData, timeoutMs, recvAlloc);
        var out := AllDataResult(r);
        && sent == old(sent) + Transmission(link, EncodeCommand(CmdAllData, [])) + Probes(link, r.asked)
        && pos == r.pos
        && code == out.0
        && buf[..] == out.1 + old(buf[|out.1|..])
        && outstanding == old(outstanding) + (if Leaks(r) then 1 else 0)
    {
      if !sendAlloc {
        return Failure;
      }
      var sendpkt := BuildCommand(CmdAllData, []);
      SendPacket(sendpkt, sendpkt.Length, true);
      assert sendpkt[..sendpkt.Length] == sendpkt[..];
      ghost var r := Receive(link, rx, pos, CmdAllData, timeoutMs, recvAlloc);
      var rcvpkt, err := RecvPacket(CmdAllData, recvAlloc);
      if rcvpkt != null && rcvpkt[0] == StatusSuccess {
        ghost var p := r.packet.value;
        assert Succeeded(r) && rcvpkt[..] == p;
        var length: Byte := ((rcvpkt[3] as int) * 256 + rcvpkt[2]) % 256;
        assert length == AllDataLength(p);
        if length >= AllDataMin {
          var copyLen := if length >= AllDataMax then AllDataMax else length;
          assert AllDataResult(r) == (0, p[4..4 + copyLen]);
          CopyPayload(buf, rcvpkt, copyLen);
        } else {
          assert AllDataResult(r) == (Failure, []);
          assert buf[..] == old(buf[0..]);
          outstanding := outstanding - 1;
          return Failure;
        }
        outstanding := outstanding - 1;
        return 0;
      }
      assert !Succeeded(r) && AllDataResult(r) == (Failure, []);
      assert buf[..] == old(buf[0..]);
      return Failure;
    }

    /** `memcpy(buf, rcvpkt->buf, copyLen)`: the first `copyLen` payload bytes overwrite the front of `buf`. */
    method CopyPayload(buf: array<Byte>, pkt: array<Byte>, copyLen: nat)
      requires 4 + copyLen <= pkt.Length && copyLen <= buf.Length && buf != pkt
      modifies buf
      ensures buf[..] == pkt[4..4 + copyLen] + old(buf[copyLen..])
    {
      forall j | 0 <= j < copyLen {
        buf[j] := pkt[4 + j];
      }
      assert buf[..] == pkt[4..4 + copyLen] + old(buf[copyLen..]);
    }

    /**
     * `getFixedPointData(x, y)`: sends GET_POINT `[x, y]` and, on a SUCCESS
     * response, frees it and returns the first two payload bytes read
     * little-endian; every failure returns 1.
     */
    method GetFixedPointData(x: Byte, y: Byte, sendAlloc: bool, recvAlloc: bool) returns (distance: nat)
      requires Valid()
      modifies this`pos, this`sent, this`outstanding
      ensures Valid()
      ensures !sendAlloc ==> distance == Failure && unchanged(this)
      ensures sendAlloc ==>
        var r := Receive(link, rx, old(pos), CmdFixedPoint, timeoutMs, recvAlloc);
        && sent == old(sent) + Transmission(link, EncodeCommand(CmdFixedPoint, [x, y])) + Probes(link, r.asked)
        && pos == r.pos
        && distance == FixedPointResult(r)
        && outstanding == old(outstanding) + (if Leaks(r) then 1 else 0)
    {
      if !sendAlloc {
        return Failure;
      }
      var sendpkt := BuildCommand(CmdFixedPoint, [x, y]);
      SendPacket(sendpkt, sendpkt.Length, true);
      assert sendpkt[..sendpkt.Length] == sendpkt[..];
      var rcvpkt, err := RecvPacket(CmdFixedPoint, recvAlloc);
      if rcvpkt != null && rcvpkt[0] == StatusSuccess {
        if rcvpkt.Length < 6 {
          distance := Failure;
        } else {
          distance := (rcvpkt[5] as int) * 256 + rcvpkt[4];
        }
        outstanding := outstanding - 1;
        return distance;
      }
      return Failure;
    }
  }
}
