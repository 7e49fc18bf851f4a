/**
 * The response parser `recvPacket` of DFRobot_MatrixLidar.cpp as a function
 * of the channel: the poll loop for a status byte, the echoed-command check,
 * the length field and its ceiling, the payload read and the error codes.
 * `Lidar.MatrixLidar.RecvPacket` is proved to compute `Receive`.
 */
module Engine {
  import opened Wrappers
  import opened Bytes
  import opened Packet
  import opened Transport

  /** The receive timeout a driver starts with (DEBUG_TIMEOUT_MS). */
  const DefaultTimeoutMs: nat := 8000
  /** The wait at the end of every poll. */
  const PollDelayMs: nat := 17
  /** The extra wait after a byte that is neither 0xFF nor a status byte. */
  const NoiseDelayMs: nat := 10
  /** The byte a device sends while it has nothing to say. */
  const Idle: Byte := 0xFF

  /**
   * The outcome of one `recvPacket`: the packet handed out (None for NULL),
   * what was stored through the error-code pointer (None when nothing was),
   * how far the stream has been read, and how many bytes were requested
   * through `recvData` (on I2C each request also puts an empty transaction
   * on the bus, `Transport.Probes`).
   */
  datatype Reception = Reception(packet: Option<seq<Byte>>, err: Option<Byte>, pos: nat, asked: nat)

  /** The time one poll costs after reading the byte `b`. */
  function PollCost(b: Byte): nat
  {
    if b == Idle then PollDelayMs else NoiseDelayMs + PollDelayMs
  }

  /** What a result handed out by `recvPacket` satisfies, whatever the stream held. */
  predicate Sound(r: Reception, cmd: Byte, pos: nat, rx: seq<Byte>)
  {
    && pos <= r.pos <= |rx|
    && (r.packet.Some? ==> WellFormedResponse(r.packet.value, cmd) && r.err == Some(ErrNone))
    && (r.packet.None? ==> r.err != Some(ErrNone))
  }

  /**
   * The end of `recvPacket` once the four header bytes are in `hdr`: refuse a
   * length of 1000 or more without touching the error code, report a failed
   * allocation, and otherwise read the payload into a fresh buffer that
   * starts with the header. `asked` is the number of bytes requested so far.
   */
  function Body(link: Link, rx: seq<Byte>, pos: nat, hdr: seq<Byte>, allocOk: bool, asked: nat): (r: Reception)
    requires pos <= |rx| && |hdr| == 4
  {
    var length := PayloadLength(hdr);
    if length >= MaxPayload then Reception(None, None, pos, asked)
    else if !allocOk then Reception(None, Some(ErrNoSpace), pos, asked)
    else if length == 0 then Reception(Some(hdr), Some(ErrNone), pos, asked)
    else
      var body := Fill(link, rx, pos, hdr + Zeros(length), 4, length);
      Reception(Some(body.buf), Some(ErrNone), body.pos, asked + length)
  }

  /**
   * The part of `recvPacket` after a status byte has been read into `hdr[0]`:
   * read the echoed command, stop on a mismatch, read the two length bytes,
   * then `Body`. `asked` is the number of bytes requested before the echo.
   */
  function Frame(link: Link, rx: seq<Byte>, pos: nat, cmd: Byte, hdr: seq<Byte>, allocOk: bool, asked: nat): (r: Reception)
    requires pos <= |rx| && |hdr| == 4 && IsStatus(hdr[0])
  {
    var echo := Fill(link, rx, pos, hdr, 1, 1);
    if echo.buf[1] != cmd then Reception(None, Some(ErrResPkt), echo.pos, asked + 1)
    else
      var lens := Fill(link, rx, echo.pos, echo.buf, 2, 2);
      Body(link, rx, lens.pos, lens.buf, allocOk, asked + 3)
  }

  /**
   * Once a header for `cmd` is read, the rest of `recvPacket` hands out only a
   * packet that is well formed for `cmd`, with 0x00; without a packet the
   * error code is never 0x00, and 0x01 is never reported.
   */
  lemma BodySound(link: Link, rx: seq<Byte>, pos: nat, cmd: Byte, hdr: seq<Byte>, allocOk: bool, asked: nat)
    requires pos <= |rx| && |hdr| == 4 && IsStatus(hdr[0]) && hdr[1] == cmd
    ensures var r := Body(link, rx, pos, hdr, allocOk, asked);
      Sound(r, cmd, pos, rx) && r.err != Some(ErrCmdInvalid)
  {
    var length := PayloadLength(hdr);
    if length < MaxPayload && allocOk && length > 0 {
      var body := Fill(link, rx, pos, hdr + Zeros(length), 4, length);
      assert body.buf[0] == hdr[0] && body.buf[1] == hdr[1];
      assert body.buf[2] == hdr[2] && body.buf[3] == hdr[3];
      assert PayloadLength(body.buf) == length;
    }
  }

  /** The same from the echo on: what follows a status byte is sound for `cmd`. */
  lemma FrameSound(link: Link, rx: seq<Byte>, pos: nat, cmd: Byte, hdr: seq<Byte>, allocOk: bool, asked: nat)
    requires pos <= |rx| && |hdr| == 4 && IsStatus(hdr[0])
    ensures var r := Frame(link, rx, pos, cmd, hdr, allocOk, asked);
      Sound(r, cmd, pos, rx) && r.err != Some(ErrCmdInvalid)
  {
    var echo := Fill(link, rx, pos, hdr, 1, 1);
    if echo.buf[1] == cmd {
      var lens := Fill(link, rx, echo.pos, echo.buf, 2, 2);
      BodySound(link, rx, lens.pos, cmd, lens.buf, allocOk, asked + 3);
    }
  }

  /**
   * The poll loop of `recvPacket` with `left` milliseconds of the budget
   * remaining: read one byte into `hdr[0]`; a status byte leads to `Frame`,
   * any other byte (0xFF included) costs a poll and the loop goes on; when
   * the budget is spent the result is a timeout. `asked` is the number of
   * bytes requested so far.
   */
  function Poll(link: Link, rx: seq<Byte>, pos: nat, cmd: Byte, left: int, hdr: seq<Byte>, allocOk: bool, asked: nat): (r: Reception)
    requires pos <= |rx| && |hdr| == 4
    decreases left
  {
    if left <= 0 then Reception(None, Some(ErrResTimeout), pos, asked)
    else
      var s := Fill(link, rx, pos, hdr, 0, 1);
      if IsStatus(s.buf[0]) then Frame(link, rx, s.pos, cmd, s.buf, allocOk, asked + 1)
      else Poll(link, rx, s.pos, cmd, left - PollCost(s.buf[0]), s.buf, allocOk, asked + 1)
  }

  /**
   * Whatever the stream holds, the poll loop never reports 0x01, only moves
   * forward in the stream, and hands out only well-formed packets for `cmd`,
   * with 0x00.
   */
  lemma {:induction false} PollSound(link: Link, rx: seq<Byte>, pos: nat, cmd: Byte, left: int, hdr: seq<Byte>, allocOk: bool, asked: nat)
    requires pos <= |rx| && |hdr| == 4
    ensures var r := Poll(link, rx, pos, cmd, left, hdr, allocOk, asked);
      Sound(r, cmd, pos, rx) && r.err != Some(ErrCmdInvalid)
    decreases left
  {
    if left > 0 {
      var s := Fill(link, rx, pos, hdr, 0, 1);
      if IsStatus(s.buf[0]) {
        FrameSound(link, rx, s.pos, cmd, s.buf, allocOk, asked + 1);
      } else {
        PollSound(link, rx, s.pos, cmd, left - PollCost(s.buf[0]), s.buf, allocOk, asked + 1);
      }
    }
  }

  /**
   * `recvPacket(cmd, &errorCode)` with a budget of `timeoutMs`: a command above
   * CMD_END is refused before anything is read; otherwise the loop starts with
   * a header whose bytes are not yet written.
   */
  function Receive(link: Link, rx: seq<Byte>, pos: nat, cmd: Byte, timeoutMs: nat, allocOk: bool): (r: Reception)
    requires pos <= |rx|
    ensures Sound(r, cmd, pos, rx)
    ensures r.err == Some(ErrCmdInvalid) <==> cmd > CmdEnd
    ensures cmd > CmdEnd ==> r.packet.None? && r.pos == pos && r.asked == 0
  {
    if cmd > CmdEnd then Reception(None, Some(ErrCmdInvalid), pos, 0)
    else
      PollSound(link, rx, pos, cmd, timeoutMs, Zeros(4), allocOk, 0);
      Poll(link, rx, pos, cmd, timeoutMs, Zeros(4), allocOk, 0)
  }

  // ----- Properties of the parser -----

  /**
   * A stream that holds no status byte ends in a timeout: idle bytes, noise,
   * the zeros an I2C read stores when nothing arrives, and a stale header
   * byte left by a UART read that got nothing are all skipped.
   */
  lemma {:induction false} NoStatusTimesOut(link: Link, rx: seq<Byte>, pos: nat, cmd: Byte, left: int, hdr: seq<Byte>, allocOk: bool, asked: nat)
    requires pos <= |rx| && |hdr| == 4 && !IsStatus(hdr[0])
    requires forall j :: pos <= j < |rx| ==> !IsStatus(rx[j])
    ensures var r := Poll(link, rx, pos, cmd, left, hdr, allocOk, asked);
      r.packet.None? && r.err == Some(ErrResTimeout)
    decreases left
  {
    if left > 0 {
      var s := Fill(link, rx, pos, hdr, 0, 1);
      assert !IsStatus(s.buf[0]);
      NoStatusTimesOut(link, rx, s.pos, cmd, left - PollCost(s.buf[0]), s.buf, allocOk, asked + 1);
    }
  }

  /** `recvPacket` on a stream without a status byte reports a timeout (for any valid command). */
  lemma ReceiveTimesOut(link: Link, rx: seq<Byte>, pos: nat, cmd: Byte, timeoutMs: nat, allocOk: bool)
    requires pos <= |rx| && cmd <= CmdEnd
    requires forall j :: pos <= j < |rx| ==> !IsStatus(rx[j])
    ensures var r := Receive(link, rx, pos, cmd, timeoutMs, allocOk);
      r.packet.None? && r.err == Some(ErrResTimeout)
  {
    NoStatusTimesOut(link, rx, pos, cmd, timeoutMs, Zeros(4), allocOk, 0);
  }

  /** A byte that is not a status byte is consumed, costs one poll, and polling continues. */
  lemma SkipsNonStatus(link: Link, rx: seq<Byte>, pos: nat, cmd: Byte, left: int, hdr: seq<Byte>, allocOk: bool, asked: nat)
    requires pos < |rx| && |hdr| == 4 && left > 0 && Delivers(link, 1)
    requires !IsStatus(rx[pos])
    ensures Poll(link, rx, pos, cmd, left, hdr, allocOk, asked)
         == Poll(link, rx, pos + 1, cmd, left - PollCost(rx[pos]), hdr[0 := rx[pos]], allocOk, asked + 1)
  {
    var s := Fill(link, rx, pos, hdr, 0, 1);
    assert s.buf == hdr[0 := rx[pos]];
  }

  /**
   * The three reads of a frame header, when the stream holds it: the status,
   * the echoed command and the two length bytes land in `hdr` as they stand
   * in the stream.
   */
  lemma HeaderRead(link: Link, rx: seq<Byte>, pos: nat, hdr: seq<Byte>)
    requires pos + 4 <= |rx| && |hdr| == 4 && Delivers(link, 2)
    ensures var s := Fill(link, rx, pos, hdr, 0, 1);
      var echo := Fill(link, rx, s.pos, s.buf, 1, 1);
      var lens := Fill(link, rx, echo.pos, echo.buf, 2, 2);
      && s.pos == pos + 1 && s.buf[0] == rx[pos]
      && echo.pos == pos + 2 && echo.buf[1] == rx[pos + 1]
      && lens.pos == pos + 4 && lens.buf == rx[pos..pos + 4]
  {
    var s := Fill(link, rx, pos, hdr, 0, 1);
    var echo := Fill(link, rx, s.pos, s.buf, 1, 1);
    var lens := Fill(link, rx, echo.pos, echo.buf, 2, 2);
    FillDelivers(link, rx, pos, hdr, 0, 1);
    FillDelivers(link, rx, s.pos, s.buf, 1, 1);
    FillDelivers(link, rx, echo.pos, echo.buf, 2, 2);
    assert lens.buf == rx[pos..pos + 4];
  }

  /** The payload read into a buffer that starts with the header: header, then the next `n` stream bytes. */
  lemma PayloadRead(link: Link, rx: seq<Byte>, p: nat, h: seq<Byte>, n: nat)
    requires |h| == 4 && p + n <= |rx| && Delivers(link, n)
    ensures Fill(link, rx, p, h + Zeros(n), 4, n) == Filled(h + rx[p..p + n], p + n, n)
  {
    var b := h + Zeros(n);
    FillDelivers(link, rx, p, b, 4, n);
    assert b[..4] == h && b[4 + n..] == [];
  }

  /**
   * An echoed command other than the awaited one stops the loop with 0x02
   * after two bytes are read; nothing more is read and no packet is made.
   */
  lemma MismatchStops(link: Link, rx: seq<Byte>, pos: nat, cmd: Byte, left: int, hdr: seq<Byte>, allocOk: bool, asked: nat)
    requires pos + 2 <= |rx| && |hdr| == 4 && left > 0 && Delivers(link, 1)
    requires IsStatus(rx[pos]) && rx[pos + 1] != cmd
    ensures Poll(link, rx, pos, cmd, left, hdr, allocOk, asked) == Reception(None, Some(ErrResPkt), pos + 2, asked + 2)
  {
  }

  /**
   * A declared length of 1000 or more returns NULL after the four header bytes,
   * whatever the allocator would have done, and leaves the error code unwritten.
   */
  lemma CeilingLeavesErrorUnset(link: Link, rx: seq<Byte>, pos: nat, cmd: Byte, left: int, hdr: seq<Byte>, allocOk: bool, asked: nat)
    requires pos + 4 <= |rx| && |hdr| == 4 && left > 0 && Delivers(link, 2)
    requires IsStatus(rx[pos]) && rx[pos + 1] == cmd && PayloadLength(rx[pos..pos + 4]) >= MaxPayload
    ensures Poll(link, rx, pos, cmd, left, hdr, allocOk, asked) == Reception(None, None, pos + 4, asked + 4)
  {
    HeaderRead(link, rx, pos, hdr);
  }

  /** A failed allocation of the response buffer returns NULL with 0x03. */
  lemma AllocFailureReported(link: Link, rx: seq<Byte>, pos: nat, cmd: Byte, left: int, hdr: seq<Byte>, asked: nat)
    requires pos + 4 <= |rx| && |hdr| == 4 && left > 0 && Delivers(link, 2)
    requires IsStatus(rx[pos]) && rx[pos + 1] == cmd && PayloadLength(rx[pos..pos + 4]) < MaxPayload
    ensures Poll(link, rx, pos, cmd, left, hdr, false, asked) == Reception(None, Some(ErrNoSpace), pos + 4, asked + 4)
  {
    HeaderRead(link, rx, pos, hdr);
  }

  /**
   * A response framed by the device for the awaited command comes back whole:
   * the packet is the four header bytes followed by exactly the payload, in
   * order, the error code is 0x00 and the stream is read just past the frame.
   */
  lemma ResponseRoundTrip(link: Link, rx: seq<Byte>, pos: nat, cmd: Byte, left: int, hdr: seq<Byte>,
                          status: Byte, payload: seq<Byte>, asked: nat)
    requires IsStatus(status) && |payload| < MaxPayload && |hdr| == 4 && left > 0
    requires Delivers(link, 2) && Delivers(link, |payload|)
    requires pos + 4 + |payload| <= |rx| && rx[pos..pos + 4 + |payload|] == EncodeResponse(status, cmd, payload)
    ensures Poll(link, rx, pos, cmd, left, hdr, true, asked)
         == Reception(Some(EncodeResponse(status, cmd, payload)), Some(ErrNone), pos + 4 + |payload|, asked + 4 + |payload|)
  {
    var frame := EncodeResponse(status, cmd, payload);
    var n := |payload|;
    HeaderRead(link, rx, pos, hdr);
    assert rx[pos..pos + 4] == frame[..4];
    assert PayloadLength(frame[..4]) == n;
    if n > 0 {
      PayloadRead(link, rx, pos + 4, frame[..4], n);
      assert rx[pos + 4..pos + 4 + n] == payload;
      assert frame[..4] + payload == frame;
    } else {
      assert frame[..4] == frame;
    }
  }

  /** The total poll cost of a run of non-status bytes. */
  function NoiseCost(noise: seq<Byte>): nat
  {
    if noise == [] then 0 else PollCost(noise[0]) + NoiseCost(noise[1..])
  }

  /** The header after polling past `noise`: its first byte is the last noise byte read. */
  function HeaderAfter(hdr: seq<Byte>, noise: seq<Byte>): (h: seq<Byte>)
    requires |hdr| == 4
    ensures |h| == 4
    decreases |noise|
  {
    if noise == [] then hdr else HeaderAfter(hdr[0 := noise[0]], noise[1..])
  }

  /**
   * A run of non-status bytes (idle 0xFF or noise) only spends budget: with
   * more budget than it costs, polling from before the run gives whatever
   * polling from right after it gives, with the budget reduced by its cost
   * and one byte requested per byte of the run.
   * With `ResponseRoundTrip`, a response after such a run comes back whole.
   */
  lemma {:induction false} SkipsNoise(link: Link, rx: seq<Byte>, pos: nat, cmd: Byte, left: int, hdr: seq<Byte>,
                                      allocOk: bool, asked: nat, noise: seq<Byte>, r: Reception)
    requires |hdr| == 4 && left > NoiseCost(noise) && Delivers(link, 1)
    requires forall j :: 0 <= j < |noise| ==> !IsStatus(noise[j])
    requires pos + |noise| <= |rx| && rx[pos..pos + |noise|] == noise
    requires Poll(link, rx, pos + |noise|, cmd, left - NoiseCost(noise), HeaderAfter(hdr, noise), allocOk, asked + |noise|) == r
    ensures Poll(link, rx, pos, cmd, left, hdr, allocOk, asked) == r
    decreases |noise|
  {
    if noise != [] {
      var rest := noise[1..];
      assert rx[pos] == noise[0] by {
        assert rx[pos..pos + |noise|][0] == rx[pos];
      }
      assert rx[pos + 1..pos + |noise|] == rest;
      var left' := left - PollCost(rx[pos]);
      var hdr' := hdr[0 := rx[pos]];
      assert pos + 1 + |rest| == pos + |noise|;
      assert left' - NoiseCost(rest) == left - NoiseCost(noise);
      assert HeaderAfter(hdr', rest) == HeaderAfter(hdr, noise);
      assert asked + 1 + |rest| == asked + |noise|;
      SkipsNoise(link, rx, pos + 1, cmd, left', hdr', allocOk, asked + 1, rest, r);
      SkipsNonStatus(link, rx, pos, cmd, left, hdr, allocOk, asked);
    }
  }

  /**
   * The budget can run out before a reply arrives: when polling a run of
   * non-status bytes costs at least the budget left, the loop ends in NULL
   * with 0x04 inside the run, and whatever follows the run (a well-formed
   * response included) is never read.
   */
  lemma {:induction false} BudgetSpentTimesOut(link: Link, rx: seq<Byte>, pos: nat, cmd: Byte, left: int, hdr: seq<Byte>,
                                               allocOk: bool, asked: nat, noise: seq<Byte>)
    requires |hdr| == 4 && left <= NoiseCost(noise) && Delivers(link, 1)
    requires forall j :: 0 <= j < |noise| ==> !IsStatus(noise[j])
    requires pos + |noise| <= |rx| && rx[pos..pos + |noise|] == noise
    ensures var r := Poll(link, rx, pos, cmd, left, hdr, allocOk, asked);
      r.packet.None? && r.err == Some(ErrResTimeout) && r.pos <= pos + |noise|
    decreases |noise|
  {
    if left > 0 {
      assert noise != [];
      var rest := noise[1..];
      assert rx[pos] == noise[0] by {
        assert rx[pos..pos + |noise|][0] == rx[pos];
      }
      assert rx[pos + 1..pos + 1 + |rest|] == rest;
      assert forall j :: 0 <= j < |rest| ==> rest[j] == noise[j + 1];
      SkipsNonStatus(link, rx, pos, cmd, left, hdr, allocOk, asked);
      BudgetSpentTimesOut(link, rx, pos + 1, cmd, left - PollCost(rx[pos]), hdr[0 := rx[pos]], allocOk, asked + 1, rest);
    }
  }

  /** `recvPacket` when the budget is spent on non-status bytes: NULL with 0x04, nothing after them read. */
  lemma ReceiveBudgetSpent(link: Link, rx: seq<Byte>, pos: nat, cmd: Byte, timeoutMs: nat, allocOk: bool, noise: seq<Byte>)
    requires cmd <= CmdEnd && timeoutMs <= NoiseCost(noise) && Delivers(link, 1)
    requires forall j :: 0 <= j < |noise| ==> !IsStatus(noise[j])
    requires pos + |noise| <= |rx| && rx[pos..pos + |noise|] == noise
    ensures var r := Receive(link, rx, pos, cmd, timeoutMs, allocOk);
      r.packet.None? && r.err == Some(ErrResTimeout) && r.pos <= pos + |noise|
  {
    BudgetSpentTimesOut(link, rx, pos, cmd, timeoutMs, Zeros(4), allocOk, 0, noise);
  }

  /** A run of `n` idle bytes costs one 17 ms poll each. */
  lemma {:induction false} IdleRunCost(n: nat)
    ensures NoiseCost(seq(n, _ => Idle)) == PollDelayMs * n
  {
    if n > 0 {
      IdleRunCost(n - 1);
      assert seq(n, _ => Idle)[1..] == seq(n - 1, _ => Idle);
    }
  }

  /**
   * 471 idle bytes cost 8007 ms, more than the default 8000 ms budget: a
   * response that follows them is never read and `recvPacket` times out.
   */
  lemma LateReplyTimesOut(link: Link, rx: seq<Byte>, pos: nat, cmd: Byte, allocOk: bool)
    requires cmd <= CmdEnd && Delivers(link, 1) && pos + 471 <= |rx|
    requires forall j :: pos <= j < pos + 471 ==> rx[j] == Idle
    ensures var r := Receive(link, rx, pos, cmd, DefaultTimeoutMs, allocOk);
      r.packet.None? && r.err == Some(ErrResTimeout) && r.pos <= pos + 471
  {
    var idle := seq(471, _ => Idle);
    assert rx[pos..pos + 471] == idle;
    IdleRunCost(471);
    ReceiveBudgetSpent(link, rx, pos, cmd, DefaultTimeoutMs, allocOk, idle);
  }
}
