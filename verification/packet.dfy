/**
 * The packet codec: the byte layout of outbound command packets and of
 * inbound response packets, as built and read by DFRobot_MatrixLidar.cpp.
 */
module Packet {
  import opened Wrappers
  import opened Bytes

  /** Marker byte that opens every command packet. */
  const Head: Byte := 0x55

  /** Command identifiers; `CmdEnd` is the largest one the engine accepts. */
  const CmdSetMode: Byte := 1
  const CmdAllData: Byte := 2
  const CmdFixedPoint: Byte := 3
  const CmdLine: Byte := 4
  const CmdList: Byte := 5
  const CmdAvoidObstacle: Byte := 6
  const CmdConfigAvoid: Byte := 7
  const CmdObstacleDistance: Byte := 8
  const CmdEnd: Byte := CmdObstacleDistance

  /** The two status bytes that open a response packet. */
  const StatusSuccess: Byte := 0x53
  const StatusFailed: Byte := 0x63

  /** Error codes the engine reports through its error-code out-parameter. */
  const ErrNone: Byte := 0x00
  const ErrCmdInvalid: Byte := 0x01
  const ErrResPkt: Byte := 0x02
  const ErrNoSpace: Byte := 0x03
  const ErrResTimeout: Byte := 0x04

  /** A response whose declared payload length reaches this ceiling is refused. */
  const MaxPayload: nat := 1000

  predicate IsStatus(b: Byte)
  {
    b == StatusSuccess || b == StatusFailed
  }

  // ----- Outbound command packets -----

  /**
   * A command packet: the marker, the argument count `|args| + 1` (the command
   * byte counts too) high byte first, the command id, then the arguments.
   * The count is computed in `int` and each half masked with 0xFF.
   */
  function EncodeCommand(cmd: Byte, args: seq<Byte>): (pkt: seq<Byte>)
    ensures |pkt| == 4 + |args|
    ensures pkt[0] == Head && pkt[3] == cmd && pkt[4..] == args
  {
    var count := |args| + 1;
    [Head, (count / 256) % 256, count % 256, cmd] + args
  }

  /** The argument count as the receiving device reads it back: high byte first. */
  function ArgCount(pkt: seq<Byte>): nat
    requires |pkt| >= 4
  {
    (pkt[1] as int) * 256 + pkt[2]
  }

  /** A decoded command packet. */
  datatype Command = Command(cmd: Byte, args: seq<Byte>)

  /**
   * The device-side reading of a command packet: the marker must be present
   * and the count field must equal the number of bytes after it.
   */
  function DecodeCommand(pkt: seq<Byte>): Option<Command>
  {
    if |pkt| < 4 || pkt[0] != Head || ArgCount(pkt) != |pkt| - 3 then None
    else Some(Command(pkt[3], pkt[4..]))
  }

  /** The count field of an encoded packet decodes back to `|args| + 1` while that fits 16 bits. */
  lemma CountFieldRoundTrip(cmd: Byte, args: seq<Byte>)
    requires |args| + 1 < 65536
    ensures ArgCount(EncodeCommand(cmd, args)) == |args| + 1
  {
    var count := |args| + 1;
    var pkt := EncodeCommand(cmd, args);
    assert count / 256 < 256;
    assert pkt[1] == count / 256 && pkt[2] == count % 256;
  }

  /** Whatever the engine encodes, the device decodes to the same command and arguments. */
  lemma CommandRoundTrip(cmd: Byte, args: seq<Byte>)
    requires |args| + 1 < 65536
    ensures DecodeCommand(EncodeCommand(cmd, args)) == Some(Command(cmd, args))
  {
    CountFieldRoundTrip(cmd, args);
  }

  /** Conversely, every packet the device accepts is the encoding of what it decodes to. */
  lemma DecodedCommandReencodes(pkt: seq<Byte>)
    requires DecodeCommand(pkt).Some?
    ensures |DecodeCommand(pkt).value.args| + 1 < 65536
    ensures EncodeCommand(DecodeCommand(pkt).value.cmd, DecodeCommand(pkt).value.args) == pkt
  {
    var c := DecodeCommand(pkt).value;
    var count := |c.args| + 1;
    assert count == (pkt[1] as int) * 256 + pkt[2];
    ByteSplit(pkt[1], pkt[2]);
    var e := EncodeCommand(c.cmd, c.args);
    assert e[1] == pkt[1] && e[2] == pkt[2];
    assert e == pkt[..4] + pkt[4..];
  }

  /**
   * The three packets the command facade sends: SET_MODE with `[0, 0, 0, matrix]`,
   * GET_ALL with no arguments, GET_POINT with `[x, y]`.
   */
  lemma FacadePackets(matrix: Byte, x: Byte, y: Byte)
    ensures EncodeCommand(CmdSetMode, [0, 0, 0, matrix]) == [0x55, 0, 5, 1, 0, 0, 0, matrix]
    ensures EncodeCommand(CmdAllData, []) == [0x55, 0, 1, 2]
    ensures EncodeCommand(CmdFixedPoint, [x, y]) == [0x55, 0, 3, 3, x, y]
  {
  }

  // ----- Inbound response packets -----

  /**
   * The payload length of a response header `status, cmd, lenL, lenH`:
   * low byte first on the wire, the opposite order to the outbound count.
   */
  function PayloadLength(hdr: seq<Byte>): (n: nat)
    requires |hdr| >= 4
    ensures n < 65536
    ensures n % 256 == hdr[2] && n / 256 == hdr[3]
  {
    LittleEndian16(hdr[2], hdr[3])
  }

  /** The device-side framing of a response: header with a low-byte-first length, then the payload. */
  function EncodeResponse(status: Byte, cmd: Byte, payload: seq<Byte>): (frame: seq<Byte>)
    requires |payload| < 65536
    ensures |frame| == 4 + |payload|
    ensures frame[0] == status && frame[1] == cmd && frame[4..] == payload
    ensures PayloadLength(frame) == |payload|
  {
    [status, cmd, |payload| % 256, |payload| / 256] + payload
  }

  /**
   * A response packet as the engine hands it out: a recognised status, the
   * awaited command, a length under the ceiling and exactly that many payload bytes.
   */
  predicate WellFormedResponse(p: seq<Byte>, cmd: Byte)
  {
    |p| >= 4 && IsStatus(p[0]) && p[1] == cmd
    && PayloadLength(p) < MaxPayload && |p| == 4 + PayloadLength(p)
  }

  /** Every response framed by the device for the awaited command, under the ceiling, is well formed. */
  lemma EncodedResponseWellFormed(status: Byte, cmd: Byte, payload: seq<Byte>)
    requires IsStatus(status) && |payload| < MaxPayload
    ensures WellFormedResponse(EncodeResponse(status, cmd, payload), cmd)
  {
  }
}
