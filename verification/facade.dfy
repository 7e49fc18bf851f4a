/**
 * What the three commands of DFRobot_MatrixLidar.cpp make of a response
 * (`setRangingMode`, `getAllData`, `getFixedPointData`): the success test, the
 * length checks and copy length of `getAllData`, the little-endian distance of
 * `getFixedPointData`, and which paths free the response buffer.
 */
module Facade {
  import opened Wrappers
  import opened Bytes
  import opened Packet
  import opened Transport
  import opened Engine

  /** The value every command returns on failure (and `getFixedPointData` for a distance of 1). */
  const Failure: nat := 1
  /** Smallest `getAllData` payload accepted (a 4x4 matrix of 16-bit cells). */
  const AllDataMin: nat := 32
  /** Most bytes `getAllData` copies out (an 8x8 matrix of 16-bit cells). */
  const AllDataMax: nat := 128
  /** The settling delay after a successful mode change. */
  const SettleMs: nat := 5000

  /** The sampling matrix of `setRangingMode` (eMatrix_t). */
  datatype Matrix = Matrix4x4 | Matrix8x8
  {
    function Value(): Byte
    {
      if Matrix4x4? then 4 else 8
    }
  }

  /** A reception whose packet, if any, holds as many payload bytes as its header declares. */
  predicate Framed(r: Reception)
  {
    r.packet.Some? ==> |r.packet.value| >= 4 && |r.packet.value| == 4 + PayloadLength(r.packet.value)
  }

  /** The facade's success test: a packet came back and its status is SUCCESS. */
  predicate Succeeded(r: Reception)
  {
    r.packet.Some? && |r.packet.value| >= 4 && r.packet.value[0] == StatusSuccess
  }

  /** A response buffer that no path frees: one whose status is FAILED. */
  predicate Leaks(r: Reception)
  {
    r.packet.Some? && !Succeeded(r)
  }

  /** What `setRangingMode` returns for a reception. */
  function RangingModeResult(r: Reception): (code: Byte)
    ensures code == 0 <==> Succeeded(r)
    ensures code == 0 || code == Failure
  {
    if Succeeded(r) then 0 else Failure
  }

  // ----- getAllData -----

  /** `getAllData` keeps the 16-bit payload length in a `uint8_t`: only the low 8 bits survive. */
  function AllDataLength(pkt: seq<Byte>): (n: Byte)
    requires |pkt| >= 4
    ensures n == pkt[2]
  {
    PayloadLength(pkt) % 256
  }

  /**
   * How many payload bytes `getAllData` copies: none (a failure) when the
   * truncated length is under 32, otherwise that length capped at 128.
   */
  function AllDataCopyLength(pkt: seq<Byte>): (c: Option<nat>)
    requires |pkt| >= 4
    ensures c.Some? <==> pkt[2] >= AllDataMin
    ensures c.Some? ==> AllDataMin <= c.value <= AllDataMax && c.value <= PayloadLength(pkt)
    ensures c.Some? && PayloadLength(pkt) < 256 ==> c.value == Min(PayloadLength(pkt), AllDataMax)
  {
    var length := AllDataLength(pkt);
    if length >= AllDataMin then Some(if length >= AllDataMax then AllDataMax else length)
    else None
  }

  /** What `getAllData` returns for a reception, with the bytes it copies into the caller's buffer. */
  function AllDataResult(r: Reception): (out: (Byte, seq<Byte>))
    requires Framed(r)
    ensures out.0 == 0 <==> Succeeded(r) && AllDataCopyLength(r.packet.value).Some?
    ensures out.0 == 0 || (out.0 == Failure && out.1 == [])
    ensures out.0 == 0 ==> out.1 == r.packet.value[4..4 + AllDataCopyLength(r.packet.value).value]
  {
    if !Succeeded(r) then (Failure, [])
    else
      var pkt := r.packet.value;
      match AllDataCopyLength(pkt)
      case None => (Failure, [])
      case Some(c) => (0, pkt[4..4 + c])
  }

  // ----- getFixedPointData -----

  /**
   * `getFixedPointData` as written: it reads `buf[1]` and `buf[0]` from the
   * memory that starts at the payload, whatever the declared length was.
   */
  function FixedPointAsWritten(memory: seq<Byte>): nat
    requires |memory| >= 2
  {
    LittleEndian16(memory[0], memory[1])
  }

  /**
   * With a payload of fewer than two bytes, the result as written depends on
   * the bytes that lie after the payload, outside the response buffer.
   */
  lemma FixedPointOverRead(payload: seq<Byte>)
    requires |payload| < 2
    ensures FixedPointAsWritten(payload + [0, 0, 0]) != FixedPointAsWritten(payload + [1, 1, 1])
  {
    var a := payload + [0, 0, 0];
    var b := payload + [1, 1, 1];
    assert a[1] == 0 && b[1] == 1;
  }

  /**
   * The distance decoded from a payload: its first two bytes little-endian,
   * or the failure value when the payload is too short to hold them.
   */
  function FixedPointValue(payload: seq<Byte>): (v: nat)
    ensures v < 65536
    ensures |payload| >= 2 ==> v % 256 == payload[0] && v / 256 == payload[1]
    ensures |payload| < 2 ==> v == Failure
  {
    if |payload| < 2 then Failure else LittleEndian16(payload[0], payload[1])
  }

  /**
   * The decoded distance depends on the payload only, and agrees with the
   * code as written whenever the payload holds both bytes.
   */
  lemma FixedPointValueAgrees(payload: seq<Byte>, beyond: seq<Byte>)
    requires |payload| >= 2
    ensures FixedPointValue(payload) == FixedPointAsWritten(payload + beyond)
  {
    var m := payload + beyond;
    assert m[0] == payload[0] && m[1] == payload[1];
  }

  /** What `getFixedPointData` returns for a reception. */
  function FixedPointResult(r: Reception): (v: nat)
    requires Framed(r)
    ensures v < 65536
    ensures !Succeeded(r) ==> v == Failure
    ensures Succeeded(r) && |r.packet.value| >= 6 ==>
      v % 256 == r.packet.value[4] && v / 256 == r.packet.value[5]
  {
    if Succeeded(r) then FixedPointValue(r.packet.value[4..]) else Failure
  }

  /** A distance of 1 and a failure give the caller the same value. */
  lemma FixedPointFailureAmbiguous(pos: nat, asked: nat)
    ensures FixedPointResult(Reception(Some([StatusSuccess, CmdFixedPoint, 2, 0, 1, 0]), Some(ErrNone), pos, asked))
         == FixedPointResult(Reception(None, Some(ErrResTimeout), pos, asked))
         == Failure
  {
    var p: seq<Byte> := [StatusSuccess, CmdFixedPoint, 2, 0, 1, 0];
    assert p[4..] == [1, 0];
  }

  // ----- From the wire to the caller -----

  /**
   * `setRangingMode` against a device that answers with a framed response:
   * success exactly when the status is SUCCESS; a FAILED response is handed
   * out and never freed.
   */
  lemma RangingModeFromResponse(link: Link, rx: seq<Byte>, pos: nat, timeoutMs: nat, status: Byte, payload: seq<Byte>)
    requires IsStatus(status) && |payload| < MaxPayload && timeoutMs > 0
    requires Delivers(link, 2) && Delivers(link, |payload|)
    requires pos + 4 + |payload| <= |rx| && rx[pos..pos + 4 + |payload|] == EncodeResponse(status, CmdSetMode, payload)
    ensures var r := Receive(link, rx, pos, CmdSetMode, timeoutMs, true);
      && (RangingModeResult(r) == 0 <==> status == StatusSuccess)
      && (Leaks(r) <==> status == StatusFailed)
  {
    ResponseRoundTrip(link, rx, pos, CmdSetMode, timeoutMs, Zeros(4), status, payload, 0);
  }

  /**
   * `getAllData` on a SUCCESS response carrying `payload`: the first
   * min(n mod 256, 128) payload bytes are copied out when n mod 256 is at
   * least 32, and nothing is copied otherwise.
   */
  lemma AllDataOfResponse(payload: seq<Byte>, pos: nat, asked: nat)
    requires |payload| < MaxPayload
    ensures var n := |payload| % 256;
      AllDataResult(Reception(Some(EncodeResponse(StatusSuccess, CmdAllData, payload)), Some(ErrNone), pos, asked))
        == if n >= AllDataMin then (0, payload[..Min(n, AllDataMax)]) else (Failure, [])
  {
    var frame := EncodeResponse(StatusSuccess, CmdAllData, payload);
    var n := |payload| % 256;
    assert AllDataLength(frame) == n;
    if n >= AllDataMin {
      var c := Min(n, AllDataMax);
      assert AllDataCopyLength(frame) == Some(c);
      assert frame[4..4 + c] == payload[..c];
    }
  }

  /** The same, end to end: the device's response read from the stream by `recvPacket`. */
  lemma AllDataFromResponse(link: Link, rx: seq<Byte>, pos: nat, timeoutMs: nat, payload: seq<Byte>)
    requires |payload| < MaxPayload && timeoutMs > 0
    requires Delivers(link, 2) && Delivers(link, |payload|)
    requires pos + 4 + |payload| <= |rx| && rx[pos..pos + 4 + |payload|] == EncodeResponse(StatusSuccess, CmdAllData, payload)
    ensures var n := |payload| % 256;
      AllDataResult(Receive(link, rx, pos, CmdAllData, timeoutMs, true))
        == if n >= AllDataMin then (0, payload[..Min(n, AllDataMax)]) else (Failure, [])
  {
    ResponseRoundTrip(link, rx, pos, CmdAllData, timeoutMs, Zeros(4), StatusSuccess, payload, 0);
    AllDataOfResponse(payload, pos + 4 + |payload|, 4 + |payload|);
  }

  /** The three payload sizes of the sensor's documentation: 32 and 128 bytes are copied whole, 8 are refused. */
  lemma AllDataSizes(payload: seq<Byte>, pos: nat, asked: nat)
    requires |payload| in {8, 32, 128}
    ensures AllDataResult(Reception(Some(EncodeResponse(StatusSuccess, CmdAllData, payload)), Some(ErrNone), pos, asked))
         == if |payload| == 8 then (Failure, []) else (0, payload)
  {
    AllDataOfResponse(payload, pos, asked);
    var n := |payload|;
    if n == 8 {
      assert n % 256 == 8;
    } else if n == 32 {
      assert n % 256 == 32;
    } else {
      assert n % 256 == 128;
    }
    assert payload[..n] == payload;
  }

  /** A 300-byte payload keeps only its low length byte, 44: that many bytes are copied, not 128. */
  lemma AllDataLengthWraps(payload: seq<Byte>, pos: nat, asked: nat)
    requires |payload| == 300
    ensures AllDataResult(Reception(Some(EncodeResponse(StatusSuccess, CmdAllData, payload)), Some(ErrNone), pos, asked))
         == (0, payload[..44])
  {
    AllDataOfResponse(payload, pos, asked);
    assert |payload| % 256 == 44 && Min(44, AllDataMax) == 44;
  }

  /**
   * `getFixedPointData` against a device that answers SUCCESS with a two-byte
   * payload returns those bytes read little-endian: `[0x34, 0x12]` gives 0x1234.
   */
  lemma FixedPointFromResponse(link: Link, rx: seq<Byte>, pos: nat, timeoutMs: nat, lo: Byte, hi: Byte)
    requires timeoutMs > 0 && Delivers(link, 2)
    requires pos + 6 <= |rx| && rx[pos..pos + 6] == EncodeResponse(StatusSuccess, CmdFixedPoint, [lo, hi])
    ensures FixedPointResult(Receive(link, rx, pos, CmdFixedPoint, timeoutMs, true)) == LittleEndian16(lo, hi)
    ensures lo == 0x34 && hi == 0x12 ==> LittleEndian16(lo, hi) == 0x1234
  {
    ResponseRoundTrip(link, rx, pos, CmdFixedPoint, timeoutMs, Zeros(4), StatusSuccess, [lo, hi], 0);
    assert EncodeResponse(StatusSuccess, CmdFixedPoint, [lo, hi])[4..] == [lo, hi];
  }
}
