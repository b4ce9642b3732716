/**
 Modbus frames as byte sequences: the MBAP framing of MODBUS Messaging on TCP/IP V1.0b, section 3.1.3, and
 the RTU framing with its trailing checksum. What a received stream means is given by functions on positions
 in it; the class Nmbs computes the same things through its cursor.
 */
module Adu {
  import opened Bytes
  import opened Crc

  datatype Transport = Rtu | Tcp

  /**
   nmbs_error. Fault is not a value of the C type: it marks the point from which the C program's behaviour is
   undefined (an access past msg.buf or past the register store, or through the NULL get_server returns).
   */
  datatype Error =
    | NoError
    | InvalidRequest
    | InvalidUnitId
    | InvalidMbap
    | CrcError
    | TransportError
    | TimedOut
    | InvalidResponse
    | InvalidArgument
    | Exception(code: u8)
    | Fault

  const BUF_SIZE := 260
  const MAX_PDU := 253

  const ILLEGAL_FUNCTION: u8 := 1
  const ILLEGAL_DATA_ADDRESS: u8 := 2
  const ILLEGAL_DATA_VALUE: u8 := 3
  const SERVER_DEVICE_FAILURE: u8 := 4

  function HeaderSize(t: Transport): nat {
    if t.Tcp? then 8 else 2
  }

  /** The MBAP header: transaction id, protocol id zero, the number of bytes after the length field, unit. */
  function Mbap(tid: u16, length: u16, unit: u8): (s: seq<u8>)
    ensures |s| == 7
  {
    [tid / 0x100, tid % 0x100, 0, 0, length / 0x100, length % 0x100, unit]
  }

  /** What put_msg_header writes for dataLength bytes after the function code. */
  function HeaderBytes(t: Transport, tid: u16, unit: u8, fc: u8, dataLength: u16): (s: seq<u8>)
    ensures |s| == HeaderSize(t)
  {
    if t.Tcp? then Mbap(tid, (2 + dataLength) % 0x1_0000, unit) + [fc] else [unit, fc]
  }

  /** The frame send_msg hands to the transport when msg.buf holds s. */
  function Sealed(t: Transport, s: seq<u8>): seq<u8> {
    if t.Tcp? then s else s + Be16(Crc16(s))
  }

  /** The application data unit that carries a PDU, as the two standards draw it. */
  function Frame(t: Transport, tid: u16, unit: u8, pdu: seq<u8>): (s: seq<u8>)
    requires |pdu| <= MAX_PDU
    ensures |s| == |pdu| + (if t.Tcp? then 7 else 3) <= BUF_SIZE
  {
    if t.Tcp? then
      Mbap(tid, 1 + |pdu|, unit) + pdu
    else
      [unit] + pdu + Be16(Crc16([unit] + pdu))
  }

  lemma FrameIsSealed(t: Transport, tid: u16, unit: u8, pdu: seq<u8>)
    requires 1 <= |pdu| <= MAX_PDU
    ensures Frame(t, tid, unit, pdu) == Sealed(t, HeaderBytes(t, tid, unit, pdu[0], |pdu| - 1) + pdu[1..])
  {
    assert [unit] + pdu == [unit, pdu[0]] + pdu[1..];
  }

  /**
   The MBAP length field of a frame is the number of bytes that follow it; the ids and the function code are in
   place.
   */
  lemma FrameLength(tid: u16, unit: u8, pdu: seq<u8>)
    requires 1 <= |pdu| <= MAX_PDU
    ensures var f := Frame(Tcp, tid, unit, pdu);
      && WordAt(f, 4) == |f| - 6 && WordAt(f, 0) == tid && WordAt(f, 2) == 0
      && f[6] == unit && f[7..] == pdu && f[7] == pdu[0]
  {
    var f, m := Frame(Tcp, tid, unit, pdu), Mbap(tid, 1 + |pdu|, unit);
    assert f[..7] == m && f[7..] == pdu && f[7] == f[7..][0];
    assert forall i :: 0 <= i < 7 ==> f[..7][i] == f[i];
    assert f[0] == m[0] && f[1] == m[1] && f[2] == m[2] && f[3] == m[3] && f[4] == m[4] && f[5] == m[5] && f[6] == m[6];
  }

  //////////////////////////////////////////////////////////////////////////////
  // Reception
  //////////////////////////////////////////////////////////////////////////////

  /** The result of recv_msg_header on a stream. */
  function HeaderError(t: Transport, up: bool, s: seq<u8>): (e: Error)
    ensures e == TimedOut || e == NoError ==> up
  {
    if !up then TransportError
    else if |s| < HeaderSize(t) then TimedOut
    else if t.Rtu? then NoError
    else
      var length := WordAt(s, 4);
      if length < 2 || length > 255 then InvalidMbap
      else if 6 + length > BUF_SIZE then Fault
      else if |s| < 6 + length then TimedOut
      else if WordAt(s, 2) != 0 then InvalidMbap
      else NoError
  }

  /**
   The bytes the rest of the message is read from. RTU keeps reading the stream; on TCP the whole frame is in
   msg.buf, followed there by what earlier messages left behind.
   */
  function Received(t: Transport, stale: seq<u8>, s: seq<u8>): (v: seq<u8>)
    requires |stale| == BUF_SIZE && HeaderError(t, true, s) == NoError
    ensures |v| >= HeaderSize(t)
    ensures t.Tcp? ==> |v| == BUF_SIZE && v[..6 + WordAt(s, 4)] == s[..6 + WordAt(s, 4)]
  {
    if t.Rtu? then s else s[..6 + WordAt(s, 4)] + stale[6 + WordAt(s, 4)..]
  }

  /** The result of recv_msg_footer after upto bytes were taken from v and at bytes were received. */
  function FooterError(t: Transport, v: seq<u8>, upto: nat, at: nat): Error
    requires upto <= at
  {
    if t.Tcp? then NoError
    else if upto + 2 > BUF_SIZE then Fault
    else if |v| < at + 2 then TimedOut
    else if WordAt(v, at) != Crc16(v[..upto]) then CrcError
    else NoError
  }

  /** The registers in count bytes at p. */
  function RegsAt(v: seq<u8>, p: nat, count: u8): (regs: seq<u16>)
    requires p + count <= |v|
    ensures |regs| == count / 2
  {
    BytesToRegs(v[p..p + 2 * (count / 2)])
  }

  /** FooterError behind such registers: an odd byte has been received but is not covered by the checksum's start. */
  function RegsFooterError(t: Transport, v: seq<u8>, p: nat, count: u8): (e: Error)
    ensures e == NoError && t.Rtu? ==> p + count + 2 <= |v|
  {
    FooterError(t, v, p + 2 * (count / 2), p + count)
  }

  lemma EvenCount(t: Transport, v: seq<u8>, p: nat, count: u8)
    requires count % 2 == 0 && p + count <= |v|
    ensures RegsAt(v, p, count) == BytesToRegs(v[p..p + count])
    ensures RegsFooterError(t, v, p, count) == FooterError(t, v, p + count, p + count)
  {
    assert 2 * (count / 2) == count;
  }

  /** The message buffer once end bytes of v were received over stale contents. */
  function Memory(t: Transport, v: seq<u8>, stale: seq<u8>, end: nat): (m: seq<u8>)
    requires |stale| == BUF_SIZE && (t.Tcp? ==> |v| == BUF_SIZE) && (t.Rtu? ==> end <= |v| && end <= BUF_SIZE)
    ensures |m| == BUF_SIZE
  {
    if t.Tcp? then v else v[..end] + stale[end..]
  }

  /**
   An RTU message passes its footer exactly when the frame, taken as one number with 0xFFFF folded in, is a multiple of
   the generator polynomial 1 + X + X^14 + X^16.
   */
  lemma FooterIffMultiple(v: seq<u8>, at: nat)
    requires at + 2 <= BUF_SIZE && at + 2 <= |v|
    ensures FooterError(Rtu, v, at, at) == NoError <==>
      IsMultiple(Xor(0xFFFF, AsNumber(v[..at + 2])), 1 + 2 + 0x4000 + 0x1_0000, 8 * at + 16)
  {
    hide Xor, AsNumber, IsMultiple, Crc16, Be16, WordAt;
    WithFooter(v, at);
    AcceptedIffMultiple(v[..at], WordAt(v, at));
  }

  lemma WithFooter(v: seq<u8>, at: nat)
    requires at + 2 <= |v|
    ensures v[..at] + Be16(WordAt(v, at)) == v[..at + 2]
  {
    assert Be16(WordAt(v, at)) == [v[at], v[at + 1]];
  }

  /** Every RTU frame sent is such a multiple. */
  lemma FrameIsMultiple(unit: u8, pdu: seq<u8>)
    requires 1 <= |pdu| <= MAX_PDU
    ensures IsMultiple(Xor(0xFFFF, AsNumber(Frame(Rtu, 0, unit, pdu))), 1 + 2 + 0x4000 + 0x1_0000, 8 * |pdu| + 24)
  {
    hide Xor, AsNumber, IsMultiple, Crc16;
    AcceptedIffMultiple([unit] + pdu, Crc16([unit] + pdu));
  }

  /** A frame for pdu is accepted by the header and its PDU starts right before the end of the header. */
  lemma FrameReceived(t: Transport, tid: u16, unit: u8, pdu: seq<u8>, stale: seq<u8>, rest: seq<u8>)
    requires 1 <= |pdu| <= MAX_PDU && |stale| == BUF_SIZE
    ensures HeaderError(t, true, Frame(t, tid, unit, pdu) + rest) == NoError
    ensures Carries(t, Received(t, stale, Frame(t, tid, unit, pdu) + rest), tid, unit, pdu)
  {
    var n := |pdu|;
    var f := Frame(t, tid, unit, pdu);
    var s := f + rest;
    if t.Tcp? {
      var m := Mbap(tid, 1 + n, unit);
      assert f[..7] == m && f[7..] == pdu;
      assert s[..7 + n] == f;
      assert forall i :: 0 <= i < 7 ==> s[i] == m[i];
      var v := Received(t, stale, s);
      assert v[..7 + n] == f;
      assert v[7..7 + n] == f[7..];
    } else {
      var check := Be16(Crc16([unit] + pdu));
      assert s == [unit] + pdu + check + rest;
      assert s[..1 + n] == [unit] + pdu;
      assert s[1..1 + n] == pdu;
      assert s[1 + n] == check[0] && s[2 + n] == check[1];
    }
  }

  /**
   A received message that is exactly pdu, with the given transaction id (TCP) and unit, and a good checksum (RTU).
   */
  ghost predicate Carries(t: Transport, v: seq<u8>, tid: u16, unit: u8, pdu: seq<u8>)
    requires |v| >= HeaderSize(t)
  {
    var at := HeaderSize(t) - 1 + |pdu|;
    && at <= |v| && v[HeaderSize(t) - 1..at] == pdu
    && v[HeaderSize(t) - 2] == unit
    && (t.Tcp? ==> WordAt(v, 0) == tid)
    && FooterError(t, v, at, at) == NoError
  }
}
