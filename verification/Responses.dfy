/**
 How responses are received: the recv_*_res functions, used by the client and by a server that skips another unit's
 traffic.
 */
module Responses {
  import opened Bytes
  import opened Adu
  import opened NmbsCore

  //////////////////////////////////////////////////////////////////////////////
  // Results as functions of the received stream
  //////////////////////////////////////////////////////////////////////////////

  /** recv_res_header on a message v, for a request with the given transaction id, unit and function code. */
  function ResHeaderError(t: Transport, v: seq<u8>, tid: u16, unit: u8, fc: u8): Error
    requires |v| >= HeaderSize(t) && (t.Tcp? ==> |v| == BUF_SIZE)
  {
    var h := HeaderSize(t);
    if t.Tcp? && WordAt(v, 0) != tid then InvalidMbap
    else if t.Rtu? && v[0] != unit then InvalidUnitId
    else if v[h - 1] == fc then NoError
    else if v[h - 1] as int - 0x80 != fc then InvalidResponse
    else if |v| < h + 1 then TimedOut
    else
      var e := FooterError(t, v, h + 1, h + 1);
      if e != NoError then e
      else if v[h] < 1 || v[h] > 4 then InvalidResponse
      else Exception(v[h])
  }

  /** recv_read_discrete_res after its header. */
  function BitsResError(t: Transport, v: seq<u8>): Error
    requires |v| >= HeaderSize(t) && (t.Tcp? ==> |v| == BUF_SIZE)
  {
    var h := HeaderSize(t);
    if |v| < h + 1 then TimedOut
    else if v[h] > 250 then InvalidResponse
    else if |v| < h + 1 + v[h] then TimedOut
    else FooterError(t, v, h + 1 + v[h], h + 1 + v[h])
  }

  /** recv_read_registers_res after its header. */
  function RegsResError(t: Transport, v: seq<u8>, quantity: u16): Error
    requires |v| >= HeaderSize(t) && (t.Tcp? ==> |v| == BUF_SIZE)
  {
    var h := HeaderSize(t);
    if |v| < h + 1 then TimedOut
    else if v[h] > 250 then InvalidResponse
    else if |v| < h + 1 + v[h] then TimedOut
    else
      var e := RegsFooterError(t, v, h + 1, v[h]);
      if e != NoError then e else if v[h] != quantity * 2 then InvalidResponse else NoError
  }

  /** The four write acknowledgements after their header: both words must come back. */
  function EchoResError(t: Transport, v: seq<u8>, a: u16, b: u16): Error
    requires |v| >= HeaderSize(t) && (t.Tcp? ==> |v| == BUF_SIZE)
  {
    var h := HeaderSize(t);
    if |v| < h + 4 then TimedOut
    else
      var e := FooterError(t, v, h + 4, h + 4);
      if e != NoError then e
      else if WordAt(v, h) != a || WordAt(v, h + 2) != b then InvalidResponse
      else NoError
  }

  /** The error of a whole reception: first the frame header, then the response header, then the body. */
  function ReceptionError(t: Transport, up: bool, stale: seq<u8>, stream: seq<u8>, tid: u16, unit: u8, fc: u8): Error
    requires |stale| == BUF_SIZE
  {
    var e := HeaderError(t, up, stream);
    if e != NoError then e
    else ResHeaderError(t, Received(t, stale, stream), tid, unit, fc)
  }

  //////////////////////////////////////////////////////////////////////////////
  // The methods
  //////////////////////////////////////////////////////////////////////////////

  ghost predicate AfterHeader(n: Nmbs)
    reads n
  {
    n.Receiving() && n.bufIdx == HeaderSize(n.transport) && (n.transport.Rtu? ==> n.fill == n.bufIdx)
  }

  /** On RTU nothing behind the cursor has been received. */
  ghost predicate UpToCursor(n: Nmbs)
    reads n
  {
    n.Receiving() && (n.transport.Rtu? ==> n.fill == n.bufIdx)
  }

  /** recv_msg_footer behind a message taken whole. */
  method RecvEnd(n: Nmbs) returns (err: Error)
    requires UpToCursor(n)
    modifies n`bufIdx, n`fill, n`rx, n.buf
    ensures |n.rx| <= |old(n.rx)|
    ensures n.Valid()
    ensures var v, end := old(n.View()), old(n.bufIdx);
      && err == FooterError(n.transport, v, end, end)
      && (err == NoError && n.transport.Rtu? ==> end + 2 <= |v| && n.rx == v[end + 2..])
  {
    err := n.RecvMsgFooter();
  }

  method RecvResHeader(n: Nmbs) returns (err: Error)
    requires n.Valid()
    modifies n, n.buf
    ensures |n.rx| <= |old(n.rx)|
    ensures unchanged(n`tx, n`linkUp, n`currentTid, n`destAddressRtu)
    ensures n.Valid()
    ensures err == ReceptionError(n.transport, n.linkUp, old(n.buf[..]), old(n.rx), old(n.transactionId), old(n.unitId),
                                  old(n.fc))
    ensures err == NoError ==> n.HeaderRead(old(n.buf[..]), old(n.rx))
  {
    var reqTransactionId, reqUnitId, reqFc := n.transactionId, n.unitId, n.fc;
    var firstByteReceived: bool;
    err, firstByteReceived := n.RecvMsgHeader();
    if err != NoError {
      return;
    }
    if n.transport == Tcp && n.transactionId != reqTransactionId {
      return InvalidMbap;
    }
    if n.transport == Rtu && n.unitId != reqUnitId {
      return InvalidUnitId;
    }
    if n.fc != reqFc {
      if n.fc - 0x80 == reqFc {
        err := RecvException(n);
      } else {
        err := InvalidResponse;
      }
    }
  }

  /** The exception branch of recv_res_header. */
  method RecvException(n: Nmbs) returns (err: Error)
    requires AfterHeader(n)
    modifies n`bufIdx, n`fill, n`rx, n.buf
    ensures |n.rx| <= |old(n.rx)|
    ensures n.Valid()
    ensures var v, h := old(n.View()), old(n.bufIdx);
      err == if |v| < h + 1 then TimedOut
             else if FooterError(n.transport, v, h + 1, h + 1) != NoError then FooterError(n.transport, v, h + 1, h + 1)
             else if v[h] < 1 || v[h] > 4 then InvalidResponse
             else Exception(v[h])
  {
    ghost var v := n.View();
    err := n.Recv(1);
    if err != NoError {
      return;
    }
    assert n.View() == v;
    var exception := n.Get1();
    assert n.View() == v;
    err := n.RecvMsgFooter();
    if err != NoError {
      return;
    }
    if exception < 1 || exception > 4 {
      return InvalidResponse;
    }
    return Exception(exception);
  }

  /** recv_read_discrete_res: the data bytes, when there is no error. */
  method RecvReadDiscreteRes(n: Nmbs) returns (err: Error, values: seq<u8>)
    requires n.Valid()
    modifies n, n.buf
    ensures |n.rx| <= |old(n.rx)|
    ensures unchanged(n`tx, n`linkUp, n`currentTid, n`destAddressRtu)
    ensures n.Valid()
    ensures
      var e := ReceptionError(n.transport, n.linkUp, old(n.buf[..]), old(n.rx), old(n.transactionId), old(n.unitId),
                              old(n.fc));
      if e != NoError then err == e else
      var v, h := Received(n.transport, old(n.buf[..]), old(n.rx)), HeaderSize(n.transport);
      && err == BitsResError(n.transport, v)
      && (err == NoError ==> h + 1 + v[h] <= |v| && values == v[h + 1..h + 1 + v[h]])
      && (err == NoError && n.transport.Rtu? ==> h + 3 + v[h] <= |v| && n.rx == v[h + 3 + v[h]..])
  {
    values := [];
    err := RecvResHeader(n);
    if err == NoError {
      err, values := RecvDiscreteBody(n);
    }
  }

  /** A byte count and the bytes it announces. */
  method RecvCounted(n: Nmbs, limit: u8) returns (err: Error, count: u8)
    requires AfterHeader(n) && limit <= 251
    modifies n`fill, n`rx, n`bufIdx, n.buf
    ensures |n.rx| <= |old(n.rx)|
    ensures n.Valid()
    ensures
      var v, h := old(n.View()), old(n.bufIdx);
      && err == (if |v| < h + 1 then TimedOut
                 else if v[h] > limit then InvalidResponse
                 else if |v| < h + 1 + v[h] then TimedOut
                 else NoError)
      && (err == NoError ==>
            && n.Receiving() && n.View() == v && n.bufIdx == h + 1 && count == v[h] && h + 1 + count <= n.fill
            && (n.transport.Rtu? ==> n.fill == h + 1 + count && n.rx == v[h + 1 + count..])
            && n.buf[n.fill..] == old(n.buf[..])[n.fill..])
  {
    count := 0;
    ghost var v := n.View();
    err := n.Recv(1);
    if err != NoError {
      return;
    }
    assert n.View() == v;
    ghost var stale, mid := old(n.buf[..]), n.buf[..];
    assert mid[n.fill..] == stale[n.fill..];
    count := n.Get1();
    if count > limit {
      return InvalidResponse, count;
    }
    ghost var end := n.bufIdx + count;
    assert end <= BUF_SIZE ==> mid[end..] == stale[end..];
    err := n.Recv(count);
    assert err == NoError ==> n.buf[n.fill..] == mid[n.fill..];
  }

  /** Registers that have been received, and the end of the message. An odd count leaves a byte behind. */
  method TakeRegisters(n: Nmbs, count: u8) returns (err: Error, registers: seq<u16>)
    requires n.Receiving() && n.bufIdx + count <= n.fill && (n.transport.Rtu? ==> n.fill == n.bufIdx + count)
    modifies n`fill, n`rx, n`bufIdx, n.buf
    ensures |n.rx| <= |old(n.rx)|
    ensures n.Valid() && |registers| == count / 2
    ensures
      var v, p := old(n.View()), old(n.bufIdx);
      && err == RegsFooterError(n.transport, v, p, count)
      && registers == RegsAt(v, p, count)
      && (err == NoError && n.transport.Rtu? ==> p + count + 2 <= |v| && n.rx == v[p + count + 2..])
  {
    registers := n.GetRegs(count / 2);
    err := n.RecvMsgFooter();
  }

  method RecvDiscreteBody(n: Nmbs) returns (err: Error, values: seq<u8>)
    requires AfterHeader(n)
    modifies n`fill, n`rx, n`bufIdx, n.buf
    ensures |n.rx| <= |old(n.rx)|
    ensures n.Valid()
    ensures err == BitsResError(n.transport, old(n.View()))
    ensures err == NoError ==>
      var v, h := old(n.View()), old(n.bufIdx);
      && h + 1 + v[h] <= |v| && values == v[h + 1..h + 1 + v[h]]
      && (n.transport.Rtu? ==> h + 3 + v[h] <= |v| && n.rx == v[h + 3 + v[h]..])
  {
    values := [];
    var coilsBytes;
    err, coilsBytes := RecvCounted(n, 250);
    if err != NoError {
      return;
    }
    values := n.GetBytes(coilsBytes);
    err := n.RecvMsgFooter();
  }

  /** recv_read_registers_res: the registers, when there is no error. */
  method RecvReadRegistersRes(n: Nmbs, quantity: u16) returns (err: Error, registers: seq<u16>)
    requires n.Valid()
    modifies n, n.buf
    ensures |n.rx| <= |old(n.rx)|
    ensures unchanged(n`tx, n`linkUp, n`currentTid, n`destAddressRtu)
    ensures n.Valid()
    ensures
      var e := ReceptionError(n.transport, n.linkUp, old(n.buf[..]), old(n.rx), old(n.transactionId), old(n.unitId),
                              old(n.fc));
      if e != NoError then err == e else
      var v, h := Received(n.transport, old(n.buf[..]), old(n.rx)), HeaderSize(n.transport);
      && err == RegsResError(n.transport, v, quantity)
      && (err == NoError ==> h + 1 + v[h] <= |v| && registers == BytesToRegs(v[h + 1..h + 1 + v[h]]))
      && (err == NoError && n.transport.Rtu? ==> h + 3 + v[h] <= |v| && n.rx == v[h + 3 + v[h]..])
  {
    registers := [];
    err := RecvResHeader(n);
    if err == NoError {
      err, registers := RecvRegistersBody(n, quantity);
    }
  }

  method RecvRegistersBody(n: Nmbs, quantity: u16) returns (err: Error, registers: seq<u16>)
    requires AfterHeader(n)
    modifies n`fill, n`rx, n`bufIdx, n.buf
    ensures |n.rx| <= |old(n.rx)|
    ensures n.Valid()
    ensures err == RegsResError(n.transport, old(n.View()), quantity)
    ensures err == NoError ==>
      var v, h := old(n.View()), old(n.bufIdx);
      && h + 1 + v[h] <= |v| && registers == BytesToRegs(v[h + 1..h + 1 + v[h]])
      && (n.transport.Rtu? ==> h + 3 + v[h] <= |v| && n.rx == v[h + 3 + v[h]..])
  {
    hide RegsAt, RegsFooterError, FooterError, BytesToRegs;
    ghost var v, h := n.View(), n.bufIdx;
    registers := [];
    var registersBytes;
    err, registersBytes := RecvCounted(n, 250);
    if err != NoError {
      return;
    }
    err, registers := TakeRegisters(n, registersBytes);
    if err == NoError {
      if registersBytes != quantity * 2 {
        return InvalidResponse, registers;
      }
      EvenCount(n.transport, v, h + 1, registersBytes);
    }
  }

  /**
   recv_write_single_coil_res, recv_write_single_register_res, recv_write_multiple_coils_res and
   recv_write_multiple_registers_res, which differ only in the names of the two words they compare.
   */
  method RecvEchoRes(n: Nmbs, a: u16, b: u16) returns (err: Error)
    requires n.Valid()
    modifies n, n.buf
    ensures |n.rx| <= |old(n.rx)|
    ensures unchanged(n`tx, n`linkUp, n`currentTid, n`destAddressRtu)
    ensures n.Valid()
    ensures
      var e := ReceptionError(n.transport, n.linkUp, old(n.buf[..]), old(n.rx), old(n.transactionId), old(n.unitId),
                              old(n.fc));
      if e != NoError then err == e else
      && err == EchoResError(n.transport, Received(n.transport, old(n.buf[..]), old(n.rx)), a, b)
      && (err == NoError && n.transport.Rtu? ==> 8 <= |old(n.rx)| && n.rx == old(n.rx)[8..])
  {
    err := RecvResHeader(n);
    if err != NoError {
      return;
    }
    var aRes, bRes;
    err, aRes, bRes := RecvTwoWords(n);
    if err == NoError && (aRes != a || bRes != b) {
      err := InvalidResponse;
    }
  }

  /** Two words and the end of the message, as six requests and four responses have them. */
  method RecvTwoWords(n: Nmbs) returns (err: Error, a: u16, b: u16)
    requires AfterHeader(n)
    modifies n`fill, n`rx, n`bufIdx, n.buf
    ensures |n.rx| <= |old(n.rx)|
    ensures n.Valid()
    ensures
      var v, h := old(n.View()), old(n.bufIdx);
      if |v| < h + 4 then err == TimedOut else
      && err == FooterError(n.transport, v, h + 4, h + 4)
      && (err == NoError ==> a == WordAt(v, h) && b == WordAt(v, h + 2))
      && (err == NoError && n.transport.Rtu? ==> h + 6 <= |v| && n.rx == v[h + 6..])
  {
    a, b := 0, 0;
    ghost var v := n.View();
    err := n.Recv(4);
    if err != NoError {
      return;
    }
    assert n.View() == v;
    a := n.Get2();
    b := n.Get2();
    err := n.RecvMsgFooter();
  }
}
