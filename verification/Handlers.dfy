/** The request handlers of nanomodbus.c for the data functions, over the callbacks of modbus_port.c. */
module Handlers {
  import opened Bytes
  import opened Bitfield
  import opened Adu
  import opened Store
  import opened Protocol
  import opened NmbsCore
  import opened Responses

  function Sent(t: Transport, tid: u16, unit: u8, reply: Reply): seq<seq<u8>> {
    match reply
    case Silent => []
    case Send(pdu) => [Frame(t, tid, unit, pdu)]
    case Raw(bytes) => [Sealed(t, bytes)]
  }

  ghost predicate Ready(n: Nmbs, s: Server)
    reads n
  {
    n.Valid() && n.linkUp && s.Valid() && n.buf as object !in s.Repr()
  }

  /** The handler did what ans says: returned its error, sent its reply, left its store. */
  ghost predicate Answered(n: Nmbs, s: Server, was: seq<seq<u8>>, tid: u16, unit: u8, ans: Answer, err: Error)
    requires s.Valid()
    reads n`tx, s.Repr()
  {
    && err == ans.err
    && n.tx == was + Sent(n.transport, tid, unit, ans.reply)
    && (err != Fault ==> s.Contents() == ans.db)
  }

  //////////////////////////////////////////////////////////////////////////////
  // Serving a request that has been read
  //////////////////////////////////////////////////////////////////////////////

  /** A handler's branch for a callback that failed. */
  method SendCallbackError(n: Nmbs, s: Server, e: Error) returns (err: Error)
    requires Ready(n, s) && e != NoError
    modifies n`fc, n`bufIdx, n`tx, n.buf
    ensures n.Valid()
    ensures Answered(n, s, old(n.tx), n.transactionId, n.unitId, CallbackFailed(old(n.fc), e, old(s.Contents())), err)
  {
    if e == Fault {
      return Fault;
    }
    if e.Exception? && 0 < e.code < 5 {
      err := n.SendExceptionMsg(e.code);
    } else {
      err := n.SendExceptionMsg(SERVER_DEVICE_FAILURE);
    }
  }

  method ServeReadRegisters(n: Nmbs, s: Server, address: u16, quantity: u16) returns (err: Error)
    requires Ready(n, s) && (n.fc == 3 || n.fc == 4)
    modifies n`fc, n`bufIdx, n`tx, n.buf
    ensures n.Valid()
    ensures Answered(n, s, old(n.tx), n.transactionId, n.unitId,
      ExecuteReadRegs(old(s.Contents()), n.unitId, old(n.fc), n.broadcast, address, quantity), err)
  {
    hide Frame, RegsPdu, CallbackFailed;
    if quantity < 1 || quantity > 125 {
      err := n.SendExceptionMsg(ILLEGAL_DATA_VALUE);
      return;
    }
    if address + quantity > 0xFFFF + 1 {
      err := n.SendExceptionMsg(ILLEGAL_DATA_ADDRESS);
      return;
    }
    var regs := new u16[125];
    if n.fc == 3 {
      err := s.ReadHoldingRegisters(address, quantity, regs, n.unitId);
    } else {
      err := s.ReadInputRegisters(address, quantity, regs, n.unitId);
    }
    if err != NoError {
      err := SendCallbackError(n, s, err);
      return;
    }
    if !n.broadcast {
      err := SendRegisters(n, regs[..quantity]);
    }
  }

  /** The response both register-reading handlers build: a byte count and the registers. */
  method SendRegisters(n: Nmbs, regs: seq<u16>) returns (err: Error)
    requires n.Valid() && n.linkUp && 1 <= |regs| <= 125
    modifies n`bufIdx, n`tx, n.buf
    ensures n.Valid() && err == NoError
    ensures n.tx == old(n.tx) + [Frame(n.transport, n.transactionId, n.unitId, RegsPdu(n.fc, regs))]
  {
    hide HeaderBytes, Frame, RegsToBytes;
    var regsBytes: u8 := |regs| * 2;
    ghost var pdu := RegsPdu(n.fc, regs);
    n.PutMsgHeader(1 + regsBytes as int);
    n.Put1(regsBytes);
    n.PutRegs(regs);
    assert pdu[1..] == [regsBytes] + RegsToBytes(regs);
    err := n.SendPdu(pdu);
  }

  /** The response the write handlers build: two words of the request. */
  method SendEcho(n: Nmbs, a: u16, b: u16) returns (err: Error)
    requires n.Valid() && n.linkUp
    modifies n`bufIdx, n`tx, n.buf
    ensures n.Valid() && err == NoError
    ensures n.tx == old(n.tx) + [Frame(n.transport, n.transactionId, n.unitId, EchoPdu(n.fc, a, b))]
  {
    hide Frame, HeaderBytes;
    ghost var pdu := EchoPdu(n.fc, a, b);
    n.PutMsgHeader(4);
    n.Put2(a);
    n.Put2(b);
    assert pdu[1..] == Be16(a) + Be16(b);
    err := n.SendPdu(pdu);
  }

  /** hasCallback: modbus_port.c leaves read_discrete_inputs unset. */
  method ServeReadDiscrete(n: Nmbs, s: Server, hasCallback: bool, address: u16, quantity: u16) returns (err: Error)
    requires Ready(n, s) && hasCallback == (n.fc == 1)
    modifies n`fc, n`bufIdx, n`tx, n.buf
    ensures n.Valid()
    ensures Answered(n, s, old(n.tx), n.transactionId, n.unitId,
      ExecuteReadBits(old(s.Contents()), n.unitId, old(n.fc), n.broadcast, address, quantity), err)
  {
    hide Frame, BitsPdu, CallbackFailed, CoilsOut;
    if quantity < 1 || quantity > 2000 {
      err := n.SendExceptionMsg(ILLEGAL_DATA_VALUE);
      return;
    }
    if address + quantity > 0xFFFF + 1 {
      err := n.SendExceptionMsg(ILLEGAL_DATA_ADDRESS);
      return;
    }
    if !hasCallback {
      err := n.SendExceptionMsg(ILLEGAL_FUNCTION);
      return;
    }
    var bitfield := new u8[250];
    Reset(bitfield);
    err := s.ReadCoils(address, quantity, bitfield, n.unitId);
    if err != NoError {
      err := SendCallbackError(n, s, err);
      return;
    }
    if !n.broadcast {
      PackBitsOf(bitfield[..]);
      err := SendBits(n, bitfield[..(quantity + 7) / 8]);
    }
  }

  method SendBits(n: Nmbs, discrete: seq<u8>) returns (err: Error)
    requires n.Valid() && n.linkUp && 1 <= |discrete| <= 250
    modifies n`bufIdx, n`tx, n.buf
    ensures n.Valid() && err == NoError
    ensures n.tx == old(n.tx) + [Frame(n.transport, n.transactionId, n.unitId, BitsPdu(n.fc, discrete))]
  {
    hide HeaderBytes, Frame;
    var discreteBytes: u8 := |discrete|;
    ghost var pdu := BitsPdu(n.fc, discrete);
    n.PutMsgHeader(1 + discreteBytes as int);
    n.Put1(discreteBytes);
    n.PutN(discrete);
    assert pdu[1..] == [discreteBytes] + discrete;
    err := n.SendPdu(pdu);
  }

  method ServeWriteSingleCoil(n: Nmbs, s: Server, address: u16, value: u16) returns (err: Error)
    requires Ready(n, s)
    modifies n`fc, n`bufIdx, n`tx, n.buf, s.coils
    ensures n.Valid()
    ensures Answered(n, s, old(n.tx), n.transactionId, n.unitId,
      ExecuteWriteCoil(old(s.Contents()), n.unitId, old(n.fc), n.broadcast, address, value), err)
  {
    hide Frame, EchoPdu, CallbackFailed;
    if value != 0 && value != 0xFF00 {
      err := n.SendExceptionMsg(ILLEGAL_DATA_VALUE);
      return;
    }
    err := s.WriteSingleCoil(address, value != 0, n.unitId);
    if err != NoError {
      err := SendCallbackError(n, s, err);
      return;
    }
    if !n.broadcast {
      err := SendEcho(n, address, value);
    }
  }

  method ServeWriteSingleRegister(n: Nmbs, s: Server, address: u16, value: u16) returns (err: Error)
    requires Ready(n, s)
    modifies n`fc, n`bufIdx, n`tx, n.buf, s.regs
    ensures n.Valid()
    ensures Answered(n, s, old(n.tx), n.transactionId, n.unitId,
      ExecuteWriteReg(old(s.Contents()), n.unitId, old(n.fc), n.broadcast, address, value), err)
  {
    hide Frame, EchoPdu, CallbackFailed;
    err := s.WriteSingleRegister(address, value, n.unitId);
    if err != NoError {
      err := SendCallbackError(n, s, err);
      return;
    }
    if !n.broadcast {
      err := SendEcho(n, address, value);
    }
  }

  method ServeWriteMultipleCoils(n: Nmbs, s: Server, address: u16, quantity: u16, coilsBytes: u8, data: seq<u8>)
    returns (err: Error)
    requires Ready(n, s) && |data| == coilsBytes <= 246
    modifies n`fc, n`bufIdx, n`tx, n.buf, s.coils
    ensures n.Valid()
    ensures Answered(n, s, old(n.tx), n.transactionId, n.unitId,
      ExecuteWriteCoils(old(s.Contents()), n.unitId, old(n.fc), n.broadcast, address, quantity, data), err)
  {
    hide Frame, EchoPdu, CallbackFailed, Splice;
    if quantity < 1 || quantity > 0x07B0 {
      err := n.SendExceptionMsg(ILLEGAL_DATA_VALUE);
      return;
    }
    if address + quantity > 0xFFFF + 1 {
      err := n.SendExceptionMsg(ILLEGAL_DATA_ADDRESS);
      return;
    }
    if coilsBytes == 0 {
      err := n.SendExceptionMsg(ILLEGAL_DATA_VALUE);
      return;
    }
    if (quantity + 7) / 8 != coilsBytes {
      err := n.SendExceptionMsg(ILLEGAL_DATA_VALUE);
      return;
    }
    var coils := new u8[250](i => if 0 <= i < |data| then data[i] else 0);
    assert BitsOf(coils[..])[..quantity] == BitsOf(data)[..quantity];
    err := s.WriteMultipleCoils(address, quantity, coils, n.unitId);
    if err != NoError {
      err := SendCallbackError(n, s, err);
      return;
    }
    if !n.broadcast {
      err := SendEcho(n, address, quantity);
    }
  }

  method ServeWriteMultipleRegisters(n: Nmbs, s: Server, address: u16, quantity: u16, registersBytes: u8,
                                     data: seq<u16>) returns (err: Error)
    requires Ready(n, s) && |data| == registersBytes / 2 && registersBytes <= 246
    modifies n`fc, n`bufIdx, n`tx, n.buf, s.regs
    ensures n.Valid()
    ensures Answered(n, s, old(n.tx), n.transactionId, n.unitId,
      ExecuteWriteRegs(old(s.Contents()), n.unitId, old(n.fc), n.broadcast, address, quantity, registersBytes,
                       data), err)
  {
    hide Frame, EchoPdu, CallbackFailed, Splice;
    if quantity < 1 || quantity > 0x007B {
      err := n.SendExceptionMsg(ILLEGAL_DATA_VALUE);
      return;
    }
    if address + quantity > 0xFFFF + 1 {
      err := n.SendExceptionMsg(ILLEGAL_DATA_ADDRESS);
      return;
    }
    if registersBytes == 0 {
      err := n.SendExceptionMsg(ILLEGAL_DATA_VALUE);
      return;
    }
    if registersBytes != quantity * 2 {
      err := n.SendExceptionMsg(ILLEGAL_DATA_VALUE);
      return;
    }
    var registers := new u16[0x007B](i => if 0 <= i < |data| then data[i] else 0);
    assert registers[..quantity] == data;
    err := s.WriteMultipleRegisters(address, quantity, registers, n.unitId);
    if err != NoError {
      err := SendCallbackError(n, s, err);
      return;
    }
    if !n.broadcast {
      err := SendEcho(n, address, quantity);
    }
  }

  method ServeReadWriteRegisters(n: Nmbs, s: Server, readAddress: u16, readQuantity: u16, writeAddress: u16,
                                 writeQuantity: u16,
                                 byteCountWrite: u8, data: seq<u16>) returns (err: Error)
    requires Ready(n, s) && |data| == byteCountWrite / 2
    modifies n`fc, n`bufIdx, n`tx, n.buf, s.regs
    ensures n.Valid()
    ensures Answered(n, s, old(n.tx), n.transactionId, n.unitId,
      ExecuteReadWrite(old(s.Contents()), n.unitId, old(n.fc), n.broadcast, readAddress, readQuantity, writeAddress,
                       writeQuantity,
                       byteCountWrite, data), err)
  {
    hide Frame, RegsPdu, CallbackFailed, Splice;
    if readQuantity < 1 || readQuantity > 0x007D {
      err := n.SendExceptionMsg(ILLEGAL_DATA_VALUE);
      return;
    }
    if writeQuantity < 1 || writeQuantity > 0x007B {
      err := n.SendExceptionMsg(ILLEGAL_DATA_VALUE);
      return;
    }
    if byteCountWrite != writeQuantity * 2 {
      err := n.SendExceptionMsg(ILLEGAL_DATA_VALUE);
      return;
    }
    if readAddress + readQuantity > 0xFFFF + 1 {
      err := n.SendExceptionMsg(ILLEGAL_DATA_ADDRESS);
      return;
    }
    if writeAddress + writeQuantity > 0xFFFF + 1 {
      err := n.SendExceptionMsg(ILLEGAL_DATA_ADDRESS);
      return;
    }
    var registers := new u16[|data|](i requires 0 <= i < |data| => data[i]);
    assert registers[..writeQuantity] == data;
    err := s.WriteMultipleRegisters(writeAddress, writeQuantity, registers, n.unitId);
    if err != NoError {
      err := SendCallbackError(n, s, err);
      return;
    }
    if !n.broadcast {
      err := ReadBack(n, s, readAddress, readQuantity);
    }
  }

  /** The read half of function 23, on the store the write half left. */
  method ReadBack(n: Nmbs, s: Server, address: u16, quantity: u16) returns (err: Error)
    requires Ready(n, s) && 1 <= quantity <= 125
    modifies n`fc, n`bufIdx, n`tx, n.buf
    ensures n.Valid()
    ensures
      var db := old(s.Contents());
      var e := RegisterError(s.id, n.unitId, address, quantity);
      Answered(n, s, old(n.tx), n.transactionId, n.unitId,
        if e != NoError then CallbackFailed(old(n.fc), e, db)
        else Succeed(false, RegsPdu(old(n.fc), db.regs[address..address + quantity]), db), err)
  {
    hide Frame, RegsPdu, CallbackFailed;
    var regs := new u16[quantity];
    err := s.ReadHoldingRegisters(address, quantity, regs, n.unitId);
    if err != NoError {
      err := SendCallbackError(n, s, err);
      return;
    }
    err := SendRegisters(n, regs[..quantity]);
  }
}
