/** The request halves of the typed client calls: argument checks, message state, the frame that is sent. */
module Client {
  import opened Bytes
  import opened Adu
  import opened Protocol
  import opened NmbsCore
  import opened Files

  predicate QuantityOk(address: u16, quantity: u16, limit: u16) {
    1 <= quantity <= limit && InRange(address, quantity)
  }

  /** The data requests a typed call can put on the wire. */
  predicate Sendable(fc: u8, req: Request) {
    && Announces(fc, req)
    && match req
       case ReadBits(a, q) => QuantityOk(a, q, 2000)
       case ReadRegs(a, q) => QuantityOk(a, q, 125)
       case WriteCoil(_, v) => v == 0 || v == 0xFF00
       case WriteReg(_, _) => true
       case WriteCoils(a, q, data) => QuantityOk(a, q, 0x07B0) && |data| == (q + 7) / 8
       case WriteRegs(a, q, n, regs) => QuantityOk(a, q, 0x007B) && |regs| == q as int && n == 2 * q
       case ReadWriteRegs(ra, rq, wa, wq, n, regs) =>
         QuantityOk(ra, rq, 0x007D) && QuantityOk(wa, wq, 0x0079) && |regs| == wq as int && n == 2 * wq
  }

  /** The data requests that fit in a PDU with a byte count that fits their data. */
  predicate Encodable(fc: u8, req: Request) {
    && Announces(fc, req)
    && match req
       case WriteCoils(_, _, data) => |data| <= 246
       case WriteRegs(_, _, n, regs) => n as int == 2 * |regs| && |regs| <= 123
       case ReadWriteRegs(_, _, _, _, n, regs) => n as int == 2 * |regs| && |regs| <= 121
       case _ => true
  }

  function RequestPdu(fc: u8, req: Request): (pdu: Pdu)
    requires Encodable(fc, req)
    ensures pdu[0] == fc
  {
    [fc] + RequestBody(req)
  }

  /** The state after the request half of a call: one frame sent, its ids remembered for the response. */
  ghost predicate Requested(n: Nmbs, was: seq<seq<u8>>, tid: u16, rx: seq<u8>, fc: u8, pdu: Pdu, err: Error)
    reads n
  {
    && n.Valid()
    && n.currentTid == NextTid(tid) == n.transactionId && n.unitId == n.destAddressRtu && n.fc == fc
    && n.broadcast == (n.unitId == 0 && n.transport.Rtu?)
    && n.tx == was + [Frame(n.transport, n.transactionId, n.unitId, pdu)]
    && err == (if n.linkUp then NoError else TransportError)
    && n.rx == (if !n.linkUp then rx else if |rx| <= BUF_SIZE then [] else rx[BUF_SIZE..])
  }

  /** A call that was rejected before anything was sent. */
  ghost predicate Rejected(n: Nmbs, was: seq<seq<u8>>, tid: u16, err: Error)
    reads n
  {
    err == InvalidArgument && n.tx == was && n.currentTid == tid
  }

  /** Two words behind a fresh header: the whole request of functions 1 to 6. */
  method SendTwoWords(n: Nmbs, fc: u8, a: u16, b: u16) returns (err: Error)
    requires n.Valid()
    modifies n, n.buf
    ensures unchanged(n`destAddressRtu, n`linkUp)
    ensures Requested(n, old(n.tx), old(n.currentTid), old(n.rx), fc, [fc] + Be16(a) + Be16(b), err)
  {
    n.MsgStateReq(fc);
    n.PutMsgHeader(4);
    n.Put2(a);
    n.Put2(b);
    ghost var pdu: Pdu := [fc] + Be16(a) + Be16(b);
    assert pdu[1..] == Be16(a) + Be16(b);
    err := n.SendPdu(pdu);
  }

  method ReadDiscrete(n: Nmbs, fc: u8, address: u16, quantity: u16) returns (err: Error)
    requires n.Valid() && 1 <= fc <= 2
    modifies n, n.buf
    ensures n.Valid() && unchanged(n`destAddressRtu, n`linkUp)
    ensures Sendable(fc, ReadBits(address, quantity)) ==>
      Requested(n, old(n.tx), old(n.currentTid), old(n.rx), fc, RequestPdu(fc, ReadBits(address, quantity)), err)
    ensures !Sendable(fc, ReadBits(address, quantity)) ==> Rejected(n, old(n.tx), old(n.currentTid), err)
  {
    if quantity < 1 || quantity > 2000 {
      return InvalidArgument;
    }
    if address + quantity > 0xFFFF + 1 {
      return InvalidArgument;
    }
    assert [fc] + (Be16(address) + Be16(quantity)) == [fc] + Be16(address) + Be16(quantity);
    err := SendTwoWords(n, fc, address, quantity);
  }

  method ReadRegisters(n: Nmbs, fc: u8, address: u16, quantity: u16) returns (err: Error)
    requires n.Valid() && 3 <= fc <= 4
    modifies n, n.buf
    ensures n.Valid() && unchanged(n`destAddressRtu, n`linkUp)
    ensures Sendable(fc, ReadRegs(address, quantity)) ==>
      Requested(n, old(n.tx), old(n.currentTid), old(n.rx), fc, RequestPdu(fc, ReadRegs(address, quantity)), err)
    ensures !Sendable(fc, ReadRegs(address, quantity)) ==> Rejected(n, old(n.tx), old(n.currentTid), err)
  {
    if quantity < 1 || quantity > 125 {
      return InvalidArgument;
    }
    if address + quantity > 0xFFFF + 1 {
      return InvalidArgument;
    }
    assert [fc] + (Be16(address) + Be16(quantity)) == [fc] + Be16(address) + Be16(quantity);
    err := SendTwoWords(n, fc, address, quantity);
  }

  method WriteSingleCoil(n: Nmbs, address: u16, value: bool) returns (err: Error, valueReq: u16)
    requires n.Valid()
    modifies n, n.buf
    ensures n.Valid() && unchanged(n`destAddressRtu, n`linkUp)
    ensures valueReq == (if value then 0xFF00 else 0)
    ensures Requested(n, old(n.tx), old(n.currentTid), old(n.rx), 5, RequestPdu(5, WriteCoil(address, valueReq)), err)
  {
    valueReq := if value then 0xFF00 else 0;
    assert [5] + (Be16(address) + Be16(valueReq)) == [5] + Be16(address) + Be16(valueReq);
    err := SendTwoWords(n, 5, address, valueReq);
  }

  method WriteSingleRegister(n: Nmbs, address: u16, value: u16) returns (err: Error)
    requires n.Valid()
    modifies n, n.buf
    ensures n.Valid() && unchanged(n`destAddressRtu, n`linkUp)
    ensures Requested(n, old(n.tx), old(n.currentTid), old(n.rx), 6, RequestPdu(6, WriteReg(address, value)), err)
  {
    assert [6] + (Be16(address) + Be16(value)) == [6] + Be16(address) + Be16(value);
    err := SendTwoWords(n, 6, address, value);
  }

  /** Header, address, quantity and byte count of functions 15 and 16. */
  method PutWriteHead(n: Nmbs, address: u16, quantity: u16, count: u8)
    requires n.Valid()
    modifies n`bufIdx, n.buf
    ensures n.Valid() && n.bufIdx == HeaderSize(n.transport) + 5
    ensures n.buf[..n.bufIdx] == HeaderBytes(n.transport, n.transactionId, n.unitId, n.fc,
                                             5 + count as int) + (Be16(address) + Be16(quantity) + [count])
  {
    n.PutMsgHeader(5 + count as int);
    n.Put2(address);
    n.Put2(quantity);
    n.Put1(count);
  }

  method PutWriteRegs(n: Nmbs, address: u16, quantity: u16, count: u8, data: seq<u16>)
    requires n.Valid() && count as int == 2 * |data| && |data| <= 123
    modifies n`bufIdx, n.buf
    ensures n.Valid()
    ensures n.buf[..n.bufIdx] == HeaderBytes(n.transport, n.transactionId, n.unitId, n.fc, 5 + count as int)
                                 + (Be16(address) + Be16(quantity) + [count] + RegsToBytes(data))
  {
    PutWriteHead(n, address, quantity, count);
    n.PutRegs(data);
  }

  method PutReadWrite(n: Nmbs, readAddress: u16, readQuantity: u16, writeAddress: u16, writeQuantity: u16, count: u8,
                      data: seq<u16>)
    requires n.Valid() && count as int == 2 * |data| && |data| <= 121
    modifies n`bufIdx, n.buf
    ensures n.Valid()
    ensures n.buf[..n.bufIdx] == HeaderBytes(n.transport, n.transactionId, n.unitId, n.fc, 9 + count as int)
                                 + (Be16(readAddress) + Be16(readQuantity) + Be16(writeAddress) + Be16(writeQuantity)
                                    + [count] + RegsToBytes(data))
  {
    PutReadWriteHead(n, readAddress, readQuantity, writeAddress, writeQuantity, count);
    n.PutRegs(data);
  }

  /** Header, both ranges and byte count of function 23. */
  method PutReadWriteHead(n: Nmbs, readAddress: u16, readQuantity: u16, writeAddress: u16, writeQuantity: u16,
                          count: u8)
    requires n.Valid()
    modifies n`bufIdx, n.buf
    ensures n.Valid() && n.bufIdx == HeaderSize(n.transport) + 9
    ensures n.buf[..n.bufIdx] == HeaderBytes(n.transport, n.transactionId, n.unitId, n.fc, 9 + count as int)
                                 + (Be16(readAddress) + Be16(readQuantity) + Be16(writeAddress) + Be16(writeQuantity)
                                    + [count])
  {
    n.PutMsgHeader(9 + count as int);
    n.Put2(readAddress);
    n.Put2(readQuantity);
    n.Put2(writeAddress);
    n.Put2(writeQuantity);
    n.Put1(count);
  }

  /** coils is an nmbs_bitfield of 250 bytes. */
  method WriteMultipleCoils(n: Nmbs, address: u16, quantity: u16, coils: seq<u8>) returns (err: Error)
    requires n.Valid() && |coils| == 250
    modifies n, n.buf
    ensures n.Valid() && unchanged(n`destAddressRtu, n`linkUp)
    ensures QuantityOk(address, quantity, 0x07B0) ==>
      Requested(n, old(n.tx), old(n.currentTid), old(n.rx), 15,
                RequestPdu(15, WriteCoils(address, quantity, coils[..(quantity + 7) / 8])), err)
    ensures !QuantityOk(address, quantity, 0x07B0) ==> Rejected(n, old(n.tx), old(n.currentTid), err)
  {
    if quantity < 1 || quantity > 0x07B0 {
      return InvalidArgument;
    }
    if address + quantity > 0xFFFF + 1 {
      return InvalidArgument;
    }
    err := SendWriteCoils(n, address, quantity, coils);
  }

  method SendWriteCoils(n: Nmbs, address: u16, quantity: u16, coils: seq<u8>) returns (err: Error)
    requires n.Valid() && |coils| == 250 && QuantityOk(address, quantity, 0x07B0)
    modifies n, n.buf
    ensures unchanged(n`destAddressRtu, n`linkUp)
    ensures Requested(n, old(n.tx), old(n.currentTid), old(n.rx), 15,
                      RequestPdu(15, WriteCoils(address, quantity, coils[..(quantity + 7) / 8])), err)
  {
    var coilsBytes: u8 := (quantity + 7) / 8;
    hide HeaderBytes, Frame;
    var data := coils[..coilsBytes];
    ghost var pdu := RequestPdu(15, WriteCoils(address, quantity, data));
    assert pdu[0] == 15 && pdu[1..] == Be16(address) + Be16(quantity) + [coilsBytes] + data;
    hide RequestPdu;
    n.MsgStateReq(15);
    PutWriteCoils(n, address, quantity, coilsBytes, data);
    err := n.SendPdu(pdu);
  }

  method PutWriteCoils(n: Nmbs, address: u16, quantity: u16, count: u8, data: seq<u8>)
    requires n.Valid() && count as int == |data| && |data| <= 246
    modifies n`bufIdx, n.buf
    ensures n.Valid()
    ensures n.buf[..n.bufIdx] == HeaderBytes(n.transport, n.transactionId, n.unitId, n.fc, 5 + count as int)
                                 + (Be16(address) + Be16(quantity) + [count] + data)
  {
    PutWriteHead(n, address, quantity, count);
    n.PutN(data);
  }

  method WriteMultipleRegisters(n: Nmbs, address: u16, quantity: u16, registers: seq<u16>) returns (err: Error)
    requires n.Valid() && quantity as int <= |registers|
    modifies n, n.buf
    ensures n.Valid() && unchanged(n`destAddressRtu, n`linkUp)
    ensures QuantityOk(address, quantity, 0x007B) ==>
      Requested(n, old(n.tx), old(n.currentTid), old(n.rx), 16,
                RequestPdu(16, WriteRegs(address, quantity, 2 * quantity, registers[..quantity])), err)
    ensures !QuantityOk(address, quantity, 0x007B) ==> Rejected(n, old(n.tx), old(n.currentTid), err)
  {
    if quantity < 1 || quantity > 0x007B {
      return InvalidArgument;
    }
    if address + quantity > 0xFFFF + 1 {
      return InvalidArgument;
    }
    err := SendWriteRegisters(n, address, quantity, registers);
  }

  method SendWriteRegisters(n: Nmbs, address: u16, quantity: u16, registers: seq<u16>) returns (err: Error)
    requires n.Valid() && quantity as int <= |registers| && QuantityOk(address, quantity, 0x007B)
    modifies n, n.buf
    ensures unchanged(n`destAddressRtu, n`linkUp)
    ensures Requested(n, old(n.tx), old(n.currentTid), old(n.rx), 16,
                      RequestPdu(16, WriteRegs(address, quantity, 2 * quantity, registers[..quantity])), err)
  {
    hide HeaderBytes, Frame, RegsToBytes;
    var registersBytes: u8 := quantity * 2;
    var data := registers[..quantity];
    ghost var pdu := RequestPdu(16, WriteRegs(address, quantity, registersBytes, data));
    assert pdu[0] == 16 && pdu[1..] == Be16(address) + Be16(quantity) + [registersBytes] + RegsToBytes(data);
    hide RequestPdu;
    n.MsgStateReq(16);
    PutWriteRegs(n, address, quantity, registersBytes, data);
    err := n.SendPdu(pdu);
  }

  method ReadWriteRegisters(n: Nmbs, readAddress: u16, readQuantity: u16, writeAddress: u16, writeQuantity: u16,
                            registers: seq<u16>) returns (err: Error)
    requires n.Valid() && writeQuantity as int <= |registers|
    modifies n, n.buf
    ensures n.Valid() && unchanged(n`destAddressRtu, n`linkUp)
    ensures QuantityOk(readAddress, readQuantity, 0x007D) && QuantityOk(writeAddress, writeQuantity, 0x0079) ==>
      Requested(n, old(n.tx), old(n.currentTid), old(n.rx), 23,
        RequestPdu(23, ReadWriteRegs(readAddress, readQuantity, writeAddress, writeQuantity, 2 * writeQuantity,
                                     registers[..writeQuantity])), err)
    ensures !(QuantityOk(readAddress, readQuantity, 0x007D) && QuantityOk(writeAddress, writeQuantity, 0x0079)) ==>
      Rejected(n, old(n.tx), old(n.currentTid), err)
  {
    if readQuantity < 1 || readQuantity > 0x007D {
      return InvalidArgument;
    }
    if readAddress + readQuantity > 0xFFFF + 1 {
      return InvalidArgument;
    }
    if writeQuantity < 1 || writeQuantity > 0x0079 {
      return InvalidArgument;
    }
    if writeAddress + writeQuantity > 0xFFFF + 1 {
      return InvalidArgument;
    }
    err := SendReadWrite(n, readAddress, readQuantity, writeAddress, writeQuantity, registers);
  }

  method SendReadWrite(n: Nmbs, readAddress: u16, readQuantity: u16, writeAddress: u16, writeQuantity: u16,
                       registers: seq<u16>) returns (err: Error)
    requires n.Valid() && writeQuantity as int <= |registers|
    requires QuantityOk(readAddress, readQuantity, 0x007D) && QuantityOk(writeAddress, writeQuantity, 0x0079)
    modifies n, n.buf
    ensures unchanged(n`destAddressRtu, n`linkUp)
    ensures Requested(n, old(n.tx), old(n.currentTid), old(n.rx), 23,
      RequestPdu(23, ReadWriteRegs(readAddress, readQuantity, writeAddress, writeQuantity, 2 * writeQuantity,
                                   registers[..writeQuantity])), err)
  {
    hide HeaderBytes, Frame, RegsToBytes;
    var registersBytes: u8 := writeQuantity * 2;
    var data := registers[..writeQuantity];
    ghost var pdu := RequestPdu(23, ReadWriteRegs(readAddress, readQuantity, writeAddress, writeQuantity,
                                                  registersBytes, data));
    assert pdu[0] == 23;
    assert pdu[1..] == Be16(readAddress) + Be16(readQuantity) + Be16(writeAddress) + Be16(writeQuantity)
                       + [registersBytes] + RegsToBytes(data);
    hide RequestPdu;
    n.MsgStateReq(23);
    PutReadWrite(n, readAddress, readQuantity, writeAddress, writeQuantity, registersBytes, data);
    err := n.SendPdu(pdu);
  }

  //////////////////////////////////////////////////////////////////////////////
  // File records and device identification
  //////////////////////////////////////////////////////////////////////////////

  function ReadFileRequest(file: u16, record: u16, count: u16): (pdu: Pdu)
    ensures pdu[0] == 20
  {
    [20, 7, 6] + Be16(file) + Be16(record) + Be16(count)
  }

  function WriteFileRequest(r: Record): (pdu: Pdu)
    requires |r.data| <= 122
    ensures pdu[0] == 21
  {
    [21, 7 + 2 * |r.data|] + RecordBytes(r)
  }

  function DeviceIdRequest(code: u8, objectId: u8): Pdu {
    [43, 0x0E, code, objectId]
  }

  method ReadFileRecord(n: Nmbs, fileNumber: u16, recordNumber: u16, count: u16) returns (err: Error)
    requires n.Valid()
    modifies n, n.buf
    ensures n.Valid() && unchanged(n`destAddressRtu, n`linkUp)
    ensures ValidPlace(fileNumber, recordNumber) && count <= 124 ==>
      Requested(n, old(n.tx), old(n.currentTid), old(n.rx), 20, ReadFileRequest(fileNumber, recordNumber, count), err)
    ensures !(ValidPlace(fileNumber, recordNumber) && count <= 124) ==> Rejected(n, old(n.tx), old(n.currentTid), err)
  {
    if fileNumber == 0x0000 {
      return InvalidArgument;
    }
    if recordNumber > 0x270F {
      return InvalidArgument;
    }
    if count > 124 {
      return InvalidArgument;
    }
    err := SendReadFile(n, fileNumber, recordNumber, count);
  }

  method SendReadFile(n: Nmbs, fileNumber: u16, recordNumber: u16, count: u16) returns (err: Error)
    requires n.Valid()
    modifies n, n.buf
    ensures unchanged(n`destAddressRtu, n`linkUp)
    ensures Requested(n, old(n.tx), old(n.currentTid), old(n.rx), 20, ReadFileRequest(fileNumber, recordNumber, count),
                      err)
  {
    ghost var pdu := ReadFileRequest(fileNumber, recordNumber, count);
    assert pdu[0] == 20 && |pdu| == 9 && pdu[1..] == [7] + [6] + Be16(fileNumber) + Be16(recordNumber) + Be16(count);
    hide HeaderBytes, Frame, ReadFileRequest;
    n.MsgStateReq(20);
    PutReadFile(n, fileNumber, recordNumber, count);
    err := n.SendPdu(pdu);
  }

  method PutReadFile(n: Nmbs, fileNumber: u16, recordNumber: u16, count: u16)
    requires n.Valid()
    modifies n`bufIdx, n.buf
    ensures n.Valid()
    ensures n.buf[..n.bufIdx] == HeaderBytes(n.transport, n.transactionId, n.unitId, n.fc,
                                             8) + ([7] + [6] + Be16(fileNumber) + Be16(recordNumber) + Be16(count))
  {
    hide HeaderBytes;
    n.PutMsgHeader(8);
    n.Put1(7);
    n.Put1(6);
    n.Put2(fileNumber);
    n.Put2(recordNumber);
    n.Put2(count);
  }

  method WriteFileRecord(n: Nmbs, fileNumber: u16, recordNumber: u16, registers: seq<u16>) returns (err: Error)
    requires n.Valid()
    modifies n, n.buf
    ensures n.Valid() && unchanged(n`destAddressRtu, n`linkUp)
    ensures var r := Record(fileNumber, recordNumber, registers);
      && (Writable(r) ==> Requested(n, old(n.tx), old(n.currentTid), old(n.rx), 21, WriteFileRequest(r), err))
      && (!Writable(r) ==> Rejected(n, old(n.tx), old(n.currentTid), err))
  {
    if fileNumber == 0x0000 {
      return InvalidArgument;
    }
    if recordNumber > 0x270F {
      return InvalidArgument;
    }
    if |registers| > 122 {
      return InvalidArgument;
    }
    err := SendWriteFile(n, Record(fileNumber, recordNumber, registers));
  }

  method SendWriteFile(n: Nmbs, r: Record) returns (err: Error)
    requires n.Valid() && |r.data| <= 122
    modifies n, n.buf
    ensures unchanged(n`destAddressRtu, n`linkUp)
    ensures Requested(n, old(n.tx), old(n.currentTid), old(n.rx), 21, WriteFileRequest(r), err)
  {
    hide HeaderBytes, Frame, RegsToBytes;
    ghost var pdu := WriteFileRequest(r);
    assert pdu[0] == 21 && pdu[1..] == [7 + 2 * |r.data| as u8] + RecordBytes(r);
    n.MsgStateReq(21);
    PutWriteFile(n, r);
    err := n.SendPdu(pdu);
  }

  /** put_regs stores each register as a swapped host word, which on a little-endian host is its big-endian form. */
  method PutWriteFile(n: Nmbs, r: Record)
    requires n.Valid() && |r.data| <= 122
    modifies n`bufIdx, n.buf
    ensures n.Valid()
    ensures n.buf[..n.bufIdx] == HeaderBytes(n.transport, n.transactionId, n.unitId, n.fc,
                                             8 + 2 * |r.data|) + ([7 + 2 * |r.data| as u8] + RecordBytes(r))
  {
    hide HeaderBytes, RegsToBytes, Be16;
    ghost var header := HeaderBytes(n.transport, n.transactionId, n.unitId, n.fc, 8 + 2 * |r.data|);
    var dataSize := |r.data| * 2;
    n.PutMsgHeader(8 + dataSize);
    n.Put1(7 + dataSize);
    n.Put1(6);
    n.Put2(r.file);
    n.Put2(r.record);
    n.Put2(|r.data|);
    assert n.buf[..n.bufIdx] == header + [7 + dataSize as u8] + ([6] + Be16(r.file) + Be16(r.record) + Be16(|r.data|));
    n.PutRegs(r.data);
  }

  /** One turn of the paging loop: the request for the page that starts at objectId. */
  method RequestDeviceId(n: Nmbs, code: u8, objectId: u8) returns (err: Error)
    requires n.Valid()
    modifies n, n.buf
    ensures unchanged(n`destAddressRtu, n`linkUp)
    ensures Requested(n, old(n.tx), old(n.currentTid), old(n.rx), 43, DeviceIdRequest(code, objectId), err)
  {
    n.MsgStateReq(43);
    n.PutMsgHeader(3);
    n.Put1(0x0E);
    n.Put1(code);
    n.Put1(objectId);
    ghost var pdu := DeviceIdRequest(code, objectId);
    assert pdu[1..] == [0x0E] + [code] + [objectId];
    err := n.SendPdu(pdu);
  }
}
