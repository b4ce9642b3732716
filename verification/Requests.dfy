/**
 The handlers of the data functions as a whole: read the request, then serve it or, on a shared line, skip its
 answer.
 */
module Requests {
  import opened Bytes
  import opened Adu
  import opened Store
  import opened Protocol
  import opened NmbsCore
  import opened Responses
  import opened Handlers

  //////////////////////////////////////////////////////////////////////////////
  // Skipping another unit's exchange (RTU)
  //////////////////////////////////////////////////////////////////////////////

  /** Where an RTU request of the data functions ends, checksum included. */
  function RequestEnd(fc: u8, v: seq<u8>): (end: nat)
    requires IsDataFunction(fc) && |v| >= 2 && Parse(Rtu, fc, v).Read?
    ensures end <= |v|
  {
    if fc <= 6 then 8 else if fc <= 16 then 9 + v[6] else 13 + v[10]
  }

  /** On RTU neither an earlier buffer nor a transaction id plays a part. */
  function RtuReceptionError(rest: seq<u8>, unit: u8, fc: u8): Error {
    ReceptionError(Rtu, true, seq(BUF_SIZE, _ => 0), rest, 0, unit, fc)
  }

  lemma RtuReception(n: Nmbs, stale: seq<u8>, rest: seq<u8>, tid: u16, unit: u8, fc: u8)
    requires n.transport.Rtu? && |stale| == BUF_SIZE
    ensures ReceptionError(n.transport, true, stale, rest, tid, unit, fc) == RtuReceptionError(rest, unit, fc)
  {
  }

  /** The two words a write request expects back. */
  function Echoed(req: Request): (u16, u16)
    requires !req.ReadBits? && !req.ReadRegs?
  {
    match req
    case WriteCoil(a, v) => (a, v)
    case WriteReg(a, v) => (a, v)
    case WriteCoils(a, q, _) => (a, q)
    case WriteRegs(a, q, _, _) => (a, q)
    case ReadWriteRegs(_, _, wa, wq, _, _) => (wa, wq)
  }

  /** The result of receiving, on the stream after a request, the response a server expects another unit to give. */
  function SkipError(rest: seq<u8>, unit: u8, fc: u8, req: Request): Error {
    var e := RtuReceptionError(rest, unit, fc);
    if e != NoError then e else
    match req
    case ReadBits(_, _) => BitsResError(Rtu, rest)
    case ReadRegs(_, q) => RegsResError(Rtu, rest, q)
    case _ => EchoResError(Rtu, rest, Echoed(req).0, Echoed(req).1)
  }

  /** How many bytes that response took. */
  function SkipSize(rest: seq<u8>, req: Request): nat
    requires |rest| >= 3
  {
    if req.ReadBits? || req.ReadRegs? then 5 + rest[2] as int else 8
  }

  /** A request for another unit: nothing is sent, and the expected response is consumed. */
  ghost predicate Skipped(n: Nmbs, was: seq<seq<u8>>, rest: seq<u8>, unit: u8, fc: u8, req: Request, err: Error)
    reads n
  {
    && n.tx == was
    && err == SkipError(rest, unit, fc, req)
    && (err == NoError ==> |rest| >= 3 && SkipSize(rest, req) <= |rest| && n.rx == rest[SkipSize(rest, req)..])
  }

  method SkipBits(n: Nmbs, ghost req: Request) returns (err: Error)
    requires n.Valid() && n.linkUp && n.transport.Rtu? && req.ReadBits?
    modifies n, n.buf
    ensures |n.rx| <= |old(n.rx)|
    ensures n.Valid() && unchanged(n`currentTid, n`destAddressRtu, n`linkUp)
    ensures Skipped(n, old(n.tx), old(n.rx), old(n.unitId), old(n.fc), req, err)
  {
    hide ReceptionError;
    var values: seq<u8>;
    RtuReception(n, n.buf[..], n.rx, n.transactionId, n.unitId, n.fc);
    err, values := RecvReadDiscreteRes(n);
  }

  method SkipRegisters(n: Nmbs, quantity: u16, ghost req: Request) returns (err: Error)
    requires n.Valid() && n.linkUp && n.transport.Rtu? && req.ReadRegs? && req.quantity == quantity
    modifies n, n.buf
    ensures |n.rx| <= |old(n.rx)|
    ensures n.Valid() && unchanged(n`currentTid, n`destAddressRtu, n`linkUp)
    ensures Skipped(n, old(n.tx), old(n.rx), old(n.unitId), old(n.fc), req, err)
  {
    hide ReceptionError;
    var registers: seq<u16>;
    RtuReception(n, n.buf[..], n.rx, n.transactionId, n.unitId, n.fc);
    err, registers := RecvReadRegistersRes(n, quantity);
  }

  method SkipEcho(n: Nmbs, a: u16, b: u16, ghost req: Request) returns (err: Error)
    requires n.Valid() && n.linkUp && n.transport.Rtu? && !req.ReadBits? && !req.ReadRegs? && Echoed(req) == (a, b)
    modifies n, n.buf
    ensures |n.rx| <= |old(n.rx)|
    ensures n.Valid() && unchanged(n`currentTid, n`destAddressRtu, n`linkUp)
    ensures Skipped(n, old(n.tx), old(n.rx), old(n.unitId), old(n.fc), req, err)
  {
    hide ReceptionError, EchoResError;
    RtuReception(n, n.buf[..], n.rx, n.transactionId, n.unitId, n.fc);
    err := RecvEchoRes(n, a, b);
  }

  //////////////////////////////////////////////////////////////////////////////
  // The handlers
  //////////////////////////////////////////////////////////////////////////////

  ghost predicate HandlerStart(n: Nmbs, s: Server)
    reads n
  {
    AfterHeader(n) && s.Valid() && n.buf as object !in s.Repr() && (n.ignored ==> n.transport.Rtu?)
  }

  /** A handler's effect on a request message v, by what the message parses to. */
  ghost predicate Handled(n: Nmbs, s: Server, was: seq<seq<u8>>, db: Db, tid: u16, unit: u8, fc: u8, broadcast: bool,
                          ignored: bool,
                          v: seq<u8>, err: Error)
    requires s.Valid() && Sized(db) && IsDataFunction(fc)
    requires |v| >= HeaderSize(n.transport) && (n.transport.Tcp? ==> |v| == BUF_SIZE)
    reads n, s.Repr()
  {
    match Parse(n.transport, fc, v)
    case Unread(e) => err == e && n.tx == was && s.Contents() == db
    case Read(req) =>
      if ignored then
        n.transport.Rtu? && s.Contents() == db && Skipped(n, was, v[RequestEnd(fc, v)..], unit, fc, req, err)
      else
        && Answered(n, s, was, tid, unit, Execute(db, unit, fc, broadcast, req), err)
        && (n.transport.Rtu? && err == NoError ==> n.rx == v[RequestEnd(fc, v)..])
  }

  /** The first half of a handler read the request that p stands for. */
  ghost predicate RequestRead(n: Nmbs, p: Parsed, v: seq<u8>, fc: u8, err: Error, req: Request)
    requires IsDataFunction(fc) && |v| >= HeaderSize(n.transport) && (n.transport.Tcp? ==> |v| == BUF_SIZE)
    requires p == Parse(n.transport, fc, v)
    reads n
  {
    match p
    case Unread(e) => err == e && e != NoError
    case Read(r) => err == NoError && r == req && (n.transport.Rtu? ==> n.rx == v[RequestEnd(fc, v)..])
  }

  method RecvWordsRequest(n: Nmbs, ghost fc: u8) returns (err: Error, a: u16, b: u16)
    requires AfterHeader(n) && 1 <= fc <= 6
    modifies n`fill, n`rx, n`bufIdx, n.buf
    ensures |n.rx| <= |old(n.rx)|
    ensures n.Valid()
    ensures RequestRead(n, ParseWords(n.transport, fc, old(n.View())), old(n.View()), fc, err, WordsRequest(fc, a, b))
  {
    hide FooterError, WordAt;
    err, a, b := RecvTwoWords(n);
  }

  method HandleReadDiscrete(n: Nmbs, s: Server, hasCallback: bool) returns (err: Error)
    requires HandlerStart(n, s) && 1 <= n.fc <= 2 && hasCallback == (n.fc == 1)
    modifies n, n.buf
    ensures |n.rx| <= |old(n.rx)|
    ensures n.Valid() && unchanged(n`currentTid, n`destAddressRtu, n`linkUp)
    ensures Handled(n, s, old(n.tx), old(s.Contents()), old(n.transactionId), old(n.unitId), old(n.fc),
                    old(n.broadcast), old(n.ignored), old(n.View()), err)
  {
    hide ParseWords, ExecuteReadBits, ExecuteReadRegs, Skipped;
    var address, quantity;
    err, address, quantity := RecvWordsRequest(n, n.fc);
    if err != NoError {
      return;
    }
    if !n.ignored {
      err := ServeReadDiscrete(n, s, hasCallback, address, quantity);
    } else {
      err := SkipBits(n, ReadBits(address, quantity));
    }
  }

  method HandleReadRegisters(n: Nmbs, s: Server) returns (err: Error)
    requires HandlerStart(n, s) && 3 <= n.fc <= 4
    modifies n, n.buf
    ensures |n.rx| <= |old(n.rx)|
    ensures n.Valid() && unchanged(n`currentTid, n`destAddressRtu, n`linkUp)
    ensures Handled(n, s, old(n.tx), old(s.Contents()), old(n.transactionId), old(n.unitId), old(n.fc),
                    old(n.broadcast), old(n.ignored), old(n.View()), err)
  {
    hide ParseWords, ExecuteReadBits, ExecuteReadRegs, Skipped;
    var address, quantity;
    err, address, quantity := RecvWordsRequest(n, n.fc);
    if err != NoError {
      return;
    }
    if !n.ignored {
      err := ServeReadRegisters(n, s, address, quantity);
    } else {
      err := SkipRegisters(n, quantity, ReadRegs(address, quantity));
    }
  }

  method HandleWriteSingleCoil(n: Nmbs, s: Server) returns (err: Error)
    requires HandlerStart(n, s) && n.fc == 5
    modifies n, n.buf, s.coils
    ensures |n.rx| <= |old(n.rx)|
    ensures n.Valid() && unchanged(n`currentTid, n`destAddressRtu, n`linkUp)
    ensures Handled(n, s, old(n.tx), old(s.Contents()), old(n.transactionId), old(n.unitId), old(n.fc),
                    old(n.broadcast), old(n.ignored), old(n.View()), err)
  {
    hide ParseWords, ExecuteWriteCoil, Skipped;
    var address, value;
    err, address, value := RecvWordsRequest(n, n.fc);
    if err != NoError {
      return;
    }
    if !n.ignored {
      err := ServeWriteSingleCoil(n, s, address, value);
    } else {
      err := SkipEcho(n, address, value, WriteCoil(address, value));
    }
  }

  method HandleWriteSingleRegister(n: Nmbs, s: Server) returns (err: Error)
    requires HandlerStart(n, s) && n.fc == 6
    modifies n, n.buf, s.regs
    ensures |n.rx| <= |old(n.rx)|
    ensures n.Valid() && unchanged(n`currentTid, n`destAddressRtu, n`linkUp)
    ensures Handled(n, s, old(n.tx), old(s.Contents()), old(n.transactionId), old(n.unitId), old(n.fc),
                    old(n.broadcast), old(n.ignored), old(n.View()), err)
  {
    hide ParseWords, ExecuteWriteReg, Skipped;
    var address, value;
    err, address, value := RecvWordsRequest(n, n.fc);
    if err != NoError {
      return;
    }
    if !n.ignored {
      err := ServeWriteSingleRegister(n, s, address, value);
    } else {
      err := SkipEcho(n, address, value, WriteReg(address, value));
    }
  }

  /** Address, quantity and a byte count, for functions 15 and 16. */
  method RecvWriteHeader(n: Nmbs) returns (err: Error, address: u16, quantity: u16, count: u8)
    requires AfterHeader(n)
    modifies n`fill, n`rx, n`bufIdx, n.buf
    ensures |n.rx| <= |old(n.rx)|
    ensures n.Valid()
    ensures
      var v, h := old(n.View()), old(n.bufIdx);
      if |v| < h + 5 then err == TimedOut else
      && err == NoError && n.Receiving() && n.View() == v && n.bufIdx == h + 5
      && (n.transport.Rtu? ==> n.fill == h + 5)
      && address == WordAt(v, h) && quantity == WordAt(v, h + 2) && count == v[h + 4]
  {
    address, quantity, count := 0, 0, 0;
    ghost var v := n.View();
    err := n.Recv(5);
    if err != NoError {
      return;
    }
    assert n.View() == v;
    address := n.Get2();
    quantity := n.Get2();
    count := n.Get1();
  }

  method RecvWriteCoilsRequest(n: Nmbs)
    returns (err: Error, address: u16, quantity: u16, coilsBytes: u8, coils: seq<u8>)
    requires AfterHeader(n)
    modifies n`fill, n`rx, n`bufIdx, n.buf
    ensures |n.rx| <= |old(n.rx)|
    ensures n.Valid() && |coils| == coilsBytes
    ensures RequestRead(n, ParseWriteCoils(n.transport, old(n.View())), old(n.View()), 15, err,
                        WriteCoils(address, quantity, coils))
  {
    coils := [];
    err, address, quantity, coilsBytes := RecvWriteHeader(n);
    if err != NoError {
      coilsBytes := 0;
      return;
    }
    if coilsBytes > 246 {
      return InvalidRequest, address, quantity, 0, coils;
    }
    ghost var v := n.View();
    err := n.Recv(coilsBytes);
    if err != NoError {
      coilsBytes := 0;
      return;
    }
    assert n.View() == v;
    coils := n.GetBytes(coilsBytes);
    err := n.RecvMsgFooter();
  }

  method HandleWriteMultipleCoils(n: Nmbs, s: Server) returns (err: Error)
    requires HandlerStart(n, s) && n.fc == 15
    modifies n, n.buf, s.coils
    ensures |n.rx| <= |old(n.rx)|
    ensures n.Valid() && unchanged(n`currentTid, n`destAddressRtu, n`linkUp)
    ensures Handled(n, s, old(n.tx), old(s.Contents()), old(n.transactionId), old(n.unitId), old(n.fc),
                    old(n.broadcast), old(n.ignored), old(n.View()), err)
  {
    hide ParseWriteCoils, ExecuteWriteCoils, Skipped;
    var address, quantity, coilsBytes, coils;
    err, address, quantity, coilsBytes, coils := RecvWriteCoilsRequest(n);
    if err != NoError {
      return;
    }
    if !n.ignored {
      err := ServeWriteMultipleCoils(n, s, address, quantity, coilsBytes, coils);
    } else {
      err := SkipEcho(n, address, quantity, WriteCoils(address, quantity, coils));
    }
  }

  method RecvWriteRegistersRequest(n: Nmbs)
    returns (err: Error, address: u16, quantity: u16, registersBytes: u8, registers: seq<u16>)
    requires AfterHeader(n)
    modifies n`fill, n`rx, n`bufIdx, n.buf
    ensures |n.rx| <= |old(n.rx)|
    ensures n.Valid() && (err == NoError ==> |registers| == registersBytes / 2 && registersBytes <= 246)
    ensures RequestRead(n, ParseWriteRegs(n.transport, old(n.View())), old(n.View()), 16, err,
                        WriteRegs(address, quantity, registersBytes, registers))
  {
    hide RegsAt, RegsFooterError;
    registers := [];
    err, address, quantity, registersBytes := RecvWriteHeader(n);
    if err != NoError {
      return;
    }
    ghost var v := n.View();
    err := n.Recv(registersBytes);
    if err != NoError {
      return;
    }
    assert n.View() == v;
    if registersBytes > 246 {
      return InvalidRequest, address, quantity, registersBytes, registers;
    }
    err, registers := TakeRegisters(n, registersBytes);
  }

  method HandleWriteMultipleRegisters(n: Nmbs, s: Server) returns (err: Error)
    requires HandlerStart(n, s) && n.fc == 16
    modifies n, n.buf, s.regs
    ensures |n.rx| <= |old(n.rx)|
    ensures n.Valid() && unchanged(n`currentTid, n`destAddressRtu, n`linkUp)
    ensures Handled(n, s, old(n.tx), old(s.Contents()), old(n.transactionId), old(n.unitId), old(n.fc),
                    old(n.broadcast), old(n.ignored), old(n.View()), err)
  {
    hide ParseWriteRegs, ExecuteWriteRegs, Skipped;
    var address, quantity, registersBytes, registers;
    err, address, quantity, registersBytes, registers := RecvWriteRegistersRequest(n);
    if err != NoError {
      return;
    }
    if !n.ignored {
      err := ServeWriteMultipleRegisters(n, s, address, quantity, registersBytes, registers);
    } else {
      err := SkipEcho(n, address, quantity, WriteRegs(address, quantity, registersBytes, registers));
    }
  }

  method RecvReadWriteRequest(n: Nmbs)
    returns (err: Error, readAddress: u16, readQuantity: u16, writeAddress: u16, writeQuantity: u16,
                                                byteCountWrite: u8, registers: seq<u16>)
    requires AfterHeader(n)
    modifies n`fill, n`rx, n`bufIdx, n.buf
    ensures |n.rx| <= |old(n.rx)|
    ensures n.Valid() && (err == NoError ==> |registers| == byteCountWrite / 2)
    ensures RequestRead(n, ParseReadWrite(n.transport, old(n.View())), old(n.View()), 23, err,
      ReadWriteRegs(readAddress, readQuantity, writeAddress, writeQuantity, byteCountWrite, registers))
  {
    hide RegsAt, RegsFooterError;
    registers := [];
    err, readAddress, readQuantity, writeAddress, writeQuantity, byteCountWrite := RecvReadWriteHeader(n);
    if err != NoError {
      return;
    }
    if byteCountWrite > 242 {
      err := InvalidRequest;
      return;
    }
    ghost var v := n.View();
    err := n.Recv(byteCountWrite);
    if err != NoError {
      return;
    }
    assert n.View() == v;
    err, registers := TakeRegisters(n, byteCountWrite);
  }

  method RecvReadWriteHeader(n: Nmbs)
    returns (err: Error, readAddress: u16, readQuantity: u16, writeAddress: u16, writeQuantity: u16, count: u8)
    requires AfterHeader(n)
    modifies n`fill, n`rx, n`bufIdx, n.buf
    ensures |n.rx| <= |old(n.rx)|
    ensures n.Valid()
    ensures
      var v, h := old(n.View()), old(n.bufIdx);
      if |v| < h + 9 then err == TimedOut else
      && err == NoError && n.Receiving() && n.View() == v && n.bufIdx == h + 9
      && (n.transport.Rtu? ==> n.fill == h + 9)
      && readAddress == WordAt(v, h) && readQuantity == WordAt(v, h + 2)
      && writeAddress == WordAt(v, h + 4) && writeQuantity == WordAt(v, h + 6) && count == v[h + 8]
  {
    readAddress, readQuantity, writeAddress, writeQuantity, count := 0, 0, 0, 0, 0;
    ghost var v := n.View();
    err := n.Recv(9);
    if err != NoError {
      return;
    }
    assert n.View() == v;
    readAddress := n.Get2();
    readQuantity := n.Get2();
    writeAddress := n.Get2();
    writeQuantity := n.Get2();
    count := n.Get1();
  }

  method HandleReadWriteRegisters(n: Nmbs, s: Server) returns (err: Error)
    requires HandlerStart(n, s) && n.fc == 23
    modifies n, n.buf, s.regs
    ensures |n.rx| <= |old(n.rx)|
    ensures n.Valid() && unchanged(n`currentTid, n`destAddressRtu, n`linkUp)
    ensures Handled(n, s, old(n.tx), old(s.Contents()), old(n.transactionId), old(n.unitId), old(n.fc),
                    old(n.broadcast), old(n.ignored), old(n.View()), err)
  {
    hide ParseReadWrite, ExecuteReadWrite, Skipped;
    var readAddress, readQuantity, writeAddress, writeQuantity, byteCountWrite, registers;
    err, readAddress, readQuantity, writeAddress, writeQuantity, byteCountWrite, registers := RecvReadWriteRequest(n);
    if err != NoError {
      return;
    }
    if !n.ignored {
      err := ServeReadWriteRegisters(n, s, readAddress, readQuantity, writeAddress, writeQuantity, byteCountWrite,
                                     registers);
    } else {
      err := SkipEcho(n, writeAddress, writeQuantity,
                      ReadWriteRegs(readAddress, readQuantity, writeAddress, writeQuantity, byteCountWrite, registers));
    }
  }
}
