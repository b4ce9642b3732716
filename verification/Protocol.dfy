/**
 The data functions of MODBUS Application Protocol V1.1b3, sections 6.1-6.6, 6.11, 6.12 and 6.17: requests as
 values, their encoding, their execution on a store, and the PDUs that answer them.
 */
module Protocol {
  import opened Bytes
  import opened Bitfield
  import opened Adu
  import opened Store

  datatype Request =
    | ReadBits(address: u16, quantity: u16)
    | ReadRegs(address: u16, quantity: u16)
    | WriteCoil(address: u16, value: u16)
    | WriteReg(address: u16, value: u16)
    | WriteCoils(address: u16, quantity: u16, data: seq<u8>)
    | WriteRegs(address: u16, quantity: u16, byteCount: u8, regs: seq<u16>)
    | ReadWriteRegs(readAddress: u16, readQuantity: u16, writeAddress: u16, writeQuantity: u16, byteCount: u8,
                    regs: seq<u16>)

  /** The request kinds a function code can announce. */
  predicate Announces(fc: u8, req: Request) {
    match req
    case ReadBits(_, _) => fc == 1 || fc == 2
    case ReadRegs(_, _) => fc == 3 || fc == 4
    case WriteCoil(_, _) => fc == 5
    case WriteReg(_, _) => fc == 6
    case WriteCoils(_, _, _) => fc == 15
    case WriteRegs(_, _, _, _) => fc == 16
    case ReadWriteRegs(_, _, _, _, _, _) => fc == 23
  }

  predicate IsDataFunction(fc: u8) {
    1 <= fc <= 6 || fc == 15 || fc == 16 || fc == 23
  }

  //////////////////////////////////////////////////////////////////////////////
  // Requests on the wire
  //////////////////////////////////////////////////////////////////////////////

  /** The bytes a request puts after its function code. */
  function RequestBody(req: Request): seq<u8>
    requires req.WriteCoils? ==> |req.data| < 0x100
  {
    match req
    case ReadBits(a, q) => Be16(a) + Be16(q)
    case ReadRegs(a, q) => Be16(a) + Be16(q)
    case WriteCoil(a, v) => Be16(a) + Be16(v)
    case WriteReg(a, v) => Be16(a) + Be16(v)
    case WriteCoils(a, q, data) => Be16(a) + Be16(q) + [|data|] + data
    case WriteRegs(a, q, n, regs) => Be16(a) + Be16(q) + [n] + RegsToBytes(regs)
    case ReadWriteRegs(ra, rq, wa, wq, n, regs) => Be16(ra) + Be16(rq) + Be16(wa) + Be16(wq) + [n] + RegsToBytes(regs)
  }

  datatype Parsed = Unread(err: Error) | Read(req: Request)

  /** What a server makes of the message v whose header names fc: the handlers up to their recv_msg_footer. */
  function Parse(t: Transport, fc: u8, v: seq<u8>): (p: Parsed)
    requires IsDataFunction(fc) && |v| >= HeaderSize(t) && (t.Tcp? ==> |v| == BUF_SIZE)
    ensures p.Read? ==> Announces(fc, p.req)
  {
    if fc <= 6 then ParseWords(t, fc, v)
    else if fc == 15 then ParseWriteCoils(t, v)
    else if fc == 16 then ParseWriteRegs(t, v)
    else ParseReadWrite(t, v)
  }

  /** The request of functions 1 to 6 that two words stand for. */
  function WordsRequest(fc: u8, a: u16, b: u16): Request {
    if fc <= 2 then ReadBits(a, b)
    else if fc <= 4 then ReadRegs(a, b)
    else if fc == 5 then WriteCoil(a, b)
    else WriteReg(a, b)
  }

  function ParseWords(t: Transport, fc: u8, v: seq<u8>): (p: Parsed)
    requires 1 <= fc <= 6 && |v| >= HeaderSize(t) && (t.Tcp? ==> |v| == BUF_SIZE)
    ensures p.Read? ==> Announces(fc, p.req)
  {
    var h := HeaderSize(t);
    if |v| < h + 4 then Unread(TimedOut)
    else
      var e := FooterError(t, v, h + 4, h + 4);
      if e != NoError then Unread(e) else
      Read(WordsRequest(fc, WordAt(v, h), WordAt(v, h + 2)))
  }

  function ParseWriteCoils(t: Transport, v: seq<u8>): (p: Parsed)
    requires |v| >= HeaderSize(t) && (t.Tcp? ==> |v| == BUF_SIZE)
    ensures p.Read? ==> p.req.WriteCoils? && |p.req.data| <= 246
  {
    var h := HeaderSize(t);
    if |v| < h + 5 then Unread(TimedOut)
    else
      var n := v[h + 4];
      if n > 246 then Unread(InvalidRequest)
      else if |v| < h + 5 + n then Unread(TimedOut)
      else
        var e := FooterError(t, v, h + 5 + n, h + 5 + n);
        if e != NoError then Unread(e) else Read(WriteCoils(WordAt(v, h), WordAt(v, h + 2), v[h + 5..h + 5 + n]))
  }

  /** An odd byte count leaves one received byte behind the cursor, which the checksum then skips. */
  function ParseWriteRegs(t: Transport, v: seq<u8>): (p: Parsed)
    requires |v| >= HeaderSize(t) && (t.Tcp? ==> |v| == BUF_SIZE)
    ensures p.Read? ==> p.req.WriteRegs? && |p.req.regs| == p.req.byteCount / 2
  {
    var h := HeaderSize(t);
    if |v| < h + 5 then Unread(TimedOut)
    else
      var n := v[h + 4];
      if t.Rtu? && h + 5 + n > BUF_SIZE then Unread(Fault)
      else if t.Rtu? && |v| < h + 5 + n then Unread(TimedOut)
      else if n > 246 then Unread(InvalidRequest)
      else
        var e := RegsFooterError(t, v, h + 5, n);
        if e != NoError then Unread(e)
        else Read(WriteRegs(WordAt(v, h), WordAt(v, h + 2), n, RegsAt(v, h + 5, n)))
  }

  function ParseReadWrite(t: Transport, v: seq<u8>): (p: Parsed)
    requires |v| >= HeaderSize(t) && (t.Tcp? ==> |v| == BUF_SIZE)
    ensures p.Read? ==> p.req.ReadWriteRegs? && |p.req.regs| == p.req.byteCount / 2
  {
    var h := HeaderSize(t);
    if |v| < h + 9 then Unread(TimedOut)
    else
      var n := v[h + 8];
      if n > 242 then Unread(InvalidRequest)
      else if |v| < h + 9 + n then Unread(TimedOut)
      else
        var e := RegsFooterError(t, v, h + 9, n);
        if e != NoError then Unread(e)
        else Read(ReadWriteRegs(WordAt(v, h), WordAt(v, h + 2), WordAt(v, h + 4), WordAt(v, h + 6), n,
                                RegsAt(v, h + 9, n)))
  }

  //////////////////////////////////////////////////////////////////////////////
  // Execution
  //////////////////////////////////////////////////////////////////////////////

  type Pdu = s: seq<u8> | 1 <= |s| <= MAX_PDU witness [0]

  /** Raw is a message handlers 20 and 21 leave in msg.buf without rebuilding its header. */
  datatype Reply = Silent | Send(pdu: Pdu) | Raw(bytes: seq<u8>)

  /** What a handler returns, the PDU it sends if any, and the store it leaves. */
  datatype Answer = Answer(err: Error, reply: Reply, db: Db)

  /** Byte count and registers, as functions 3, 4 and 23 answer. */
  function RegsPdu(fc: u8, regs: seq<u16>): (pdu: Pdu)
    requires |regs| <= 125
    ensures pdu[0] == fc
  {
    [fc, 2 * |regs|] + RegsToBytes(regs)
  }

  /** Byte count and packed bits, as functions 1 and 2 answer. */
  function BitsPdu(fc: u8, bytes: seq<u8>): (pdu: Pdu)
    requires |bytes| <= 250
    ensures pdu[0] == fc
  {
    [fc, |bytes|] + bytes
  }

  /** Two words of the request, as the write functions answer. */
  function EchoPdu(fc: u8, a: u16, b: u16): (pdu: Pdu)
    ensures pdu[0] == fc
  {
    [fc] + Be16(a) + Be16(b)
  }

  function Refuse(fc: u8, code: u8, db: Db): Answer {
    Answer(NoError, Send([(fc + 0x80) % 0x100, code]), db)
  }

  /** A handler's reaction to a callback that did not succeed. */
  function CallbackFailed(fc: u8, e: Error, db: Db): (ans: Answer)
    ensures e == Fault ==> ans.err == Fault && ans.reply == Silent
  {
    if e == Fault then Answer(Fault, Silent, db)
    else Refuse(fc, if e.Exception? && 0 < e.code < 5 then e.code else SERVER_DEVICE_FAILURE, db)
  }

  function Succeed(broadcast: bool, pdu: Pdu, db: Db): Answer {
    Answer(NoError, if broadcast then Silent else Send(pdu), db)
  }

  predicate InRange(a: u16, q: u16) {
    a + q <= 0x1_0000
  }

  function Execute(db: Db, unit: u8, fc: u8, broadcast: bool, req: Request): Answer
    requires Sized(db) && Announces(fc, req)
    requires req.WriteCoils? ==> |req.data| <= 246
    requires req.WriteRegs? ==> |req.regs| == req.byteCount / 2
    requires req.ReadWriteRegs? ==> |req.regs| == req.byteCount / 2
  {
    match req
    case ReadBits(a, q) => ExecuteReadBits(db, unit, fc, broadcast, a, q)
    case ReadRegs(a, q) => ExecuteReadRegs(db, unit, fc, broadcast, a, q)
    case WriteCoil(a, v) => ExecuteWriteCoil(db, unit, fc, broadcast, a, v)
    case WriteReg(a, v) => ExecuteWriteReg(db, unit, fc, broadcast, a, v)
    case WriteCoils(a, q, data) => ExecuteWriteCoils(db, unit, fc, broadcast, a, q, data)
    case WriteRegs(a, q, n, regs) => ExecuteWriteRegs(db, unit, fc, broadcast, a, q, n, regs)
    case ReadWriteRegs(ra, rq, wa, wq, n, regs) => ExecuteReadWrite(db, unit, fc, broadcast, ra, rq, wa, wq, n, regs)
  }

  /** modbus_port.c registers a callback for coils (1) and none for discrete inputs (2). */
  function ExecuteReadBits(db: Db, unit: u8, fc: u8, broadcast: bool, a: u16, q: u16): Answer
    requires Sized(db)
  {
    if q < 1 || q > 2000 then Refuse(fc, ILLEGAL_DATA_VALUE, db)
    else if !InRange(a, q) then Refuse(fc, ILLEGAL_DATA_ADDRESS, db)
    else if fc != 1 then Refuse(fc, ILLEGAL_FUNCTION, db)
    else
      var e := CoilReadError(db.id, unit, a, q);
      if e != NoError then CallbackFailed(fc, e, db)
      else
        var n := (q + 7) / 8;
        Succeed(broadcast, BitsPdu(fc, PackBits(CoilsOut(db.coils, a, q))[..n]), db)
  }

  function ExecuteReadRegs(db: Db, unit: u8, fc: u8, broadcast: bool, a: u16, q: u16): Answer
    requires Sized(db)
  {
    if q < 1 || q > 125 then Refuse(fc, ILLEGAL_DATA_VALUE, db)
    else if !InRange(a, q) then Refuse(fc, ILLEGAL_DATA_ADDRESS, db)
    else
      var e := RegisterError(db.id, unit, a, q);
      if e != NoError then CallbackFailed(fc, e, db)
      else
        var table := if fc == 3 then db.regs else db.inputs;
        Succeed(broadcast, RegsPdu(fc, table[a..a + q]), db)
  }

  function ExecuteWriteCoil(db: Db, unit: u8, fc: u8, broadcast: bool, a: u16, v: u16): Answer
    requires Sized(db)
  {
    if v != 0 && v != 0xFF00 then Refuse(fc, ILLEGAL_DATA_VALUE, db)
    else
      var e := CoilWriteError(db.id, unit, a, 1);
      if e != NoError then CallbackFailed(fc, e, db)
      else Succeed(broadcast, EchoPdu(fc, a, v), db.(coils := db.coils[a := v != 0]))
  }

  function ExecuteWriteReg(db: Db, unit: u8, fc: u8, broadcast: bool, a: u16, v: u16): Answer
    requires Sized(db)
  {
    var e := RegisterError(db.id, unit, a, 1);
    if e != NoError then CallbackFailed(fc, e, db)
    else Succeed(broadcast, EchoPdu(fc, a, v), db.(regs := db.regs[a := v]))
  }

  function ExecuteWriteCoils(db: Db, unit: u8, fc: u8, broadcast: bool, a: u16, q: u16, data: seq<u8>): Answer
    requires Sized(db)
  {
    if q < 1 || q > 0x07B0 then Refuse(fc, ILLEGAL_DATA_VALUE, db)
    else if !InRange(a, q) then Refuse(fc, ILLEGAL_DATA_ADDRESS, db)
    else if (q + 7) / 8 != |data| then Refuse(fc, ILLEGAL_DATA_VALUE, db)
    else
      var e := CoilWriteError(db.id, unit, a, q);
      if e != NoError then CallbackFailed(fc, e, db)
      else Succeed(broadcast, EchoPdu(fc, a, q), db.(coils := Splice(db.coils, a, BitsOf(data)[..q])))
  }

  function ExecuteWriteRegs(db: Db, unit: u8, fc: u8, broadcast: bool, a: u16, q: u16, n: u8, regs: seq<u16>): Answer
    requires Sized(db) && |regs| == n / 2
  {
    if q < 1 || q > 0x007B then Refuse(fc, ILLEGAL_DATA_VALUE, db)
    else if !InRange(a, q) then Refuse(fc, ILLEGAL_DATA_ADDRESS, db)
    else if n != 2 * q then Refuse(fc, ILLEGAL_DATA_VALUE, db)
    else
      var e := RegisterError(db.id, unit, a, q);
      if e != NoError then CallbackFailed(fc, e, db)
      else Succeed(broadcast, EchoPdu(fc, a, q), db.(regs := Splice(db.regs, a, regs)))
  }

  /** The write is done before the read, so the reply shows the written values. */
  function ExecuteReadWrite(db: Db, unit: u8, fc: u8, broadcast: bool, ra: u16, rq: u16, wa: u16, wq: u16, n: u8,
                            regs: seq<u16>): Answer
    requires Sized(db) && |regs| == n / 2
  {
    if rq < 1 || rq > 0x007D || wq < 1 || wq > 0x007B || n != 2 * wq then Refuse(fc, ILLEGAL_DATA_VALUE, db)
    else if !InRange(ra, rq) || !InRange(wa, wq) then Refuse(fc, ILLEGAL_DATA_ADDRESS, db)
    else
      var e := RegisterError(db.id, unit, wa, wq);
      if e != NoError then CallbackFailed(fc, e, db)
      else
        var db' := db.(regs := Splice(db.regs, wa, regs));
        var e' := RegisterError(db.id, unit, ra, rq);
        if broadcast then Answer(NoError, Silent, db')
        else if e' != NoError then CallbackFailed(fc, e', db')
        else Succeed(false, RegsPdu(fc, db'.regs[ra..ra + rq]), db')
  }
}
