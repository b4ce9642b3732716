/**
 Client calls against a polling server over a reliable line: every sequence of register and coil calls behaves
 like operations on plain arrays.
 */
module EndToEnd {
  import opened Wrappers
  import opened Bytes
  import opened Bitfield
  import opened Adu
  import opened Store
  import opened Protocol
  import opened NmbsCore
  import opened Responses
  import opened Handlers
  import opened Client
  import opened CoilReads
  import opened RoundTrips
  import opened DeviceId
  import opened Files
  import opened FileHandler
  import opened Poll

  /** Two nmbs_t objects on one working line; the client addresses the server. */
  ghost predicate Connected(c: Nmbs, s: Nmbs, srv: Server)
    reads c, s
  {
    && c != s && c.buf != s.buf && c.Valid() && s.Valid() && c.linkUp && s.linkUp && c.transport == s.transport
    && srv.Valid() && c.buf as object !in srv.Repr() && s.buf as object !in srv.Repr()
    && c.destAddressRtu == srv.id && (c.transport.Rtu? ==> srv.id == s.addressRtu && srv.id != 0)
  }

  /** What the line carries back for an answer. */
  function Carried(t: Transport, tid: u16, unit: u8, reply: Reply): seq<u8> {
    var frames := Sent(t, tid, unit, reply);
    if frames == [] then [] else frames[0]
  }

  /** A request of this client was the last frame it sent. */
  ghost predicate Pending(c: Nmbs, pdu: Pdu)
    reads c
  {
    && c.Valid() && c.unitId == c.destAddressRtu && c.fc == pdu[0] && !c.broadcast
    && c.tx != [] && c.tx[|c.tx| - 1] == Frame(c.transport, c.transactionId, c.unitId, pdu)
  }

  /** v is the pending frame as it arrives over stale buffer contents. */
  ghost predicate ReceivedFrom(c: Nmbs, v: seq<u8>, stale: seq<u8>, pdu: Pdu)
    reads c
  {
    var frame := Frame(c.transport, c.transactionId, c.unitId, pdu);
    |stale| == BUF_SIZE && HeaderError(c.transport, true, frame) == NoError && v == Received(c.transport, stale, frame)
  }

  /** The transaction id a server sees: RTU frames carry none. */
  function SeenTid(t: Transport, tid: u16): u16 {
    if t.Tcp? then tid else 0
  }

  /** The line hands the client's frame to the server, lets it poll once, and hands its answer back. */
  method Deliver(c: Nmbs, s: Nmbs, srv: Server, f: FileStore, d: Option<DeviceInfo>, ghost pdu: Pdu)
    returns (ghost v: seq<u8>, ghost served: Served)
    requires Connected(c, s, srv) && Pending(c, pdu) && (d.Some? ==> Proper(d.value))
    modifies s, s.buf, c`rx, srv.coils, srv.regs, f`log
    ensures Connected(c, s, srv) && Pending(c, pdu) && unchanged(c`currentTid)
    ensures |v| >= HeaderSize(c.transport) && (c.transport.Tcp? ==> |v| == BUF_SIZE)
    ensures Carries(c.transport, v, c.transactionId, c.unitId, pdu)
    ensures ReceivedFrom(c, v, old(s.buf[..]), pdu)
    ensures served == Serve(c.transport, SeenTid(c.transport, c.transactionId), c.unitId, pdu[0], false,
                            old(srv.Contents()), d, f.callbacks, v, old(s.buf[..]))
    ensures c.rx == Carried(c.transport, c.transactionId, c.unitId, served.ans.reply)
    ensures served.ans.err != Fault ==> srv.Contents() == served.ans.db
    ensures f.log == old(f.log) + served.calls
  {
    hide Serve, Frame, Received, Carries, HeaderError, Sent, LineLeft;
    ghost var t, unit, tid := c.transport, c.unitId, c.transactionId;
    ghost var stale, frame := s.buf[..], Frame(t, tid, unit, pdu);
    s.rx := c.tx[|c.tx| - 1];
    s.tx := [];
    assert frame + [] == frame;
    FrameReceived(t, tid, unit, pdu, stale, []);
    v := Received(t, stale, frame);
    PduBytes(t, v, tid, unit, pdu);
    CarriedIds(t, v, tid, unit, pdu);
    served := Serve(t, SeenTid(t, tid), unit, pdu[0], false, srv.Contents(), d, f.callbacks, v, stale);
    var err := NmbsServerPoll(s, srv, f, d);
    SentIsCarried(t, tid, unit, served.ans.reply, s.tx);
    c.rx := if |s.tx| == 0 then [] else s.tx[0];
  }

  lemma CarriedIds(t: Transport, v: seq<u8>, tid: u16, unit: u8, pdu: seq<u8>)
    requires |v| >= HeaderSize(t) && |pdu| >= 1 && Carries(t, v, tid, unit, pdu)
    ensures v[HeaderSize(t) - 2] == unit && (if t.Tcp? then WordAt(v, 0) else 0) == SeenTid(t, tid)
  {
  }

  lemma SentIsCarried(t: Transport, tid: u16, unit: u8, reply: Reply, tx: seq<seq<u8>>)
    requires tx == [] + Sent(t, SeenTid(t, tid), unit, reply)
    ensures Carried(t, tid, unit, reply) == if |tx| == 0 then [] else tx[0]
  {
  }

  /** Deliver for a data request. */
  method DeliverData(c: Nmbs, s: Nmbs, srv: Server, f: FileStore, d: Option<DeviceInfo>, ghost fc: u8,
                     ghost req: Request)
    requires Connected(c, s, srv) && Encodable(fc, req) && Pending(c, RequestPdu(fc, req))
      && (d.Some? ==> Proper(d.value))
    modifies s, s.buf, c`rx, srv.coils, srv.regs, f`log
    ensures Connected(c, s, srv) && Pending(c, RequestPdu(fc, req)) && unchanged(c`currentTid) && f.log == old(f.log)
    ensures
      var ans := Execute(old(srv.Contents()), c.unitId, fc, false, req);
      && c.rx == Carried(c.transport, c.transactionId, c.unitId, ans.reply)
      && (ans.err != Fault ==> srv.Contents() == ans.db)
  {
    ghost var v, served := Deliver(c, s, srv, f, d, RequestPdu(fc, req));
    RequestRoundTrip(c.transport, v, c.transactionId, c.unitId, fc, req);
    hide Parse, Execute;
    assert f.log == old(f.log) + [];
  }

  //////////////////////////////////////////////////////////////////////////////
  // Operations on plain arrays
  //////////////////////////////////////////////////////////////////////////////

  datatype Call =
    | ReadCoils(address: u16, quantity: u16)
    | ReadDiscreteInputs(address: u16, quantity: u16)
    | ReadHolding(address: u16, quantity: u16)
    | ReadInput(address: u16, quantity: u16)
    | WriteOne(address: u16, value: u16)
    | WriteMany(address: u16, values: seq<u16>)
    | ReadWrite(readAddress: u16, readQuantity: u16, address: u16, values: seq<u16>)
    | SetCoil(address: u16, on: bool)
    | SetCoils(address: u16, quantity: u16, bitfield: seq<u8>)

  /** Registers, or the bytes of a bit field. */
  datatype Outcome = Ok(values: seq<u16>) | NotOk(err: Error)

  /** The C types of the arguments: quantities are 16-bit, a bitfield has 250 bytes. */
  ghost predicate Typed(call: Call) {
    && (call.WriteMany? || call.ReadWrite? ==> |call.values| < 0x1_0000)
    && (call.SetCoils? ==> |call.bitfield| == 250)
  }

  /** The range lies in a table of the given size, behind it, or across its end. */
  datatype Place = Inside | Behind | Across

  /** Behind starts one past the end: the callbacks only refuse an address greater than the size. */
  function PlaceOf(a: nat, q: nat, size: nat): Place {
    if a + q <= size then Inside else if a > size then Behind else Across
  }

  function CoilPlace(a: nat, q: nat): Place {
    if a + q <= 2048 then Inside else if a / 8 > 256 then Behind else Across
  }

  /** server_read_coils writes coil a at bit a of a 250-byte field, which is shorter than the table. */
  function CoilReadPlace(a: nat, q: nat): Place {
    if a + q <= BITFIELD_MAX then Inside else if a / 8 > 256 then Behind else Across
  }

  /** A range across the end of a table is where the C program's behaviour becomes undefined. */
  ghost predicate Defined(call: Call) {
    match call
    case ReadCoils(a, q) => CoilReadPlace(a, q) != Across
    case ReadDiscreteInputs(_, _) => true
    case ReadHolding(a, q) => PlaceOf(a, q, 256) != Across
    case ReadInput(a, q) => PlaceOf(a, q, 256) != Across
    case WriteOne(a, _) => PlaceOf(a, 1, 256) != Across
    case WriteMany(a, values) => PlaceOf(a, |values|, 256) != Across
    case ReadWrite(ra, rq, a, values) =>
      PlaceOf(a, |values|, 256) != Across && (PlaceOf(a, |values|, 256) == Inside ==> PlaceOf(ra, rq, 256) != Across)
    case SetCoil(a, _) => CoilPlace(a, 1) != Across
    case SetCoils(a, q, _) => CoilPlace(a, q) != Across
  }

  /** The calls the client refuses without sending anything. */
  predicate Accepted(call: Call) {
    match call
    case ReadCoils(a, q) => 1 <= q <= 2000 && a + q <= 65536
    case ReadDiscreteInputs(a, q) => 1 <= q <= 2000 && a + q <= 65536
    case ReadHolding(a, q) => 1 <= q <= 125 && a + q <= 65536
    case ReadInput(a, q) => 1 <= q <= 125 && a + q <= 65536
    case WriteOne(_, _) => true
    case WriteMany(a, values) => 1 <= |values| <= 123 && a as int + |values| <= 65536
    case ReadWrite(ra, rq, a, values) =>
      1 <= rq <= 125 && ra + rq <= 65536 && 1 <= |values| <= 121 && a as int + |values| <= 65536
    case SetCoil(_, _) => true
    case SetCoils(a, q, _) => 1 <= q <= 1968 && a + q <= 65536
  }

  /** A call that is sent is defined. */
  ghost predicate Safe(call: Call) {
    Accepted(call) ==> Defined(call)
  }

  /** The function code and request an accepted call sends. */
  function RequestOf(call: Call): (r: (u8, Request))
    requires Accepted(call) && (call.SetCoils? ==> |call.bitfield| == 250)
    ensures Sendable(r.0, r.1)
  {
    match call
    case ReadCoils(a, q) => (1, ReadBits(a, q))
    case ReadDiscreteInputs(a, q) => (2, ReadBits(a, q))
    case ReadHolding(a, q) => (3, ReadRegs(a, q))
    case ReadInput(a, q) => (4, ReadRegs(a, q))
    case WriteOne(a, v) => (6, WriteReg(a, v))
    case WriteMany(a, values) => (16, WriteRegs(a, |values|, 2 * |values|, values))
    case ReadWrite(ra, rq, a, values) => (23, ReadWriteRegs(ra, rq, a, |values|, 2 * |values|, values))
    case SetCoil(a, on) => (5, WriteCoil(a, if on then 0xFF00 else 0))
    case SetCoils(a, q, bitfield) => (15, WriteCoils(a, q, bitfield[..(q + 7) / 8]))
  }

  /** The server's behaviour on a call is defined exactly when no range of the call crosses the end of its table. */
  lemma FaultIffAcross(db: Db, call: Call)
    requires Sized(db) && Typed(call) && Accepted(call)
    ensures var (fc, req) := RequestOf(call);
      Execute(db, db.id, fc, false, req).err == Fault <==> !Defined(call)
  {
    hide RegsPdu, EchoPdu, BitsOf;
  }

  const DEVICE_FAILURE: Outcome := NotOk(Exception(SERVER_DEVICE_FAILURE))

  /** The call on plain arrays: its result and the arrays afterwards. */
  ghost function Plain(db: Db, call: Call): (r: (Outcome, Db))
    requires Sized(db) && Typed(call)
    ensures Sized(r.1)
  {
    if !Accepted(call) then (NotOk(InvalidArgument), db) else
    match call
    case ReadCoils(a, q) => if a + q <= BITFIELD_MAX then (Ok(CoilBytes(db, a, q)), db) else (DEVICE_FAILURE, db)
    case ReadDiscreteInputs(_, _) => (NotOk(Exception(ILLEGAL_FUNCTION)), db)
    case ReadHolding(a, q) => if a + q <= 256 then (Ok(db.regs[a..a + q]), db) else (DEVICE_FAILURE, db)
    case ReadInput(a, q) => if a + q <= 256 then (Ok(db.inputs[a..a + q]), db) else (DEVICE_FAILURE, db)
    case WriteOne(a, v) => if a < 256 then (Ok([]), db.(regs := db.regs[a := v])) else (DEVICE_FAILURE, db)
    case WriteMany(a, values) =>
      if a as int + |values| <= 256 then (Ok([]), db.(regs := Splice(db.regs, a, values))) else (DEVICE_FAILURE, db)
    case ReadWrite(ra, rq, a, values) =>
      if a as int + |values| > 256 then (DEVICE_FAILURE, db)
      else
        var after := Splice(db.regs, a, values);
        (if ra + rq <= 256 then Ok(after[ra..ra + rq]) else DEVICE_FAILURE, db.(regs := after))
    case SetCoil(a, on) => if a < 2048 then (Ok([]), db.(coils := db.coils[a := on])) else (DEVICE_FAILURE, db)
    case SetCoils(a, q, bitfield) =>
      if a + q <= 2048 then (Ok([]), db.(coils := Splice(db.coils, a, BitsOf(bitfield)[..q]))) else (DEVICE_FAILURE, db)
  }

  //////////////////////////////////////////////////////////////////////////////
  // The calls
  //////////////////////////////////////////////////////////////////////////////

  /** The client accepts the frame of pdu as the message it waits for, up to the function code. */
  lemma FrameAccepted(t: Transport, stale: seq<u8>, tid: u16, unit: u8, pdu: Pdu) returns (v: seq<u8>)
    requires |stale| == BUF_SIZE
    ensures HeaderError(t, true, Frame(t, tid, unit, pdu)) == NoError
      && v == Received(t, stale, Frame(t, tid, unit, pdu))
    ensures Carries(t, v, tid, unit, pdu)
    ensures ReceptionError(t, true, stale, Frame(t, tid, unit, pdu), tid, unit, pdu[0]) == NoError
  {
    var frame := Frame(t, tid, unit, pdu);
    assert frame + [] == frame;
    FrameReceived(t, tid, unit, pdu, stale, []);
    v := Received(t, stale, frame);
    HeaderAccepted(t, v, tid, unit, pdu);
  }

  lemma ExceptionAccepted(t: Transport, stale: seq<u8>, tid: u16, unit: u8, fc: u8, code: u8)
    requires |stale| == BUF_SIZE && fc < 0x80 && 1 <= code <= 4
    ensures ReceptionError(t, true, stale, Frame(t, tid, unit, [fc + 0x80, code]), tid, unit, fc) == Exception(code)
  {
    var pdu: Pdu := [fc + 0x80, code];
    var v := FrameAccepted(t, stale, tid, unit, pdu);
    ExceptionReceived(t, v, tid, unit, fc, code);
  }

  /** The second half of a register-reading call, when the line carries its answer. */
  method ReceiveRegisters(c: Nmbs, quantity: u16, ghost reply: Reply, ghost regs: seq<u16>)
    returns (err: Error, registers: seq<u16>)
    requires c.Valid() && c.linkUp && c.fc < 0x80 && c.rx == Carried(c.transport, c.transactionId, c.unitId, reply)
    requires reply == Send([c.fc + 0x80, SERVER_DEVICE_FAILURE])
      || (|regs| == quantity as int <= 125 && reply == Send(RegsPdu(c.fc, regs)))
    modifies c, c.buf
    ensures c.Valid() && unchanged(c`tx, c`linkUp, c`currentTid, c`destAddressRtu)
    ensures reply == Send([old(c.fc) + 0x80, SERVER_DEVICE_FAILURE]) ==> err == Exception(SERVER_DEVICE_FAILURE)
    ensures reply != Send([old(c.fc) + 0x80, SERVER_DEVICE_FAILURE]) ==> err == NoError && registers == regs
  {
    hide Frame, Carries, RegsResError, HeaderError, Received, ReceptionError;
    ghost var t, stale := c.transport, c.buf[..];
    if reply == Send([c.fc + 0x80, SERVER_DEVICE_FAILURE]) {
      ExceptionAccepted(t, stale, c.transactionId, c.unitId, c.fc, SERVER_DEVICE_FAILURE);
    } else {
      ghost var v := FrameAccepted(t, stale, c.transactionId, c.unitId, RegsPdu(c.fc, regs));
      RegsReceived(t, v, c.transactionId, c.unitId, c.fc, regs);
    }
    err, registers := RecvReadRegistersRes(c, quantity);
  }

  /** The second half of a bit-reading call. */
  method ReceiveBits(c: Nmbs, ghost reply: Reply, ghost bytes: seq<u8>, ghost code: u8)
    returns (err: Error, values: seq<u8>)
    requires c.Valid() && c.linkUp && c.fc < 0x80 && c.rx == Carried(c.transport, c.transactionId, c.unitId, reply)
    requires 1 <= code <= 4 && |bytes| <= 250
      && (reply == Send([c.fc + 0x80, code]) || reply == Send(BitsPdu(c.fc, bytes)))
    modifies c, c.buf
    ensures c.Valid() && unchanged(c`tx, c`linkUp, c`currentTid, c`destAddressRtu)
    ensures if reply == Send([old(c.fc) + 0x80, code]) then err == Exception(code)
            else err == NoError && values == bytes
  {
    hide Frame, Carries, BitsResError, HeaderError, Received, ReceptionError;
    ghost var t, stale := c.transport, c.buf[..];
    if reply == Send([c.fc + 0x80, code]) {
      ExceptionAccepted(t, stale, c.transactionId, c.unitId, c.fc, code);
    } else {
      ghost var v := FrameAccepted(t, stale, c.transactionId, c.unitId, BitsPdu(c.fc, bytes));
      BitsReceived(t, v, c.transactionId, c.unitId, c.fc, bytes);
    }
    err, values := RecvReadDiscreteRes(c);
  }

  /** The second half of a writing call. */
  method ReceiveEcho(c: Nmbs, a: u16, b: u16, ghost reply: Reply) returns (err: Error)
    requires c.Valid() && c.linkUp && c.fc < 0x80 && c.rx == Carried(c.transport, c.transactionId, c.unitId, reply)
    requires reply == Send([c.fc + 0x80, SERVER_DEVICE_FAILURE]) || reply == Send(EchoPdu(c.fc, a, b))
    modifies c, c.buf
    ensures c.Valid() && unchanged(c`tx, c`linkUp, c`currentTid, c`destAddressRtu)
    ensures err == if reply == Send(EchoPdu(old(c.fc), a, b)) then NoError else Exception(SERVER_DEVICE_FAILURE)
  {
    hide Frame, Carries, EchoResError, HeaderError, Received, ReceptionError;
    ghost var t, stale := c.transport, c.buf[..];
    if reply == Send(EchoPdu(c.fc, a, b)) {
      ghost var v := FrameAccepted(t, stale, c.transactionId, c.unitId, EchoPdu(c.fc, a, b));
      EchoReceived(t, v, c.transactionId, c.unitId, c.fc, a, b);
    } else {
      ExceptionAccepted(t, stale, c.transactionId, c.unitId, c.fc, SERVER_DEVICE_FAILURE);
    }
    err := RecvEchoRes(c, a, b);
  }

  /** The answer to an accepted, defined call is the plain result or exception 4. */
  ghost predicate AnswerIs(ans: Answer, fc: u8, normal: Pdu, ok: bool, db: Db) {
    ans.err == NoError && ans.db == db
      && ans.reply == Send(if ok then normal else [(fc + 0x80) % 0x100, SERVER_DEVICE_FAILURE])
  }

  lemma NotAccepted(db: Db, call: Call)
    requires Sized(db) && Typed(call) && !Accepted(call)
    ensures Plain(db, call) == (NotOk(InvalidArgument), db)
  {
  }

  function ReadCall(fc: u8, a: u16, q: u16): Call {
    if fc == 3 then ReadHolding(a, q) else ReadInput(a, q)
  }

  lemma ReadAnswer(db: Db, fc: u8, a: u16, q: u16)
    requires Sized(db) && 3 <= fc <= 4 && Accepted(ReadCall(fc, a, q)) && Defined(ReadCall(fc, a, q))
    ensures
      var (o, after) := Plain(db, ReadCall(fc, a, q));
      && after == db && (o.Ok? ==> |o.values| == q as int) && (!o.Ok? ==> o == DEVICE_FAILURE)
      && AnswerIs(Execute(db, db.id, fc, false, ReadRegs(a, q)), fc, RegsPdu(fc, if o.Ok? then o.values else []), o.Ok?,
                  db)
  {
    hide RegsPdu;
  }

  /** nmbs_read_holding_registers and nmbs_read_input_registers */
  method CallRead(c: Nmbs, s: Nmbs, srv: Server, f: FileStore, d: Option<DeviceInfo>, fc: u8, address: u16,
                  quantity: u16) returns (o: Outcome)
    requires Connected(c, s, srv) && (d.Some? ==> Proper(d.value)) && 3 <= fc <= 4
      && Safe(ReadCall(fc, address, quantity))
    modifies c, c.buf, s, s.buf, srv.coils, srv.regs, f`log
    ensures Connected(c, s, srv) && f.log == old(f.log)
    ensures (o, srv.Contents()) == Plain(old(srv.Contents()), ReadCall(fc, address, quantity))
  {
    hide Execute, RegsPdu, Frame, Plain, Defined;
    ghost var db := srv.Contents();
    var err := ReadRegisters(c, fc, address, quantity);
    if err != NoError {
      NotAccepted(db, ReadCall(fc, address, quantity));
      return NotOk(err);
    }
    ReadAnswer(db, fc, address, quantity);
    ghost var expected := Plain(db, ReadCall(fc, address, quantity)).0;
    DeliverData(c, s, srv, f, d, fc, ReadRegs(address, quantity));
    var registers;
    err, registers := ReceiveRegisters(c, quantity, Execute(db, c.unitId, fc, false, ReadRegs(address, quantity)).reply,
                                       if expected.Ok? then expected.values else []);
    o := if err == NoError then Ok(registers) else NotOk(err);
  }

  function ReadBitsCall(fc: u8, a: u16, q: u16): Call {
    if fc == 1 then ReadCoils(a, q) else ReadDiscreteInputs(a, q)
  }

  /** The server's answer to a bit-reading call: the bytes, or the exception. */
  lemma ReadBitsAnswer(db: Db, fc: u8, a: u16, q: u16) returns (bytes: seq<u8>, code: u8)
    requires Sized(db) && 1 <= fc <= 2 && Accepted(ReadBitsCall(fc, a, q)) && Defined(ReadBitsCall(fc, a, q))
    ensures |bytes| <= 250 && 1 <= code <= 4
    ensures
      var (o, after) := Plain(db, ReadBitsCall(fc, a, q));
      && after == db && (if o.Ok? then o.values == bytes else o == NotOk(Exception(code)))
      && Execute(db, db.id, fc, false, ReadBits(a, q))
         == Answer(NoError, Send(if o.Ok? then BitsPdu(fc, bytes) else [fc + 0x80, code]), db)
  {
    hide BitsPdu, CoilsOut;
    code := if fc == 1 then SERVER_DEVICE_FAILURE else ILLEGAL_FUNCTION;
    bytes := if fc == 1 && a + q <= BITFIELD_MAX then CoilBytes(db, a, q) else [];
  }

  /** nmbs_read_coils and nmbs_read_discrete_inputs */
  method CallReadBits(c: Nmbs, s: Nmbs, srv: Server, f: FileStore, d: Option<DeviceInfo>, fc: u8, address: u16,
                      quantity: u16) returns (o: Outcome)
    requires Connected(c, s, srv) && (d.Some? ==> Proper(d.value)) && 1 <= fc <= 2
      && Safe(ReadBitsCall(fc, address, quantity))
    modifies c, c.buf, s, s.buf, srv.coils, srv.regs, f`log
    ensures Connected(c, s, srv) && f.log == old(f.log)
    ensures (o, srv.Contents()) == Plain(old(srv.Contents()), ReadBitsCall(fc, address, quantity))
  {
    hide Execute, BitsPdu, Frame, Plain, Defined, RequestPdu, Carried;
    ghost var db := srv.Contents();
    var err := ReadDiscrete(c, fc, address, quantity);
    if err != NoError {
      NotAccepted(db, ReadBitsCall(fc, address, quantity));
      return NotOk(err);
    }
    ghost var bytes, code := ReadBitsAnswer(db, fc, address, quantity);
    DeliverData(c, s, srv, f, d, fc, ReadBits(address, quantity));
    var values;
    err, values := ReceiveBits(c, Execute(db, c.unitId, fc, false, ReadBits(address, quantity)).reply, bytes, code);
    o := if err == NoError then Ok(values) else NotOk(err);
  }

  lemma WriteOneAnswer(db: Db, a: u16, v: u16)
    requires Sized(db) && PlaceOf(a, 1, 256) != Across
    ensures AnswerIs(Execute(db, db.id, 6, false, WriteReg(a, v)), 6, EchoPdu(6, a, v), a < 256,
                     Plain(db, WriteOne(a, v)).1)
  {
    hide EchoPdu;
  }

  /** nmbs_write_single_register */
  method CallWriteOne(c: Nmbs, s: Nmbs, srv: Server, f: FileStore, d: Option<DeviceInfo>, address: u16, value: u16)
    returns (o: Outcome)
    requires Connected(c, s, srv) && (d.Some? ==> Proper(d.value)) && Safe(WriteOne(address, value))
    modifies c, c.buf, s, s.buf, srv.coils, srv.regs, f`log
    ensures Connected(c, s, srv) && f.log == old(f.log)
    ensures (o, srv.Contents()) == Plain(old(srv.Contents()), WriteOne(address, value))
  {
    hide Execute, EchoPdu, Frame, RequestPdu;
    ghost var db := srv.Contents();
    var err := WriteSingleRegister(c, address, value);
    if err != NoError {
      return NotOk(err);
    }
    WriteOneAnswer(db, address, value);
    DeliverData(c, s, srv, f, d, 6, WriteReg(address, value));
    err := ReceiveEcho(c, address, value, Execute(db, c.unitId, 6, false, WriteReg(address, value)).reply);
    o := if err == NoError then Ok([]) else NotOk(err);
  }

  lemma WriteManyAnswer(db: Db, a: u16, values: seq<u16>)
    requires Sized(db) && 1 <= |values| <= 123 && InRange(a, |values|) && PlaceOf(a, |values|, 256) != Across
    ensures AnswerIs(Execute(db, db.id, 16, false, WriteRegs(a, |values|, 2 * |values|, values)), 16,
                     EchoPdu(16, a, |values|),
                     a as int + |values| <= 256, Plain(db, WriteMany(a, values)).1)
  {
    hide EchoPdu;
  }

  /** nmbs_write_multiple_registers */
  method CallWriteMany(c: Nmbs, s: Nmbs, srv: Server, f: FileStore, d: Option<DeviceInfo>, address: u16,
                       values: seq<u16>) returns (o: Outcome)
    requires Connected(c, s, srv) && (d.Some? ==> Proper(d.value)) && |values| < 0x1_0000
      && Safe(WriteMany(address, values))
    modifies c, c.buf, s, s.buf, srv.coils, srv.regs, f`log
    ensures Connected(c, s, srv) && f.log == old(f.log)
    ensures (o, srv.Contents()) == Plain(old(srv.Contents()), WriteMany(address, values))
  {
    hide Execute, EchoPdu, Frame, RequestPdu;
    ghost var db := srv.Contents();
    assert values[..|values|] == values;
    var err := WriteMultipleRegisters(c, address, |values|, values);
    if err != NoError {
      return NotOk(err);
    }
    ghost var req := WriteRegs(address, |values|, 2 * |values|, values);
    WriteManyAnswer(db, address, values);
    DeliverData(c, s, srv, f, d, 16, req);
    err := ReceiveEcho(c, address, |values|, Execute(db, c.unitId, 16, false, req).reply);
    o := if err == NoError then Ok([]) else NotOk(err);
  }

  lemma ReadWriteAnswer(db: Db, ra: u16, rq: u16, a: u16, values: seq<u16>)
    requires Sized(db) && 1 <= rq <= 125 && InRange(ra, rq) && 1 <= |values| <= 121 && InRange(a, |values|)
    requires Defined(ReadWrite(ra, rq, a, values))
    ensures
      var (o, after) := Plain(db, ReadWrite(ra, rq, a, values));
      && (o.Ok? ==> |o.values| == rq as int) && (!o.Ok? ==> o == DEVICE_FAILURE)
      && AnswerIs(Execute(db, db.id, 23, false, ReadWriteRegs(ra, rq, a, |values|, 2 * |values|, values)), 23,
               RegsPdu(23, if o.Ok? then o.values else []), o.Ok?, after)
  {
    hide RegsPdu;
  }

  /** nmbs_read_write_registers */
  method CallReadWrite(c: Nmbs, s: Nmbs, srv: Server, f: FileStore, d: Option<DeviceInfo>, readAddress: u16,
                       readQuantity: u16, address: u16, values: seq<u16>)
    returns (o: Outcome)
    requires Connected(c, s, srv) && (d.Some? ==> Proper(d.value)) && |values| < 0x1_0000
    requires Safe(ReadWrite(readAddress, readQuantity, address, values))
    modifies c, c.buf, s, s.buf, srv.coils, srv.regs, f`log
    ensures Connected(c, s, srv) && f.log == old(f.log)
    ensures (o, srv.Contents()) == Plain(old(srv.Contents()), ReadWrite(readAddress, readQuantity, address, values))
  {
    hide Execute, RegsPdu, Frame, Plain, Defined, RequestPdu;
    ghost var db := srv.Contents();
    assert values[..|values|] == values;
    var err := ReadWriteRegisters(c, readAddress, readQuantity, address, |values|, values);
    if err != NoError {
      NotAccepted(db, ReadWrite(readAddress, readQuantity, address, values));
      return NotOk(err);
    }
    ghost var req := ReadWriteRegs(readAddress, readQuantity, address, |values|, 2 * |values|, values);
    ghost var expected := Plain(db, ReadWrite(readAddress, readQuantity, address, values)).0;
    ReadWriteAnswer(db, readAddress, readQuantity, address, values);
    DeliverData(c, s, srv, f, d, 23, req);
    var registers;
    err, registers := ReceiveRegisters(c, readQuantity, Execute(db, c.unitId, 23, false, req).reply,
                                       if expected.Ok? then expected.values else []);
    o := if err == NoError then Ok(registers) else NotOk(err);
  }

  lemma SetCoilAnswer(db: Db, a: u16, on: bool)
    requires Sized(db) && CoilPlace(a, 1) != Across
    ensures
      var v: u16 := if on then 0xFF00 else 0;
      AnswerIs(Execute(db, db.id, 5, false, WriteCoil(a, v)), 5, EchoPdu(5, a, v), a < 2048,
               Plain(db, SetCoil(a, on)).1)
  {
    hide EchoPdu;
  }

  /** nmbs_write_single_coil */
  method CallSetCoil(c: Nmbs, s: Nmbs, srv: Server, f: FileStore, d: Option<DeviceInfo>, address: u16, on: bool)
    returns (o: Outcome)
    requires Connected(c, s, srv) && (d.Some? ==> Proper(d.value)) && Safe(SetCoil(address, on))
    modifies c, c.buf, s, s.buf, srv.coils, srv.regs, f`log
    ensures Connected(c, s, srv) && f.log == old(f.log)
    ensures (o, srv.Contents()) == Plain(old(srv.Contents()), SetCoil(address, on))
  {
    hide Execute, EchoPdu, Frame, RequestPdu;
    ghost var db := srv.Contents();
    var err, valueReq := WriteSingleCoil(c, address, on);
    if err != NoError {
      return NotOk(err);
    }
    SetCoilAnswer(db, address, on);
    DeliverData(c, s, srv, f, d, 5, WriteCoil(address, valueReq));
    err := ReceiveEcho(c, address, valueReq, Execute(db, c.unitId, 5, false, WriteCoil(address, valueReq)).reply);
    o := if err == NoError then Ok([]) else NotOk(err);
  }

  lemma SetCoilsAnswer(db: Db, a: u16, q: u16, bitfield: seq<u8>)
    requires Sized(db) && |bitfield| == 250 && 1 <= q <= 1968 && InRange(a, q) && CoilPlace(a, q) != Across
    ensures AnswerIs(Execute(db, db.id, 15, false, WriteCoils(a, q, bitfield[..(q + 7) / 8])), 15, EchoPdu(15, a, q),
                     a + q <= 2048,
                     Plain(db, SetCoils(a, q, bitfield)).1)
  {
    hide EchoPdu;
    assert BitsOf(bitfield[..(q + 7) / 8])[..q] == BitsOf(bitfield)[..q];
  }

  /** nmbs_write_multiple_coils */
  method CallSetCoils(c: Nmbs, s: Nmbs, srv: Server, f: FileStore, d: Option<DeviceInfo>, address: u16, quantity: u16,
                      bitfield: seq<u8>) returns (o: Outcome)
    requires Connected(c, s, srv) && (d.Some? ==> Proper(d.value)) && |bitfield| == 250
      && Safe(SetCoils(address, quantity, bitfield))
    modifies c, c.buf, s, s.buf, srv.coils, srv.regs, f`log
    ensures Connected(c, s, srv) && f.log == old(f.log)
    ensures (o, srv.Contents()) == Plain(old(srv.Contents()), SetCoils(address, quantity, bitfield))
  {
    hide Execute, EchoPdu, Frame, RequestPdu, BitsOf, Splice;
    ghost var db := srv.Contents();
    var err := WriteMultipleCoils(c, address, quantity, bitfield);
    if err != NoError {
      return NotOk(err);
    }
    ghost var req := WriteCoils(address, quantity, bitfield[..(quantity + 7) / 8]);
    SetCoilsAnswer(db, address, quantity, bitfield);
    DeliverData(c, s, srv, f, d, 15, req);
    err := ReceiveEcho(c, address, quantity, Execute(db, c.unitId, 15, false, req).reply);
    o := if err == NoError then Ok([]) else NotOk(err);
  }

  //////////////////////////////////////////////////////////////////////////////
  // Whole runs
  //////////////////////////////////////////////////////////////////////////////

  method Perform(c: Nmbs, s: Nmbs, srv: Server, f: FileStore, d: Option<DeviceInfo>, call: Call) returns (o: Outcome)
    requires Connected(c, s, srv) && (d.Some? ==> Proper(d.value)) && Typed(call) && Safe(call)
    modifies c, c.buf, s, s.buf, srv.coils, srv.regs, f`log
    ensures Connected(c, s, srv) && f.log == old(f.log)
    ensures (o, srv.Contents()) == Plain(old(srv.Contents()), call)
  {
    hide Plain;
    match call
    case ReadCoils(a, q) => o := CallReadBits(c, s, srv, f, d, 1, a, q);
    case ReadDiscreteInputs(a, q) => o := CallReadBits(c, s, srv, f, d, 2, a, q);
    case ReadHolding(a, q) => o := CallRead(c, s, srv, f, d, 3, a, q);
    case ReadInput(a, q) => o := CallRead(c, s, srv, f, d, 4, a, q);
    case WriteOne(a, v) => o := CallWriteOne(c, s, srv, f, d, a, v);
    case WriteMany(a, values) => o := CallWriteMany(c, s, srv, f, d, a, values);
    case ReadWrite(ra, rq, a, values) => o := CallReadWrite(c, s, srv, f, d, ra, rq, a, values);
    case SetCoil(a, on) => o := CallSetCoil(c, s, srv, f, d, a, on);
    case SetCoils(a, q, bitfield) => o := CallSetCoils(c, s, srv, f, d, a, q, bitfield);
  }

  ghost predicate AllSafe(calls: seq<Call>) {
    forall i :: 0 <= i < |calls| ==> Typed(calls[i]) && Safe(calls[i])
  }

  /** A run of calls on plain arrays. */
  ghost function PlainRun(db: Db, calls: seq<Call>): (r: (seq<Outcome>, Db))
    requires Sized(db) && AllSafe(calls)
    ensures Sized(r.1)
  {
    if calls == [] then ([], db) else
      var (before, db') := PlainRun(db, calls[..|calls| - 1]);
      assert Typed(calls[|calls| - 1]) && Safe(calls[|calls| - 1]);
      var (o, db'') := Plain(db', calls[|calls| - 1]);
      (before + [o], db'')
  }

  /**
   Every finite sequence of calls over the line gives the results, and leaves the store, of the same run on plain
   arrays.
   */
  method Run(c: Nmbs, s: Nmbs, srv: Server, f: FileStore, d: Option<DeviceInfo>, calls: seq<Call>)
    returns (outcomes: seq<Outcome>)
    requires Connected(c, s, srv) && (d.Some? ==> Proper(d.value)) && AllSafe(calls)
    modifies c, c.buf, s, s.buf, srv.coils, srv.regs, f`log
    ensures Connected(c, s, srv) && f.log == old(f.log)
    ensures (outcomes, srv.Contents()) == PlainRun(old(srv.Contents()), calls)
  {
    hide Plain;
    outcomes := [];
    for i := 0 to |calls|
      invariant Connected(c, s, srv) && f.log == old(f.log)
      invariant (outcomes, srv.Contents()) == PlainRun(old(srv.Contents()), calls[..i])
    {
      assert calls[..i + 1][..i] == calls[..i];
      var o := Perform(c, s, srv, f, d, calls[i]);
      outcomes := outcomes + [o];
    }
    assert calls[..|calls|] == calls;
  }
}
