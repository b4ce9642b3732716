/** nmbs_server_poll: one request from header to response, over every function code. */
module Poll {
  import opened Wrappers
  import opened Bytes
  import opened Adu
  import opened Store
  import opened Protocol
  import opened NmbsCore
  import opened Responses
  import opened Handlers
  import opened Requests
  import opened DeviceId
  import opened DeviceHandler
  import opened DeviceResponses
  import opened Files
  import opened FileHandler
  import opened FileResponses

  //////////////////////////////////////////////////////////////////////////////
  // What a request is answered with
  //////////////////////////////////////////////////////////////////////////////

  /** An answer, and the calls of write_file_record made for it. */
  datatype Served = Served(ans: Answer, calls: seq<Record>)

  /** A message could not be read to its end. */
  function Unserved(e: Error, db: Db): Served {
    Served(Answer(e, Silent, db), [])
  }

  function ServeDevice(t: Transport, fc: u8, broadcast: bool, db: Db, d: Option<DeviceInfo>, v: seq<u8>): Served
    requires |v| >= HeaderSize(t) && (d.Some? ==> Proper(d.value))
  {
    var h := HeaderSize(t);
    if |v| < h + 3 then Unserved(TimedOut, db)
    else if FooterError(t, v, h + 3, h + 3) != NoError then Unserved(FooterError(t, v, h + 3, h + 3), db)
    else Served(ExecuteDeviceId(db, d, fc, broadcast, v[h], v[h + 1], v[h + 2]), [])
  }

  /** The byte count and payload both file requests start with, limited to at most limit bytes. */
  function PayloadError(t: Transport, v: seq<u8>, limit: u8): (e: Error)
    requires |v| >= HeaderSize(t)
    ensures e == NoError ==>
      HeaderSize(t) + 1 <= |v| && HeaderSize(t) + 1 + v[HeaderSize(t)] <= |v| && v[HeaderSize(t)] <= limit
    ensures e == NoError && t.Rtu? ==> HeaderSize(t) + 3 + v[HeaderSize(t)] <= |v|
  {
    var h := HeaderSize(t);
    if |v| < h + 1 then TimedOut
    else if v[h] > limit then InvalidRequest
    else if |v| < h + 1 + v[h] then TimedOut
    else FooterError(t, v, h + 1 + v[h], h + 1 + v[h])
  }

  function ServeReadFileFc(t: Transport, tid: u16, unit: u8, fc: u8, broadcast: bool, db: Db, p: Option<FilePolicy>,
                           v: seq<u8>): Served
    requires |v| >= HeaderSize(t)
  {
    var h := HeaderSize(t);
    var e := PayloadError(t, v, 245);
    if e != NoError then Unserved(e, db)
    else Served(ExecuteReadFile(db, p, t, tid, unit, fc, broadcast, v[h + 1..h + 1 + v[h]]), [])
  }

  function ServeWriteFileFc(t: Transport, fc: u8, broadcast: bool, db: Db, p: Option<FilePolicy>, v: seq<u8>,
                            stale: seq<u8>): Served
    requires |v| >= HeaderSize(t) && |stale| == BUF_SIZE && (t.Tcp? ==> |v| == BUF_SIZE)
  {
    var h := HeaderSize(t);
    var e := PayloadError(t, v, 251);
    if e != NoError then Unserved(e, db)
    else
      var (ans, calls) := ExecuteWriteFile(db, p, fc, broadcast, Memory(t, v, stale, h + 1 + v[h] + 2), h + 1, v[h]);
      Served(ans, calls)
  }

  function ServeData(t: Transport, unit: u8, fc: u8, broadcast: bool, db: Db, v: seq<u8>): Served
    requires IsDataFunction(fc) && Sized(db) && |v| >= HeaderSize(t) && (t.Tcp? ==> |v| == BUF_SIZE)
  {
    match Parse(t, fc, v)
    case Unread(e) => Unserved(e, db)
    case Read(req) => Served(Execute(db, unit, fc, broadcast, req), [])
  }

  /** handle_req_fc for a request addressed to this server (or broadcast). */
  function Serve(t: Transport, tid: u16, unit: u8, fc: u8, broadcast: bool, db: Db, d: Option<DeviceInfo>,
                 p: Option<FilePolicy>, v: seq<u8>, stale: seq<u8>): Served
    requires Sized(db) && (d.Some? ==> Proper(d.value))
    requires |v| >= HeaderSize(t) && (t.Tcp? ==> |v| == BUF_SIZE) && |stale| == BUF_SIZE
  {
    if IsDataFunction(fc) then ServeData(t, unit, fc, broadcast, db, v)
    else if fc == 20 then ServeReadFileFc(t, tid, unit, fc, broadcast, db, p, v)
    else if fc == 21 then ServeWriteFileFc(t, fc, broadcast, db, p, v, stale)
    else if fc == 43 then ServeDevice(t, fc, broadcast, db, d, v)
    else Served(if broadcast then Answer(NoError, Silent, db) else Refuse(fc, ILLEGAL_FUNCTION, db), [])
  }

  //////////////////////////////////////////////////////////////////////////////
  // What a message takes from an RTU line
  //////////////////////////////////////////////////////////////////////////////

  predicate Known(fc: u8) {
    IsDataFunction(fc) || fc == 20 || fc == 21 || fc == 43
  }

  /** The end of an RTU request, or the error that keeps a handler from reading it. */
  datatype Reading = End(at: nat) | Unreadable(err: Error)

  function RequestReading(fc: u8, v: seq<u8>): (r: Reading)
    requires Known(fc) && |v| >= 2
    ensures r.End? ==> r.at <= |v|
  {
    if IsDataFunction(fc) then
      match Parse(Rtu, fc, v)
      case Unread(e) => Unreadable(e)
      case Read(_) => End(RequestEnd(fc, v))
    else if fc == 43 then
      if |v| < 5 then Unreadable(TimedOut)
      else if FooterError(Rtu, v, 5, 5) != NoError then Unreadable(FooterError(Rtu, v, 5, 5))
      else End(7)
    else
      var e := PayloadError(Rtu, v, if fc == 20 then 245 else 251);
      if e != NoError then Unreadable(e) else End(5 + v[2] as int)
  }

  /** A request this server read on RTU and served leaves the line right behind it. */
  ghost predicate RequestConsumed(n: Nmbs, v: seq<u8>, fc: u8, err: Error)
    reads n
  {
    n.transport.Rtu? && Known(fc) && |v| >= 2 && RequestReading(fc, v).End? && err == NoError ==>
      n.rx == v[RequestReading(fc, v).at..]
  }

  /** The outcome of receiving another unit's file response, over whatever msg.buf held. */
  ghost predicate FileSkipped(n: Nmbs, rest: seq<u8>, unit: u8, fc: u8, err: Error)
    reads n
  {
    if RtuReceptionError(rest, unit, fc) != NoError then err == RtuReceptionError(rest, unit, fc) else
    && (exists stale: seq<u8> :: |stale| == BUF_SIZE && err == FileResError(rest, stale, fc))
    && (err == NoError ==> |rest| >= 3 && rest[2] as int + 5 <= |rest| && n.rx == rest[rest[2] as int + 5..])
  }

  function FileResError(rest: seq<u8>, stale: seq<u8>, fc: u8): Error
    requires |rest| >= 2 && |stale| == BUF_SIZE
  {
    if fc == 20 then ReadFileResError(Rtu, rest, stale, false, 0)
    else WriteFileResError(Rtu, rest, stale, false, Record(0, 0, []))
  }

  /** The outcome of receiving another unit's device identification page. */
  ghost predicate PageSkipped(n: Nmbs, rest: seq<u8>, unit: u8, err: Error)
    reads n
  {
    if RtuReceptionError(rest, unit, 43) != NoError then err == RtuReceptionError(rest, unit, 43) else
    match TakePage(Rtu, rest, None)
    case Lost(e) => err == e
    case Taken(end, _) => err == NoError && n.rx == rest[end + 2..]
  }

  /** A request for another unit was followed by the consumption of that unit's response. */
  ghost predicate BystanderDone(n: Nmbs, was: seq<seq<u8>>, v: seq<u8>, unit: u8, fc: u8, err: Error)
    reads n
  {
    Known(fc) && |v| >= 2 ==>
      match RequestReading(fc, v)
      case Unreadable(e) => err == e
      case End(at) =>
        if IsDataFunction(fc) then Skipped(n, was, v[at..], unit, fc, Parse(Rtu, fc, v).req, err)
        else if fc == 43 then PageSkipped(n, v[at..], unit, err)
        else FileSkipped(n, v[at..], unit, fc, err)
  }

  /** The two outcomes on a line, for a request for another unit and for one that is served. */
  ghost predicate LineLeft(n: Nmbs, was: seq<seq<u8>>, v: seq<u8>, unit: u8, fc: u8, ignored: bool, err: Error)
    reads n
  {
    if ignored then BystanderDone(n, was, v, unit, fc, err) else RequestConsumed(n, v, fc, err)
  }

  //////////////////////////////////////////////////////////////////////////////
  // The handlers that are not data functions
  //////////////////////////////////////////////////////////////////////////////

  /** The handler did what served says, or stayed silent about another unit's request. */
  ghost predicate Done(n: Nmbs, s: Server, f: FileStore, was: seq<seq<u8>>, log: seq<Record>, db: Db, tid: u16,
                       unit: u8, ignored: bool, served: Served, err: Error)
    requires s.Valid()
    reads n`tx, s.Repr(), f
  {
    if ignored then
      n.tx == was && s.Contents() == db && f.log == log
    else
      Answered(n, s, was, tid, unit, served.ans, err) && f.log == log + served.calls
  }

  method RecvDeviceRequest(n: Nmbs) returns (err: Error, meiType: u8, readDeviceIdCode: u8, objectId: u8)
    requires AfterHeader(n)
    modifies n`fill, n`rx, n`bufIdx, n.buf
    ensures |n.rx| <= |old(n.rx)|
    ensures n.Valid()
    ensures
      var v, h := old(n.View()), old(n.bufIdx);
      if |v| < h + 3 then err == TimedOut else
      && err == FooterError(n.transport, v, h + 3, h + 3)
      && (err == NoError ==> meiType == v[h] && readDeviceIdCode == v[h + 1] && objectId == v[h + 2])
      && (err == NoError && n.transport.Rtu? ==> h + 5 <= |v| && n.rx == v[h + 5..])
  {
    meiType, readDeviceIdCode, objectId := 0, 0, 0;
    ghost var v := n.View();
    err := n.Recv(3);
    if err != NoError {
      return;
    }
    assert n.View() == v;
    meiType := n.Get1();
    readDeviceIdCode := n.Get1();
    objectId := n.Get1();
    err := RecvEnd(n);
  }

  /** Another unit's page is received and dropped. */
  method SkipPage(n: Nmbs) returns (err: Error)
    requires n.Valid() && n.linkUp && n.transport.Rtu? && n.fc == 43
    modifies n, n.buf
    ensures |n.rx| <= |old(n.rx)|
    ensures n.Valid() && unchanged(n`tx, n`currentTid, n`destAddressRtu, n`linkUp)
    ensures PageSkipped(n, old(n.rx), old(n.unitId), err)
  {
    hide ReceptionError, TakePage;
    var objects, nextObjectId;
    RtuReception(n, n.buf[..], n.rx, n.transactionId, n.unitId, n.fc);
    err, objects, nextObjectId := RecvDeviceIdRes(n, None);
  }

  method HandleDeviceId(n: Nmbs, s: Server, f: FileStore, d: Option<DeviceInfo>) returns (err: Error)
    requires HandlerStart(n, s) && n.fc == 43 && (d.Some? ==> Proper(d.value))
    modifies n, n.buf
    ensures |n.rx| <= |old(n.rx)|
    ensures n.Valid() && unchanged(n`currentTid, n`destAddressRtu, n`linkUp)
    ensures Done(n, s, f, old(n.tx), f.log, old(s.Contents()), old(n.transactionId), old(n.unitId), old(n.ignored),
      ServeDevice(n.transport, 43, old(n.broadcast), old(s.Contents()), d, old(n.View())), err)
    ensures LineLeft(n, old(n.tx), old(n.View()), old(n.unitId), 43, old(n.ignored), err)
  {
    hide ExecuteDeviceId, PageSkipped, FooterError;
    var meiType, readDeviceIdCode, objectId;
    err, meiType, readDeviceIdCode, objectId := RecvDeviceRequest(n);
    if err != NoError {
      return;
    }
    if !n.ignored {
      err := ServeDeviceId(n, s, d, meiType, readDeviceIdCode, objectId);
    } else {
      err := SkipPage(n);
    }
  }

  /** A byte count and the payload behind it, for functions 20 and 21. */
  method RecvPayload(n: Nmbs, limit: u8) returns (err: Error, requestSize: u8)
    requires AfterHeader(n) && limit <= 251
    modifies n`fill, n`rx, n`bufIdx, n.buf
    ensures |n.rx| <= |old(n.rx)|
    ensures n.Valid()
    ensures
      var v, h := old(n.View()), old(n.bufIdx);
      if |v| < h + 1 then err == TimedOut
      else if v[h] > limit then err == InvalidRequest
      else if |v| < h + 1 + v[h] then err == TimedOut
      else err == NoError && n.Receiving() && n.View() == v && n.bufIdx == h + 1
           && requestSize == v[h] && h + 1 + requestSize <= n.fill
           && (n.transport.Rtu? ==> n.fill == h + 1 + requestSize && n.rx == v[h + 1 + requestSize..])
           && n.buf[n.fill..] == old(n.buf[..])[n.fill..]
  {
    requestSize := 0;
    ghost var v := n.View();
    err := n.Recv(1);
    if err != NoError {
      return;
    }
    assert n.View() == v;
    ghost var stale, mid := old(n.buf[..]), n.buf[..];
    assert mid[n.fill..] == stale[n.fill..];
    requestSize := n.Get1();
    if requestSize > limit {
      return InvalidRequest, requestSize;
    }
    ghost var end := n.bufIdx + requestSize;
    assert end <= BUF_SIZE ==> mid[end..] == stale[end..];
    err := n.Recv(requestSize);
    assert err == NoError ==> n.buf[n.fill..] == mid[n.fill..];
  }

  /** What a file function's handler leaves on the line, from what its two halves do. */
  lemma FileLeft(n: Nmbs, was: seq<seq<u8>>, v: seq<u8>, unit: u8, fc: u8, ignored: bool, err: Error)
    requires (fc == 20 || fc == 21) && |v| >= HeaderSize(n.transport) && (ignored ==> n.transport.Rtu?)
    requires
      var e := PayloadError(n.transport, v, if fc == 20 then 245 else 251);
      if e != NoError then err == e
      else if ignored then FileSkipped(n, v[5 + v[2] as int..], unit, fc, err)
      else err == NoError && n.transport.Rtu? ==> n.rx == v[5 + v[2] as int..]
    ensures LineLeft(n, was, v, unit, fc, ignored, err)
  {
    hide PayloadError, FileSkipped;
  }

  /** Another unit's response to a file request is received and dropped. */
  method SkipFile(n: Nmbs) returns (err: Error)
    requires n.Valid() && n.linkUp && n.transport.Rtu? && (n.fc == 20 || n.fc == 21)
    modifies n, n.buf
    ensures |n.rx| <= |old(n.rx)|
    ensures n.Valid() && unchanged(n`tx, n`currentTid, n`destAddressRtu, n`linkUp)
    ensures FileSkipped(n, old(n.rx), old(n.unitId), old(n.fc), err)
  {
    hide ReceptionError, ReadFileResError, WriteFileResError;
    ghost var rest, stale, fc := n.rx, n.buf[..], n.fc;
    RtuReception(n, stale, n.rx, n.transactionId, n.unitId, n.fc);
    if n.fc == 20 {
      var registers;
      err, registers := RecvReadFileRecordRes(n, false, 0);
    } else {
      err := RecvWriteFileRecordRes(n, false, Record(0, 0, []));
    }
    assert RtuReceptionError(rest, old(n.unitId), fc) == NoError ==> err == FileResError(rest, stale, fc);
  }

  lemma PartOfPrefix(a: seq<u8>, b: seq<u8>, upto: nat, from: nat, end: nat)
    requires from <= end <= upto <= |a| && upto <= |b| && a[..upto] == b[..upto]
    ensures a[from..end] == b[from..end]
  {
    assert a[from..end] == a[..upto][from..end] && b[from..end] == b[..upto][from..end];
  }

  method RecvReadFileRequest(n: Nmbs) returns (err: Error, requestSize: u8, subs: seq<SubRead>, responseDataSize: u8)
    requires AfterHeader(n)
    modifies n`fill, n`rx, n`bufIdx, n.buf
    ensures |n.rx| <= |old(n.rx)|
    ensures n.Valid()
    ensures
      var v, h := old(n.View()), old(n.bufIdx);
      && err == PayloadError(n.transport, v, 245)
      && (err == NoError ==>
            && requestSize == v[h] && subs == SubReads(v[h + 1..h + 1 + requestSize])
            && responseDataSize == ResponseSize(subs) % 0x100)
      && (err == NoError && n.transport.Rtu? ==> n.rx == v[h + 3 + requestSize..])
  {
    hide SubReads, ResponseSize, FooterError;
    ghost var v, h := n.View(), n.bufIdx;
    subs, responseDataSize := [], 0;
    err, requestSize := RecvPayload(n, 245);
    if err != NoError {
      return;
    }
    assert n.buf[..n.fill] == v[..n.fill];
    PartOfPrefix(n.buf[..], v, n.fill, h + 1, h + 1 + requestSize as int);
    subs, responseDataSize := GetSubReads(n, requestSize);
    n.Discard(requestSize % 7);
    err := RecvEnd(n);
  }

  method HandleReadFile(n: Nmbs, s: Server, f: FileStore) returns (err: Error)
    requires HandlerStart(n, s) && n.fc == 20
    modifies n, n.buf
    ensures |n.rx| <= |old(n.rx)|
    ensures n.Valid() && unchanged(n`currentTid, n`destAddressRtu, n`linkUp)
    ensures Done(n, s, f, old(n.tx), f.log, old(s.Contents()), old(n.transactionId), old(n.unitId), old(n.ignored),
      ServeReadFileFc(n.transport, old(n.transactionId), old(n.unitId), 20, old(n.broadcast), old(s.Contents()),
                      f.callbacks, old(n.View())), err)
    ensures LineLeft(n, old(n.tx), old(n.View()), old(n.unitId), 20, old(n.ignored), err)
  {
    hide ExecuteReadFile, SubReads, ResponseSize, PayloadError, ReceptionError, ReadFileResError, FileSkipped, LineLeft;
    ghost var v, h := n.View(), n.bufIdx;
    var requestSize, subs, responseDataSize;
    err, requestSize, subs, responseDataSize := RecvReadFileRequest(n);
    if err != NoError {
      FileLeft(n, old(n.tx), v, old(n.unitId), 20, old(n.ignored), err);
      return;
    }
    if !n.ignored {
      err := ServeReadFile(n, s, f, requestSize, subs, responseDataSize, v[h + 1..h + 1 + requestSize]);
    } else {
      err := SkipFile(n);
    }
    FileLeft(n, old(n.tx), v, old(n.unitId), 20, old(n.ignored), err);
  }

  /** Afterwards the whole message is in msg.buf; the index of its sub-requests is kept for later. */
  method RecvWriteFileRequest(n: Nmbs) returns (err: Error, requestSize: u8, msgBufIdx: nat)
    requires AfterHeader(n)
    modifies n`fill, n`rx, n`bufIdx, n.buf
    ensures |n.rx| <= |old(n.rx)|
    ensures n.Valid()
    ensures
      var v, h := old(n.View()), old(n.bufIdx);
      && err == PayloadError(n.transport, v, 251)
      && (err == NoError ==>
            && requestSize == v[h] && msgBufIdx == h + 1
            && n.buf[..] == Memory(n.transport, v, old(n.buf[..]), h + 1 + requestSize + 2)
            && (n.transport.Rtu? ==> n.rx == v[h + 3 + requestSize..]))
  {
    hide Memory;
    ghost var v, stale := n.View(), n.buf[..];
    msgBufIdx := 0;
    err, requestSize := RecvPayload(n, 251);
    if err != NoError {
      return;
    }
    msgBufIdx := n.bufIdx;
    n.Discard(requestSize);
    ghost var m, rx, end := n.buf[..], n.rx, n.bufIdx;
    err := n.RecvMsgFooter();
    if err == NoError {
      MemoryAfter(n.transport, v, stale, m, rx, end, n.buf[..]);
    }
  }

  /** The footer behind a received payload completes the memory image of the message. */
  lemma MemoryAfter(t: Transport, v: seq<u8>, stale: seq<u8>, m: seq<u8>, rx: seq<u8>, end: nat, after: seq<u8>)
    requires |stale| == BUF_SIZE == |m|
    requires t.Tcp? ==> m == v == after
    requires t.Rtu? ==> end + 2 <= BUF_SIZE && |rx| >= 2 && v == m[..end] + rx && m[end..] == stale[end..]
    requires t.Rtu? ==> after == m[..end] + rx[..2] + m[end + 2..]
    ensures after == Memory(t, v, stale, end + 2)
  {
    assert t.Rtu? ==> v[..end + 2] == m[..end] + rx[..2] && m[end + 2..] == m[end..][2..];
  }

  method HandleWriteFile(n: Nmbs, s: Server, f: FileStore) returns (err: Error)
    requires HandlerStart(n, s) && n.fc == 21
    modifies n, n.buf, f`log
    ensures |n.rx| <= |old(n.rx)|
    ensures n.Valid() && unchanged(n`currentTid, n`destAddressRtu, n`linkUp)
    ensures Done(n, s, f, old(n.tx), old(f.log), old(s.Contents()), old(n.transactionId), old(n.unitId), old(n.ignored),
      ServeWriteFileFc(n.transport, 21, old(n.broadcast), old(s.Contents()), f.callbacks, old(n.View()),
                       old(n.buf[..])), err)
    ensures LineLeft(n, old(n.tx), old(n.View()), old(n.unitId), 21, old(n.ignored), err)
  {
    hide ExecuteWriteFile, Memory, PayloadError, FileSkipped, LineLeft;
    ghost var v := n.View();
    var requestSize, msgBufIdx;
    err, requestSize, msgBufIdx := RecvWriteFileRequest(n);
    if err != NoError {
      FileLeft(n, old(n.tx), v, old(n.unitId), 21, old(n.ignored), err);
      return;
    }
    if !n.ignored {
      err := ServeWriteFile(n, s, f, msgBufIdx, requestSize);
    } else {
      err := SkipFile(n);
    }
    FileLeft(n, old(n.tx), v, old(n.unitId), 21, old(n.ignored), err);
  }

  //////////////////////////////////////////////////////////////////////////////
  // The dispatcher and the poll
  //////////////////////////////////////////////////////////////////////////////

  lemma HandledIsDone(n: Nmbs, s: Server, f: FileStore, was: seq<seq<u8>>, db: Db, tid: u16, unit: u8, fc: u8,
                      broadcast: bool, ignored: bool, v: seq<u8>, err: Error)
    requires s.Valid() && Sized(db) && IsDataFunction(fc)
    requires |v| >= HeaderSize(n.transport) && (n.transport.Tcp? ==> |v| == BUF_SIZE)
    requires (ignored ==> n.transport.Rtu?) && Handled(n, s, was, db, tid, unit, fc, broadcast, ignored, v, err)
    ensures Done(n, s, f, was, f.log, db, tid, unit, ignored, ServeData(n.transport, unit, fc, broadcast, db, v), err)
    ensures LineLeft(n, was, v, unit, fc, ignored, err)
  {
    hide Parse, Execute, SkipError;
    assert was + [] == was && f.log + [] == f.log;
  }

  method HandleData(n: Nmbs, s: Server) returns (err: Error)
    requires HandlerStart(n, s) && IsDataFunction(n.fc)
    modifies n, n.buf, s.coils, s.regs
    ensures |n.rx| <= |old(n.rx)|
    ensures n.Valid() && unchanged(n`currentTid, n`destAddressRtu, n`linkUp)
    ensures Handled(n, s, old(n.tx), old(s.Contents()), old(n.transactionId), old(n.unitId), old(n.fc),
                    old(n.broadcast), old(n.ignored), old(n.View()), err)
  {
    hide Parse, Execute, SkipError;
    if n.fc == 1 || n.fc == 2 {
      err := HandleReadDiscrete(n, s, n.fc == 1);
    } else if n.fc == 3 || n.fc == 4 {
      err := HandleReadRegisters(n, s);
    } else if n.fc == 5 {
      err := HandleWriteSingleCoil(n, s);
    } else if n.fc == 6 {
      err := HandleWriteSingleRegister(n, s);
    } else if n.fc == 15 {
      err := HandleWriteMultipleCoils(n, s);
    } else if n.fc == 16 {
      err := HandleWriteMultipleRegisters(n, s);
    } else {
      err := HandleReadWriteRegisters(n, s);
    }
  }

  /** What flush leaves of the bytes that wait on a working line. */
  function Flushed(waiting: seq<u8>): seq<u8> {
    if |waiting| <= 260 then [] else waiting[260..]
  }

  lemma UnknownLeft(n: Nmbs, was: seq<seq<u8>>, v: seq<u8>, unit: u8, fc: u8, ignored: bool, err: Error)
    requires !Known(fc)
    ensures LineLeft(n, was, v, unit, fc, ignored, err)
  {
  }

  /** The default branch of handle_req_fc. */
  method HandleUnknown(n: Nmbs, s: Server, f: FileStore) returns (err: Error)
    requires HandlerStart(n, s) && !Known(n.fc)
    modifies n, n.buf
    ensures |n.rx| <= |old(n.rx)|
    ensures n.Valid() && unchanged(n`currentTid, n`destAddressRtu, n`linkUp)
    ensures Done(n, s, f, old(n.tx), f.log, old(s.Contents()), old(n.transactionId), old(n.unitId), old(n.ignored),
      Served(if old(n.broadcast) then Answer(NoError, Silent, old(s.Contents()))
             else Refuse(old(n.fc), ILLEGAL_FUNCTION, old(s.Contents())), []), err)
    ensures LineLeft(n, old(n.tx), old(n.View()), old(n.unitId), old(n.fc), old(n.ignored), err)
    ensures n.rx == Flushed(old(n.rx)) && err == NoError
  {
    hide LineLeft;
    n.Flush();
    err := NoError;
    if !n.ignored && !n.broadcast {
      err := n.SendExceptionMsg(ILLEGAL_FUNCTION);
    }
    UnknownLeft(n, old(n.tx), old(n.View()), old(n.unitId), old(n.fc), old(n.ignored), err);
    assert f.log + [] == f.log && n.tx + [] == n.tx;
  }

  /** handle_req_fc */
  method HandleReqFc(n: Nmbs, s: Server, f: FileStore, d: Option<DeviceInfo>) returns (err: Error)
    requires HandlerStart(n, s) && (d.Some? ==> Proper(d.value))
    modifies n, n.buf, s.coils, s.regs, f`log
    ensures |n.rx| <= |old(n.rx)|
    ensures n.Valid() && unchanged(n`currentTid, n`destAddressRtu, n`linkUp)
    ensures Done(n, s, f, old(n.tx), old(f.log), old(s.Contents()), old(n.transactionId), old(n.unitId), old(n.ignored),
      Serve(n.transport, old(n.transactionId), old(n.unitId), old(n.fc), old(n.broadcast), old(s.Contents()), d,
            f.callbacks, old(n.View()), old(n.buf[..])), err)
    ensures LineLeft(n, old(n.tx), old(n.View()), old(n.unitId), old(n.fc), old(n.ignored), err)
    ensures !Known(old(n.fc)) ==> n.rx == Flushed(old(n.rx)) && err == NoError
  {
    hide ServeData, ServeDevice, ServeReadFileFc, ServeWriteFileFc, Handled, LineLeft, Done;
    if IsDataFunction(n.fc) {
      err := HandleData(n, s);
      HandledIsDone(n, s, f, old(n.tx), old(s.Contents()), old(n.transactionId), old(n.unitId), old(n.fc),
                    old(n.broadcast), old(n.ignored), old(n.View()), err);
    } else if n.fc == 20 {
      err := HandleReadFile(n, s, f);
    } else if n.fc == 21 {
      err := HandleWriteFile(n, s, f);
    } else if n.fc == 43 {
      err := HandleDeviceId(n, s, f, d);
    } else {
      err := HandleUnknown(n, s, f);
    }
  }

  /** recv_req_header: on RTU the unit id tells whether the request is for everyone, for this server, or for another. */
  method RecvReqHeader(n: Nmbs) returns (err: Error, firstByteReceived: bool)
    requires n.Valid()
    modifies n, n.buf
    ensures |n.rx| <= |old(n.rx)|
    ensures n.Valid() && unchanged(n`tx, n`linkUp, n`currentTid, n`destAddressRtu)
    ensures err == HeaderError(n.transport, n.linkUp, old(n.rx)) && firstByteReceived == (n.linkUp && |old(n.rx)| > 0)
    ensures err == NoError ==>
      && n.HeaderRead(old(n.buf[..]), old(n.rx))
      && n.broadcast == IsBroadcast(n.transport, n.unitId)
         && n.ignored == IsIgnored(n.transport, n.unitId, n.addressRtu)
  {
    err, firstByteReceived := n.RecvMsgHeader();
    if err == NoError && n.transport == Rtu {
      if n.unitId == 0 {
        n.broadcast := true;
      } else if n.unitId != n.addressRtu {
        n.ignored := true;
      } else {
        n.ignored := false;
      }
    }
  }

  predicate IsBroadcast(t: Transport, unit: u8) {
    t.Rtu? && unit == 0
  }

  predicate IsIgnored(t: Transport, unit: u8, address: u8) {
    t.Rtu? && unit != 0 && unit != address
  }

  /** What one poll makes of the stream it finds. */
  ghost predicate Polled(n: Nmbs, s: Server, f: FileStore, d: Option<DeviceInfo>, was: seq<seq<u8>>, log: seq<Record>,
                         db: Db, stale: seq<u8>, stream: seq<u8>, err: Error)
    requires s.Valid() && |stale| == BUF_SIZE && Sized(db) && (d.Some? ==> Proper(d.value))
    reads n, s.Repr(), f
  {
    var t := n.transport;
    var e := HeaderError(t, n.linkUp, stream);
    if e != NoError then
      && err == (if e == TimedOut && stream == [] then NoError else e)
      && n.tx == was && s.Contents() == db && f.log == log
    else
      var v, h := Received(t, stale, stream), HeaderSize(t);
      var tid, unit, fc := if t.Tcp? then WordAt(v, 0) else 0, v[h - 2], v[h - 1];
      && Done(n, s, f, was, log, db, tid, unit, IsIgnored(t, unit, n.addressRtu),
              Serve(t, tid, unit, fc, IsBroadcast(t, unit), db, d, f.callbacks, v, stale), err)
      && LineLeft(n, was, v, unit, fc, IsIgnored(t, unit, n.addressRtu), err)
      && FlushedLine(n, BehindHeader(t, stream), fc, err)
  }

  /** Handlers look at earlier buffer contents only behind the header. */
  lemma ServeStale(t: Transport, tid: u16, unit: u8, fc: u8, broadcast: bool, db: Db, d: Option<DeviceInfo>,
                   p: Option<FilePolicy>, v: seq<u8>, a: seq<u8>, b: seq<u8>)
    requires Sized(db) && (d.Some? ==> Proper(d.value))
    requires |v| >= HeaderSize(t) && (t.Tcp? ==> |v| == BUF_SIZE) && |a| == |b| == BUF_SIZE
    requires t.Rtu? ==> a[2..] == b[2..]
    ensures Serve(t, tid, unit, fc, broadcast, db, d, p, v, a) == Serve(t, tid, unit, fc, broadcast, db, d, p, v, b)
  {
    hide ServeData, ServeDevice, ServeReadFileFc, ExecuteWriteFile;
    if t.Rtu? && PayloadError(t, v, 251) == NoError {
      var end := 3 + v[2] as int + 2;
      assert a[end..] == a[2..][end - 2..] && b[end..] == b[2..][end - 2..];
    }
  }

  /**
   What the poll's flushes leave of the bytes that waited behind the header: all but 260 bytes at most are gone after an
   unknown function code, and after any error except a timeout.
   */
  ghost predicate FlushedLine(n: Nmbs, behind: seq<u8>, fc: u8, err: Error)
    reads n`rx
  {
    && |n.rx| <= |behind|
    && (!Known(fc) ==> n.rx == Flushed(behind))
    && (err != NoError && err != TimedOut ==> |n.rx| <= |Flushed(behind)|)
  }

  /** The bytes behind the header of a message: on TCP those behind its frame. */
  function BehindHeader(t: Transport, stream: seq<u8>): seq<u8>
    requires HeaderError(t, true, stream) == NoError
  {
    if t.Rtu? then stream[2..] else stream[6 + WordAt(stream, 4)..]
  }

  /** The second half of nmbs_server_poll: the request is handled, and an error other than a timeout clears the line. */
  method HandleAndFlush(n: Nmbs, s: Server, f: FileStore, d: Option<DeviceInfo>) returns (err: Error)
    requires HandlerStart(n, s) && (d.Some? ==> Proper(d.value))
    modifies n, n.buf, s.coils, s.regs, f`log
    ensures n.Valid() && unchanged(n`currentTid, n`destAddressRtu, n`linkUp)
    ensures Done(n, s, f, old(n.tx), old(f.log), old(s.Contents()), old(n.transactionId), old(n.unitId), old(n.ignored),
      Serve(n.transport, old(n.transactionId), old(n.unitId), old(n.fc), old(n.broadcast), old(s.Contents()), d,
            f.callbacks, old(n.View()), old(n.buf[..])), err)
    ensures LineLeft(n, old(n.tx), old(n.View()), old(n.unitId), old(n.fc), old(n.ignored), err)
    ensures FlushedLine(n, old(n.rx), old(n.fc), err)
  {
    hide Serve, Done, Parse, SkipError;
    err := HandleReqFc(n, s, f, d);
    if err != NoError {
      if err != TimedOut {
        n.Flush();
      }
    }
  }

  method NmbsServerPoll(n: Nmbs, s: Server, f: FileStore, d: Option<DeviceInfo>) returns (err: Error)
    requires n.Valid() && s.Valid() && n.buf as object !in s.Repr() && (d.Some? ==> Proper(d.value))
    modifies n, n.buf, s.coils, s.regs, f`log
    ensures n.Valid() && unchanged(n`currentTid, n`destAddressRtu, n`linkUp)
    ensures Polled(n, s, f, d, old(n.tx), old(f.log), old(s.Contents()), old(n.buf[..]), old(n.rx), err)
  {
    hide Serve, Done, HeaderError, Received, LineLeft, FlushedLine;
    ghost var stream := n.rx;
    n.MsgStateReset();
    var firstByteReceived;
    err, firstByteReceived := RecvReqHeader(n);
    if err != NoError {
      if !firstByteReceived && err == TimedOut {
        return NoError;
      }
      return;
    }
    ServeStale(n.transport, n.transactionId, n.unitId, n.fc, n.broadcast, s.Contents(), d, f.callbacks, n.View(),
               n.buf[..], old(n.buf[..]));
    RtuBehind(n, old(n.buf[..]), stream);
    err := HandleAndFlush(n, s, f, d);
  }

  lemma RtuBehind(n: Nmbs, stale: seq<u8>, stream: seq<u8>)
    requires |stale| == BUF_SIZE && n.HeaderRead(stale, stream)
    ensures n.rx == BehindHeader(n.transport, stream)
  {
    assert n.transport.Rtu? ==> n.View() == n.buf[..2] + n.rx;
  }
}
