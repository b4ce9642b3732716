/** A server on a shared RTU line stays in step with other units' exchanges. */
module Bystander {
  import opened Wrappers
  import opened Bytes
  import opened Adu
  import opened Store
  import opened Protocol
  import opened NmbsCore
  import opened Responses
  import opened Requests
  import opened Client
  import opened RoundTrips
  import opened DeviceId
  import opened DeviceResponses
  import opened Files
  import opened FileHandler
  import opened FileResponses
  import opened Poll
  import opened Crc

  //////////////////////////////////////////////////////////////////////////////
  // Other units' exchanges
  //////////////////////////////////////////////////////////////////////////////

  /**
   A request and its response: of a data function, of a file function with any payload and response data, or a device
   identification page. The response to a data request may be an exception.
   */
  datatype Exchange =
    | Data(fc: u8, req: Request, reply: Pdu)
    | File(fc: u8, payload: seq<u8>, data: seq<u8>)
    | Device(mei: u8, code: u8, id: u8, level: u8, objects: seq<Object>, more: bool, next: u8)

  /** The normal response the addressed unit gives to a request, with whatever data it reads. */
  ghost predicate Answers(fc: u8, req: Request, pdu: Pdu) {
    match req
    case ReadBits(_, _) => exists bytes: seq<u8> :: |bytes| <= 250 && pdu == BitsPdu(fc, bytes)
    case ReadRegs(_, q) => exists regs: seq<u16> :: |regs| == q as int && |regs| <= 125 && pdu == RegsPdu(fc, regs)
    case ReadWriteRegs(_, _, _, _, _, _) => exists regs: seq<u16> :: |regs| <= 125 && pdu == RegsPdu(fc, regs)
    case WriteCoil(a, value) => pdu == EchoPdu(fc, a, value)
    case WriteReg(a, value) => pdu == EchoPdu(fc, a, value)
    case WriteCoils(a, q, _) => pdu == EchoPdu(fc, a, q)
    case WriteRegs(a, q, _, _) => pdu == EchoPdu(fc, a, q)
  }

  predicate Refuses(fc: u8, pdu: Pdu) {
    fc < 0x80 && |pdu| == 2 && pdu[0] == fc + 0x80 && 1 <= pdu[1] <= 4
  }

  /** The size of the first record of a file response, by its own length field. */
  function FirstRecord(fc: u8, data: seq<u8>): nat
    requires |data| >= SUBREQ_HEADER || (fc == 20 && |data| >= 2)
  {
    if fc == 20 then 2 + (data[0] as int + 0xFF) % 0x100 else SUBREQ_HEADER + 2 * WordAt(data, 5) as int % 0x1_0000
  }

  /** Messages of the right shape, within the sizes a unit of this kind accepts. */
  ghost predicate WellFormed(x: Exchange) {
    match x
    case Data(fc, req, reply) => Encodable(fc, req) && (Answers(fc, req, reply) || Refuses(fc, reply))
    case File(fc, payload, data) =>
      if fc == 20 then |payload| <= 245 && 2 <= |data| <= 250 && FirstRecord(fc, data) <= |data|
      else fc == 21 && |payload| <= 251 && SUBREQ_HEADER <= |data| <= 251 && FirstRecord(fc, data) <= |data|
    case Device(_, _, _, level, objects, _, _) => 1 <= level <= 4 && ShortNames(objects) && Weight(objects) <= PAGE_ROOM
  }

  /** A byte count and the bytes it counts. */
  function CountedPdu(fc: u8, data: seq<u8>): (pdu: Pdu)
    requires |data| <= 251
    ensures |pdu| == 2 + |data| && pdu[0] == fc && pdu[1] as int == |data| && pdu[2..] == data
  {
    [fc, |data|] + data
  }

  ghost function RequestOf(x: Exchange): (pdu: Pdu)
    requires WellFormed(x)
  {
    match x
    case Data(fc, req, _) => RequestPdu(fc, req)
    case File(fc, payload, _) => CountedPdu(fc, payload)
    case Device(mei, code, id, _, _, _, _) => [43, mei, code, id]
  }

  ghost function ResponseOf(x: Exchange): (pdu: Pdu)
    requires WellFormed(x)
  {
    match x
    case Data(_, _, reply) => reply
    case File(fc, _, data) => CountedPdu(fc, data)
    case Device(_, _, _, level, objects, more, next) => PagePdu(43, level, objects, more, next)
  }

  /**
   The exchanges a bystander takes whole. After a function 23 request it waits for a write echo, an exception ends its
   poll with an error, and in a file response it takes the checksum over the first record only.
   */
  ghost predicate KeepsSync(unit: u8, x: Exchange)
    requires WellFormed(x)
  {
    match x
    case Data(fc, req, reply) => !req.ReadWriteRegs? && !Refuses(fc, reply)
    case File(fc, _, data) =>
      Crc16([unit, fc, |data|] + data[..FirstRecord(fc, data)]) == Crc16([unit, fc, |data|] + data)
    case Device(_, _, _, _, _, _, _) => true
  }

  /** A response of one record, as most are, is taken whole. */
  lemma OneRecordKeepsSync(unit: u8, x: Exchange)
    requires WellFormed(x) && x.File? && FirstRecord(x.fc, x.data) == |x.data|
    ensures KeepsSync(unit, x)
  {
    assert x.data[..|x.data|] == x.data;
  }

  /** Both frames of an exchange. */
  ghost function OnWire(unit: u8, x: Exchange): seq<u8>
    requires WellFormed(x)
  {
    Frame(Rtu, 0, unit, RequestOf(x)) + Frame(Rtu, 0, unit, ResponseOf(x))
  }

  //////////////////////////////////////////////////////////////////////////////
  // Requests and responses at the front of a line
  //////////////////////////////////////////////////////////////////////////////

  /** An RTU message at the front of a stream is taken whole. */
  lemma RtuMessage(unit: u8, pdu: Pdu, rest: seq<u8>)
    ensures var s := Frame(Rtu, 0, unit, pdu) + rest;
      && HeaderError(Rtu, true, s) == NoError && Carries(Rtu, s, 0, unit, pdu)
      && |s| >= |pdu| + 3 && s[|pdu| + 3..] == rest && s[0] == unit && s[1] == pdu[0]
  {
    FrameReceived(Rtu, 0, unit, pdu, seq(BUF_SIZE, _ => 0), rest);
    var s := Frame(Rtu, 0, unit, pdu) + rest;
    PduBytes(Rtu, s, 0, unit, pdu);
  }

  /** The request ends where its frame ends. */
  lemma RequestTaken(unit: u8, fc: u8, req: Request, rest: seq<u8>)
    requires Encodable(fc, req)
    ensures var s := Frame(Rtu, 0, unit, RequestPdu(fc, req)) + rest;
      |s| >= 2 && IsDataFunction(fc) && Parse(Rtu, fc, s) == Read(req) && s[RequestEnd(fc, s)..] == rest
  {
    var pdu := RequestPdu(fc, req);
    var s := Frame(Rtu, 0, unit, pdu) + rest;
    RtuMessage(unit, pdu, rest);
    RequestRoundTrip(Rtu, s, 0, unit, fc, req);
    hide Frame, Carries, BytesToRegs, RegsToBytes;
    assert |pdu| == 1 + |RequestBody(req)|;
    EndIsLength(fc, req, s);
  }

  lemma EndIsLength(fc: u8, req: Request, s: seq<u8>)
    requires Encodable(fc, req) && IsDataFunction(fc) && |s| >= 2 && Parse(Rtu, fc, s) == Read(req)
    ensures RequestEnd(fc, s) == |RequestBody(req)| + 4
  {
  }

  /** A file request ends behind the bytes it counts. */
  lemma FileRequestTaken(unit: u8, fc: u8, payload: seq<u8>, rest: seq<u8>)
    requires fc == 20 || fc == 21
    requires |payload| <= if fc == 20 then 245 else 251
    ensures var s := Frame(Rtu, 0, unit, CountedPdu(fc, payload)) + rest;
      |s| >= 2 && RequestReading(fc, s) == End(5 + |payload|) && s[5 + |payload|..] == rest
  {
    var pdu := CountedPdu(fc, payload);
    var s := Frame(Rtu, 0, unit, pdu) + rest;
    RtuMessage(unit, pdu, rest);
    PduBytes(Rtu, s, 0, unit, pdu);
    assert s[2..4 + |payload|][0] == pdu[1];
    hide Frame, FooterError;
  }

  lemma DeviceRequestTaken(unit: u8, pdu: Pdu, rest: seq<u8>)
    requires |pdu| == 4 && pdu[0] == 43
    ensures var s := Frame(Rtu, 0, unit, pdu) + rest;
      |s| >= 2 && RequestReading(43, s) == End(7) && s[7..] == rest
  {
    RtuMessage(unit, pdu, rest);
    PduBytes(Rtu, Frame(Rtu, 0, unit, pdu) + rest, 0, unit, pdu);
    hide Frame, FooterError;
  }

  /** Every request ends where its frame ends. */
  lemma AnyRequestTaken(unit: u8, x: Exchange, rest: seq<u8>)
    requires WellFormed(x)
    ensures var s := Frame(Rtu, 0, unit, RequestOf(x)) + rest;
      && |s| >= 2 && Known(RequestOf(x)[0])
      && RequestReading(RequestOf(x)[0], s).End? && s[RequestReading(RequestOf(x)[0], s).at..] == rest
      && (x.Data? ==> IsDataFunction(x.fc) && Parse(Rtu, x.fc, s) == Read(x.req))
  {
    hide Frame, RequestEnd, Parse, PayloadError, FooterError;
    match x
    case Data(fc, req, _) => RequestTaken(unit, fc, req, rest);
    case File(fc, payload, _) => FileRequestTaken(unit, fc, payload, rest);
    case Device(mei, code, id, _, _, _, _) => DeviceRequestTaken(unit, [43, mei, code, id], rest);
  }

  /** The expected response is consumed exactly. */
  lemma ResponseSkipped(unit: u8, fc: u8, req: Request, pdu: Pdu, rest: seq<u8>)
    requires Announces(fc, req) && !req.ReadWriteRegs? && Answers(fc, req, pdu)
    ensures var s := Frame(Rtu, 0, unit, pdu) + rest;
      SkipError(s, unit, fc, req) == NoError && |s| >= 3 && SkipSize(s, req) <= |s| && s[SkipSize(s, req)..] == rest
  {
    var s := Frame(Rtu, 0, unit, pdu) + rest;
    RtuMessage(unit, pdu, rest);
    HeaderAccepted(Rtu, s, 0, unit, pdu);
    hide Carries;
    if req.ReadBits? {
      var bytes: seq<u8> :| |bytes| <= 250 && pdu == BitsPdu(fc, bytes);
      BitsReceived(Rtu, s, 0, unit, fc, bytes);
    } else if req.ReadRegs? {
      var regs: seq<u16> :| |regs| == req.quantity as int && |regs| <= 125 && pdu == RegsPdu(fc, regs);
      RegsReceived(Rtu, s, 0, unit, fc, regs);
    } else {
      EchoReceived(Rtu, s, 0, unit, fc, Echoed(req).0, Echoed(req).1);
    }
  }

  lemma RefusalSkipped(unit: u8, fc: u8, req: Request, pdu: Pdu, rest: seq<u8>)
    requires Announces(fc, req) && Refuses(fc, pdu)
    ensures SkipError(Frame(Rtu, 0, unit, pdu) + rest, unit, fc, req) == Exception(pdu[1])
  {
    RtuMessage(unit, pdu, rest);
    assert pdu == [fc + 0x80, pdu[1]];
    ExceptionReceived(Rtu, Frame(Rtu, 0, unit, pdu) + rest, 0, unit, fc, pdu[1]);
  }

  /** A file response is accepted exactly when the checksum of its first record is that of the whole. */
  lemma FileResponseSkipped(unit: u8, fc: u8, data: seq<u8>, stale: seq<u8>, rest: seq<u8>)
    requires |stale| == BUF_SIZE && (fc == 20 || fc == 21)
    requires (if fc == 20 then 2 <= |data| <= 250 else SUBREQ_HEADER <= |data| <= 251)
      && FirstRecord(fc, data) <= |data|
    ensures var s := Frame(Rtu, 0, unit, CountedPdu(fc, data)) + rest;
      && |s| >= 3 && RtuReceptionError(s, unit, fc) == NoError && s[2] as int == |data| && 5 + |data| <= |s|
         && s[5 + |data|..] == rest
      && FileResError(s, stale, fc) ==
           if Crc16([unit, fc, |data|] + data[..FirstRecord(fc, data)]) == Crc16([unit, fc, |data|] + data) then NoError
           else CrcError
  {
    hide Frame, Image, ResHeaderError, FooterError, CursorFooterError, CountedPdu, ReadBlockError, WriteBlockError;
    var pdu := CountedPdu(fc, data);
    var s := Frame(Rtu, 0, unit, pdu) + rest;
    RtuMessage(unit, pdu, rest);
    HeaderAccepted(Rtu, s, 0, unit, pdu);
    var m := CountedImage(unit, fc, data, stale, rest);
    FirstBlock(fc, m, data, Following(Rtu, s));
    FirstChecksum(m, unit, fc, data, FirstRecord(fc, data), Following(Rtu, s));
  }

  /** The result is that of the checksum taken where the first record ends. */
  lemma FirstBlock(fc: u8, m: seq<u8>, data: seq<u8>, rest: seq<u8>)
    requires |m| == BUF_SIZE && (fc == 20 || fc == 21)
    requires (if fc == 20 then 2 <= |data| <= 250 else SUBREQ_HEADER <= |data| <= 251)
      && FirstRecord(fc, data) <= |data|
    requires forall i :: 0 <= i < |data| ==> m[3 + i] == data[i]
    ensures (if fc == 20 then ReadBlockError(Rtu, m, 3, rest, false, 0)
             else WriteBlockError(Rtu, m, 3, rest, false, Record(0, 0, [])))
         == CursorFooterError(Rtu, m, 3 + FirstRecord(fc, data), rest)
  {
    hide CursorFooterError;
    assert m[3] == data[0];
    assert fc == 21 ==> m[8] == data[5] && m[9] == data[6];
  }

  lemma FirstChecksum(m: seq<u8>, unit: u8, fc: u8, data: seq<u8>, first: nat, rest: seq<u8>)
    requires |m| == BUF_SIZE && first <= |data| <= 251 && m[0] == unit && m[1] == fc && m[2] as int == |data|
    requires forall i :: 0 <= i < |data| ==> m[3 + i] == data[i]
    requires |rest| >= 2 && WordAt(rest, 0) == Crc16([unit, fc, |data|] + data)
    ensures CursorFooterError(Rtu, m, 3 + first, rest) ==
      if Crc16([unit, fc, |data|] + data[..first]) == Crc16([unit, fc, |data|] + data) then NoError else CrcError
  {
    hide Crc16;
    assert m[..3 + first] == [unit, fc, |data|] + data[..first];
  }

  /** msg.buf and the line once the counted bytes of such a response have been received. */
  lemma CountedImage(unit: u8, fc: u8, data: seq<u8>, stale: seq<u8>, rest: seq<u8>) returns (m: seq<u8>)
    requires |stale| == BUF_SIZE && |data| <= 251
    ensures var s := Frame(Rtu, 0, unit, CountedPdu(fc, data)) + rest;
      && CountedFits(Rtu, s) && s[2] as int == |data| && m == Image(Rtu, s, stale) && |m| == BUF_SIZE
      && (forall i :: 0 <= i < |data| ==> m[3 + i] == data[i]) && m[0] == unit && m[1] == fc && m[2] as int == |data|
      && |Following(Rtu, s)| >= 2 && WordAt(Following(Rtu, s), 0) == Crc16([unit, fc, |data|] + data)
  {
    var pdu := CountedPdu(fc, data);
    var s := Frame(Rtu, 0, unit, pdu) + rest;
    var whole := [unit] + pdu;
    assert whole == [unit, fc, |data|] + data;
    assert s == whole + (Be16(Crc16(whole)) + rest);
    assert s[..3 + |data|] == whole && s[3 + |data|..] == Be16(Crc16(whole)) + rest;
    m := Image(Rtu, s, stale);
    assert m == whole + stale[3 + |data|..];
    hide Crc16;
  }

  /** A page is taken whole. */
  lemma PageResponseSkipped(unit: u8, level: u8, objects: seq<Object>, more: bool, next: u8, rest: seq<u8>)
    requires 1 <= level <= 4 && ShortNames(objects) && Weight(objects) <= PAGE_ROOM
    ensures var s := Frame(Rtu, 0, unit, PagePdu(43, level, objects, more, next)) + rest;
      && RtuReceptionError(s, unit, 43) == NoError
      && TakePage(Rtu, s, None).Taken? && TakePage(Rtu, s, None).end + 2 <= |s|
         && s[TakePage(Rtu, s, None).end + 2..] == rest
  {
    var pdu := PagePdu(43, level, objects, more, next);
    var s := Frame(Rtu, 0, unit, pdu) + rest;
    RtuMessage(unit, pdu, rest);
    HeaderAccepted(Rtu, s, 0, unit, pdu);
    PageCarried(Rtu, s, 0, unit, level, objects, more, next);
    PageTaken(Rtu, s, None, level, objects, more, next);
    PagePduHead(level, objects, more, next);
    hide Frame, TakePage, PageMessage, Weight, ShortNames, PagePdu, Carries, FooterError, ResHeaderError;
  }

  //////////////////////////////////////////////////////////////////////////////
  // A poll on a line with another unit's exchange
  //////////////////////////////////////////////////////////////////////////////

  /**
   Function 23: the bystander takes the eight bytes of a write echo, and no answer to such a request has that size.
   */
  lemma LosesSync(n: Nmbs, was: seq<seq<u8>>, unit: u8, req: Request, regs: seq<u16>, rest: seq<u8>, err: Error)
    requires req.ReadWriteRegs? && |regs| <= 125
    requires Skipped(n, was, Frame(Rtu, 0, unit, RegsPdu(23, regs)) + rest, unit, 23, req, err)
    ensures !(err == NoError && n.rx == rest)
  {
    hide SkipError;
    assert |Frame(Rtu, 0, unit, RegsPdu(23, regs))| == 5 + 2 * |regs|;
  }

  /**
   What a bystander waits for after it read another unit's write request v: bytes 2 to 5 of the request, and after
   function 23 bytes 6 to 9, at the same place of the response and with its checksum.
   */
  lemma EchoExpected(v: seq<u8>, unit: u8, fc: u8, rest: seq<u8>)
    requires fc in {5, 6, 15, 16, 23} && |v| >= 2 && Parse(Rtu, fc, v).Read?
    requires |rest| >= 8 && rest[0] == unit && rest[1] == fc
    ensures |v| >= 10 || (fc < 23 && |v| >= 6)
    ensures SkipError(rest, unit, fc, Parse(Rtu, fc, v).req) ==
      if Be16(Crc16(rest[..6])) != rest[6..8] then CrcError
      else if rest[2..6] == (if fc == 23 then v[6..10] else v[2..6]) then NoError
      else InvalidResponse
  {
    var req := Parse(Rtu, fc, v).req;
    EchoWords(v, fc);
    EchoSkipped(rest, unit, fc, req);
    hide Crc16, Parse, Echoed, SkipError, Be16, WordAt;
    SameWords(rest, 2, Echoed(req).0, Echoed(req).1);
    SameWord(rest, 6, Crc16(rest[..6]));
  }

  lemma EchoSkipped(rest: seq<u8>, unit: u8, fc: u8, req: Request)
    requires !req.ReadBits? && !req.ReadRegs? && |rest| >= 8 && rest[0] == unit && rest[1] == fc
    ensures SkipError(rest, unit, fc, req) ==
      if WordAt(rest, 6) != Crc16(rest[..6]) then CrcError
      else if WordAt(rest, 2) == Echoed(req).0 && WordAt(rest, 4) == Echoed(req).1 then NoError
      else InvalidResponse
  {
    hide Crc16, Echoed, WordAt;
  }

  lemma SameWord(s: seq<u8>, k: nat, a: u16)
    requires k + 2 <= |s|
    ensures WordAt(s, k) == a <==> s[k..k + 2] == Be16(a)
  {
    assert s[k..k + 2] == [s[k], s[k + 1]];
  }

  lemma SameWords(s: seq<u8>, k: nat, a: u16, b: u16)
    requires k + 4 <= |s|
    ensures WordAt(s, k) == a && WordAt(s, k + 2) == b <==> s[k..k + 4] == Be16(a) + Be16(b)
  {
    SameWord(s, k, a);
    SameWord(s, k + 2, b);
    hide WordAt;
    assert s[k..k + 4] == s[k..k + 2] + s[k + 2..k + 4];
    assert s[k..k + 2] == s[k..k + 4][..2] && s[k + 2..k + 4] == s[k..k + 4][2..];
    assert Be16(a) == (Be16(a) + Be16(b))[..2] && Be16(b) == (Be16(a) + Be16(b))[2..];
  }

  lemma EchoWords(v: seq<u8>, fc: u8)
    requires fc in {5, 6, 15, 16, 23} && |v| >= 2 && Parse(Rtu, fc, v).Read?
    ensures |v| >= 10 || (fc < 23 && |v| >= 6)
    ensures var req := Parse(Rtu, fc, v).req;
      && !req.ReadBits? && !req.ReadRegs?
      && Be16(Echoed(req).0) + Be16(Echoed(req).1) == if fc == 23 then v[6..10] else v[2..6]
  {
    hide FooterError, RegsFooterError, RegsAt;
  }

  lemma DataResponse(n: Nmbs, was: seq<seq<u8>>, unit: u8, x: Exchange, rest: seq<u8>, err: Error)
    requires x.Data? && WellFormed(x) && Skipped(n, was, Frame(Rtu, 0, unit, x.reply) + rest, unit, x.fc, x.req, err)
    ensures err == NoError && n.rx == rest <==> KeepsSync(unit, x)
  {
    hide Frame, SkipError, SkipSize;
    if Refuses(x.fc, x.reply) {
      RefusalSkipped(unit, x.fc, x.req, x.reply, rest);
    } else if x.req.ReadWriteRegs? {
      var regs: seq<u16> :| |regs| <= 125 && x.reply == RegsPdu(x.fc, regs);
      LosesSync(n, was, unit, x.req, regs, rest, err);
    } else {
      ResponseSkipped(unit, x.fc, x.req, x.reply, rest);
    }
  }

  lemma FileResponse(n: Nmbs, unit: u8, x: Exchange, rest: seq<u8>, err: Error)
    requires x.File? && WellFormed(x) && FileSkipped(n, Frame(Rtu, 0, unit, ResponseOf(x)) + rest, unit, x.fc, err)
    ensures err == NoError && n.rx == rest <==> KeepsSync(unit, x)
  {
    hide Frame, FileResError, RtuReceptionError, Crc16, CountedPdu;
    FileResponseSkipped(unit, x.fc, x.data, seq(BUF_SIZE, _ => 0), rest);
    var s := Frame(Rtu, 0, unit, ResponseOf(x)) + rest;
    var stale: seq<u8> :| |stale| == BUF_SIZE && err == FileResError(s, stale, x.fc);
    FileResponseSkipped(unit, x.fc, x.data, stale, rest);
  }

  lemma PageResponse(n: Nmbs, unit: u8, x: Exchange, rest: seq<u8>, err: Error)
    requires x.Device? && WellFormed(x) && PageSkipped(n, Frame(Rtu, 0, unit, ResponseOf(x)) + rest, unit, err)
    ensures err == NoError && n.rx == rest
  {
    hide Frame, TakePage, RtuReceptionError, PagePdu;
    PageResponseSkipped(unit, x.level, x.objects, x.more, x.next, rest);
  }

  /**
   A poll that finds another unit's request and the response to it sends nothing and leaves the store and the files
   alone. It ends without error at the next frame if and only if the exchange is one that KeepsSync names.
   */
  lemma InSyncIff(n: Nmbs, s: Server, f: FileStore, d: Option<DeviceInfo>, was: seq<seq<u8>>, log: seq<Record>, db: Db,
                  stale: seq<u8>,
                  err: Error, unit: u8, x: Exchange, rest: seq<u8>)
    requires n.transport.Rtu? && n.linkUp && unit != 0 && unit != n.addressRtu && WellFormed(x)
    requires s.Valid() && |stale| == BUF_SIZE && Sized(db) && (d.Some? ==> Proper(d.value))
    requires Polled(n, s, f, d, was, log, db, stale, OnWire(unit, x) + rest, err)
    ensures n.tx == was && s.Contents() == db && f.log == log
    ensures err == NoError && n.rx == rest <==> KeepsSync(unit, x)
  {
    hide Frame, Serve, Skipped, FileSkipped, PageSkipped, Parse, RequestReading, RequestConsumed, RequestOf, ResponseOf,
         KeepsSync, WellFormed;
    var tail := Frame(Rtu, 0, unit, ResponseOf(x)) + rest;
    assert OnWire(unit, x) + rest == Frame(Rtu, 0, unit, RequestOf(x)) + tail;
    RtuMessage(unit, RequestOf(x), tail);
    AnyRequestTaken(unit, x, tail);
    ExchangeCode(unit, x);
    match x
    case Data(_, _, _) => DataResponse(n, was, unit, x, rest, err);
    case File(_, _, _) => FileResponse(n, unit, x, rest, err);
    case Device(_, _, _, _, _, _, _) => PageResponse(n, unit, x, rest, err);
  }

  lemma ExchangeCode(unit: u8, x: Exchange)
    requires WellFormed(x)
    ensures var fc := RequestOf(x)[0];
      match x
      case Data(c, _, reply) => fc == c && IsDataFunction(fc) && ResponseOf(x) == reply
      case File(c, _, _) => fc == c && (fc == 20 || fc == 21)
      case Device(_, _, _, _, _, _, _) => fc == 43 && KeepsSync(unit, x)
  {
  }

  /** nmbs_server_poll on a line that holds such an exchange, with any traffic behind it. */
  method PollAtExchange(n: Nmbs, s: Server, f: FileStore, d: Option<DeviceInfo>, ghost unit: u8, ghost x: Exchange,
                        ghost rest: seq<u8>) returns (err: Error)
    requires n.Valid() && s.Valid() && n.buf as object !in s.Repr() && (d.Some? ==> Proper(d.value))
    requires n.transport.Rtu? && n.linkUp && unit != 0 && unit != n.addressRtu && WellFormed(x)
    requires n.rx == OnWire(unit, x) + rest
    modifies n, n.buf, s.coils, s.regs, f`log
    ensures n.Valid() && n.linkUp && n.tx == old(n.tx) && s.Contents() == old(s.Contents()) && f.log == old(f.log)
    ensures err == NoError && n.rx == rest <==> KeepsSync(unit, x)
  {
    hide Polled, OnWire, KeepsSync, WellFormed;
    ghost var was, log, db, stale := n.tx, f.log, s.Contents(), n.buf[..];
    err := NmbsServerPoll(n, s, f, d);
    InSyncIff(n, s, f, d, was, log, db, stale, err, unit, x, rest);
  }
}
