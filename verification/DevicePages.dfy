/** Reading all extended objects page by page, client loop against server handler. */
module DevicePages {
  import opened Wrappers
  import opened Bytes
  import opened Adu
  import opened Store
  import opened Protocol
  import opened NmbsCore
  import opened Responses
  import opened Client
  import opened RoundTrips
  import opened DeviceAccess
  import opened DeviceId
  import opened DeviceResponses
  import opened Files
  import opened FileHandler
  import opened Poll
  import opened EndToEnd

  /** The callbacks succeed for every present object of the extended range. */
  ghost predicate Readable(d: DeviceInfo) {
    Proper(d) && d.mapResult == NoError
    && forall id :: 0x80 <= id < 256 && d.present[id] ==> d.nameResult[id] == NoError
  }

  /**
   A page holds a beginning of what is left, and if it says more follows, the next page starts with the rest:
   at a present object, strictly behind a page that is not empty when a whole string had room.
   */
  lemma PageIsPrefix(d: DeviceInfo, id: nat, room: nat)
    requires Readable(d) && 0x80 <= id <= 256
    ensures
      var p := Collect(d, id, 0xFF, room);
      && p.Page?
      && (!p.more ==> p.objects == Mapped(d, id, 256))
      && (p.more ==>
            && id <= p.next as int && d.present[p.next]
            && p.objects + Mapped(d, p.next as int, 256) == Mapped(d, id, 256))
      && (p.more && room >= 129 ==> p.objects != [] && id < p.next as int)
  {
    hide Mapped, Weight;
    PageOutcome(d, id, 256, room);
    NoWeight();
    var p := Collect(d, id, 0xFF, room);
    if p.Page? && p.more {
      MappedSplit(d, id, p.next as int, 256);
      MappedStep(d, p.next as int, p.next as int);
    }
    hide Collect;
  }

  /** Part of a storable list is storable in the room that is left. */
  lemma StorableRest(got: seq<Object>, page: seq<Object>, rest: seq<Object>, idsLength: u8, bufferLength: u8)
    requires |got| + |page| + |rest| <= idsLength as int
    requires ShortNames(page) && Weight(page) <= PAGE_ROOM
    requires forall i :: 0 <= i < |got + page + rest| ==>
      0 !in (got + page + rest)[i].name && |(got + page + rest)[i].name| < bufferLength as int
    ensures Storable(page, idsLength - |got|, bufferLength)
  {
    forall i | 0 <= i < |page| ensures 0 !in page[i].name && |page[i].name| < bufferLength as int {
      assert page[i] == (got + page + rest)[|got| + i];
    }
  }

  /** The answer to a page request is the page. */
  method DeliverPage(c: Nmbs, s: Nmbs, srv: Server, f: FileStore, d: DeviceInfo, ghost start: u8)
    requires Connected(c, s, srv) && Readable(d) && start >= 0x80 && Pending(c, DeviceIdRequest(3, start))
    modifies s, s.buf, c`rx, srv.coils, srv.regs, f`log
    ensures Connected(c, s, srv) && Pending(c, DeviceIdRequest(3, start)) && unchanged(c`currentTid)
    ensures f.log == old(f.log) && srv.Contents() == old(srv.Contents())
    ensures
      var p := Collect(d, start as int, 0xFF, PAGE_ROOM);
      && p.Page? && ShortNames(p.objects) && Weight(p.objects) <= PAGE_ROOM
      && c.rx == Frame(c.transport, c.transactionId, c.unitId, PagePdu(43, 3, p.objects, p.more, p.next))
  {
    hide Serve, Collect, Frame, PagePdu, Carries, ReceivedFrom;
    ghost var db, stale := srv.Contents(), s.buf[..];
    ghost var v, served := Deliver(c, s, srv, f, Some(d), DeviceIdRequest(3, start));
    PageServed(c.transport, v, c.transactionId, c.unitId, db, d, f.callbacks, stale, start);
    assert f.log == old(f.log) + [];
  }

  lemma PageServed(t: Transport, v: seq<u8>, tid: u16, unit: u8, db: Db, d: DeviceInfo, p: Option<FilePolicy>,
                   stale: seq<u8>, start: u8)
    requires |v| >= HeaderSize(t) && (t.Tcp? ==> |v| == BUF_SIZE) && |stale| == BUF_SIZE && Sized(db)
    requires Readable(d) && start >= 0x80 && Carries(t, v, tid, unit, DeviceIdRequest(3, start))
    ensures
      var page := Collect(d, start as int, 0xFF, PAGE_ROOM);
      && page.Page? && ShortNames(page.objects) && Weight(page.objects) <= PAGE_ROOM
      && Serve(t, SeenTid(t, tid), unit, 43, false, db, Some(d), p, v, stale)
         == Served(Answer(NoError, Send(PagePdu(43, 3, page.objects, page.more, page.next)), db), [])
  {
    hide Collect, PagePdu, Carries, Weight, ShortNames;
    DeviceRequestRead(t, v, tid, unit, start);
    PageIsPrefix(d, start as int, PAGE_ROOM);
    CollectFits(d, start as int, 0xFF, PAGE_ROOM);
  }

  lemma DeviceRequestRead(t: Transport, v: seq<u8>, tid: u16, unit: u8, start: u8)
    requires |v| >= HeaderSize(t) && Carries(t, v, tid, unit, DeviceIdRequest(3, start))
    ensures var h := HeaderSize(t);
      && |v| >= h + 3 && v[h] == 0x0E && v[h + 1] == 3 && v[h + 2] == start
      && FooterError(t, v, h + 3, h + 3) == NoError
  {
    var pdu := DeviceIdRequest(3, start);
    PduBytes(t, v, tid, unit, pdu);
    var h := HeaderSize(t);
    var w := v[h..h + 3];
    assert w == pdu[1..] && w[0] == v[h] && w[1] == v[h + 1] && w[2] == v[h + 2];
  }

  /** The client stores the page and learns where to go on. */
  method ReceivePage(c: Nmbs, room: u8, bufferLength: u8, ghost objects: seq<Object>, ghost more: bool, ghost next: u8)
    returns (err: Error, received: seq<Object>, nextObjectId: u8)
    requires c.Valid() && c.linkUp && c.fc == 43 && Storable(objects, room, bufferLength)
    requires c.rx == Frame(c.transport, c.transactionId, c.unitId, PagePdu(43, 3, objects, more, next))
    modifies c, c.buf
    ensures c.Valid() && unchanged(c`tx, c`linkUp, c`currentTid, c`destAddressRtu)
    ensures err == NoError && received == objects && nextObjectId == if more then next else NO_MORE
  {
    hide Frame;
    ghost var pdu := PagePdu(43, 3, objects, more, next);
    ghost var v := FrameAccepted(c.transport, c.buf[..], c.transactionId, c.unitId, pdu);
    PageCarried(c.transport, v, c.transactionId, c.unitId, 3, objects, more, next);
    PageTaken(c.transport, v, Some(Room(room, bufferLength)), 3, objects, more, next);
    hide PageMessage, TakePage, Storable;
    err, received, nextObjectId := RecvDeviceIdRes(c, Some(Room(room, bufferLength)));
  }

  /**
   nmbs_read_device_identification_extended against a server with any map and any strings: it terminates and
   returns every present object from the start id on, once, ascending, with its string.
   */
  method ReadExtended(c: Nmbs, s: Nmbs, srv: Server, f: FileStore, d: DeviceInfo, objectIdStart: u8, idsLength: u8,
                      bufferLength: u8)
    returns (err: Error, objects: seq<Object>)
    requires Connected(c, s, srv) && Readable(d)
    requires |Mapped(d, objectIdStart as int, 256)| <= idsLength as int
    requires forall id :: objectIdStart as int <= id < 256 && d.present[id] ==> |d.names[id]| < bufferLength as int
    modifies c, c.buf, s, s.buf, srv.coils, srv.regs, f`log
    ensures Connected(c, s, srv) && f.log == old(f.log) && srv.Contents() == old(srv.Contents())
    ensures if objectIdStart < 0x80 then err == InvalidArgument
            else err == NoError && objects == Mapped(d, objectIdStart as int, 256)
  {
    objects := [];
    if objectIdStart < 0x80 {
      return InvalidArgument, objects;
    }
    ghost var all := Mapped(d, objectIdStart as int, 256);
    var nextObjectId := objectIdStart;
    ghost var left := 256 - objectIdStart as int;
    while nextObjectId != NO_MORE
      invariant Connected(c, s, srv) && f.log == old(f.log) && srv.Contents() == old(srv.Contents())
      invariant nextObjectId == NO_MORE || 0x80 <= nextObjectId
      invariant nextObjectId != NO_MORE ==>
        left == 256 - nextObjectId as int && objects + Mapped(d, nextObjectId as int, 256) == all
      invariant nextObjectId == NO_MORE ==> objects == all
      decreases left, nextObjectId != NO_MORE
    {
      hide Collect, Mapped;
      ghost var id := nextObjectId;
      NextPage(d, objectIdStart, id, objects, idsLength, bufferLength);
      var received;
      err, received, nextObjectId := ReadPage(c, s, srv, f, d, nextObjectId, idsLength - |objects|, bufferLength);
      objects := objects + received;
      left := if nextObjectId != NO_MORE then 256 - nextObjectId as int else left;
    }
    err := NoError;
  }

  /** Where the loop stands after the page that starts at id. */
  lemma NextPage(d: DeviceInfo, from: u8, id: u8, got: seq<Object>, idsLength: u8, bufferLength: u8)
    requires Readable(d) && id >= 0x80 && got + Mapped(d, id as int, 256) == Mapped(d, from as int, 256)
      && |Mapped(d, from as int, 256)| <= idsLength as int
    requires forall k :: from as int <= k < 256 && d.present[k] ==> |d.names[k]| < bufferLength as int
    ensures
      var p := Collect(d, id as int, 0xFF, PAGE_ROOM);
      && p.Page? && |got| <= idsLength as int && Storable(p.objects, idsLength - |got|, bufferLength)
      && (p.more ==> id < p.next && got + p.objects + Mapped(d, p.next as int, 256) == Mapped(d, from as int, 256))
      && (!p.more ==> got + p.objects == Mapped(d, from as int, 256))
  {
    hide Collect, Mapped;
    PageIsPrefix(d, id as int, PAGE_ROOM);
    CollectFits(d, id as int, 0xFF, PAGE_ROOM);
    var p := Collect(d, id as int, 0xFF, PAGE_ROOM);
    var rest := if p.more then Mapped(d, p.next as int, 256) else [];
    assert got + (p.objects + rest) == got + p.objects + rest;
    assert p.objects + [] == p.objects;
    PageStorable(d, from as int, got, p.objects, rest, idsLength, bufferLength);
    assert got + p.objects + [] == got + p.objects;
  }

  /** One turn of the loop: request, answer, page. */
  method ReadPage(c: Nmbs, s: Nmbs, srv: Server, f: FileStore, d: DeviceInfo, start: u8, room: u8, bufferLength: u8)
    returns (err: Error, received: seq<Object>, nextObjectId: u8)
    requires Connected(c, s, srv) && Readable(d) && start >= 0x80
    requires var p := Collect(d, start as int, 0xFF, PAGE_ROOM); p.Page? && Storable(p.objects, room, bufferLength)
    modifies c, c.buf, s, s.buf, srv.coils, srv.regs, f`log
    ensures Connected(c, s, srv) && f.log == old(f.log) && srv.Contents() == old(srv.Contents())
    ensures var p := Collect(d, start as int, 0xFF, PAGE_ROOM);
      err == NoError && received == p.objects && nextObjectId == if p.more then p.next else NO_MORE
  {
    hide Collect, Frame, PagePdu;
    ghost var p := Collect(d, start as int, 0xFF, PAGE_ROOM);
    err := RequestDeviceId(c, 3, start);
    DeliverPage(c, s, srv, f, d, start);
    err, received, nextObjectId := ReceivePage(c, room, bufferLength, p.objects, p.more, p.next);
  }

  lemma PageStorable(d: DeviceInfo, from: nat, got: seq<Object>, page: seq<Object>, rest: seq<Object>, idsLength: u8,
                     bufferLength: u8)
    requires Proper(d) && got + page + rest == Mapped(d, from, 256) && |Mapped(d, from, 256)| <= idsLength as int
    requires forall id :: from <= id < 256 && d.present[id] ==> |d.names[id]| < bufferLength as int
    requires ShortNames(page) && Weight(page) <= PAGE_ROOM
    ensures |got| <= idsLength as int && Storable(page, idsLength - |got|, bufferLength)
  {
    var all := Mapped(d, from, 256);
    forall i | 0 <= i < |all| ensures 0 !in all[i].name && |all[i].name| < bufferLength as int {
      MappedNames(d, from, 256);
    }
    StorableRest(got, page, rest, idsLength, bufferLength);
  }

  /**
   The frame of a page never exceeds msg.buf, and fills it exactly when its objects use up their room, as two strings of
   121 bytes do.
   */
  lemma PageFrameSize(tid: u16, unit: u8, code: u8, objects: seq<Object>, more: bool, next: u8)
    requires ShortNames(objects) && Weight(objects) <= PAGE_ROOM
    ensures var f := Frame(Tcp, tid, unit, PagePdu(43, code, objects, more, next));
      |f| == 14 + Weight(objects) <= BUF_SIZE && (|f| == BUF_SIZE <==> Weight(objects) == PAGE_ROOM)
    ensures |objects| == 2 && |objects[0].name| == |objects[1].name| == 121 ==> Weight(objects) == PAGE_ROOM
  {
    ObjectsBytesSize(objects);
    if |objects| == 2 {
      assert objects == [objects[0]] + [objects[1]];
      WeightAppend([objects[0]], objects[1]);
      assert [objects[0]][1..] == [];
    }
  }
}
