/** handle_read_device_identification: the page is built in msg.buf and its header fields are patched afterwards. */
module DeviceHandler {
  import opened Wrappers
  import opened Bytes
  import opened Adu
  import opened Store
  import opened Protocol
  import opened NmbsCore
  import opened Handlers
  import opened DeviceId

  /** The bytes of a page between its function code and its objects. */
  function PageHead(code: u8, more: u8, next: u8, count: u8): seq<u8> {
    [0x0E, code, 0x83, more, next, count]
  }

  /** The object loop: stops at the first object that no longer fits, or at an error that replaces the page. */
  method PutObjects(n: Nmbs, d: DeviceInfo, start: u8, last: u8, ghost head: seq<u8>)
    returns (broken: Error, msgSize: u8, moreFollows: u8, nextObjectId: u8, count: u8, ghost objects: seq<Object>)
    requires n.Valid() && Proper(d) && start <= last
    requires n.bufIdx == HeaderSize(n.transport) + 6 && n.buf[..n.bufIdx] == head
    modifies n`bufIdx, n.buf
    ensures n.Valid() && (moreFollows == 0 || moreFollows == 0xFF)
    ensures Collect(d, start, last, PAGE_ROOM) == if broken != NoError then Broken(broken)
                                                  else Page(objects, moreFollows == 0xFF, nextObjectId)
    ensures broken == NoError ==>
      && ShortNames(objects) && Weight(objects) <= PAGE_ROOM && count == |objects| && msgSize == 6 + Weight(objects)
      && n.buf[..n.bufIdx] == head + ObjectsBytes(objects)
  {
    hide Collect, Prepend, ObjectsBytes, Weight;
    var resSizeLeft: int := 253 - 7;
    broken, msgSize, moreFollows, nextObjectId, count := NoError, 6, 0, 0, 0;
    objects := [];
    PrependNone(Collect(d, start, last, PAGE_ROOM));
    NoObjects();
    assert head + [] == head;
    var id: int := start;
    while id <= last
      invariant n.Valid() && start <= id <= last + 1
      invariant ShortNames(objects) && Weight(objects) + resSizeLeft == PAGE_ROOM && resSizeLeft >= 0
      invariant count == |objects| && msgSize == 6 + Weight(objects)
      invariant n.buf[..n.bufIdx] == head + ObjectsBytes(objects)
      invariant Collect(d, start, last, PAGE_ROOM) == Prepend(objects, Collect(d, id, last, resSizeLeft))
    {
      CollectTurn(d, id, last, resSizeLeft, objects);
      if !d.present[id] {
        if id < 3 {
          broken := Exception(SERVER_DEVICE_FAILURE);
          return;
        }
        id := id + 1;
        continue;
      }
      if d.nameResult[id] != NoError {
        broken := d.nameResult[id];
        return;
      }
      var str := d.names[id];
      if resSizeLeft - 2 - |str| < 0 {
        moreFollows := 0xFF;
        nextObjectId := id;
        return;
      }
      resSizeLeft := resSizeLeft - 2 - |str|;
      PutObject(n, id, str, head, objects);
      objects := objects + [Object(id, str)];
      ObjectsBytesSize(objects);
      msgSize := msgSize + 2 + |str|;
      count := count + 1;
      id := id + 1;
    }
    CollectEnds(d, last, resSizeLeft, objects);
  }

  lemma NoObjects()
    ensures Weight([]) == 0 && ObjectsBytes([]) == []
  {
  }

  method PutObject(n: Nmbs, id: u8, str: seq<u8>, ghost head: seq<u8>, ghost objects: seq<Object>)
    requires n.Valid() && |str| <= 127 && ShortNames(objects)
    requires n.buf[..n.bufIdx] == head + ObjectsBytes(objects)
    requires |head| + Weight(objects) + 2 + |str| <= BUF_SIZE
    modifies n`bufIdx, n.buf
    ensures n.Valid()
    ensures Weight(objects + [Object(id, str)]) == Weight(objects) + 2 + |str|
    ensures n.buf[..n.bufIdx] == head + ObjectsBytes(objects + [Object(id, str)])
  {
    hide ObjectsBytes, Weight;
    ghost var o := Object(id, str);
    WeightAppend(objects, o);
    ObjectsBytesSize(objects);
    ObjectsBytesAppend(objects, o);
    n.Put1(id);
    n.Put1(|str|);
    n.PutN(str);
    assert ObjectBytes(o) == [id] + [|str| as u8] + str;
  }

  /** The streaming access kinds: basic, regular and extended. */
  method StreamObjects(n: Nmbs, s: Server, d: DeviceInfo, code: u8, start: u8, last: u8) returns (err: Error)
    requires Ready(n, s) && Proper(d) && start <= last && n.bufIdx == HeaderSize(n.transport) + 3
    requires n.buf[..n.bufIdx] == HeaderBytes(n.transport, n.transactionId, n.unitId, n.fc, 0) + [0x0E, code, 0x83]
    modifies n`fc, n`bufIdx, n`tx, n.buf
    ensures n.Valid()
    ensures StreamAnswered(n, s, old(n.tx), old(n.fc), old(s.Contents()), Collect(d, start, last, PAGE_ROOM), code, err)
  {
    hide Collect, CallbackFailed, HeaderBytes, ObjectsBytes, Weight, Frame;
    var moreFollowsIdx := n.bufIdx;
    n.Put1(0);
    var nextObjectIdIdx := n.bufIdx;
    n.Put1(0);
    var numberOfObjectsIdx := n.bufIdx;
    n.Put1(0);
    ghost var head := n.buf[..n.bufIdx];
    assert head == HeaderBytes(n.transport, n.transactionId, n.unitId, n.fc, 0) + PageHead(code, 0, 0, 0);
    var broken, msgSize, moreFollows, nextObjectId, count;
    ghost var objects;
    broken, msgSize, moreFollows, nextObjectId, count, objects := PutObjects(n, d, start, last, head);
    if broken != NoError {
      err := SendCallbackError(n, s, broken);
      return;
    }
    err := FinishPage(n, code, moreFollowsIdx, nextObjectIdIdx, numberOfObjectsIdx, msgSize, moreFollows, nextObjectId,
                      count, objects);
  }

  ghost predicate StreamAnswered(n: Nmbs, s: Server, was: seq<seq<u8>>, fc: u8, db: Db, p: Page, code: u8, err: Error)
    requires s.Valid()
    reads n, s.Repr()
  {
    match p
    case Broken(e) => Answered(n, s, was, n.transactionId, n.unitId, CallbackFailed(fc, e, db), err)
    case Page(objects, more, next) =>
      && ShortNames(objects) && Weight(objects) <= PAGE_ROOM
      && Answered(n, s, was, n.transactionId, n.unitId,
                  Answer(NoError, Send(PagePdu(fc, code, objects, more, next)), db), err)
  }

  /** The patches behind the loop, and the send. */
  method FinishPage(n: Nmbs, code: u8, moreFollowsIdx: nat, nextObjectIdIdx: nat, numberOfObjectsIdx: nat,
                    msgSize: u8, moreFollows: u8, nextObjectId: u8, count: u8, ghost objects: seq<Object>)
    returns (err: Error)
    requires n.Valid() && n.linkUp && (moreFollows == 0 || moreFollows == 0xFF)
    requires moreFollowsIdx == HeaderSize(n.transport) + 3 && nextObjectIdIdx == moreFollowsIdx + 1
      && numberOfObjectsIdx == moreFollowsIdx + 2
    requires ShortNames(objects) && Weight(objects) <= PAGE_ROOM && count == |objects| && msgSize == 6 + Weight(objects)
    requires n.buf[..n.bufIdx] == HeaderBytes(n.transport, n.transactionId, n.unitId, n.fc, 0)
                                 + PageHead(code, 0, 0, 0) + ObjectsBytes(objects)
    modifies n`bufIdx, n`tx, n.buf
    ensures n.Valid() && err == NoError
    ensures n.tx == old(n.tx) + [Frame(n.transport, n.transactionId, n.unitId,
                                       PagePdu(n.fc, code, objects, moreFollows == 0xFF, nextObjectId))]
  {
    hide ObjectsBytes, Weight, Frame, HeaderBytes, PagePdu, PageHead;
    ghost var body := ObjectsBytes(objects);
    PatchCounters(n, code, moreFollowsIdx, nextObjectIdIdx, numberOfObjectsIdx, moreFollows, nextObjectId, count, body);
    ghost var rest := PageHead(code, moreFollows, nextObjectId, count) + body;
    n.SetMsgHeaderSize(msgSize, rest);
    ghost var pdu := PagePdu(n.fc, code, objects, moreFollows == 0xFF, nextObjectId);
    PagePduTail(n.fc, code, objects, moreFollows, nextObjectId);
    err := n.SendPdu(pdu);
  }

  /** The PDU of a page behind its function code. */
  lemma PagePduTail(fc: u8, code: u8, objects: seq<Object>, moreFollows: u8, next: u8)
    requires ShortNames(objects) && Weight(objects) <= PAGE_ROOM && (moreFollows == 0 || moreFollows == 0xFF)
    ensures |objects| < 0x100
    ensures var pdu := PagePdu(fc, code, objects, moreFollows == 0xFF, next);
      |pdu| == 7 + Weight(objects) && pdu[0] == fc
        && pdu[1..] == PageHead(code, moreFollows, next, |objects|) + ObjectsBytes(objects)
  {
    hide ObjectsBytes, Weight;
    ObjectsBytesSize(objects);
    BehindFirst(fc, 0x0E, code, 0x83, moreFollows, next, |objects|, ObjectsBytes(objects));
  }

  lemma BehindFirst(a: u8, b: u8, c: u8, d: u8, e: u8, f: u8, g: u8, rest: seq<u8>)
    ensures ([a, b, c, d, e, f, g] + rest)[1..] == [b, c, d, e, f, g] + rest
  {
  }

  method PatchCounters(n: Nmbs, code: u8, moreFollowsIdx: nat, nextObjectIdIdx: nat, numberOfObjectsIdx: nat,
                       moreFollows: u8, nextObjectId: u8, count: u8, ghost body: seq<u8>)
    requires n.Valid()
    requires moreFollowsIdx == HeaderSize(n.transport) + 3 && nextObjectIdIdx == moreFollowsIdx + 1
      && numberOfObjectsIdx == moreFollowsIdx + 2
    requires n.buf[..n.bufIdx] == HeaderBytes(n.transport, n.transactionId, n.unitId, n.fc, 0)
                                 + PageHead(code, 0, 0, 0) + body
    modifies n.buf
    ensures n.buf[..n.bufIdx] == HeaderBytes(n.transport, n.transactionId, n.unitId, n.fc, 0)
                                 + (PageHead(code, moreFollows, nextObjectId, count) + body)
  {
    ghost var header := HeaderBytes(n.transport, n.transactionId, n.unitId, n.fc, 0);
    ghost var s := n.buf[..n.bufIdx];
    ghost var k := |header|;
    assert s[..k] == header && s[k..k + 6] == PageHead(code, 0, 0, 0) && s[k + 6..] == body;
    n.Set1(moreFollows, moreFollowsIdx);
    n.Set1(nextObjectId, nextObjectIdIdx);
    n.Set1(count, numberOfObjectsIdx);
    ghost var p := n.buf[..n.bufIdx];
    assert p[..k] == s[..k] && p[k + 6..] == s[k + 6..];
    assert p[k..k + 6] == PageHead(code, moreFollows, nextObjectId, count);
    assert p == p[..k] + (p[k..k + 6] + p[k + 6..]);
  }

  /** Access to one object. */
  method SingleObject(n: Nmbs, s: Server, d: DeviceInfo, objectId: u8) returns (err: Error)
    requires Ready(n, s) && Proper(d) && n.bufIdx == HeaderSize(n.transport) + 3
    requires n.buf[..n.bufIdx] == HeaderBytes(n.transport, n.transactionId, n.unitId, n.fc, 0) + [0x0E, 4, 0x83]
    modifies n`fc, n`bufIdx, n`tx, n.buf
    ensures n.Valid()
    ensures Answered(n, s, old(n.tx), n.transactionId, n.unitId,
                     ExecuteSingleObject(old(s.Contents()), d, old(n.fc), objectId), err)
  {
    hide HeaderBytes, Frame, CallbackFailed, ObjectsBytes, Weight;
    if !d.present[objectId] {
      err := n.SendExceptionMsg(ILLEGAL_DATA_ADDRESS);
      return;
    }
    NoObjects();
    n.Put1(0);
    n.Put1(0);
    n.Put1(1);
    err := d.nameResult[objectId];
    if err != NoError {
      err := SendCallbackError(n, s, err);
      return;
    }
    var str := d.names[objectId];
    ghost var head := HeaderBytes(n.transport, n.transactionId, n.unitId, n.fc, 0) + PageHead(4, 0, 0, 1);
    assert n.buf[..n.bufIdx] == head + ObjectsBytes([]);
    PutObject(n, objectId, str, head, []);
    err := FinishSingle(n, Object(objectId, str));
  }

  method FinishSingle(n: Nmbs, o: Object) returns (err: Error)
    requires n.Valid() && n.linkUp && |o.name| <= 127
    requires n.buf[..n.bufIdx] == HeaderBytes(n.transport, n.transactionId, n.unitId, n.fc, 0)
                                 + PageHead(4, 0, 0, 1) + ObjectsBytes([] + [o])
    modifies n`bufIdx, n`tx, n.buf
    ensures n.Valid() && err == NoError && Weight([o]) == 2 + |o.name|
    ensures n.tx == old(n.tx) + [Frame(n.transport, n.transactionId, n.unitId, PagePdu(n.fc, 4, [o], false, 0))]
  {
    SinglePdu(n.fc, o);
    hide ObjectsBytes, Frame, HeaderBytes, PagePdu, PageHead, Weight;
    ghost var pdu := PagePdu(n.fc, 4, [o], false, 0);
    assert HeaderBytes(n.transport, n.transactionId, n.unitId, n.fc, 0) + PageHead(4, 0, 0, 1) + ObjectsBytes([] + [o])
        == HeaderBytes(n.transport, n.transactionId, n.unitId, n.fc, 0) + pdu[1..];
    n.SetMsgHeaderSize(6 + 2 + |o.name|, pdu[1..]);
    err := n.SendPdu(pdu);
  }

  lemma SingleSize(o: Object)
    requires |o.name| <= 127
    ensures [] + [o] == [o] && ShortNames([o]) && Weight([o]) == 2 + |o.name| == |ObjectsBytes([o])|
  {
    assert [] + [o] == [o];
    WeightAppend([], o);
    ObjectsBytesSize([o]);
    hide ObjectsBytes;
  }

  /** The PDU of a page of one object. */
  lemma SinglePdu(fc: u8, o: Object)
    requires |o.name| <= 127
    ensures ShortNames([] + [o]) && Weight([o]) == 2 + |o.name| <= PAGE_ROOM
    ensures var pdu := PagePdu(fc, 4, [o], false, 0);
      |pdu| == 9 + |o.name| && pdu[0] == fc && pdu[1..] == PageHead(4, 0, 0, 1) + ObjectsBytes([] + [o])
  {
    hide ObjectsBytes, Weight, PagePdu, PageHead;
    SingleSize(o);
    PagePduTail(fc, 4, [o], 0, 0);
  }

  /** handle_read_device_identification after its three bytes were read. */
  method ServeDeviceId(n: Nmbs, s: Server, d: Option<DeviceInfo>, mei: u8, code: u8, start: u8) returns (err: Error)
    requires Ready(n, s) && (d.Some? ==> Proper(d.value))
    modifies n`fc, n`bufIdx, n`tx, n.buf
    ensures n.Valid()
    ensures Answered(n, s, old(n.tx), n.transactionId, n.unitId,
      ExecuteDeviceId(old(s.Contents()), d, old(n.fc), n.broadcast, mei, code, start), err)
  {
    hide ExecutePage, Frame;
    if d.None? {
      err := n.SendExceptionMsg(ILLEGAL_FUNCTION);
      return;
    }
    if mei != 0x0E {
      err := n.SendExceptionMsg(ILLEGAL_FUNCTION);
      return;
    }
    if code < 1 || code > 4 {
      err := n.SendExceptionMsg(ILLEGAL_DATA_VALUE);
      return;
    }
    if start > 6 && start < 0x80 {
      err := n.SendExceptionMsg(ILLEGAL_DATA_ADDRESS);
      return;
    }
    if n.broadcast {
      return NoError;
    }
    if d.value.mapResult != NoError {
      err := SendCallbackError(n, s, d.value.mapResult);
      return;
    }
    err := ServePage(n, s, d.value, code, start);
  }

  method ServePage(n: Nmbs, s: Server, d: DeviceInfo, code: u8, start: u8) returns (err: Error)
    requires Ready(n, s) && Proper(d) && 1 <= code <= 4
    modifies n`fc, n`bufIdx, n`tx, n.buf
    ensures n.Valid()
    ensures Answered(n, s, old(n.tx), n.transactionId, n.unitId,
                     ExecutePage(old(s.Contents()), d, old(n.fc), code, start), err)
  {
    hide Collect, Frame, HeaderBytes, ExecuteSingleObject;
    n.PutMsgHeader(0);
    n.Put1(0x0E);
    n.Put1(code);
    n.Put1(0x83);
    if code == 4 {
      err := SingleObject(n, s, d, start);
      return;
    }
    if LastId(code, start) < 0 {
      err := n.SendExceptionMsg(ILLEGAL_DATA_ADDRESS);
      return;
    }
    err := StreamObjects(n, s, d, code, start, LastId(code, start));
  }
}
