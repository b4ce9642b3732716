/** recv_read_device_identification_res: the objects of one page, as the client stores them. */
module DeviceResponses {
  import opened Wrappers
  import opened Bytes
  import opened Adu
  import opened NmbsCore
  import opened Responses
  import opened DeviceId

  /** The id the client takes for "no more pages"; the standard reserves it. */
  const NO_MORE: u8 := 0x7F

  /** The C string left by strncpy and a terminator behind the object's bytes. */
  function CString(s: seq<u8>): seq<u8> {
    if s == [] || s[0] == 0 then [] else [s[0]] + CString(s[1..])
  }

  lemma CStringOfText(s: seq<u8>)
    requires 0 !in s
    ensures CString(s) == s
  {
  }

  //////////////////////////////////////////////////////////////////////////////
  // The result as a function of the message
  //////////////////////////////////////////////////////////////////////////////

  /** What a client stores: at most count objects, each string in a buffer of length bytes. */
  datatype Room = Room(count: u8, length: u8)

  datatype Objects = Taken(end: nat, objects: seq<Object>) | Lost(err: Error)

  /** The result of one turn of the object loop at p, when left of the 246 bytes remain after the object's head. */
  function ObjectError(v: seq<u8>, p: nat, left: u8, room: Option<Room>): (e: Error)
    ensures e == NoError ==> p + 2 <= |v| && p + 2 + v[p + 1] <= |v| && p + 2 + v[p + 1] <= BUF_SIZE
  {
    if p + 2 > BUF_SIZE then Fault
    else if |v| < p + 2 then TimedOut
    else if v[p + 1] > left then InvalidResponse
    else if p + 2 + v[p + 1] > BUF_SIZE then Fault
    else if |v| < p + 2 + v[p + 1] then TimedOut
    else if room.Some? && (room.value.count == 0 || v[p + 1] >= room.value.length) then Fault
    else NoError
  }

  /** res_size_left after an object's head; the object's bytes are not taken from it. */
  function LeftAfter(left: u8): u8 {
    (left as int - 2) % 0x100
  }

  /** The object loop over count objects at p: where it ends and what it stores, or the error that ends it. */
  function TakeObjects(v: seq<u8>, p: nat, count: nat, left: u8, room: Option<Room>): (o: Objects)
    ensures o.Taken? ==> p <= o.end && (count > 0 ==> o.end <= |v| && o.end <= BUF_SIZE)
    ensures o.Lost? ==> o.err != NoError
    decreases count
  {
    if count == 0 then Taken(p, [])
    else if ObjectError(v, p, LeftAfter(left), room) != NoError then Lost(ObjectError(v, p, LeftAfter(left), room))
    else
      var stored := Object(v[p], CString(v[p + 2..p + 2 + v[p + 1]]));
      PrependObject(if room.Some? then [stored] else [],
                    TakeObjects(v, p + 2 + v[p + 1], count - 1, LeftAfter(left), room))
  }

  lemma TakeNone(v: seq<u8>, p: nat, left: u8, room: Option<Room>)
    ensures TakeObjects(v, p, 0, left, room) == Taken(p, [])
  {
  }

  /** The first turn of the loop, and the others. */
  lemma TakeTurn(v: seq<u8>, p: nat, count: nat, left: u8, room: Option<Room>, stored: seq<Object>)
    requires count > 0
    requires ObjectError(v, p, LeftAfter(left), room) == NoError ==>
      stored == if room.Some? then [Object(v[p], CString(v[p + 2..p + 2 + v[p + 1]]))] else []
    ensures TakeObjects(v, p, count, left, room) ==
      if ObjectError(v, p, LeftAfter(left), room) != NoError then Lost(ObjectError(v, p, LeftAfter(left), room))
      else PrependObject(stored, TakeObjects(v, p + 2 + v[p + 1], count - 1, LeftAfter(left), room))
  {
  }

  function PrependObject(stored: seq<Object>, o: Objects): Objects {
    if o.Taken? then o.(objects := stored + o.objects) else o
  }

  /** The six bytes before the objects. */
  function PageHeadError(v: seq<u8>, h: nat, room: Option<Room>): (e: Error)
    ensures e == NoError ==> h + 6 <= |v|
  {
    if |v| < h + 6 then TimedOut
    else if v[h] != 0x0E || v[h + 1] < 1 || v[h + 1] > 4 then InvalidResponse
    else if v[h + 2] < 1 || 3 < v[h + 2] < 0x81 || v[h + 2] > 0x83 then InvalidResponse
    else if v[h + 3] != 0 && v[h + 3] != 0xFF then InvalidResponse
    else if room.Some? && room.value.count != 0 && v[h + 5] > room.value.count then InvalidArgument
    else NoError
  }

  /** recv_read_device_identification_res after its header. */
  function TakePage(t: Transport, v: seq<u8>, room: Option<Room>): (o: Objects)
    requires |v| >= HeaderSize(t)
    ensures o.Lost? ==> o.err != NoError
    ensures o.Taken? ==> HeaderSize(t) + 6 <= o.end && (t.Rtu? ==> o.end + 2 <= |v|)
  {
    var h := HeaderSize(t);
    var e := PageHeadError(v, h, room);
    if e != NoError then Lost(e)
    else
      var o := TakeObjects(v, h + 6, v[h + 5], 246, room);
      if o.Lost? then o
      else if FooterError(t, v, o.end, o.end) != NoError then Lost(FooterError(t, v, o.end, o.end))
      else o
  }

  /** The start of the next page, as the client is told. */
  function NextId(v: seq<u8>, h: nat): u8
    requires h + 6 <= |v|
  {
    if v[h + 3] == 0 then NO_MORE else v[h + 4]
  }

  //////////////////////////////////////////////////////////////////////////////
  // The methods
  //////////////////////////////////////////////////////////////////////////////

  /** The response fields of a page, before its objects. */
  method RecvPageHead(n: Nmbs, room: Option<Room>) returns (err: Error, nextObjectId: u8, objectsCount: u8)
    requires AfterHeader(n)
    modifies n`bufIdx, n`fill, n`rx, n.buf
    ensures |n.rx| <= |old(n.rx)|
    ensures n.Valid()
    ensures var v, h := old(n.View()), old(n.bufIdx);
      && err == PageHeadError(v, h, room)
      && (err == NoError ==>
            UpToCursor(n) && n.bufIdx == h + 6 && n.View() == v && nextObjectId == NextId(v, h)
              && objectsCount == v[h + 5])
  {
    nextObjectId, objectsCount := 0, 0;
    ghost var v := n.View();
    err := n.Recv(6);
    if err != NoError {
      return;
    }
    assert n.View() == v;
    err, nextObjectId, objectsCount := GetPageHead(n, room);
  }

  method GetPageHead(n: Nmbs, room: Option<Room>) returns (err: Error, nextObjectId: u8, objectsCount: u8)
    requires n.Receiving() && n.bufIdx + 6 <= n.fill
    modifies n`bufIdx
    ensures n.Valid()
    ensures var v, h := n.buf[..n.fill], old(n.bufIdx);
      && err == PageHeadError(v, h, room)
      && (err == NoError ==> n.bufIdx == h + 6 && nextObjectId == NextId(v, h) && objectsCount == v[h + 5])
  {
    nextObjectId, objectsCount := 0, 0;
    var meiType := n.Get1();
    if meiType != 0x0E {
      err := InvalidResponse;
      return;
    }
    var readDeviceIdCode := n.Get1();
    if readDeviceIdCode < 1 || readDeviceIdCode > 4 {
      err := InvalidResponse;
      return;
    }
    var conformityLevel := n.Get1();
    if conformityLevel < 1 || (conformityLevel > 3 && conformityLevel < 0x81) || conformityLevel > 0x83 {
      err := InvalidResponse;
      return;
    }
    var moreFollows := n.Get1();
    if moreFollows != 0 && moreFollows != 0xFF {
      err := InvalidResponse;
      return;
    }
    nextObjectId := n.Get1();
    objectsCount := n.Get1();
    if room.Some? && room.value.count != 0 && objectsCount > room.value.count {
      err := InvalidArgument;
      return;
    }
    if moreFollows == 0 {
      nextObjectId := NO_MORE;
    }
    err := NoError;
  }

  /** count more bytes of the message, of which the whole is v; on TCP the cursor may leave msg.buf. */
  method RecvBytes(n: Nmbs, count: nat) returns (err: Error)
    requires UpToCursor(n)
    modifies n`fill, n`rx, n.buf
    ensures |n.rx| <= |old(n.rx)|
    ensures n.Valid()
    ensures var v, p := old(n.View()), n.bufIdx;
      && err == (if p + count > BUF_SIZE then Fault else if |v| < p + count then TimedOut else NoError)
      && (err == NoError ==>
            n.Receiving() && n.View() == v && p + count <= n.fill && (n.transport.Rtu? ==> n.fill == p + count))
  {
    ghost var v := n.View();
    err := n.Recv(count);
    if err == NoError {
      if n.bufIdx + count > BUF_SIZE {
        return Fault;
      }
      assert n.View() == v;
    }
  }

  method RecvObjectHead(n: Nmbs) returns (err: Error, objectId: u8, objectLength: u8)
    requires UpToCursor(n)
    modifies n`bufIdx, n`fill, n`rx, n.buf
    ensures |n.rx| <= |old(n.rx)|
    ensures n.Valid()
    ensures var v, p := old(n.View()), old(n.bufIdx);
      && err == (if p + 2 > BUF_SIZE then Fault else if |v| < p + 2 then TimedOut else NoError)
      && (err == NoError ==>
            UpToCursor(n) && n.View() == v && n.bufIdx == p + 2 && objectId == v[p] && objectLength == v[p + 1])
  {
    objectId, objectLength := 0, 0;
    err := RecvBytes(n, 2);
    if err == NoError {
      assert n.buf[..n.fill] == n.View()[..n.fill];
      objectId := n.Get1();
      objectLength := n.Get1();
    }
  }

  /** One turn of the object loop. */
  method RecvObject(n: Nmbs, left: u8, room: Option<Room>) returns (err: Error, stored: Object)
    requires UpToCursor(n)
    modifies n`bufIdx, n`fill, n`rx, n.buf
    ensures |n.rx| <= |old(n.rx)|
    ensures n.Valid()
    ensures var v, p := old(n.View()), old(n.bufIdx);
      && err == ObjectError(v, p, left, room)
      && (err == NoError ==>
            && UpToCursor(n) && n.View() == v && n.bufIdx == p + 2 + v[p + 1]
            && stored == Object(v[p], CString(v[p + 2..p + 2 + v[p + 1]])))
  {
    hide CString;
    stored := Object(0, []);
    var objectId, objectLength;
    err, objectId, objectLength := RecvObjectHead(n);
    if err != NoError {
      return;
    }
    if objectLength > left {
      return InvalidResponse, stored;
    }
    err := RecvBytes(n, objectLength);
    if err != NoError {
      return;
    }
    var str := n.GetBytes(objectLength);
    if room.Some? && (room.value.count == 0 || objectLength >= room.value.length) {
      // ids_out or the string buffer ends before the place written to.
      return Fault, stored;
    }
    stored := Object(objectId, CString(str));
  }

  /** The object loop. */
  method RecvObjects(n: Nmbs, objectsCount: u8, room: Option<Room>) returns (err: Error, objects: seq<Object>)
    requires UpToCursor(n)
    modifies n`bufIdx, n`fill, n`rx, n.buf
    ensures |n.rx| <= |old(n.rx)|
    ensures n.Valid()
    ensures var v := old(n.View());
      match TakeObjects(v, old(n.bufIdx), objectsCount, 246, room)
      case Lost(e) => err == e
      case Taken(end, stored) =>
        err == NoError && objects == stored && UpToCursor(n) && n.View() == v && n.bufIdx == end
  {
    hide ObjectError, CString, LeftAfter, TakeObjects, PrependObject;
    ghost var v, whole := n.View(), TakeObjects(n.View(), n.bufIdx, objectsCount, 246, room);
    objects := [];
    var resSizeLeft: u8 := 253 - 7;
    PrependNoObject(whole);
    for i := 0 to objectsCount
      invariant UpToCursor(n) && n.View() == v && |n.rx| <= |old(n.rx)|
      invariant whole == PrependObject(objects, TakeObjects(v, n.bufIdx, objectsCount - i, resSizeLeft, room))
    {
      ghost var before, p, left := objects, n.bufIdx, resSizeLeft;
      resSizeLeft := SubtractHead(resSizeLeft);
      var stored;
      err, stored := RecvObject(n, resSizeLeft, room);
      TakeTurn(v, p, objectsCount - i, left, room, if room.Some? then [stored] else []);
      if err != NoError {
        PrependLost(objects, err);
        return;
      }
      if room.Some? {
        objects := objects + [stored];
      }
      KeptObject(before, objects, stored, room, TakeObjects(v, n.bufIdx, objectsCount - i - 1, resSizeLeft, room));
    }
    err := NoError;
    NoMoreObjects(v, n.bufIdx, resSizeLeft, room, objects);
  }

  method SubtractHead(left: u8) returns (left': u8)
    ensures left' == LeftAfter(left)
  {
    left' := if left >= 2 then left - 2 else 0x100 + left - 2;
  }

  lemma KeptObject(before: seq<Object>, after: seq<Object>, stored: Object, room: Option<Room>, o: Objects)
    requires after == if room.Some? then before + [stored] else before
    ensures PrependObject(before, PrependObject(if room.Some? then [stored] else [], o)) == PrependObject(after, o)
  {
    assert before + [] == before;
    if o.Taken? {
      assert before + ([stored] + o.objects) == before + [stored] + o.objects;
      assert [] + o.objects == o.objects;
    }
  }

  lemma PrependLost(objects: seq<Object>, e: Error)
    ensures PrependObject(objects, Lost(e)) == Lost(e)
  {
  }

  lemma PrependNoObject(o: Objects)
    ensures PrependObject([], o) == o
  {
    assert o.Taken? ==> [] + o.objects == o.objects;
  }

  lemma NoMoreObjects(v: seq<u8>, p: nat, left: u8, room: Option<Room>, objects: seq<Object>)
    ensures PrependObject(objects, TakeObjects(v, p, 0, left, room)) == Taken(p, objects)
  {
    assert objects + [] == objects;
  }

  /** recv_read_device_identification_res; a server that skips another unit's response has no room. */
  method RecvDeviceIdRes(n: Nmbs, room: Option<Room>) returns (err: Error, objects: seq<Object>, nextObjectId: u8)
    requires n.Valid()
    modifies n, n.buf
    ensures |n.rx| <= |old(n.rx)|
    ensures unchanged(n`tx, n`linkUp, n`currentTid, n`destAddressRtu)
    ensures n.Valid()
    ensures
      var e := ReceptionError(n.transport, n.linkUp, old(n.buf[..]), old(n.rx), old(n.transactionId), old(n.unitId),
                              old(n.fc));
      if e != NoError then err == e else
      PageReceived(n, Received(n.transport, old(n.buf[..]), old(n.rx)), room, err, objects, nextObjectId)
  {
    hide ReceptionError, PageReceived;
    objects, nextObjectId := [], 0;
    err := RecvResHeader(n);
    if err == NoError {
      err, objects, nextObjectId := RecvPage(n, room);
    }
  }

  /** The outcome is that of TakePage; on RTU a page that was taken leaves the line behind it. */
  ghost predicate PageReceived(n: Nmbs, v: seq<u8>, room: Option<Room>, err: Error, objects: seq<Object>,
                               nextObjectId: u8)
    requires |v| >= HeaderSize(n.transport)
    reads n
  {
    match TakePage(n.transport, v, room)
    case Lost(e) => err == e
    case Taken(end, stored) =>
      && err == NoError && objects == stored && nextObjectId == NextId(v, HeaderSize(n.transport))
      && (n.transport.Rtu? ==> n.rx == v[end + 2..])
  }

  method RecvPage(n: Nmbs, room: Option<Room>) returns (err: Error, objects: seq<Object>, nextObjectId: u8)
    requires AfterHeader(n)
    modifies n`bufIdx, n`fill, n`rx, n.buf
    ensures |n.rx| <= |old(n.rx)|
    ensures n.Valid()
    ensures PageReceived(n, old(n.View()), room, err, objects, nextObjectId)
  {
    hide TakeObjects, PageHeadError, FooterError;
    objects := [];
    var objectsCount;
    err, nextObjectId, objectsCount := RecvPageHead(n, room);
    if err != NoError {
      return;
    }
    err, objects := RecvObjects(n, objectsCount, room);
    if err != NoError {
      return;
    }
    err := RecvEnd(n);
  }

  /** The bytes at p of v are the object o. */
  ghost predicate ObjectAt(v: seq<u8>, p: nat, o: Object) {
    |o.name| <= 127 && p + 2 + |o.name| <= |v| && v[p..p + 2 + |o.name|] == ObjectBytes(o)
  }

  lemma ObjectAtBytes(v: seq<u8>, p: nat, o: Object)
    requires ObjectAt(v, p, o)
    ensures p + 2 + |o.name| <= |v| && |o.name| <= 127 && v[p] == o.id && v[p + 1] == |o.name|
      && v[p + 2..p + 2 + |o.name|] == o.name
  {
    var s := v[p..p + 2 + |o.name|];
    assert s[0] == v[p] && s[1] == v[p + 1] && s[2..] == v[p + 2..p + 2 + |o.name|];
  }

  //////////////////////////////////////////////////////////////////////////////
  // A page
  //////////////////////////////////////////////////////////////////////////////

  /** A client with room for count strings shorter than length can store the objects. */
  ghost predicate Storable(objects: seq<Object>, count: u8, length: u8) {
    && ShortNames(objects) && Weight(objects) <= PAGE_ROOM && |objects| <= count as int
    && forall i :: 0 <= i < |objects| ==> 0 !in objects[i].name && |objects[i].name| < length as int
  }

  /** The fields of a page and its objects, from position h of v. */
  ghost predicate PageAt(v: seq<u8>, h: nat, code: u8, objects: seq<Object>, more: bool, next: u8)
    requires ShortNames(objects) && Weight(objects) <= PAGE_ROOM
  {
    var pdu := PagePdu(43, code, objects, more, next);
    h >= 1 && h - 1 + |pdu| <= |v| && v[h - 1..h - 1 + |pdu|] == pdu
  }

  /** A page that is the whole message, with a good checksum on RTU. */
  ghost predicate PageMessage(t: Transport, v: seq<u8>, h: nat, code: u8, objects: seq<Object>, more: bool, next: u8)
    requires ShortNames(objects) && Weight(objects) <= PAGE_ROOM
  {
    PageAt(v, h, code, objects, more, next)
      && FooterError(t, v, h + 6 + Weight(objects), h + 6 + Weight(objects)) == NoError
  }

  lemma {:induction false} ObjectInPage(v: seq<u8>, h: nat, code: u8, objects: seq<Object>, more: bool, next: u8,
                                        i: nat)
    requires ShortNames(objects) && Weight(objects) <= PAGE_ROOM && PageAt(v, h, code, objects, more, next)
      && i < |objects|
    ensures ObjectAt(v, h + 6 + Weight(objects[..i]), objects[i])
    ensures Weight(objects[..i]) + 2 + |objects[i].name| <= Weight(objects)
  {
    var k, o := Weight(objects[..i]), objects[i];
    PageBody(v, h, code, objects, more, next);
    ObjectsBytesSlice(objects, i);
    hide Weight, ObjectsBytes, PagePdu, ShortNames, PageAt, ObjectBytes;
    SliceOfSlice(v, h + 6, ObjectsBytes(objects), k, 2 + |o.name|);
  }

  lemma PageBody(v: seq<u8>, h: nat, code: u8, objects: seq<Object>, more: bool, next: u8)
    requires ShortNames(objects) && Weight(objects) <= PAGE_ROOM && PageAt(v, h, code, objects, more, next)
    ensures h + 6 + Weight(objects) <= |v| && |ObjectsBytes(objects)| == Weight(objects)
    ensures v[h + 6..h + 6 + Weight(objects)] == ObjectsBytes(objects)
  {
    var pdu, n := PagePdu(43, code, objects, more, next), Weight(objects);
    ObjectsBytesSize(objects);
    assert pdu[7..7 + n] == ObjectsBytes(objects);
    hide Weight, ObjectsBytes, PagePdu, ShortNames;
    SliceOfSlice(v, h - 1, pdu, 7, n);
  }

  /** n bytes at k of a slice. */
  lemma SliceOfSlice(v: seq<u8>, at: nat, s: seq<u8>, k: nat, n: nat)
    requires at + |s| <= |v| && v[at..at + |s|] == s && k + n <= |s|
    ensures v[at + k..at + k + n] == s[k..k + n]
  {
    var a, b := v[at + k..at + k + n], s[k..k + n];
    forall i | 0 <= i < n ensures a[i] == b[i] {
      assert v[at..at + |s|][k + i] == v[at + k + i];
    }
  }

  lemma {:induction false} ObjectsBytesSlice(objects: seq<Object>, i: nat)
    requires ShortNames(objects) && i < |objects|
    ensures var k := Weight(objects[..i]);
      && k + 2 + |objects[i].name| <= Weight(objects) && |ObjectsBytes(objects)| == Weight(objects)
      && ObjectsBytes(objects)[k..k + 2 + |objects[i].name|] == ObjectBytes(objects[i])
  {
    var n := |objects| - 1;
    var front := objects[..n];
    LastBytes(objects);
    hide ObjectsBytes, Weight, ObjectBytes;
    if i < n {
      ObjectsBytesSlice(front, i);
      assert front[..i] == objects[..i];
      TakenFromFirst(ObjectsBytes(front), ObjectBytes(objects[n]), Weight(objects[..i]),
                     Weight(objects[..i]) + 2 + |objects[i].name|);
    } else {
      ObjectBytesSize(objects[n]);
      SecondPart(ObjectsBytes(front), ObjectBytes(objects[n]));
    }
  }

  lemma ObjectBytesSize(o: Object)
    requires |o.name| <= 127
    ensures |ObjectBytes(o)| == 2 + |o.name|
  {
  }

  lemma SecondPart(a: seq<u8>, b: seq<u8>)
    ensures (a + b)[|a|..|a| + |b|] == b
  {
  }

  lemma LastBytes(objects: seq<Object>)
    requires ShortNames(objects) && objects != []
    ensures var front, last := objects[..|objects| - 1], objects[|objects| - 1];
      && ObjectsBytes(objects) == ObjectsBytes(front) + ObjectBytes(last)
      && |ObjectsBytes(front)| == Weight(front) && Weight(objects) == Weight(front) + 2 + |last.name|
  {
    var front, last := objects[..|objects| - 1], objects[|objects| - 1];
    ObjectsBytesSize(front);
    WeightAppend(front, last);
    assert objects == front + [last];
  }

  lemma TakenFromFirst(a: seq<u8>, b: seq<u8>, k: nat, m: nat)
    requires k <= m <= |a|
    ensures (a + b)[k..m] == a[k..m]
  {
  }

  /** The objects lie one after another from p on. */
  ghost predicate ObjectsAt(v: seq<u8>, p: nat, objects: seq<Object>) {
    && ShortNames(objects) && Weight(objects) <= PAGE_ROOM && p + PAGE_ROOM <= BUF_SIZE
    && forall i :: 0 <= i < |objects| ==>
         ObjectAt(v, p + Weight(objects[..i]), objects[i])
         && Weight(objects[..i]) + 2 + |objects[i].name| <= Weight(objects)
  }

  /** res_size_left after i objects of a page. */
  function Left(i: nat): u8 {
    if i <= 123 then 246 - 2 * i else 0
  }

  lemma ObjectTurn(v: seq<u8>, p: nat, objects: seq<Object>, i: nat, room: Option<Room>)
    requires i < |objects| && ObjectsAt(v, p, objects)
    requires room.Some? ==> Storable(objects, room.value.count, room.value.length)
    ensures var o := objects[i];
      && (room.Some? ==> room.value.count != 0 && |o.name| < room.value.length as int && CString(o.name) == o.name)
      && |o.name| <= Left(i + 1) && LeftAfter(Left(i)) == Left(i + 1)
      && Weight(objects[..i + 1]) == Weight(objects[..i]) + 2 + |o.name|
      && ObjectAt(v, p + Weight(objects[..i]), o) && p + Weight(objects[..i]) + 2 + |o.name| <= BUF_SIZE
  {
    var o := objects[i];
    assert objects[..i] + [o] == objects[..i + 1];
    WeightAppend(objects[..i], o);
    WeightCount(objects[..i]);
    if room.Some? {
      CStringOfText(o.name);
    }
  }

  lemma PageObjects(v: seq<u8>, h: nat, code: u8, objects: seq<Object>, more: bool, next: u8)
    requires ShortNames(objects) && Weight(objects) <= PAGE_ROOM && PageAt(v, h, code, objects, more, next)
      && h + 6 + PAGE_ROOM <= BUF_SIZE
    ensures ObjectsAt(v, h + 6, objects)
  {
    hide ObjectAt, PageAt, ShortNames;
    forall i | 0 <= i < |objects|
      ensures ObjectAt(v, h + 6 + Weight(objects[..i]), objects[i])
        && Weight(objects[..i]) + 2 + |objects[i].name| <= Weight(objects)
    {
      ObjectInPage(v, h, code, objects, more, next, i);
    }
  }

  lemma PageFields(v: seq<u8>, h: nat, code: u8, objects: seq<Object>, more: bool, next: u8)
    requires ShortNames(objects) && Weight(objects) <= PAGE_ROOM && PageAt(v, h, code, objects, more, next)
    ensures h >= 1 && h + 6 <= |v| && v[h] == 0x0E && v[h + 1] == code && v[h + 2] == 0x83
    ensures v[h + 3] == (if more then 0xFF else 0) && v[h + 4] == next && v[h + 5] == |objects|
    ensures |objects| <= 123
  {
    PagePduHead(code, objects, more, next);
    HeadOfPage(v, h, code, objects, more, next);
    hide PagePdu, PageAt, Weight, ShortNames;
  }

  lemma HeadOfPage(v: seq<u8>, h: nat, code: u8, objects: seq<Object>, more: bool, next: u8)
    requires ShortNames(objects) && Weight(objects) <= PAGE_ROOM && PageAt(v, h, code, objects, more, next)
    ensures h >= 1 && h + 6 <= |v|
    ensures var pdu := PagePdu(43, code, objects, more, next);
      |pdu| >= 7 && v[h] == pdu[1] && v[h + 1] == pdu[2] && v[h + 2] == pdu[3] && v[h + 3] == pdu[4]
        && v[h + 4] == pdu[5] && v[h + 5] == pdu[6]
  {
    PagePduHead(code, objects, more, next);
    var pdu := PagePdu(43, code, objects, more, next);
    hide PagePdu, Weight, ShortNames;
    HeadOfSlice(v, h, pdu);
  }

  lemma PagePduHead(code: u8, objects: seq<Object>, more: bool, next: u8)
    requires ShortNames(objects) && Weight(objects) <= PAGE_ROOM
    ensures var pdu := PagePdu(43, code, objects, more, next);
      && |pdu| == 7 + Weight(objects) && |objects| <= 123
      && pdu[1] == 0x0E && pdu[2] == code && pdu[3] == 0x83 && pdu[4] == (if more then 0xFF else 0)
         && pdu[5] == next && pdu[6] == |objects|
  {
    ObjectsBytesSize(objects);
  }

  /** The six bytes behind the first of a slice that starts at h - 1. */
  lemma HeadOfSlice(v: seq<u8>, h: nat, s: seq<u8>)
    requires |s| >= 7 && 1 <= h && h - 1 + |s| <= |v| && v[h - 1..h - 1 + |s|] == s
    ensures v[h] == s[1] && v[h + 1] == s[2] && v[h + 2] == s[3] && v[h + 3] == s[4] && v[h + 4] == s[5]
      && v[h + 5] == s[6]
  {
    var w := v[h - 1..h - 1 + |s|];
    assert w[1] == v[h] && w[2] == v[h + 1] && w[3] == v[h + 2] && w[4] == v[h + 3] && w[5] == v[h + 4]
      && w[6] == v[h + 5];
  }

  lemma {:induction false} WeightCount(objects: seq<Object>)
    ensures Weight(objects) >= 2 * |objects|
  {
    if objects != [] {
      WeightCount(objects[1..]);
    }
  }

  lemma {:induction false} ObjectsTaken(v: seq<u8>, p: nat, objects: seq<Object>, i: nat, room: Option<Room>)
    requires ObjectsAt(v, p, objects) && i <= |objects|
    requires room.Some? ==> Storable(objects, room.value.count, room.value.length)
    ensures TakeObjects(v, p + Weight(objects[..i]), |objects| - i, Left(i), room)
         == Taken(p + Weight(objects), if room.Some? then objects[i..] else [])
    decreases |objects| - i
  {
    hide ObjectAt, ObjectsAt, Weight, CString, Storable, Left, LeftAfter, ObjectError, TakeObjects;
    var at := p + Weight(objects[..i]);
    if i == |objects| {
      assert objects[..i] == objects && objects[i..] == [];
      TakeNone(v, at, Left(i), room);
    } else {
      ObjectsTaken(v, p, objects, i + 1, room);
      ObjectTaken(v, p, objects, i, room);
      TakeTurn(v, at, |objects| - i, Left(i), room, if room.Some? then [objects[i]] else []);
      assert objects[i..] == [objects[i]] + objects[i + 1..];
    }
  }

  lemma ObjectTaken(v: seq<u8>, p: nat, objects: seq<Object>, i: nat, room: Option<Room>)
    requires i < |objects| && ObjectsAt(v, p, objects)
    requires room.Some? ==> Storable(objects, room.value.count, room.value.length)
    ensures var at := p + Weight(objects[..i]);
      && LeftAfter(Left(i)) == Left(i + 1) && ObjectError(v, at, Left(i + 1), room) == NoError
      && at + 2 + v[at + 1] == p + Weight(objects[..i + 1])
      && (room.Some? ==> Object(v[at], CString(v[at + 2..at + 2 + v[at + 1]])) == objects[i])
  {
    hide ObjectAt, ObjectsAt, Weight, CString, Storable, Left, LeftAfter;
    ObjectTurn(v, p, objects, i, room);
    ObjectAtBytes(v, p + Weight(objects[..i]), objects[i]);
  }

  lemma PageCarried(t: Transport, v: seq<u8>, tid: u16, unit: u8, code: u8, objects: seq<Object>, more: bool, next: u8)
    requires ShortNames(objects) && Weight(objects) <= PAGE_ROOM && |v| >= HeaderSize(t)
    requires Carries(t, v, tid, unit, PagePdu(43, code, objects, more, next))
    ensures PageMessage(t, v, HeaderSize(t), code, objects, more, next)
  {
    ObjectsBytesSize(objects);
  }

  /** A page that is the whole message and can be stored is taken as it was built. */
  lemma PageTaken(t: Transport, v: seq<u8>, room: Option<Room>, code: u8, objects: seq<Object>, more: bool, next: u8)
    requires |v| >= HeaderSize(t) && 1 <= code <= 4 && ShortNames(objects) && Weight(objects) <= PAGE_ROOM
    requires room.Some? ==> Storable(objects, room.value.count, room.value.length)
    requires PageMessage(t, v, HeaderSize(t), code, objects, more, next)
    ensures TakePage(t, v, room) == Taken(HeaderSize(t) + 6 + Weight(objects), if room.Some? then objects else [])
    ensures HeaderSize(t) + 6 <= |v| && NextId(v, HeaderSize(t)) == if more then next else NO_MORE
  {
    hide ObjectsAt, PageAt, TakeObjects, Weight, ShortNames;
    var h := HeaderSize(t);
    PageFields(v, h, code, objects, more, next);
    PageObjects(v, h, code, objects, more, next);
    AllTaken(v, h + 6, objects, room);
  }

  lemma AllTaken(v: seq<u8>, p: nat, objects: seq<Object>, room: Option<Room>)
    requires ObjectsAt(v, p, objects)
    requires room.Some? ==> Storable(objects, room.value.count, room.value.length)
    ensures TakeObjects(v, p, |objects|, 246, room) == Taken(p + Weight(objects), if room.Some? then objects else [])
  {
    ObjectsTaken(v, p, objects, 0, room);
    assert objects[..0] == [] && objects[0..] == objects;
  }
}
