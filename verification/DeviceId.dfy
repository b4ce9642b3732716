/**
 Read Device Identification, section 6.21 of MODBUS Application Protocol V1.1b3: the server's page builder
 and what a client that follows the pages receives.
 */
module DeviceId {
  import opened Wrappers
  import opened Bytes
  import opened Adu
  import opened Store
  import opened Protocol

  /** Bytes a page may spend on objects. */
  const PAGE_ROOM := 246

  datatype Object = Object(id: u8, name: seq<u8>)

  /** The two callbacks: the map of present objects, the string of each, and what they return. */
  datatype DeviceInfo = DeviceInfo(mapResult: Error, present: seq<bool>, nameResult: seq<Error>, names: seq<seq<u8>>)

  /** Strings fit the handler's 128-byte buffer with their terminator. */
  ghost predicate Proper(d: DeviceInfo) {
    && |d.present| == 256 && |d.nameResult| == 256 && |d.names| == 256
    && forall id :: 0 <= id < 256 ==> |d.names[id]| <= 127 && 0 !in d.names[id]
  }

  function ObjectBytes(o: Object): seq<u8>
    requires |o.name| < 0x100
  {
    [o.id, |o.name|] + o.name
  }

  ghost predicate ShortNames(objects: seq<Object>) {
    forall i :: 0 <= i < |objects| ==> |objects[i].name| <= 127
  }

  function ObjectsBytes(objects: seq<Object>): seq<u8>
    requires ShortNames(objects)
  {
    if objects == [] then [] else ObjectsBytes(objects[..|objects| - 1]) + ObjectBytes(objects[|objects| - 1])
  }

  lemma ObjectsBytesAppend(objects: seq<Object>, o: Object)
    requires ShortNames(objects) && |o.name| <= 127
    ensures ObjectsBytes(objects + [o]) == ObjectsBytes(objects) + ObjectBytes(o)
  {
    assert (objects + [o])[..|objects|] == objects;
  }

  //////////////////////////////////////////////////////////////////////////////
  // A page
  //////////////////////////////////////////////////////////////////////////////

  /** Objects id..last as far as room allows: the page, or the error that replaces it. */
  datatype Page = Page(objects: seq<Object>, more: bool, next: u8) | Broken(err: Error)

  function Collect(d: DeviceInfo, id: nat, last: u8, room: nat): (p: Page)
    requires Proper(d) && last as int <= 255
    decreases last as int + 1 - id
  {
    if id > last as int then Page([], false, 0)
    else if !d.present[id] then
      if id < 3 then Broken(Exception(SERVER_DEVICE_FAILURE)) else Collect(d, id + 1, last, room)
    else if d.nameResult[id] != NoError then Broken(d.nameResult[id])
    else
      var o := Object(id, d.names[id]);
      if 2 + |o.name| > room then Page([], true, id)
      else Prepend([o], Collect(d, id + 1, last, room - 2 - |o.name|))
  }

  function Prepend(objects: seq<Object>, p: Page): Page {
    if p.Page? then p.(objects := objects + p.objects) else p
  }

  /** What one turn of the object loop makes of a page in progress. */
  lemma CollectTurn(d: DeviceInfo, id: u8, last: u8, room: nat, objects: seq<Object>)
    requires Proper(d) && id <= last
    ensures
      var whole, o := Prepend(objects, Collect(d, id, last, room)), Object(id, d.names[id]);
      if !d.present[id] then
        whole == if id < 3 then Broken(Exception(SERVER_DEVICE_FAILURE))
                 else Prepend(objects, Collect(d, id + 1, last, room))
      else if d.nameResult[id] != NoError then whole == Broken(d.nameResult[id])
      else if 2 + |o.name| > room then whole == Page(objects, true, id)
      else whole == Prepend(objects + [o], Collect(d, id + 1, last, room - 2 - |o.name|))
  {
    assert objects + [] == objects;
    var o := Object(id, d.names[id]);
    if 2 + |o.name| <= room {
      var p := Collect(d, id + 1, last, room - 2 - |o.name|);
      if p.Page? {
        assert objects + ([o] + p.objects) == objects + [o] + p.objects;
      }
    }
  }

  lemma CollectEnds(d: DeviceInfo, last: u8, room: nat, objects: seq<Object>)
    requires Proper(d)
    ensures Prepend(objects, Collect(d, last as int + 1, last, room)) == Page(objects, false, 0)
  {
    assert objects + [] == objects;
  }

  lemma PrependNone(p: Page)
    ensures Prepend([], p) == p
  {
    assert p.Page? ==> [] + p.objects == p.objects;
  }

  function Weight(objects: seq<Object>): nat {
    if objects == [] then 0 else 2 + |objects[0].name| + Weight(objects[1..])
  }

  lemma {:induction false} CollectFits(d: DeviceInfo, id: nat, last: u8, room: nat)
    requires Proper(d)
    ensures var p := Collect(d, id, last, room);
      p.Page? ==> ShortNames(p.objects) && Weight(p.objects) <= room
    decreases last as int + 1 - id
  {
    if id <= last as int {
      CollectFits(d, id + 1, last, room);
      var o := Object(id, d.names[id]);
      if 2 + |o.name| <= room {
        CollectFits(d, id + 1, last, room - 2 - |o.name|);
        var p := Collect(d, id + 1, last, room - 2 - |o.name|);
        if p.Page? {
          assert ([o] + p.objects)[1..] == p.objects;
        }
      }
    }
  }

  lemma {:induction false} ObjectsBytesSize(objects: seq<Object>)
    requires ShortNames(objects)
    ensures |ObjectsBytes(objects)| == Weight(objects) && |objects| <= Weight(objects) / 2
  {
    if objects != [] {
      var n := |objects| - 1;
      ObjectsBytesSize(objects[..n]);
      WeightAppend(objects[..n], objects[n]);
      assert objects == objects[..n] + [objects[n]];
    }
  }

  lemma {:induction false} WeightAppend(objects: seq<Object>, o: Object)
    ensures Weight(objects + [o]) == Weight(objects) + 2 + |o.name|
  {
    if objects == [] {
      assert (objects + [o])[1..] == [];
    } else {
      assert (objects + [o])[1..] == objects[1..] + [o];
      WeightAppend(objects[1..], o);
    }
  }

  /** The PDU of one page of objects. */
  function PagePdu(fc: u8, code: u8, objects: seq<Object>, more: bool, next: u8): (pdu: Pdu)
    requires ShortNames(objects) && Weight(objects) <= PAGE_ROOM
  {
    ObjectsBytesSize(objects);
    [fc, 0x0E, code, 0x83, if more then 0xFF else 0, next, |objects|] + ObjectsBytes(objects)
  }

  /** The highest id a streaming access of the given kind reaches, if it may begin at start. */
  function LastId(code: u8, start: u8): (last: int)
  {
    if code == 1 && start <= 0x02 then 0x02
    else if code == 2 && 0x03 <= start <= 0x07 then 0x07
    else if code == 3 && start >= 0x80 then 0xFF
    else -1
  }

  /** handle_read_device_identification after its three bytes were read; without callbacks d is None. */
  function ExecuteDeviceId(db: Db, d: Option<DeviceInfo>, fc: u8, broadcast: bool, mei: u8, code: u8, start: u8): Answer
    requires d.Some? ==> Proper(d.value)
  {
    if d.None? || mei != 0x0E then Refuse(fc, ILLEGAL_FUNCTION, db)
    else if code < 1 || code > 4 then Refuse(fc, ILLEGAL_DATA_VALUE, db)
    else if 6 < start < 0x80 then Refuse(fc, ILLEGAL_DATA_ADDRESS, db)
    else if broadcast then Answer(NoError, Silent, db)
    else if d.value.mapResult != NoError then CallbackFailed(fc, d.value.mapResult, db)
    else ExecutePage(db, d.value, fc, code, start)
  }

  function ExecutePage(db: Db, d: DeviceInfo, fc: u8, code: u8, start: u8): Answer
    requires Proper(d)
  {
    if code == 4 then ExecuteSingleObject(db, d, fc, start)
    else if LastId(code, start) < 0 then Refuse(fc, ILLEGAL_DATA_ADDRESS, db)
    else
      var last := LastId(code, start);
      CollectFits(d, start, last, PAGE_ROOM);
      var p := Collect(d, start, last, PAGE_ROOM);
      if p.Broken? then CallbackFailed(fc, p.err, db)
      else Answer(NoError, Send(PagePdu(fc, code, p.objects, p.more, p.next)), db)
  }

  function ExecuteSingleObject(db: Db, d: DeviceInfo, fc: u8, start: u8): Answer
    requires Proper(d)
  {
    if !d.present[start] then Refuse(fc, ILLEGAL_DATA_ADDRESS, db)
    else if d.nameResult[start] != NoError then CallbackFailed(fc, d.nameResult[start], db)
    else
      var o := Object(start, d.names[start]);
      assert Weight([o]) == 2 + |o.name| by { assert [o][1..] == []; }
      Answer(NoError, Send(PagePdu(fc, 4, [o], false, 0)), db)
  }
}
