/** What the server answers to a device identification request, for every access code and start id. */
module DeviceAccess {
  import opened Wrappers
  import opened Bytes
  import opened Adu
  import opened Store
  import opened Protocol
  import opened DeviceId
  import opened Files
  import opened Poll

  //////////////////////////////////////////////////////////////////////////////
  // The objects of a range
  //////////////////////////////////////////////////////////////////////////////

  /** The present objects from id on and below end, ascending, each with its string. */
  function Mapped(d: DeviceInfo, id: nat, end: nat): (objects: seq<Object>)
    requires Proper(d) && end <= 256
    ensures forall i :: 0 <= i < |objects| ==> id <= objects[i].id as int && objects[i].id as int < end
    ensures forall i, j :: 0 <= i < j < |objects| ==> objects[i].id < objects[j].id
    decreases end - id
  {
    if id >= end then [] else (if d.present[id] then [Object(id, d.names[id])] else []) + Mapped(d, id + 1, end)
  }

  lemma MappedStep(d: DeviceInfo, id: nat, end: nat)
    requires Proper(d) && end <= 256
    ensures id >= end ==> Mapped(d, id, end) == []
    ensures id < end && d.present[id] ==> Mapped(d, id, end) == [Object(id, d.names[id])] + Mapped(d, id + 1, end)
    ensures id < end && !d.present[id] ==> Mapped(d, id, end) == Mapped(d, id + 1, end)
  {
  }

  /** Mapped lists exactly the present ids of the range, each with the string of its callback. */
  lemma {:induction false} MappedIsComplete(d: DeviceInfo, from: nat, end: nat, id: u8)
    requires Proper(d) && end <= 256
    ensures from <= id as int && (id as int) < end && d.present[id] <==> Object(id, d.names[id]) in Mapped(d, from, end)
    decreases end - from
  {
    hide Mapped;
    MappedStep(d, from, end);
    if from < end {
      MappedIsComplete(d, from + 1, end, id);
    }
  }

  lemma {:induction false} MappedNames(d: DeviceInfo, from: nat, end: nat)
    requires Proper(d) && end <= 256
    ensures ShortNames(Mapped(d, from, end))
    ensures forall i :: 0 <= i < |Mapped(d, from, end)| ==>
      d.present[Mapped(d, from, end)[i].id] && Mapped(d, from, end)[i].name == d.names[Mapped(d, from, end)[i].id]
    decreases end - from
  {
    if from < end {
      MappedNames(d, from + 1, end);
    }
  }

  lemma {:induction false} MappedSplit(d: DeviceInfo, from: nat, mid: nat, end: nat)
    requires Proper(d) && from <= mid <= end <= 256
    ensures Mapped(d, from, mid) + Mapped(d, mid, end) == Mapped(d, from, end)
    decreases mid - from
  {
    hide Mapped;
    MappedStep(d, from, mid);
    MappedStep(d, from, end);
    if from == mid {
      assert [] + Mapped(d, mid, end) == Mapped(d, mid, end);
    } else {
      MappedSplit(d, from + 1, mid, end);
      var o := [Object(from, d.names[from])];
      assert o + Mapped(d, from + 1, mid) + Mapped(d, mid, end) == o + (Mapped(d, from + 1, mid) + Mapped(d, mid, end));
    }
  }

  //////////////////////////////////////////////////////////////////////////////
  // A page
  //////////////////////////////////////////////////////////////////////////////

  /** An id that ends the page with an exception: a basic object that is absent, or a string that cannot be had. */
  predicate Missing(d: DeviceInfo, k: nat)
    requires Proper(d) && k < 256
  {
    if d.present[k] then d.nameResult[k] != NoError else k < 3
  }

  /** The first such id, when the objects before it take at most room bytes. */
  ghost predicate StopsAt(d: DeviceInfo, id: nat, end: nat, room: nat, k: nat)
    requires Proper(d) && end <= 256
  {
    id <= k < end && Missing(d, k) && (forall j :: id <= j < k ==> !Missing(d, j)) && Weight(Mapped(d, id, k)) <= room
  }

  ghost predicate Stops(d: DeviceInfo, id: nat, end: nat, room: nat)
    requires Proper(d) && end <= 256
  {
    exists k: nat :: StopsAt(d, id, end, room, k)
  }

  /** The exception for it. */
  function MissingCode(d: DeviceInfo, k: nat): u8
    requires Proper(d) && k < 256
  {
    if d.present[k] then CallbackCode(d.nameResult[k]) else 4
  }

  /**
   The page is the longest beginning of the range that takes at most room bytes: all of it, or everything below the id
   it names as the next one, whose object does not fit behind it.
   */
  ghost predicate LongestPage(d: DeviceInfo, p: Page, id: nat, end: nat, room: nat)
    requires Proper(d) && end <= 256
  {
    && p.Page? && Weight(p.objects) <= room
    && (!p.more ==> p.objects == Mapped(d, id, end) && p.next == 0)
    && (p.more ==>
          && id <= p.next as int && (p.next as int) < end && d.present[p.next]
             && p.objects == Mapped(d, id, p.next as int)
          && Weight(p.objects) + 2 + |d.names[p.next]| > room)
  }

  /** The object loop over the ids from id on and below end. */
  lemma {:induction false} PageOutcome(d: DeviceInfo, id: nat, end: nat, room: nat)
    requires Proper(d) && id <= end && 1 <= end <= 256
    ensures
      var p := Collect(d, id, end - 1, room);
      && (p.Broken? <==> Stops(d, id, end, room))
      && (p.Broken? ==> forall k: nat :: StopsAt(d, id, end, room, k) ==>
            p.err == if d.present[k] then d.nameResult[k] else Exception(4))
      && (p.Page? ==> LongestPage(d, p, id, end, room))
    decreases end - id
  {
    hide Mapped, Weight;
    MappedStep(d, id, end);
    if id < end {
      if Missing(d, id) {
        MissingFirst(d, id, end, room);
      } else if !d.present[id] {
        PageOutcome(d, id + 1, end, room);
        SkipAbsent(d, id, end, room);
      } else {
        var w := 2 + |d.names[id]|;
        TakeFirst(d, id, end, room);
        if w <= room {
          PageOutcome(d, id + 1, end, room - w);
        }
      }
    } else {
      NoWeight();
    }
  }

  lemma NoWeight()
    ensures Weight([]) == 0
  {
  }

  lemma MissingFirst(d: DeviceInfo, id: nat, end: nat, room: nat)
    requires Proper(d) && id < end <= 256 && Missing(d, id)
    ensures StopsAt(d, id, end, room, id) && forall k: nat :: StopsAt(d, id, end, room, k) ==> k == id
  {
    MappedStep(d, id, id);
    hide Mapped;
  }

  lemma SkipAbsent(d: DeviceInfo, id: nat, end: nat, room: nat)
    requires Proper(d) && id < end <= 256 && !Missing(d, id) && !d.present[id]
    ensures forall k: nat :: StopsAt(d, id, end, room, k) <==> StopsAt(d, id + 1, end, room, k)
    ensures Stops(d, id, end, room) <==> Stops(d, id + 1, end, room)
    ensures forall p :: LongestPage(d, p, id + 1, end, room) ==> LongestPage(d, p, id, end, room)
  {
    hide Mapped, Weight;
    forall k: nat | id < k <= end ensures Mapped(d, id, k) == Mapped(d, id + 1, k) {
      MappedStep(d, id, k);
    }
    if Stops(d, id, end, room) {
      var k: nat :| StopsAt(d, id, end, room, k);
      assert StopsAt(d, id + 1, end, room, k);
    }
    if Stops(d, id + 1, end, room) {
      var k: nat :| StopsAt(d, id + 1, end, room, k);
      assert StopsAt(d, id, end, room, k);
    }
  }

  lemma TakeFirst(d: DeviceInfo, id: nat, end: nat, room: nat)
    requires Proper(d) && id < end <= 256 && !Missing(d, id) && d.present[id]
    ensures var o := Object(id, d.names[id]);
      var w := 2 + |o.name|;
      if w > room then !Stops(d, id, end, room) && LongestPage(d, Page([], true, id), id, end, room)
      else
        var left := room - w;
        && (forall k: nat :: StopsAt(d, id, end, room, k) <==> StopsAt(d, id + 1, end, left, k))
        && (Stops(d, id, end, room) <==> Stops(d, id + 1, end, left))
        && forall q :: LongestPage(d, q, id + 1, end, left) ==> LongestPage(d, Prepend([o], q), id, end, room)
  {
    hide Mapped, Weight;
    var o := Object(id, d.names[id]);
    NoWeight();
    MappedStep(d, id, id);
    forall k: nat | id < k <= end
      ensures Mapped(d, id, k) == [o] + Mapped(d, id + 1, k)
      ensures Weight(Mapped(d, id, k)) == 2 + |o.name| + Weight(Mapped(d, id + 1, k))
    {
      MappedStep(d, id, k);
      WeightFirst(o, Mapped(d, id + 1, k));
    }
    forall objects: seq<Object> ensures Weight([o] + objects) == 2 + |o.name| + Weight(objects) {
      WeightFirst(o, objects);
    }
    var w := 2 + |o.name|;
    if w <= room {
      var left: nat := room - w;
      forall k: nat ensures StopsAt(d, id, end, room, k) <==> StopsAt(d, id + 1, end, left, k) {
        if k > id && k < end {
          assert Mapped(d, id, k) == [o] + Mapped(d, id + 1, k);
        }
      }
      if Stops(d, id, end, room) {
        var k: nat :| StopsAt(d, id, end, room, k);
        assert StopsAt(d, id + 1, end, left, k);
      }
      if Stops(d, id + 1, end, left) {
        var k: nat :| StopsAt(d, id + 1, end, left, k);
        assert StopsAt(d, id, end, room, k);
      }
    }
  }

  lemma WeightFirst(o: Object, objects: seq<Object>)
    ensures Weight([o] + objects) == 2 + |o.name| + Weight(objects)
  {
    assert ([o] + objects)[1..] == objects;
  }

  //////////////////////////////////////////////////////////////////////////////
  // The answer
  //////////////////////////////////////////////////////////////////////////////

  /** The ids behind the last one of a streaming access of the given kind; zero when it may not begin at start. */
  function RangeEnd(code: u8, start: u8): nat {
    if code == 1 then if start <= 2 then 3 else 0
    else if code == 2 then if 3 <= start <= 6 then 8 else 0
    else if code == 3 then if start >= 0x80 then 0x100 else 0
    else 0
  }

  /** The message is a device identification request with these three bytes, read to its end. */
  ghost predicate Asks(t: Transport, v: seq<u8>, mei: u8, code: u8, start: u8) {
    var h := HeaderSize(t);
    |v| >= h + 3 && v[h] == mei && v[h + 1] == code && v[h + 2] == start && FooterError(t, v, h + 3, h + 3) == NoError
  }

  /** The refusals that come before the callbacks, in the order of their tests. */
  function RefusalCode(d: Option<DeviceInfo>, mei: u8, code: u8, start: u8): u8 {
    if d.None? || mei != 0x0E then 1
    else if code < 1 || code > 4 then 3
    else if 6 < start < 0x80 then 2
    else 0
  }

  lemma RefusedAccess(t: Transport, tid: u16, unit: u8, broadcast: bool, db: Db, d: Option<DeviceInfo>,
                      p: Option<FilePolicy>, v: seq<u8>, stale: seq<u8>, mei: u8, code: u8, start: u8)
    requires Sized(db) && (d.Some? ==> Proper(d.value)) && |stale| == BUF_SIZE
    requires |v| >= HeaderSize(t) && (t.Tcp? ==> |v| == BUF_SIZE) && Asks(t, v, mei, code, start)
    requires RefusalCode(d, mei, code, start) != 0
    ensures Serve(t, tid, unit, 43, broadcast, db, d, p, v, stale)
      == Served(Answer(NoError, Send([0xAB, RefusalCode(d, mei, code, start)]), db), [])
  {
    hide ExecutePage;
  }

  /** A broadcast that is not refused is not answered. */
  lemma BroadcastAccess(t: Transport, tid: u16, unit: u8, db: Db, d: DeviceInfo, p: Option<FilePolicy>, v: seq<u8>,
                        stale: seq<u8>, mei: u8, code: u8, start: u8)
    requires Sized(db) && Proper(d) && |stale| == BUF_SIZE
    requires |v| >= HeaderSize(t) && (t.Tcp? ==> |v| == BUF_SIZE) && Asks(t, v, mei, code, start)
    requires RefusalCode(Some(d), mei, code, start) == 0
    ensures Serve(t, tid, unit, 43, true, db, Some(d), p, v, stale) == Served(Answer(NoError, Silent, db), [])
  {
    hide ExecutePage;
  }

  /** The code a callback's error is answered with. */
  function CallbackCode(e: Error): u8 {
    if e.Exception? && 1 <= e.code <= 4 then e.code else 4
  }

  /** The bytes of a page: what it is, the access code, the conformity level, what follows, and its objects. */
  ghost predicate IsPage(pdu: seq<u8>, code: u8, p: Page)
    requires p.Page? && ShortNames(p.objects)
  {
    && |p.objects| < 0x100
    && pdu == [43, 0x0E, code, 0x83, if p.more then 0xFF else 0, p.next, |p.objects|] + ObjectsBytes(p.objects)
  }

  /**
   Basic (1), regular (2) and extended (3) access: an exception 4, or the callback's, when the range has a missing
   object before its strings use up their room, and otherwise the longest page of the mapped objects of the range. A
   start id outside the kind's range is refused with exception 2.
   */
  lemma StreamAccess(t: Transport, tid: u16, unit: u8, db: Db, d: DeviceInfo, p: Option<FilePolicy>, v: seq<u8>,
                     stale: seq<u8>, code: u8, start: u8) returns (page: Page)
    requires Sized(db) && Proper(d) && d.mapResult == NoError && |stale| == BUF_SIZE
    requires forall k :: 0 <= k < 256 ==> d.nameResult[k] != Fault
    requires |v| >= HeaderSize(t) && (t.Tcp? ==> |v| == BUF_SIZE) && Asks(t, v, 0x0E, code, start)
    requires 1 <= code <= 3 && !(6 < start < 0x80)
    ensures
      var ans, end := Serve(t, tid, unit, 43, false, db, Some(d), p, v, stale).ans, RangeEnd(code, start);
      && ans.err == NoError && ans.db == db && ans.reply.Send?
      && (end == 0 ==> ans.reply.pdu == [0xAB, 2])
      && (end != 0 && Stops(d, start as int, end, 246) ==>
            exists k: nat :: StopsAt(d, start as int, end, 246, k) && ans.reply.pdu == [0xAB, MissingCode(d, k)])
      && (end != 0 && !Stops(d, start as int, end, 246) ==>
            LongestPage(d, page, start as int, end, 246) && ShortNames(page.objects)
              && IsPage(ans.reply.pdu, code, page))
  {
    hide Collect, Mapped, Weight, ObjectsBytes, ShortNames;
    page := Page([], false, 0);
    var end := RangeEnd(code, start);
    if end != 0 {
      page := Collect(d, start as int, end - 1, 246);
      PageOutcome(d, start as int, end, 246);
      CollectFits(d, start as int, end - 1, 246);
      if Stops(d, start as int, end, 246) {
        var k: nat :| StopsAt(d, start as int, end, 246, k);
        assert ExecutePage(db, d, 43, code, start).reply == Send([0xAB, MissingCode(d, k)]);
      } else {
        ObjectsBytesSize(page.objects);
      }
    }
  }

  /**
   Access to one object (4): exactly that object with its string, or exception 2 if it is absent, or the callback's.
   */
  lemma SingleAccess(t: Transport, tid: u16, unit: u8, db: Db, d: DeviceInfo, p: Option<FilePolicy>, v: seq<u8>,
                     stale: seq<u8>, start: u8)
    requires Sized(db) && Proper(d) && d.mapResult == NoError && |stale| == BUF_SIZE && d.nameResult[start] != Fault
    requires |v| >= HeaderSize(t) && (t.Tcp? ==> |v| == BUF_SIZE) && Asks(t, v, 0x0E, 4, start) && !(6 < start < 0x80)
    ensures
      var served := Serve(t, tid, unit, 43, false, db, Some(d), p, v, stale);
      && served.ans.err == NoError && served.ans.db == db && served.ans.reply.Send?
      && served.ans.reply.pdu ==
           if !d.present[start] then [0xAB, 2]
           else if d.nameResult[start] != NoError then [0xAB, CallbackCode(d.nameResult[start])]
           else [43, 0x0E, 4, 0x83, 0, 0, 1, start, |d.names[start]|] + d.names[start]
  {
    var o := Object(start, d.names[start]);
    assert [o][1..] == [] && [o][..0] == [] && ObjectsBytes([]) == [];
    assert ObjectsBytes([o]) == [] + ObjectBytes(o);
  }

  /** When the map of objects cannot be had, every access that is not refused before is answered with that error. */
  lemma NoMap(t: Transport, tid: u16, unit: u8, db: Db, d: DeviceInfo, p: Option<FilePolicy>, v: seq<u8>,
              stale: seq<u8>, code: u8, start: u8)
    requires Sized(db) && Proper(d) && d.mapResult != NoError && d.mapResult != Fault && |stale| == BUF_SIZE
    requires |v| >= HeaderSize(t) && (t.Tcp? ==> |v| == BUF_SIZE) && Asks(t, v, 0x0E, code, start)
    requires 1 <= code <= 4 && !(6 < start < 0x80)
    ensures Serve(t, tid, unit, 43, false, db, Some(d), p, v, stale)
      == Served(Answer(NoError, Send([0xAB, CallbackCode(d.mapResult)]), db), [])
  {
    hide ExecutePage;
  }
}
