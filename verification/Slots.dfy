/** The client slots of the Modbus thread: read_socket, write_socket, and the accept, receive and poll loop. */
module Slots {
  import opened Wrappers
  import opened Bytes
  import opened Adu
  import opened Store
  import opened Protocol
  import opened NmbsCore
  import opened Responses
  import opened Handlers
  import opened Requests
  import opened DeviceId
  import opened FileHandler
  import opened Poll
  import opened Answerable
  import opened Guarantees
  import opened Files

  /** ts_client_socket */
  datatype Slot = Slot(sock: int, inUse: bool, data: seq<u8>)

  const DATA_SIZE := 256
  const RECV_SIZE := 20

  /** The slot read_socket and write_socket settle on; |slots| if there is none. */
  function FirstInUse(slots: seq<Slot>): (k: nat)
    ensures k <= |slots| && (forall i :: 0 <= i < k ==> !slots[i].inUse) && (k < |slots| ==> slots[k].inUse)
  {
    if slots == [] || slots[0].inUse then 0 else 1 + FirstInUse(slots[1..])
  }

  /** recv put bytes at the start of client_data and the slot is marked. */
  function Arrived(slot: Slot, bytes: seq<u8>): Slot
    requires |bytes| <= |slot.data|
  {
    slot.(inUse := true, data := bytes + slot.data[|bytes|..])
  }

  predicate Idle(slots: seq<Slot>) {
    forall i :: 0 <= i < |slots| ==> !slots[i].inUse
  }

  /** Exactly one slot is marked. */
  ghost predicate OneMarked(slots: seq<Slot>) {
    exists k :: 0 <= k < |slots| && slots[k].inUse && forall i :: 0 <= i < |slots| && i != k ==> !slots[i].inUse
  }

  /** The first marked slot is the one that was just marked exactly when none below it was marked before. */
  lemma RequesterIsFirst(slots: seq<Slot>, pos: nat, bytes: seq<u8>)
    requires pos < |slots| && |bytes| <= |slots[pos].data|
    ensures FirstInUse(slots[pos := Arrived(slots[pos], bytes)]) <= pos
    ensures FirstInUse(slots[pos := Arrived(slots[pos], bytes)]) == pos <==> Idle(slots[..pos])
    ensures Idle(slots) ==> OneMarked(slots[pos := Arrived(slots[pos], bytes)])
  {
    var now := slots[pos := Arrived(slots[pos], bytes)];
    assert now[pos].inUse && slots[..pos] == now[..pos];
    if Idle(slots) {
      assert now[pos].inUse && forall i :: 0 <= i < |now| && i != pos ==> !now[i].inUse;
    }
  }

  //////////////////////////////////////////////////////////////////////////////
  // What a poll makes of a slot's data
  //////////////////////////////////////////////////////////////////////////////

  /** The result of recv_msg_header. A frame longer than client_data is copied from past its end. */
  function SlotHeaderError(data: seq<u8>): (e: Error)
    requires |data| == DATA_SIZE
    ensures e == NoError ==> HeaderError(Tcp, true, data) == NoError
  {
    if DATA_SIZE - 6 < WordAt(data, 4) <= 255 then Fault else HeaderError(Tcp, true, data)
  }

  /** The request in data is answered. */
  ghost predicate SlotAnswered(data: seq<u8>, stale: seq<u8>, db: Db, p: Option<FilePolicy>)
    requires |data| == DATA_SIZE && |stale| == BUF_SIZE
  {
    SlotHeaderError(data) == NoError &&
    var v := Received(Tcp, stale, data);
    IsAnswered(Tcp, v[6], v[7], db, p, v, v)
  }

  /** The poll did what the header says, or what the message is served with. */
  ghost predicate SlotPolled(n: Nmbs, s: Server, f: FileStore, d: Option<DeviceInfo>, was: seq<seq<u8>>,
                             log: seq<Record>, db: Db, stale: seq<u8>, data: seq<u8>, err: Error)
    requires s.Valid() && |stale| == BUF_SIZE && |data| == DATA_SIZE && Sized(db) && (d.Some? ==> Proper(d.value))
    reads n, s.Repr(), f
  {
    if SlotHeaderError(data) != NoError then
      err == SlotHeaderError(data) && n.tx == was && s.Contents() == db && f.log == log
    else
      var v := Received(Tcp, stale, data);
      Done(n, s, f, was, log, db, WordAt(v, 0), v[6], false,
           Serve(Tcp, WordAt(v, 0), v[6], v[7], false, db, d, f.callbacks, v, v), err)
  }

  /** frame answers the request whose header data begins with. */
  ghost predicate AnswersData(frame: seq<u8>, data: seq<u8>) {
    |data| >= 8 && AnswersRequest(Tcp, frame, WordAt(data, 0), data[6], data[7])
  }

  /** A poll sends one answer to the request in the data if it is answerable, and nothing otherwise. */
  lemma OneAnswer(n: Nmbs, s: Server, f: FileStore, d: Option<DeviceInfo>, was: seq<seq<u8>>, log: seq<Record>, db: Db,
                  stale: seq<u8>, data: seq<u8>, err: Error)
    requires s.Valid() && |stale| == BUF_SIZE && |data| == DATA_SIZE && Sized(db) && (d.Some? ==> Proper(d.value))
      && Genuine(d, f.callbacks)
    requires n.transport.Tcp? && SlotPolled(n, s, f, d, was, log, db, stale, data, err)
    ensures
      if SlotAnswered(data, stale, db, f.callbacks) then
        |n.tx| == |was| + 1 && n.tx[..|was|] == was && AnswersData(n.tx[|was|], data)
      else n.tx == was
  {
    hide Serve, HeaderError, AnswersRequest, WellAnswered, Sent, IsAnswered, Genuine, Received;
    if SlotHeaderError(data) == NoError {
      var v := Received(Tcp, stale, data);
      SlotIds(v, stale, data);
      var a := Serve(Tcp, WordAt(v, 0), v[6], v[7], false, db, d, f.callbacks, v, v).ans;
      AddressedAnswered(Tcp, WordAt(v, 0), v[6], v[7], db, d, f.callbacks, v, v);
      ServedIff(Tcp, WordAt(v, 0), v[6], v[7], db, d, f.callbacks, v, v);
      SentAnswers(Tcp, WordAt(v, 0), v[6], v[7], a);
      assert was + [] == was;
    }
  }

  lemma SlotIds(v: seq<u8>, stale: seq<u8>, data: seq<u8>)
    requires |data| == DATA_SIZE && |stale| == BUF_SIZE && HeaderError(Tcp, true, data) == NoError
      && v == Received(Tcp, stale, data)
    ensures v[..8] == data[..8] && WordAt(v, 0) == WordAt(data, 0) && v[6] == data[6] && v[7] == data[7]
  {
    var m := 6 + WordAt(data, 4) as int;
    assert v[..m] == data[..m];
    assert v[..8] == v[..m][..8];
    assert v[0] == v[..8][0] && v[1] == v[..8][1] && v[6] == v[..8][6] && v[7] == v[..8][7];
  }

  //////////////////////////////////////////////////////////////////////////////
  // Runs of the thread
  //////////////////////////////////////////////////////////////////////////////

  /** A slot without its mark. */
  datatype Peer = Peer(sock: int, data: seq<u8>)

  function Peers(slots: seq<Slot>): (s: seq<Peer>)
    ensures |s| == |slots|
  {
    seq(|slots|, i requires 0 <= i < |slots| => Peer(slots[i].sock, slots[i].data))
  }

  /** The slot a new connection gets. */
  function FirstFree(peers: seq<Peer>): (k: nat)
    ensures k <= |peers| && (forall i :: 0 <= i < k ==> peers[i].sock > 0) && (k < |peers| ==> peers[k].sock <= 0)
  {
    if peers == [] || peers[0].sock <= 0 then 0 else 1 + FirstFree(peers[1..])
  }

  /** A connection is accepted, or slot pos is readable and recv gives bytes. */
  datatype Event = Accepted(newSock: int) | Readable(pos: nat, bytes: seq<u8>)

  predicate Possible(e: Event, clients: nat) {
    match e
    case Accepted(sock) => sock > 0
    case Readable(pos, bytes) => pos < clients && |bytes| <= RECV_SIZE
  }

  /** A request came in on slot pos. */
  predicate Asks(peers: seq<Peer>, e: Event) {
    e.Readable? && e.pos < |peers| && peers[e.pos].sock > 0 && 0 < |e.bytes| <= |peers[e.pos].data|
  }

  function PeersStep(peers: seq<Peer>, e: Event): (after: seq<Peer>)
    ensures |after| == |peers|
  {
    match e
    case Accepted(sock) =>
      var k := FirstFree(peers);
      if k < |peers| then peers[k := peers[k].(sock := sock)] else peers
    case Readable(pos, bytes) =>
      if Asks(peers, e) then peers[pos := peers[pos].(data := bytes + peers[pos].data[|bytes|..])]
      else if pos < |peers| && peers[pos].sock > 0 && bytes == [] then peers[pos := peers[pos].(sock := -1)]
      else peers
  }

  /** The requester: its socket, and its slot's data with the request in front. */
  function Asker(peers: seq<Peer>, e: Event): (s: seq<Peer>)
    ensures |s| <= 1
  {
    if Asks(peers, e) then [PeersStep(peers, e)[e.pos]] else []
  }

  /** Sockets and data of the slots after some events. */
  function PeersAfter(peers: seq<Peer>, events: seq<Event>): (after: seq<Peer>)
    ensures |after| == |peers|
  {
    if events == [] then peers else PeersStep(PeersAfter(peers, events[..|events| - 1]), events[|events| - 1])
  }

  /** The requests of a run, in order. */
  function Asked(peers: seq<Peer>, events: seq<Event>): (asked: seq<Peer>) {
    if events == [] then []
    else
      var earlier := events[..|events| - 1];
      Asked(peers, earlier) + Asker(PeersAfter(peers, earlier), events[|events| - 1])
  }

  /** Frame by frame: sent to the requester's socket, and an answer to the header in the requester's slot. */
  ghost predicate AllAnswered(sent: seq<(int, seq<u8>)>, asked: seq<Peer>) {
    |sent| == |asked|
    && forall i :: 0 <= i < |sent| ==> sent[i].0 == asked[i].sock && AnswersData(sent[i].1, asked[i].data)
  }

  class Table {
    const slots: array<Slot>
    var sent: seq<(int, seq<u8>)>

    ghost predicate Valid()
      reads this, slots
    {
      slots.Length > 0 && forall i :: 0 <= i < slots.Length ==> |slots[i].data| == DATA_SIZE
    }

    constructor (clients: nat)
      requires clients > 0
      ensures Valid() && fresh(slots) && slots.Length == clients && sent == []
      ensures forall i :: 0 <= i < clients ==>
        slots[i].sock == -1 && !slots[i].inUse && slots[i].data == seq(256, _ => 0)
    {
      slots := new Slot[clients](_ => Slot(-1, false, seq(DATA_SIZE, _ => 0)));
      sent := [];
    }

    /** read_socket at cursor idx. What lies behind client_data is not known. */
    method ReadSocket(idx: nat, count: nat) returns (ret: nat, bytes: seq<u8>)
      requires Valid()
      ensures
        var k := FirstInUse(slots[..]);
        if k == slots.Length then ret == 0 && bytes == []
        else
          && ret == |bytes| == count
          && (idx + count <= DATA_SIZE ==> bytes == slots[k].data[idx..idx + count])
          && forall i :: 0 <= i < count && idx + i < DATA_SIZE ==> bytes[i] == slots[k].data[idx + i]
    {
      for i := 0 to slots.Length
        invariant forall j :: 0 <= j < i ==> !slots[j].inUse
      {
        if slots[i].inUse {
          var data := slots[i].data;
          return count, seq(count, j requires 0 <= j => if idx + j < |data| then data[idx + j] else 0);
        }
      }
      return 0, [];
    }

    /** write_socket: the frame goes to the socket of the first marked slot, whose mark is removed. */
    method WriteSocket(frame: seq<u8>) returns (ret: nat)
      requires Valid()
      modifies this`sent, slots
      ensures Valid()
      ensures
        var was := old(slots[..]);
        var k := FirstInUse(was);
        if k == |was| then ret == 0 && slots[..] == was && sent == old(sent)
        else ret == |frame| && slots[..] == was[k := was[k].(inUse := false)]
             && sent == old(sent) + [(was[k].sock, frame)]
    {
      for i := 0 to slots.Length
        invariant Valid() && slots[..] == old(slots[..]) && sent == old(sent)
        invariant forall j :: 0 <= j < i ==> !slots[j].inUse
      {
        if slots[i].inUse {
          slots[i] := slots[i].(inUse := false);
          sent := sent + [(slots[i].sock, frame)];
          return |frame|;
        }
      }
      return 0;
    }

    /** A new connection gets the first free slot, or is closed again. */
    method Accept(sock: int)
      requires Valid() && sock > 0
      modifies slots
      ensures Valid()
      ensures
        var was := old(slots[..]);
        var k := FirstFree(Peers(was));
        slots[..] == if k == |was| then was else was[k := was[k].(sock := sock)]
    {
      ghost var peers := Peers(slots[..]);
      for i := 0 to slots.Length
        invariant Valid() && slots[..] == old(slots[..])
        invariant forall j :: 0 <= j < i ==> peers[j].sock > 0
      {
        if slots[i].sock <= 0 {
          assert peers[i].sock <= 0 && FirstFree(peers) == i;
          slots[i] := slots[i].(sock := sock);
          return;
        }
      }
    }

    //////////////////////////////////////////////////////////////////////////////
    // read_socket as the platform read of recv_msg_header
    //////////////////////////////////////////////////////////////////////////////

    /** recv over read_socket */
    method Recv(n: Nmbs, count: nat) returns (err: Error)
      requires Valid() && n.Valid() && !n.complete && n.bufIdx + count <= DATA_SIZE && count > 0
      modifies n`fill, n.buf
      ensures n.Valid()
      ensures
        var k := FirstInUse(slots[..]);
        if k == slots.Length then err == TimedOut
        else
          && err == NoError && n.fill == n.bufIdx + count
          && n.buf[..] == old(n.buf[..n.bufIdx]) + slots[k].data[n.bufIdx..n.bufIdx + count]
                          + old(n.buf[n.bufIdx + count..])
    {
      var ret, bytes := ReadSocket(n.bufIdx, count);
      if ret < count {
        return TimedOut;
      }
      for i := 0 to count
        invariant n.buf[..n.bufIdx] == old(n.buf[..n.bufIdx]) && n.buf[n.bufIdx..n.bufIdx + i] == bytes[..i]
        invariant n.buf[n.bufIdx + count..] == old(n.buf[n.bufIdx + count..])
      {
        n.buf[n.bufIdx + i] := bytes[i];
      }
      n.fill := n.bufIdx + count;
      assert n.buf[..] == n.buf[..n.bufIdx] + n.buf[n.bufIdx..n.bufIdx + count] + n.buf[n.bufIdx + count..];
      err := NoError;
    }

    /**
     recv_msg_header over read_socket. The three reads, at cursor 0, 1 and 8, put together the start of client_data,
     so the outcome is that of reading client_data as a stream.
     */
    method RecvMsgHeader(n: Nmbs) returns (err: Error)
      requires Valid() && n.Valid() && n.transport.Tcp?
      modifies n, n.buf
      ensures n.Valid() && unchanged(n`tx, n`linkUp)
      ensures
        var k := FirstInUse(slots[..]);
        if k == slots.Length then err == TimedOut
        else
          var data := slots[k].data;
          && err == SlotHeaderError(data)
          && (err == NoError ==>
                && n.complete && n.fill == BUF_SIZE && n.bufIdx == HeaderSize(Tcp)
                   && n.buf[..] == Received(Tcp, old(n.buf[..]), data)
                && n.transactionId == WordAt(data, 0) && n.unitId == data[6] && n.fc == data[7] && !n.broadcast
                   && !n.ignored)
    {
      hide FirstInUse;
      ghost var stale, k := n.buf[..], FirstInUse(slots[..]);
      ghost var data := if k < slots.Length then slots[k].data else slots[0].data;
      n.MsgStateReset();
      var protocolId, length;
      err, protocolId, length := RecvMbap(n, data);
      if err != NoError {
        return;
      }
      if length < 2 || length > 255 {
        return InvalidMbap;
      }
      if length > DATA_SIZE - 6 {
        return Fault;
      }
      err := RecvRest(n, length, data, stale);
      if protocolId != 0 {
        return InvalidMbap;
      }
      n.complete := true;
      n.fill := BUF_SIZE;
    }

    /** The third read: the frame behind its MBAP header. */
    method RecvRest(n: Nmbs, length: u16, ghost data: seq<u8>, ghost stale: seq<u8>) returns (err: Error)
      requires Valid() && n.Valid() && !n.complete && n.bufIdx == 8 && 2 <= length && 6 + length <= DATA_SIZE
      requires FirstInUse(slots[..]) < slots.Length && data == slots[FirstInUse(slots[..])].data && |stale| == BUF_SIZE
      requires n.buf[..] == data[..8] + stale[8..]
      modifies n`fill, n.buf
      ensures n.Valid() && err == NoError && n.buf[..] == data[..6 + length] + stale[6 + length..]
    {
      hide FirstInUse;
      ghost var mid := n.buf[..];
      err := NoError;
      if length > 2 {
        err := Recv(n, length - 2);
      }
      Joined(data, stale, mid, 8, length - 2);
    }

    /** The next count bytes of data behind the first at of them. */
    static lemma Joined(data: seq<u8>, stale: seq<u8>, mid: seq<u8>, at: nat, count: nat)
      requires at + count <= |data| == DATA_SIZE && |stale| == BUF_SIZE && mid == data[..at] + stale[at..]
      ensures mid[..at] + data[at..at + count] + mid[at + count..] == data[..at + count] + stale[at + count..]
      ensures count == 0 ==> mid == data[..at + count] + stale[at + count..]
    {
    }

    /** The reads of the first byte and of the rest of the MBAP header. */
    method RecvMbap(n: Nmbs, ghost data: seq<u8>) returns (err: Error, protocolId: u16, length: u16)
      requires Valid() && n.Valid() && !n.complete && n.bufIdx == 0 && !n.broadcast && !n.ignored
      requires |data| == DATA_SIZE
        && (FirstInUse(slots[..]) < slots.Length ==> data == slots[FirstInUse(slots[..])].data)
      modifies n, n.buf
      ensures n.Valid() && !n.complete && !n.broadcast && !n.ignored && unchanged(n`tx, n`linkUp)
      ensures err == if FirstInUse(slots[..]) == slots.Length then TimedOut else NoError
      ensures err == NoError ==>
        && n.bufIdx == 8 && n.buf[..] == data[..8] + old(n.buf[8..]) && protocolId == WordAt(data, 2)
           && length == WordAt(data, 4)
        && n.transactionId == WordAt(data, 0) && n.unitId == data[6] && n.fc == data[7]
    {
      hide FirstInUse;
      ghost var stale := n.buf[..];
      protocolId, length := 0, 0;
      err := Recv(n, 1);
      if err != NoError {
        return;
      }
      assert n.buf[..] == data[..1] + stale[1..];
      n.Discard(1);
      ghost var mid := n.buf[..];
      err := Recv(n, 7);
      if err != NoError {
        return;
      }
      Joined(data, stale, mid, 1, 7);
      assert n.buf[..8] == data[..8];
      n.bufIdx := 0;
      protocolId, length := n.GetMbap(data);
    }

    /**
     nmbs_server_poll over read_socket. Once the header is complete no byte of the message is read again; only flush
     goes back to the transport, and what it reads is never looked at.
     */
    method ServerPoll(n: Nmbs, s: Server, f: FileStore, d: Option<DeviceInfo>) returns (err: Error)
      requires Valid() && FirstInUse(slots[..]) < slots.Length
      requires n.Valid() && n.transport.Tcp? && n.linkUp && s.Valid() && (d.Some? ==> Proper(d.value))
      requires n.buf as object !in s.Repr()
      modifies n, n.buf, s.coils, s.regs, f`log
      ensures n.Valid() && n.linkUp
      ensures SlotPolled(n, s, f, d, old(n.tx), old(f.log), old(s.Contents()), old(n.buf[..]),
                         slots[FirstInUse(slots[..])].data, err)
    {
      hide FirstInUse, Serve, HeaderError, Received, Done, SlotHeaderError;
      ghost var stale, data := n.buf[..], slots[FirstInUse(slots[..])].data;
      err := RecvMsgHeader(n);
      if err != NoError {
        return;
      }
      SlotIds(n.buf[..], stale, data);
      err := ServeMessage(n, s, f, d);
    }

    /** The rest of the poll, with the whole message in msg.buf. */
    method ServeMessage(n: Nmbs, s: Server, f: FileStore, d: Option<DeviceInfo>) returns (err: Error)
      requires Valid() && HandlerStart(n, s) && n.transport.Tcp? && n.complete && !n.broadcast && !n.ignored
        && (d.Some? ==> Proper(d.value))
      modifies n, n.buf, s.coils, s.regs, f`log
      ensures n.Valid() && n.linkUp
      ensures Done(n, s, f, old(n.tx), old(f.log), old(s.Contents()), old(n.transactionId), old(n.unitId), false,
        Serve(Tcp, old(n.transactionId), old(n.unitId), old(n.fc), false, old(s.Contents()), d, f.callbacks,
              old(n.buf[..]), old(n.buf[..])), err)
    {
      hide FirstInUse, Serve, Done;
      ghost var v := n.buf[..];
      var ret;
      ret, n.rx := ReadSocket(n.bufIdx, BUF_SIZE);
      assert n.View() == v;
      err := HandleReqFc(n, s, f, d);
      if err != NoError {
        if err != TimedOut {
          ret, n.rx := ReadSocket(n.bufIdx, BUF_SIZE);
          n.Flush();
        }
      }
    }

    //////////////////////////////////////////////////////////////////////////////
    // The thread
    //////////////////////////////////////////////////////////////////////////////

    /** Slot pos is readable: recv gave bytes, none when the peer is gone, and the server is polled. */
    method Turn(pos: nat, bytes: seq<u8>, n: Nmbs, s: Server, f: FileStore, d: Option<DeviceInfo>) returns (err: Error)
      requires Valid() && pos < slots.Length && |bytes| <= RECV_SIZE
      requires n.Valid() && n.transport.Tcp? && n.linkUp && s.Valid() && (d.Some? ==> Proper(d.value))
        && Genuine(d, f.callbacks)
      requires n.buf as object !in s.Repr() && slots as object !in s.Repr()
      modifies this`sent, slots, n, n.buf, s.coils, s.regs, f`log
      ensures Valid() && n.Valid() && n.linkUp
      ensures bytes == [] ==>
        && slots[..] == old(slots[..])[pos := old(slots[pos]).(sock := -1)]
        && sent == old(sent) && s.Contents() == old(s.Contents()) && f.log == old(f.log)
      ensures bytes != [] ==>
        var now := old(slots[..])[pos := Arrived(old(slots[pos]), bytes)];
        var k := FirstInUse(now);
        && k <= pos
        && SlotPolled(n, s, f, d, old(n.tx), old(f.log), old(s.Contents()), old(n.buf[..]), now[k].data, err)
        && (if SlotAnswered(now[k].data, old(n.buf[..]), old(s.Contents()), f.callbacks) then
              Forwarded(slots[..], now, k, sent, old(sent))
            else slots[..] == now && sent == old(sent))
    {
      hide FirstInUse, SlotPolled, SlotAnswered, AnswersData, Genuine;
      err := NoError;
      if bytes == [] {
        slots[pos] := slots[pos].(sock := -1);
        return;
      }
      slots[pos] := Arrived(slots[pos], bytes);
      ghost var now := slots[..];
      ghost var k := FirstInUse(now);
      ghost var was, log, db, stale := n.tx, f.log, s.Contents(), n.buf[..];
      var count := |n.tx|;
      err := ServerPoll(n, s, f, d);
      OneAnswer(n, s, f, d, was, log, db, stale, now[k].data, err);
      if |n.tx| > count {
        var ret := WriteSocket(n.tx[count]);
      }
    }

    /** One event of the thread's loop; polled is the table a poll began with, if there was one. */
    method Step(e: Event, n: Nmbs, s: Server, f: FileStore, d: Option<DeviceInfo>)
      returns (ghost polled: seq<seq<Slot>>)
      requires Valid() && Possible(e, slots.Length)
      requires n.Valid() && n.transport.Tcp? && n.linkUp && s.Valid() && (d.Some? ==> Proper(d.value))
        && Genuine(d, f.callbacks)
      requires n.buf as object !in s.Repr() && slots as object !in s.Repr()
      modifies this`sent, slots, n, n.buf, s.coils, s.regs, f`log
      ensures Valid() && n.Valid() && n.linkUp
      ensures Stepped(e, old(slots[..]), slots[..], old(sent), sent, polled)
    {
      hide SlotPolled, SlotAnswered, AnswersData, Genuine, FirstInUse;
      polled := [];
      match e
      case Accepted(sock) =>
        Accept(sock);
      case Readable(pos, bytes) =>
        if slots[pos].sock > 0 {
          if bytes != [] {
            polled := [slots[..][pos := Arrived(slots[pos], bytes)]];
          }
          RequesterIsFirst(slots[..], pos, bytes);
          var err := Turn(pos, bytes, n, s, f, d);
        }
    }

    method StepOnTrack(e: Event, n: Nmbs, s: Server, f: FileStore, d: Option<DeviceInfo>, ghost was: nat,
                       ghost peers: seq<Peer>, ghost events: seq<Event>, ghost polls: seq<seq<Slot>>)
      returns (ghost polls': seq<seq<Slot>>)
      requires Valid() && Possible(e, slots.Length) && was <= |sent|
      requires n.Valid() && n.transport.Tcp? && n.linkUp && s.Valid() && (d.Some? ==> Proper(d.value))
        && Genuine(d, f.callbacks)
      requires n.buf as object !in s.Repr() && slots as object !in s.Repr()
      requires Peers(slots[..]) == PeersAfter(peers, events)
        && OnTrack(slots[..], sent[was..], Asked(peers, events), polls)
      modifies this`sent, slots, n, n.buf, s.coils, s.regs, f`log
      ensures Valid() && n.Valid() && n.linkUp
      ensures |old(sent)| <= |sent| && sent[..|old(sent)|] == old(sent)
      ensures Peers(slots[..]) == PeersAfter(peers, events + [e])
        && OnTrack(slots[..], sent[was..], Asked(peers, events + [e]), polls')
    {
      hide Stepped, OnTrack, Peers, PeersAfter, Asked, Possible, Genuine;
      ghost var before, sentBefore := slots[..], sent;
      ghost var polled := Step(e, n, s, f, d);
      polls' := polls + polled;
      SentGrows(e, before, slots[..], sentBefore, sent, polled, was);
      StaysOnTrack(e, before, slots[..], sentBefore, sent, polled, was, peers, events, polls);
    }

    /**
     Any run of the thread. It never sends more frames than requests came in; and if it sent as many, then the i-th went
     to the socket the i-th request came from and answers that request, exactly one slot was marked whenever a poll
     began, and no mark is left.
     */
    method Run(events: seq<Event>, n: Nmbs, s: Server, f: FileStore, d: Option<DeviceInfo>)
      returns (ghost polls: seq<seq<Slot>>)
      requires Valid() && Idle(slots[..]) && forall e :: e in events ==> Possible(e, slots.Length)
      requires n.Valid() && n.transport.Tcp? && n.linkUp && s.Valid() && (d.Some? ==> Proper(d.value))
        && Genuine(d, f.callbacks)
      requires n.buf as object !in s.Repr() && slots as object !in s.Repr()
      modifies this`sent, slots, n, n.buf, s.coils, s.regs, f`log
      ensures |old(sent)| <= |sent| && sent[..|old(sent)|] == old(sent)
      ensures
        var asked, new_ := Asked(old(Peers(slots[..])), events), sent[|old(sent)|..];
        && |new_| <= |asked| == |polls|
        && (|new_| == |asked| ==>
              AllAnswered(new_, asked) && Idle(slots[..]) && forall i :: 0 <= i < |polls| ==> OneMarked(polls[i]))
    {
      ghost var peers, was := Peers(slots[..]), sent;
      OnTrackStart(slots[..], sent);
      hide Idle, Stepped, Peers, PeersAfter, Asked, Possible, AllAnswered, OneMarked, Genuine;
      assert events[..0] == [];
      polls := [];
      for i := 0 to |events|
        invariant Valid() && n.Valid() && n.linkUp && |was| <= |sent| && sent[..|was|] == was
        invariant Peers(slots[..]) == PeersAfter(peers, events[..i])
        invariant OnTrack(slots[..], sent[|was|..], Asked(peers, events[..i]), polls)
      {
        ghost var earlier := sent;
        polls := StepOnTrack(events[i], n, s, f, d, |was|, peers, events[..i], polls);
        assert sent[..|was|] == earlier[..|was|] by {
          assert sent[..|was|] == sent[..|earlier|][..|was|];
        }
        assert events[..i] + [events[i]] == events[..i + 1];
      }
      assert events[..|events|] == events;
    }
  }

  //////////////////////////////////////////////////////////////////////////////
  // An answer to somebody else
  //////////////////////////////////////////////////////////////////////////////

  /** A message whose length field is too small. */
  const NO_MESSAGE: seq<u8> := [0, 0, 0, 0, 0, 1, 0, 0]

  /** A request with a function code the server does not know. */
  const UNKNOWN_REQUEST: seq<u8> := [0, 0, 0, 0, 0, 2, 0, 99]

  lemma UnansweredData(data: seq<u8>, stale: seq<u8>, db: Db, p: Option<FilePolicy>)
    requires |data| == DATA_SIZE && |stale| == BUF_SIZE && data[..8] == NO_MESSAGE
    ensures !SlotAnswered(data, stale, db, p)
  {
    assert data[4] == data[..8][4] && data[5] == data[..8][5];
  }

  /** Two bytes behind the length field, the second of which is no function code the server knows. */
  lemma UnknownAnswered(data: seq<u8>, stale: seq<u8>, db: Db, p: Option<FilePolicy>)
    requires |data| == DATA_SIZE && |stale| == BUF_SIZE
    requires WordAt(data, 2) == 0 && WordAt(data, 4) == 2 && data[7] == 99
    ensures SlotAnswered(data, stale, db, p)
  {
    hide Received, Intact, Taken, WordAt;
    var v := Received(Tcp, stale, data);
    SlotIds(v, stale, data);
    UnknownTaken(Tcp, 99, v);
  }

  lemma AnsweredData(data: seq<u8>, stale: seq<u8>, db: Db, p: Option<FilePolicy>)
    requires |data| == DATA_SIZE && |stale| == BUF_SIZE && data[..8] == UNKNOWN_REQUEST
    ensures SlotAnswered(data, stale, db, p)
  {
    hide SlotAnswered;
    var head := data[..8];
    assert data[2] == head[2] && data[3] == head[3] && data[4] == head[4] && data[5] == head[5] && data[7] == head[7];
    UnknownAnswered(data, stale, db, p);
  }

  /** The first slot that is marked, of three. */
  lemma FirstOfThree(slots: seq<Slot>)
    requires |slots| >= 3
    ensures slots[0].inUse ==> FirstInUse(slots) == 0
    ensures !slots[0].inUse && slots[1].inUse ==> FirstInUse(slots) == 1
  {
  }

  /** Connections fill the table from the front. */
  method Connect(table: Table, k: nat)
    requires table.Valid() && k < table.slots.Length
    requires forall i :: 0 <= i < table.slots.Length ==> (table.slots[i].sock > 0 <==> i < k)
    modifies table.slots
    ensures table.Valid() && table.slots[..] == old(table.slots[..])[k := old(table.slots[k]).(sock := k + 1)]
  {
    ghost var peers := Peers(table.slots[..]);
    assert FirstFree(peers) == k by {
      assert peers[k].sock <= 0 && forall i :: 0 <= i < k ==> peers[i].sock > 0;
    }
    table.Accept(k + 1);
  }

  method ThreeClients(clients: nat) returns (table: Table)
    requires clients >= 3
    ensures fresh(table) && fresh(table.slots) && table.Valid() && table.slots.Length == clients
      && table.sent == [] && Idle(table.slots[..])
    ensures table.slots[0].sock == 1 && table.slots[1].sock == 2 && table.slots[2].sock == 3
  {
    table := new Table(clients);
    Connect(table, 0);
    Connect(table, 1);
    Connect(table, 2);
  }

  /**
   Three clients connect to a fresh table. The first sends a message that gets no answer; then the second, the first and
   the third send a good request each. The second is not answered when it asks but when the third does, and the third
   is not answered at all.
   */
  method AnswerForAnother(clients: nat, n: Nmbs, s: Server, f: FileStore, d: Option<DeviceInfo>) returns (table: Table)
    requires clients >= 3
    requires n.Valid() && n.transport.Tcp? && n.linkUp && s.Valid() && (d.Some? ==> Proper(d.value))
      && Genuine(d, f.callbacks)
    requires n.buf as object !in s.Repr()
    modifies n, n.buf, s.coils, s.regs, f`log
    ensures |table.sent| == 2 && table.sent[0].0 == 1 && table.sent[1].0 == 2
    ensures table.slots.Length == clients && !table.slots[0].inUse && !table.slots[1].inUse && table.slots[2].inUse
      && table.slots[2].sock == 3
  {
    hide SlotPolled, SlotAnswered, AnswersData, Genuine, FirstInUse;
    table := ThreeClients(clients);
    var err := Ask(table, 0, NO_MESSAGE, n, s, f, d, 0, false);
    err := Ask(table, 1, UNKNOWN_REQUEST, n, s, f, d, 0, false);
    err := Ask(table, 0, UNKNOWN_REQUEST, n, s, f, d, 0, true);
    err := Ask(table, 2, UNKNOWN_REQUEST, n, s, f, d, 1, true);
  }

  /** One turn with one of the two messages, when slot first of the first three is the first marked one. */
  method Ask(table: Table, pos: nat, bytes: seq<u8>, n: Nmbs, s: Server, f: FileStore, d: Option<DeviceInfo>,
             ghost first: nat, ghost answered: bool) returns (err: Error)
    requires table.Valid() && table.slots.Length >= 3 && pos < 3 && |bytes| == 8
    requires n.Valid() && n.transport.Tcp? && n.linkUp && s.Valid() && (d.Some? ==> Proper(d.value))
      && Genuine(d, f.callbacks)
    requires n.buf as object !in s.Repr() && table.slots as object !in s.Repr()
    requires first <= 1 && (first == 1 ==> !table.slots[0].inUse && pos != 0)
      && (first == pos || table.slots[first].inUse)
    requires (if first == pos then bytes else table.slots[first].data[..8]) == if answered then UNKNOWN_REQUEST
                                                                               else NO_MESSAGE
    modifies table`sent, table.slots, n, n.buf, s.coils, s.regs, f`log
    ensures table.Valid() && n.Valid() && n.linkUp
    ensures
      var now := old(table.slots[..])[pos := Arrived(old(table.slots[pos]), bytes)];
      if answered then
        && table.slots[..] == now[first := now[first].(inUse := false)]
        && |table.sent| == |old(table.sent)| + 1 && table.sent[..|old(table.sent)|] == old(table.sent)
           && table.sent[|old(table.sent)|].0 == now[first].sock
      else table.slots[..] == now && table.sent == old(table.sent)
    ensures table.slots[pos].data[..8] == bytes
  {
    hide SlotPolled, SlotAnswered, AnswersData, Genuine, FirstInUse;
    ghost var now := table.slots[..][pos := Arrived(table.slots[pos], bytes)];
    assert now[pos].data[..8] == bytes;
    FirstOfThree(now);
    if answered {
      AnsweredData(now[first].data, n.buf[..], s.Contents(), f.callbacks);
    } else {
      UnansweredData(now[first].data, n.buf[..], s.Contents(), f.callbacks);
    }
    err := table.Turn(pos, bytes, n, s, f, d);
  }

  /** What one event does to the slots and to what was sent. */
  ghost predicate Stepped(e: Event, was: seq<Slot>, after: seq<Slot>, sentWas: seq<(int, seq<u8>)>,
                          sent: seq<(int, seq<u8>)>, polled: seq<seq<Slot>>) {
    match e
    case Accepted(sock) =>
      var k := FirstFree(Peers(was));
      after == (if k == |was| then was else was[k := was[k].(sock := sock)]) && sent == sentWas && polled == []
    case Readable(pos, bytes) =>
      pos < |was| && |bytes| <= |was[pos].data| &&
      if was[pos].sock <= 0 then after == was && sent == sentWas && polled == []
      else if bytes == [] then after == was[pos := was[pos].(sock := -1)] && sent == sentWas && polled == []
      else
        var now := was[pos := Arrived(was[pos], bytes)];
        var k := FirstInUse(now);
        && polled == [now] && k <= pos
        && (Forwarded(after, now, k, sent, sentWas) || (after == now && sent == sentWas))
  }

  /** One answer to what slot k holds went to its socket and its mark is gone. */
  ghost predicate Forwarded(after: seq<Slot>, now: seq<Slot>, k: nat, sent: seq<(int, seq<u8>)>,
                            was: seq<(int, seq<u8>)>)
    requires k < |now|
  {
    && after == now[k := now[k].(inUse := false)]
    && |sent| == |was| + 1 && sent[..|was|] == was && sent[|was|].0 == now[k].sock
       && AnswersData(sent[|was|].1, now[k].data)
  }

  /** The run so far: at most one frame a request, and as long as it was one each, each answered its request. */
  ghost predicate OnTrack(slots: seq<Slot>, new_: seq<(int, seq<u8>)>, asked: seq<Peer>, polls: seq<seq<Slot>>) {
    && |new_| <= |asked| == |polls|
    && (|new_| == |asked| ==>
         AllAnswered(new_, asked) && Idle(slots) && forall i :: 0 <= i < |polls| ==> OneMarked(polls[i]))
  }

  lemma OnTrackStart(slots: seq<Slot>, sent: seq<(int, seq<u8>)>)
    requires Idle(slots)
    ensures PeersAfter(Peers(slots), []) == Peers(slots) && OnTrack(slots, sent[|sent|..], Asked(Peers(slots), []), [])
  {
  }

  lemma PeersFollow(e: Event, before: seq<Slot>, after: seq<Slot>, sentBefore: seq<(int, seq<u8>)>,
                    sent: seq<(int, seq<u8>)>, polled: seq<seq<Slot>>)
    requires Possible(e, |before|) && Stepped(e, before, after, sentBefore, sent, polled)
    ensures Peers(after) == PeersStep(Peers(before), e)
  {
    hide AnswersData, FirstInUse, FirstFree;
  }

  lemma SentGrows(e: Event, before: seq<Slot>, after: seq<Slot>, sentBefore: seq<(int, seq<u8>)>,
                  sent: seq<(int, seq<u8>)>, polled: seq<seq<Slot>>, was: nat)
    requires Stepped(e, before, after, sentBefore, sent, polled) && was <= |sentBefore|
    ensures |sentBefore| <= |sent| <= |sentBefore| + 1 && sent[..|sentBefore|] == sentBefore
    ensures sent[was..] == sentBefore[was..] + sent[|sentBefore|..]
  {
    hide AnswersData, FirstInUse, FirstFree, Peers;
    assert sent[..|sentBefore|] == sentBefore;
    assert sent == sentBefore + sent[|sentBefore|..];
  }

  /** One event brings at most one frame a request; if it brings one and nothing was marked, the frame answers it. */
  lemma StepCounted(e: Event, before: seq<Slot>, after: seq<Slot>, sentBefore: seq<(int, seq<u8>)>,
                    sent: seq<(int, seq<u8>)>, polled: seq<seq<Slot>>)
    requires Possible(e, |before|) && Stepped(e, before, after, sentBefore, sent, polled) && |sentBefore| <= |sent|
    ensures
      var asked, new_ := Asker(Peers(before), e), sent[|sentBefore|..];
      && |new_| <= |asked| == |polled|
      && (Idle(before) && |new_| == |asked| ==>
           AllAnswered(new_, asked) && Idle(after) && forall i :: 0 <= i < |polled| ==> OneMarked(polled[i]))
  {
    hide AnswersData;
    if e.Readable? && before[e.pos].sock > 0 && e.bytes != [] {
      RequesterIsFirst(before, e.pos, e.bytes);
    }
  }

  lemma StaysOnTrack(e: Event, before: seq<Slot>, after: seq<Slot>, sentBefore: seq<(int, seq<u8>)>,
                     sent: seq<(int, seq<u8>)>, polled: seq<seq<Slot>>,
                     was: nat, peers: seq<Peer>, events: seq<Event>, polls: seq<seq<Slot>>)
    requires Possible(e, |before|) && Stepped(e, before, after, sentBefore, sent, polled)
      && was <= |sentBefore| <= |sent|
    requires sent[was..] == sentBefore[was..] + sent[|sentBefore|..]
    requires Peers(before) == PeersAfter(peers, events)
    requires OnTrack(before, sentBefore[was..], Asked(peers, events), polls)
    ensures Peers(after) == PeersAfter(peers, events + [e])
    ensures OnTrack(after, sent[was..], Asked(peers, events + [e]), polls + polled)
  {
    hide Stepped, PeersStep, Idle, Asker, Possible, Peers, AllAnswered, OneMarked, OnTrack;
    assert (events + [e])[..|events|] == events;
    PeersFollow(e, before, after, sentBefore, sent, polled);
    StepCounted(e, before, after, sentBefore, sent, polled);
    OnTrackGrows(before, after, sentBefore[was..], sent[|sentBefore|..], Asked(peers, events), Asker(Peers(before), e),
                 polls, polled);
  }

  lemma OnTrackGrows(before: seq<Slot>, after: seq<Slot>, a: seq<(int, seq<u8>)>, b: seq<(int, seq<u8>)>, x: seq<Peer>,
                     y: seq<Peer>,
                     polls: seq<seq<Slot>>, polled: seq<seq<Slot>>)
    requires OnTrack(before, a, x, polls) && |b| <= |y| == |polled|
    requires Idle(before) && |b| == |y| ==>
      AllAnswered(b, y) && Idle(after) && forall i :: 0 <= i < |polled| ==> OneMarked(polled[i])
    ensures OnTrack(after, a + b, x + y, polls + polled)
  {
    hide Idle, OneMarked, AnswersData;
  }
}
