/** Whole runs on a shared RTU line: other units' exchanges and requests to this server, one poll for each. */
module SharedLine {
  import opened Wrappers
  import opened Bytes
  import opened Adu
  import opened Store
  import opened Protocol
  import opened NmbsCore
  import opened Handlers
  import opened Requests
  import opened Client
  import opened RoundTrips
  import opened DeviceId
  import opened Files
  import opened FileHandler
  import opened Poll
  import opened Answerable
  import opened Guarantees
  import opened Bystander

  /** A data request to this server, or another unit's exchange. */
  datatype Traffic = Own(fc: u8, req: Request) | Others(unit: u8, exchange: Exchange)

  /** Requests that fit in a PDU and are defined for the store's id; exchanges that a bystander takes whole. */
  ghost predicate Regular(address: u8, db: Db, m: Traffic) {
    match m
    case Own(fc, req) => Encodable(fc, req) && !RequestUndefined(db, address, fc, req)
    case Others(unit, x) => unit != 0 && unit != address && WellFormed(x) && KeepsSync(unit, x)
  }

  ghost predicate AllRegular(address: u8, db: Db, traffic: seq<Traffic>) {
    forall i :: 0 <= i < |traffic| ==> Regular(address, db, traffic[i])
  }

  ghost function Message(address: u8, db: Db, m: Traffic): seq<u8>
    requires Regular(address, db, m)
  {
    match m
    case Own(fc, req) => Frame(Rtu, 0, address, RequestPdu(fc, req))
    case Others(unit, x) => OnWire(unit, x)
  }

  /** The bytes on the line. */
  ghost function Line(address: u8, db: Db, traffic: seq<Traffic>): seq<u8>
    requires AllRegular(address, db, traffic)
  {
    if traffic == [] then [] else Message(address, db, traffic[0]) + Line(address, db, traffic[1..])
  }

  /** The store and the frames a server that sees only its own requests would leave. */
  datatype Effect = Effect(db: Db, frames: seq<seq<u8>>)

  ghost function Serial(address: u8, db: Db, traffic: seq<Traffic>): (e: Effect)
    requires Sized(db) && AllRegular(address, db, traffic)
    ensures Sized(e.db) && e.db.id == db.id
  {
    if traffic == [] then Effect(db, []) else
      var m, before := traffic[|traffic| - 1], Serial(address, db, traffic[..|traffic| - 1]);
      assert Regular(address, db, m);
      if m.Others? then before else
        StillDefined(db, before.db, address, m);
        var ans := Execute(before.db, address, m.fc, false, m.req);
        Effect(ans.db, before.frames + Sent(Rtu, 0, address, ans.reply))
  }

  /**
   Whether a request is defined depends on the store's id only, and a served request leaves a store of the same
   shape.
   */
  lemma StillDefined(db: Db, later: Db, address: u8, m: Traffic)
    requires m.Own? && Regular(address, db, m) && Sized(later) && later.id == db.id
    ensures var ans := Execute(later, address, m.fc, false, m.req);
      ans.err == NoError && Sized(ans.db) && ans.db.id == db.id
  {
    ExecutedIffDefined(later, address, m.fc, m.req);
    hide RegsPdu, EchoPdu, BitsPdu, CoilsOut;
  }

  /** A poll on a line that starts with a request to this server. */
  lemma RequestServed(n: Nmbs, s: Server, f: FileStore, d: Option<DeviceInfo>, was: seq<seq<u8>>, log: seq<Record>,
                      db: Db, stale: seq<u8>,
                      err: Error, fc: u8, req: Request, rest: seq<u8>)
    requires n.transport.Rtu? && n.linkUp && n.addressRtu != 0 && Encodable(fc, req)
    requires s.Valid() && |stale| == BUF_SIZE && Sized(db) && (d.Some? ==> Proper(d.value))
    requires Execute(db, n.addressRtu, fc, false, req).err == NoError
    requires Polled(n, s, f, d, was, log, db, stale, Frame(Rtu, 0, n.addressRtu, RequestPdu(fc, req)) + rest, err)
    ensures var ans := Execute(db, n.addressRtu, fc, false, req);
      && err == NoError && n.rx == rest && f.log == log
      && n.tx == was + Sent(Rtu, 0, n.addressRtu, ans.reply) && s.Contents() == ans.db
  {
    hide Frame, Execute, RequestPdu, Parse, RequestEnd, BystanderDone;
    RtuMessage(n.addressRtu, RequestPdu(fc, req), rest);
    RequestTaken(n.addressRtu, fc, req, rest);
    assert log + [] == log;
  }

  /** One poll of the run. */
  method PollOnce(n: Nmbs, s: Server, f: FileStore, d: Option<DeviceInfo>, ghost db: Db, ghost m: Traffic,
                  ghost rest: seq<u8>)
    requires n.Valid() && s.Valid() && n.buf as object !in s.Repr() && (d.Some? ==> Proper(d.value))
    requires n.transport.Rtu? && n.linkUp && n.addressRtu != 0
    requires Regular(n.addressRtu, db, m) && s.Contents().id == db.id && n.rx == Message(n.addressRtu, db, m) + rest
    modifies n, n.buf, s.coils, s.regs, f`log
    ensures n.Valid() && n.linkUp && f.log == old(f.log) && n.rx == rest
    ensures m.Others? ==> n.tx == old(n.tx) && s.Contents() == old(s.Contents())
    ensures m.Own? ==>
      var ans := Execute(old(s.Contents()), n.addressRtu, m.fc, false, m.req);
      n.tx == old(n.tx) + Sent(Rtu, 0, n.addressRtu, ans.reply) && s.Contents() == ans.db
  {
    hide Execute, RequestUndefined, WellFormed, KeepsSync, OnWire, Frame, Encodable, Polled;
    ghost var was, log, before, stale := n.tx, f.log, s.Contents(), n.buf[..];
    var err := NmbsServerPoll(n, s, f, d);
    if m.Own? {
      StillDefined(db, before, n.addressRtu, m);
      RequestServed(n, s, f, d, was, log, before, stale, err, m.fc, m.req, rest);
    } else {
      InSyncIff(n, s, f, d, was, log, before, stale, err, m.unit, m.exchange, rest);
    }
  }

  /**
   Any sequence of other units' exchanges and requests to this server is taken from the line message by message, one
   poll for each. The store and the frames sent are those of the own requests alone, in order.
   */
  method Run(n: Nmbs, s: Server, f: FileStore, d: Option<DeviceInfo>, traffic: seq<Traffic>, ghost rest: seq<u8>)
    requires n.Valid() && s.Valid() && n.buf as object !in s.Repr() && (d.Some? ==> Proper(d.value))
    requires n.transport.Rtu? && n.linkUp && n.addressRtu != 0
    requires AllRegular(n.addressRtu, s.Contents(), traffic) && n.rx == Line(n.addressRtu, s.Contents(), traffic) + rest
    modifies n, n.buf, s.coils, s.regs, f`log
    ensures n.Valid() && n.rx == rest && f.log == old(f.log)
    ensures var e := Serial(n.addressRtu, old(s.Contents()), traffic);
      s.Contents() == e.db && n.tx == old(n.tx) + e.frames
  {
    hide Message, Regular, Execute;
    ghost var db, was, a := s.Contents(), n.tx, n.addressRtu;
    assert traffic[0..] == traffic && traffic[..0] == [] && was + [] == was;
    for i := 0 to |traffic|
      invariant n.Valid() && n.linkUp && f.log == old(f.log)
      invariant n.rx == Line(a, db, traffic[i..]) + rest
      invariant s.Contents() == Serial(a, db, traffic[..i]).db && n.tx == was + Serial(a, db, traffic[..i]).frames
    {
      ghost var m, tail := traffic[i], Line(a, db, traffic[i + 1..]) + rest;
      LineStep(a, db, traffic, i, rest);
      PollOnce(n, s, f, d, db, m, tail);
      SerialStep(a, db, traffic, i);
      assert m.Others? ==> n.tx + [] == n.tx;
    }
    assert traffic[..|traffic|] == traffic && traffic[|traffic|..] == [];
  }

  lemma LineStep(address: u8, db: Db, traffic: seq<Traffic>, i: nat, rest: seq<u8>)
    requires AllRegular(address, db, traffic) && i < |traffic|
    ensures Line(address, db, traffic[i..]) + rest
      == Message(address, db, traffic[i]) + (Line(address, db, traffic[i + 1..]) + rest)
  {
    hide Message, Regular;
    assert traffic[i..][0] == traffic[i] && traffic[i..][1..] == traffic[i + 1..];
  }

  lemma SerialStep(address: u8, db: Db, traffic: seq<Traffic>, i: nat)
    requires Sized(db) && AllRegular(address, db, traffic) && i < |traffic|
    ensures var before, m := Serial(address, db, traffic[..i]), traffic[i];
      && Regular(address, db, m)
      && (m.Others? ==> Serial(address, db, traffic[..i + 1]) == before)
      && (m.Own? ==>
            var ans := Execute(before.db, address, m.fc, false, m.req);
            Serial(address, db, traffic[..i + 1]) == Effect(ans.db, before.frames + Sent(Rtu, 0, address, ans.reply)))
  {
    hide Execute;
    assert traffic[..i + 1][..i] == traffic[..i] && traffic[..i + 1][i] == traffic[i];
  }

  /** The own requests of a run. */
  function OwnRequests(traffic: seq<Traffic>): seq<Traffic> {
    if traffic == [] then [] else
      var m := traffic[|traffic| - 1];
      OwnRequests(traffic[..|traffic| - 1]) + if m.Own? then [m] else []
  }

  /** Each own request is answered by one frame, in order, and nothing else is sent. */
  lemma {:induction false} EachAnswered(address: u8, db: Db, traffic: seq<Traffic>)
    requires Sized(db) && AllRegular(address, db, traffic)
    ensures var frames, own := Serial(address, db, traffic).frames, OwnRequests(traffic);
      && |frames| == |own|
      && forall i :: 0 <= i < |own| ==> own[i].Own? && AnswersRequest(Rtu, frames[i], 0, address, own[i].fc)
  {
    hide Execute, AnswersRequest, Sent, RequestUndefined;
    if traffic != [] {
      var n := |traffic| - 1;
      var m, before := traffic[n], Serial(address, db, traffic[..n]);
      EachAnswered(address, db, traffic[..n]);
      assert Regular(address, db, m);
      if m.Own? {
        StillDefined(db, before.db, address, m);
        ExecuteAnswered(Rtu, 0, address, m.fc, before.db, m.req);
        SentAnswers(Rtu, 0, address, m.fc, Execute(before.db, address, m.fc, false, m.req));
      }
    }
  }
}
