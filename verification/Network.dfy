/** ad.c: any number of daemons that relay to each other, one step at a time. A packet that was
    sent may reach any daemon, any number of times and at any later moment, or never. Packets
    leave a daemon through send_out, or from its cache in reply to a data request. */
module Network {
  import opened Common
  import opened Daemon

  /** A packet as it was sent, with the daemons that sent it on, in order, the hop count it had
      when it was first sent, and whether it was last sent in reply to a data request. */
  datatype Copy = Copy(packet: Packet, path: seq<nat>, start: nat, reply: bool)

  // The caches, the packets sent, and the replies that the messages saved so far would make.
  datatype Net = Net(caches: seq<Cache>, copies: seq<Copy>, kept: seq<Copy>)

  datatype Event =
    | Inject(daemon: nat, packet: Packet)       // from a local program
    | Deliver(daemon: nat, copy: nat)           // one of the copies sent so far arrives
    | Reply(kept: nat)                          // a saved message is sent for a data request
    | Manage(daemon: nat, ids: set<Id>, sent: Option<Packet>)  // management traffic of a daemon

  datatype Setup = Setup(hashes: Hashes, tokens: seq<Id>)

  // A daemon takes in a packet; if it sends it, a copy is on its way.
  function Take(s: Setup, net: Net, d: nat, p: Packet, isLocal: bool, path: seq<nat>, start: nat): Net
    requires d < |net.caches| == |s.tokens|
  {
    var (c, out) := Receive(s.hashes, s.tokens[d], net.caches[d], p, isLocal);
    var stored := Stored(s.hashes, s.tokens[d], net.caches[d], p, isLocal);
    Net(net.caches[d := c],
        if SentOut(out).Some? then net.copies + [Copy(out.value, path + [d], start, false)] else net.copies,
        if stored.Some? then net.kept + [Copy(stored.value, path + [d], start, true)] else net.kept)
  }

  // The daemon that keeps the message still has it.
  predicate StillSaved(s: Setup, net: Net, c: Copy) {
    && c.path != []
    && var d := c.path[|c.path| - 1];
       && d < |net.caches| && MessageId(s.hashes, c.packet).Some?
       && MessageId(s.hashes, c.packet).value in net.caches[d].saved
  }

  function Step(s: Setup, net: Net, e: Event): (net': Net)
    requires |net.caches| == |s.tokens|
    ensures |net'.caches| == |net.caches|
  {
    match e
    case Inject(d, p) =>
      if d < |net.caches| then Take(s, net, d, p, true, [], p.hops) else net
    case Deliver(d, k) =>
      if d < |net.caches| && k < |net.copies| then
        Take(s, net, d, net.copies[k].packet, false, net.copies[k].path, net.copies[k].start)
      else net
    case Reply(k) =>
      if k < |net.kept| && StillSaved(s, net, net.kept[k]) then net.(copies := net.copies + [net.kept[k]])
      else net
    case Manage(d, ids, out) =>
      if d < |net.caches| && (out.Some? ==> out.value.kind.Mgmt?) then
        net.(caches := net.caches[d := net.caches[d].(saved := net.caches[d].saved + ids)],
             copies := if SentOut(out).Some? then net.copies + [Copy(out.value, [d], out.value.hops, false)]
                       else net.copies)
      else net
  }

  function Run(s: Setup, net: Net, events: seq<Event>): (net': Net)
    requires |net.caches| == |s.tokens|
    ensures |net'.caches| == |net.caches|
  {
    if events == [] then net else Step(s, Run(s, net, events[..|events| - 1]), events[|events| - 1])
  }

  /** Caches may know any ids at the start, but nothing has been sent or can be replied. */
  predicate Initial(s: Setup, net: Net) {
    |net.caches| == |s.tokens| && net.copies == [] && net.kept == []
  }

  // ---------- the invariant ----------

  /** The hop count is the number of links crossed, until it is 255. */
  predicate HopsCounted(c: Copy) {
    var crossed := c.start + |c.path| - 1;
    && |c.path| >= 1
    && c.packet.hops <= c.packet.maxHops + 1
    && (c.packet.hops == crossed || (c.packet.hops == c.packet.maxHops == 255 <= crossed))
    && (c.reply || MaySend(c.packet))
  }

  /** Daemon d would drop this copy. */
  predicate WouldDrop(s: Setup, cache: Cache, p: Packet) {
    match p.kind
    case Ack => AckSet(p.acks) <= cache.passed && p.acks != []
    case Mgmt => true
    case _ => MessageId(s.hashes, p).Some? && MessageId(s.hashes, p).value in Handled(cache)
  }

  predicate OnPathDrop(s: Setup, net: Net, c: Copy) {
    forall i :: 0 <= i < |c.path| ==> c.path[i] < |net.caches| && WouldDrop(s, net.caches[c.path[i]], c.packet)
  }

  predicate NoRepeats(path: seq<nat>) {
    forall i, j :: 0 <= i < j < |path| ==> path[i] != path[j]
  }

  /** Messages, and data requests that carry a message id, have the same id everywhere. */
  predicate Identified(p: Packet) {
    p.kind.Plain? || (p.kind.DataReq? && p.ackReq)
  }

  predicate Flooded(p: Packet) {
    Identified(p) || p.kind.Ack?
  }

  predicate CopyFine(s: Setup, net: Net, c: Copy) {
    && HopsCounted(c)
    && (forall i :: 0 <= i < |c.path| ==> c.path[i] < |net.caches|)
    && (Flooded(c.packet) ==> OnPathDrop(s, net, c) && NoRepeats(c.path))
  }

  predicate Fine(s: Setup, net: Net) {
    && |net.caches| == |s.tokens|
    && (forall k :: 0 <= k < |net.copies| ==> CopyFine(s, net, net.copies[k]))
    && (forall k :: 0 <= k < |net.kept| ==> CopyFine(s, net, net.kept[k]) && net.kept[k].reply)
    && (forall k :: 0 <= k < |net.kept| ==> MayBeKept(net.kept[k].packet))
    && forall k :: 0 <= k < |net.copies| && net.copies[k].reply ==> MayBeKept(net.copies[k].packet)
  }

  predicate MayBeKept(p: Packet) {
    !p.doNotCache && !p.kind.Ack? && !p.kind.Mgmt?
  }

  // Caches only grow in what they drop.
  predicate Grown(net: Net, net': Net) {
    && |net'.caches| == |net.caches|
    && forall d :: 0 <= d < |net.caches| ==>
         && Handled(net.caches[d]) <= Handled(net'.caches[d])
         && net.caches[d].passed <= net'.caches[d].passed
  }

  lemma CopyStaysFine(s: Setup, net: Net, net': Net, c: Copy)
    requires Grown(net, net') && CopyFine(s, net, c)
    ensures CopyFine(s, net', c)
  {
    if Flooded(c.packet) {
      forall i | 0 <= i < |c.path| ensures WouldDrop(s, net'.caches[c.path[i]], c.packet) {
        assert WouldDrop(s, net.caches[c.path[i]], c.packet);
      }
    }
  }

  // What the taking daemon makes of a packet that its path so far would drop.
  lemma TakenCopyFine(s: Setup, net: Net, d: nat, p: Packet, isLocal: bool, path: seq<nat>, start: nat, reply: bool)
    requires d < |net.caches| == |s.tokens|
    requires forall i :: 0 <= i < |path| ==> path[i] < |net.caches|
    requires isLocal ==> path == [] && start == p.hops
    requires !isLocal ==> HopsCounted(Copy(p, path, start, reply))
    requires Flooded(p) ==> OnPathDrop(s, net, Copy(p, path, start, reply)) && NoRepeats(path)
    ensures var net' := Take(s, net, d, p, isLocal, path, start);
            var out := Receive(s.hashes, s.tokens[d], net.caches[d], p, isLocal).1;
            && Grown(net, net')
            && (out.Some? ==> CopyFine(s, net', Copy(out.value, path + [d], start, true)))
  {
    var out := Receive(s.hashes, s.tokens[d], net.caches[d], p, isLocal).1;
    var net' := Take(s, net, d, p, isLocal, path, start);
    HandledGrows(s.hashes, s.tokens[d], net.caches[d], p, isLocal);
    assert Grown(net, net');
    if out.Some? {
      var copy := Copy(out.value, path + [d], start, true);
      assert copy.packet.kind == p.kind;
      assert HopsCounted(copy);
      if Flooded(p) {
        TakerWouldDrop(s, d, net.caches[d], p, isLocal);
        TakenOnPath(s, net, d, p, isLocal, path, start, reply);
      }
    }
  }

  // The taking daemon drops from then on what it lets through now, and it lets through only
  // what daemons that would drop the packet before also would drop after.
  lemma TakerWouldDrop(s: Setup, d: nat, cache: Cache, p: Packet, isLocal: bool)
    requires d < |s.tokens| && Flooded(p)
    requires Receive(s.hashes, s.tokens[d], cache, p, isLocal).1.Some?
    ensures var (c, out) := Receive(s.hashes, s.tokens[d], cache, p, isLocal);
            && WouldDrop(s, c, out.value)
            && (!isLocal ==> !WouldDrop(s, cache, p))
            && (p.kind.Ack? ==> out.value.acks != [] && AckSet(out.value.acks) <= AckSet(p.acks))
            && (!p.kind.Ack? ==> MessageId(s.hashes, out.value) == MessageId(s.hashes, p))
            && out.value.kind == p.kind
  {
    if p.kind.Ack? {
      AcksGoOnWhenNew(s.hashes, s.tokens[d], cache, p, isLocal);
    }
  }

  lemma TakenOnPath(s: Setup, net: Net, d: nat, p: Packet, isLocal: bool, path: seq<nat>, start: nat, reply: bool)
    requires d < |net.caches| == |s.tokens| && Flooded(p) && (isLocal ==> path == [])
    requires OnPathDrop(s, net, Copy(p, path, start, reply)) && NoRepeats(path)
    requires Receive(s.hashes, s.tokens[d], net.caches[d], p, isLocal).1.Some?
    ensures var out := Receive(s.hashes, s.tokens[d], net.caches[d], p, isLocal).1.value;
            var net' := Take(s, net, d, p, isLocal, path, start);
            OnPathDrop(s, net', Copy(out, path + [d], start, true)) && NoRepeats(path + [d])
  {
    var (c, o) := Receive(s.hashes, s.tokens[d], net.caches[d], p, isLocal);
    var out := o.value;
    var net' := Take(s, net, d, p, isLocal, path, start);
    TakerWouldDrop(s, d, net.caches[d], p, isLocal);
    forall i | 0 <= i < |path| ensures path[i] != d && WouldDrop(s, net'.caches[path[i]], out) {
      assert WouldDrop(s, net.caches[path[i]], p);
    }
  }

  // A copy that passes the guard of send_out is as fine as one sent in reply.
  lemma SentOutFine(s: Setup, net: Net, c: Copy)
    requires CopyFine(s, net, c) && MaySend(c.packet)
    ensures CopyFine(s, net, c.(reply := false))
  {
    if Flooded(c.packet) {
      assert OnPathDrop(s, net, c);
    }
  }

  lemma TakeKeepsFine(s: Setup, net: Net, d: nat, p: Packet, isLocal: bool, path: seq<nat>, start: nat, reply: bool)
    requires Fine(s, net) && d < |net.caches|
    requires isLocal ==> path == [] && start == p.hops
    requires !isLocal ==> CopyFine(s, net, Copy(p, path, start, reply))
    ensures var net' := Take(s, net, d, p, isLocal, path, start); Fine(s, net') && Grown(net, net')
  {
    var net' := Take(s, net, d, p, isLocal, path, start);
    var out := Receive(s.hashes, s.tokens[d], net.caches[d], p, isLocal).1;
    TakenCopyFine(s, net, d, p, isLocal, path, start, reply);
    if SentOut(out).Some? {
      SentOutFine(s, net', Copy(out.value, path + [d], start, true));
    }
    OthersStayFine(s, net, net');
  }

  lemma OthersStayFine(s: Setup, net: Net, net': Net)
    requires Fine(s, net) && Grown(net, net')
    ensures forall k :: 0 <= k < |net.copies| ==> CopyFine(s, net', net.copies[k])
    ensures forall k :: 0 <= k < |net.kept| ==> CopyFine(s, net', net.kept[k]) && net.kept[k].reply
  {
    forall k | 0 <= k < |net.copies| ensures CopyFine(s, net', net.copies[k]) {
      CopyStaysFine(s, net, net', net.copies[k]);
    }
    forall k | 0 <= k < |net.kept| ensures CopyFine(s, net', net.kept[k]) && net.kept[k].reply {
      assert CopyFine(s, net, net.kept[k]);
      CopyStaysFine(s, net, net', net.kept[k]);
    }
  }

  lemma StepKeepsFine(s: Setup, net: Net, e: Event)
    requires Fine(s, net)
    ensures Fine(s, Step(s, net, e)) && Grown(net, Step(s, net, e))
  {
    match e {
      case Inject(d, p) =>
        if d < |net.caches| {
          TakeKeepsFine(s, net, d, p, true, [], p.hops, false);
        }
      case Deliver(d, k) =>
        if d < |net.caches| && k < |net.copies| {
          var c := net.copies[k];
          assert CopyFine(s, net, c);
          TakeKeepsFine(s, net, d, c.packet, false, c.path, c.start, c.reply);
        }
      case Reply(k) =>
        OthersStayFine(s, net, Step(s, net, e));
      case Manage(d, ids, out) =>
        OthersStayFine(s, net, Step(s, net, e));
    }
  }

  lemma {:induction false} RunIsFine(s: Setup, net: Net, events: seq<Event>)
    requires Initial(s, net)
    ensures Fine(s, Run(s, net, events))
  {
    if events != [] {
      RunIsFine(s, net, events[..|events| - 1]);
      StepKeepsFine(s, Run(s, net, events[..|events| - 1]), events[|events| - 1]);
    }
  }

  // ---------- hops ----------

  /** In every run, a packet first sent with hop count h has crossed at most maxHops - h links
      on any path when send_out sends it. Replies do not pass send_out; with them it crosses at
      most two links more, and a daemon that takes it in gets it over at most one more. This
      needs no cache, but a maximum below 255. */
  lemma HopBound(s: Setup, net: Net, events: seq<Event>, k: nat)
    requires Initial(s, net) && k < |Run(s, net, events).copies|
    ensures var c := Run(s, net, events).copies[k];
            var left := c.packet.maxHops - c.start;
            && 1 <= |c.path|
            && (!c.reply ==> |c.path| <= left && c.packet.maxHops - c.packet.hops == left - (|c.path| - 1))
            && (c.packet.maxHops < 255 ==> |c.path| <= left + 2)
            && (c.packet.maxHops < 255 && ValidHops(c.packet) ==> |c.path| <= left + 1)
  {
    RunIsFine(s, net, events);
    assert CopyFine(s, Run(s, net, events), Run(s, net, events).copies[k]);
  }

  // A relay takes one hop from what is left, and passes nothing on when one is left.
  lemma RelayUsesHop(s: Setup, d: nat, cache: Cache, p: Packet)
    requires d < |s.tokens|
    ensures var out := SentOut(Receive(s.hashes, s.tokens[d], cache, p, false).1);
            out.Some? ==>
              && out.value.maxHops == p.maxHops
              && 0 < out.value.maxHops - out.value.hops == p.maxHops - p.hops - 1
  {}

  /** In every run, what is sent from a cache is a message or data request that may be cached. */
  lemma {:induction false} RepliesMayBeCached(s: Setup, net: Net, events: seq<Event>, k: nat)
    requires Initial(s, net) && k < |Run(s, net, events).copies|
    requires Run(s, net, events).copies[k].reply
    ensures var p := Run(s, net, events).copies[k].packet;
            !p.doNotCache && (p.kind.Plain? || p.kind.DataReq?)
  {
    RunIsFine(s, net, events);
  }

  // ---------- no loops ----------

  /** In every run, no message, no ack and no data request that carries a message id passes
      through the same daemon twice, replies from the caches included. */
  lemma FloodingIsLoopFree(s: Setup, net: Net, events: seq<Event>, k: nat)
    requires Initial(s, net) && k < |Run(s, net, events).copies|
    requires Flooded(Run(s, net, events).copies[k].packet)
    ensures NoRepeats(Run(s, net, events).copies[k].path)
  {
    RunIsFine(s, net, events);
    assert CopyFine(s, Run(s, net, events), Run(s, net, events).copies[k]);
  }

  /** What was sent is relayed by a daemon that gets it, unless it is an ack or management
      packet, exactly when its id is new there and the hop limits leave room for one more. */
  lemma DeliveryRelays(s: Setup, net: Net, d: nat, k: nat)
    requires Fine(s, net) && d < |net.caches| && k < |net.copies|
    requires !net.copies[k].packet.kind.Ack? && !net.copies[k].packet.kind.Mgmt?
    requires net.copies[k].packet.maxHops <= 255
    ensures var c := net.copies[k];
            var id := MessageId(s.hashes, c.packet);
            Step(s, net, Deliver(d, k)).copies
            == if id.Some? && id.value !in Handled(net.caches[d])
                  && c.packet.hops + 1 < c.packet.maxHops && c.packet.hops + 1 < 255
               then
                 var relayed := Rewritten(c.packet.(hops := c.packet.hops + 1), s.tokens[d]);
                 net.copies + [Copy(relayed, c.path + [d], c.start, false)]
               else net.copies
    ensures var c, after := net.copies[k].packet, Step(s, net, Deliver(d, k)).copies;
            after != net.copies ==>
              var relayed := after[|net.copies|].packet;
              0 < relayed.maxHops - relayed.hops == c.maxHops - c.hops - 1
  {
    var c := net.copies[k];
    RelayUsesHop(s, d, net.caches[d], c.packet);
    ForwardedIffNew(s.hashes, s.tokens[d], net.caches[d], c.packet);
    RelayedPacket(s.hashes, s.tokens[d], net.caches[d], c.packet, false);
  }

  /** An ack packet is relayed with exactly the acks that its receiver had not handed on, when
      there are any and the hop limits leave room for one more hop. */
  lemma AckDeliveryRelays(s: Setup, net: Net, d: nat, k: nat)
    requires |net.caches| == |s.tokens| && d < |net.caches| && k < |net.copies|
    requires net.copies[k].packet.kind.Ack? && net.copies[k].packet.maxHops <= 255
    ensures var c, after := net.copies[k], Step(s, net, Deliver(d, k)).copies;
            if (exists a :: a in c.packet.acks && a !in net.caches[d].passed)
               && c.packet.hops + 1 < c.packet.maxHops && c.packet.hops + 1 < 255
            then
              && |after| == |net.copies| + 1 && after[..|net.copies|] == net.copies
              && after[|net.copies|].path == c.path + [d]
              && var out := after[|net.copies|].packet;
                 && out == c.packet.(hops := c.packet.hops + 1, acks := out.acks)
                 && forall a :: a in out.acks <==> a in c.packet.acks && a !in net.caches[d].passed
            else after == net.copies
  {
    var c := net.copies[k];
    NewAcksAre(net.caches[d].passed, c.packet.acks);
    var newOnes := NewAcks(net.caches[d].passed, c.packet.acks);
    assert forall a :: a in newOnes <==> a in AckSet(newOnes);
    assert forall a :: a in newOnes <==> a in c.packet.acks && a !in net.caches[d].passed;
    if newOnes != [] {
      assert newOnes[0] in newOnes;
    }
  }

  /** What a local program injects is sent, as it is but for the token of a data request, when it
      has something after its header and hops left. */
  lemma InjectionSends(s: Setup, net: Net, d: nat, p: Packet)
    requires |net.caches| == |s.tokens| && d < |net.caches| && (p.kind.Plain? || p.kind.DataReq?)
    ensures Step(s, net, Inject(d, p)).copies
            == if (p.body != [] || p.kind.DataReq?) && p.hops < p.maxHops <= 255 && p.hops < 255 then
                 net.copies
                 + [Copy(if p.kind.DataReq? then p.(token := s.tokens[d]) else p, [d], p.hops, false)]
               else net.copies
  {
    assert [] + [d] == [d];
  }

  /** Management traffic is free to send management packets with hops left and to save ids. */
  lemma ManagementIsFree(s: Setup, net: Net, d: nat, ids: set<Id>, p: Packet)
    requires d < |net.caches| == |s.tokens| && p.kind.Mgmt? && p.hops < p.maxHops <= 255
    ensures var after := Step(s, net, Manage(d, ids, Some(p)));
            && after.copies == net.copies + [Copy(p, [d], p.hops, false)]
            && after.caches[d].saved == net.caches[d].saved + ids
  {}

  // ---------- how many relays ----------

  /** A message or data request with id x that a daemon got from another one and sent on. */
  predicate IsRelay(s: Setup, c: Copy, x: Id) {
    && Identified(c.packet) && MessageId(s.hashes, c.packet) == Some(x)
    && |c.path| > 1 && !c.reply
  }

  /** The daemons that relayed the message with id x, one entry for each relay. */
  function Relayers(s: Setup, copies: seq<Copy>, x: Id): seq<nat> {
    if copies == [] then [] else
      var last := copies[|copies| - 1];
      Relayers(s, copies[..|copies| - 1], x)
      + if IsRelay(s, last, x) then [last.path[|last.path| - 1]] else []
  }

  predicate RelayersDone(s: Setup, net: Net, x: Id) {
    && NoRepeats(Relayers(s, net.copies, x))
    && forall i :: 0 <= i < |Relayers(s, net.copies, x)| ==>
         var d := Relayers(s, net.copies, x)[i];
         d < |net.caches| && x in Handled(net.caches[d])
  }

  // One more copy, which counts as a relay only when its last daemon did not handle x before.
  lemma RelayersAppend(s: Setup, net: Net, net': Net, c: Copy, x: Id)
    requires RelayersDone(s, net, x) && Grown(net, net') && net'.copies == net.copies + [c]
    requires IsRelay(s, c, x) ==>
               var d := c.path[|c.path| - 1];
               d < |net.caches| && x !in Handled(net.caches[d]) && x in Handled(net'.caches[d])
    ensures RelayersDone(s, net', x)
  {
    assert net'.copies[..|net.copies|] == net.copies;
    var before, after := Relayers(s, net.copies, x), Relayers(s, net'.copies, x);
    forall i | 0 <= i < |after|
      ensures after[i] < |net'.caches| && x in Handled(net'.caches[after[i]])
      ensures forall j :: 0 <= j < i ==> after[j] != after[i]
    {
      if i < |before| {
        assert after[i] == before[i] && x in Handled(net.caches[before[i]]);
      } else {
        assert IsRelay(s, c, x) && after[i] == c.path[|c.path| - 1];
      }
    }
  }

  lemma RelayersStay(s: Setup, net: Net, net': Net, x: Id)
    requires RelayersDone(s, net, x) && Grown(net, net') && net'.copies == net.copies
    ensures RelayersDone(s, net', x)
  {}

  lemma TakeKeepsRelayers(s: Setup, net: Net, d: nat, p: Packet, isLocal: bool, path: seq<nat>, start: nat, x: Id)
    requires d < |net.caches| == |s.tokens|
    requires (isLocal ==> path == []) && RelayersDone(s, net, x)
    ensures RelayersDone(s, Take(s, net, d, p, isLocal, path, start), x)
  {
    var out := Receive(s.hashes, s.tokens[d], net.caches[d], p, isLocal).1;
    var net' := Take(s, net, d, p, isLocal, path, start);
    HandledGrows(s.hashes, s.tokens[d], net.caches[d], p, isLocal);
    if SentOut(out).Some? {
      if Identified(p) && !isLocal {
        ForwardedIffNew(s.hashes, s.tokens[d], net.caches[d], p);
        TakerWouldDrop(s, d, net.caches[d], p, false);
      }
      RelayersAppend(s, net, net', Copy(out.value, path + [d], start, false), x);
    } else {
      RelayersStay(s, net, net', x);
    }
  }

  lemma {:induction false} RunKeepsRelayers(s: Setup, net: Net, events: seq<Event>, x: Id)
    requires Initial(s, net)
    ensures RelayersDone(s, Run(s, net, events), x)
  {
    if events != [] {
      var before, e := Run(s, net, events[..|events| - 1]), events[|events| - 1];
      var after := Step(s, before, e);
      RunKeepsRelayers(s, net, events[..|events| - 1], x);
      RunIsFine(s, net, events[..|events| - 1]);
      match e {
        case Inject(d, p) =>
          if d < |before.caches| {
            TakeKeepsRelayers(s, before, d, p, true, [], p.hops, x);
          }
        case Deliver(d, k) =>
          if d < |before.caches| && k < |before.copies| {
            var c := before.copies[k];
            TakeKeepsRelayers(s, before, d, c.packet, false, c.path, c.start, x);
          }
        case Reply(k) =>
          if after != before {
            RelayersAppend(s, before, after, before.kept[k], x);
          }
        case Manage(d, ids, out) =>
          if after.copies != before.copies {
            RelayersAppend(s, before, after, after.copies[|before.copies|], x);
          } else {
            RelayersStay(s, before, after, x);
          }
      }
    }
  }

  lemma {:induction false} DistinctBelow(xs: seq<nat>, n: nat)
    requires NoRepeats(xs) && forall i :: 0 <= i < |xs| ==> xs[i] < n
    ensures |xs| <= n
  {
    if xs != [] {
      assert xs[0] < n;
      if i :| 0 <= i < |xs| && xs[i] == n - 1 {
        var ys := xs[..i] + xs[i + 1..];
        assert forall a :: 0 <= a < |ys| ==> ys[a] == xs[if a < i then a else a + 1];
        DistinctBelow(ys, n - 1);
      } else {
        DistinctBelow(xs, n - 1);
      }
    }
  }

  /** In every run, each daemon relays a message at most once, so that n daemons relay it at
      most n times however often it is injected or delivered. */
  lemma AtMostOneRelayEach(s: Setup, net: Net, events: seq<Event>, x: Id)
    requires Initial(s, net)
    ensures var copies := Run(s, net, events).copies;
            && |RelayCopies(s, copies, x)| <= |s.tokens|
            && forall j, k :: j in RelayCopies(s, copies, x) && k in RelayCopies(s, copies, x) && j != k ==>
                 Sender(copies[j]) != Sender(copies[k])
  {
    var copies := Run(s, net, events).copies;
    RunKeepsRelayers(s, net, events, x);
    DistinctBelow(Relayers(s, copies, x), |s.tokens|);
    RelayersCount(s, copies, x);
    forall j, k | j in RelayCopies(s, copies, x) && k in RelayCopies(s, copies, x) && j != k
      ensures Sender(copies[j]) != Sender(copies[k])
    {
      RelayersDiffer(s, copies, x, if j < k then j else k, if j < k then k else j);
    }
  }

  // The daemon that sent a copy.
  function Sender(c: Copy): nat
    requires c.path != []
  {
    c.path[|c.path| - 1]
  }

  /** Which of the copies are relays of x. */
  ghost function RelayCopies(s: Setup, copies: seq<Copy>, x: Id): set<nat> {
    set k | 0 <= k < |copies| && IsRelay(s, copies[k], x)
  }

  /** Every copy that a daemon sends on delivery of another one is counted as a relay of its id by
      this daemon. */
  lemma EveryRelayCounts(s: Setup, net: Net, d: nat, k: nat)
    requires Fine(s, net) && d < |net.caches| && k < |net.copies|
    requires net.copies[k].packet.kind.Plain? || (net.copies[k].packet.kind.DataReq? && net.copies[k].packet.ackReq)
    ensures var after := Step(s, net, Deliver(d, k)).copies;
            after != net.copies ==>
              && |after| == |net.copies| + 1 && MessageId(s.hashes, net.copies[k].packet).Some?
              && |net.copies| in RelayCopies(s, after, MessageId(s.hashes, net.copies[k].packet).value)
              && Sender(after[|net.copies|]) == d
  {
    var c := net.copies[k];
    assert CopyFine(s, net, c);
    ForwardedIffNew(s.hashes, s.tokens[d], net.caches[d], c.packet);
    RelayedPacket(s.hashes, s.tokens[d], net.caches[d], c.packet, false);
  }

  lemma {:induction false} RelayCopiesStep(s: Setup, copies: seq<Copy>, c: Copy, x: Id)
    ensures RelayCopies(s, copies + [c], x)
            == RelayCopies(s, copies, x) + if IsRelay(s, c, x) then {|copies|} else {}
  {
    assert forall k :: 0 <= k < |copies| ==> (copies + [c])[k] == copies[k];
  }

  lemma {:induction false} RelayersCount(s: Setup, copies: seq<Copy>, x: Id)
    ensures |RelayCopies(s, copies, x)| == |Relayers(s, copies, x)|
  {
    if copies != [] {
      var n := |copies| - 1;
      RelayersCount(s, copies[..n], x);
      RelayCopiesStep(s, copies[..n], copies[n], x);
      assert copies[..n] + [copies[n]] == copies;
      assert n !in RelayCopies(s, copies[..n], x);
    }
  }

  lemma {:induction false} SenderRelayed(s: Setup, copies: seq<Copy>, x: Id, k: nat)
    requires k < |copies| && IsRelay(s, copies[k], x)
    ensures Sender(copies[k]) in Relayers(s, copies, x)
  {
    if k < |copies| - 1 {
      SenderRelayed(s, copies[..|copies| - 1], x, k);
    }
  }

  lemma {:induction false} RelayersDiffer(s: Setup, copies: seq<Copy>, x: Id, j: nat, k: nat)
    requires NoRepeats(Relayers(s, copies, x)) && j < k < |copies|
    requires IsRelay(s, copies[j], x) && IsRelay(s, copies[k], x)
    ensures Sender(copies[j]) != Sender(copies[k])
  {
    var n := |copies| - 1;
    var before, all := Relayers(s, copies[..n], x), Relayers(s, copies, x);
    assert forall i :: 0 <= i < |before| ==> all[i] == before[i];
    if k < n {
      RelayersDiffer(s, copies[..n], x, j, k);
    } else {
      SenderRelayed(s, copies[..n], x, j);
      assert all[|before|] == Sender(copies[k]);
    }
  }

  // ---------- runs from empty caches ----------

  const EMPTY: Cache := Cache({}, {}, {})

  function EmptyNet(s: Setup): Net {
    Net(seq(|s.tokens|, _ => EMPTY), [], [])
  }

  lemma {:induction false} RunAppend(s: Setup, net: Net, events: seq<Event>, e: Event)
    requires |net.caches| == |s.tokens|
    ensures Run(s, net, events + [e]) == Step(s, Run(s, net, events), e)
  {
    assert (events + [e])[..|events|] == events;
  }

  // Where a data request without a message id goes on, and what is then saved there.
  lemma RequestPassed(s: Setup, net: Net, d: nat, p: Packet, isLocal: bool, path: seq<nat>, start: nat)
    requires d < |net.caches| == |s.tokens| && p.kind.DataReq? && !p.ackReq
    requires p.hops + 1 < p.maxHops <= 255
    requires net.caches[d].acked == {} && s.hashes.ofPayload(p.token, p.body) !in net.caches[d].saved
    ensures var net' := Take(s, net, d, p, isLocal, path, start);
            var sent := Counted(p, isLocal).(token := s.tokens[d]);
            && net'.copies == net.copies + [Copy(sent, path + [d], start, false)]
            && net'.caches == net.caches[d := EMPTY.(saved := net.caches[d].saved
                                                              + {s.hashes.ofPayload(s.tokens[d], p.body)},
                                                     passed := net.caches[d].passed)]
  {
    assert MessageId(s.hashes, Counted(p, isLocal)) == MessageId(s.hashes, p);
  }

  /** Data requests without a message id are not loop-free: two daemons whose tokens lead to
      different ids send one back and forth, because each saves it under the id it has after
      the token is replaced. */
  lemma DataRequestsLoop(s: Setup, p: Packet, a: nat, b: nat)
    requires a < |s.tokens| && b < |s.tokens| && p.kind.DataReq? && !p.ackReq
    requires p.hops == 0 && 3 <= p.maxHops <= 255
    requires s.hashes.ofPayload(s.tokens[a], p.body) != s.hashes.ofPayload(s.tokens[b], p.body)
    ensures var net := Run(s, EmptyNet(s), [Inject(a, p), Deliver(b, 0), Deliver(a, 1)]);
            |net.copies| == 3 && net.copies[2].path == [a, b, a] && !net.copies[2].reply
  {
    var net := EmptyNet(s);
    var one := Step(s, net, Inject(a, p));
    RequestPassed(s, net, a, p, true, [], 0);
    var two := Step(s, one, Deliver(b, 0));
    RequestPassed(s, one, b, one.copies[0].packet, false, one.copies[0].path, 0);
    var three := Step(s, two, Deliver(a, 1));
    RequestPassed(s, two, a, two.copies[1].packet, false, two.copies[1].path, 0);
    RunOfThree(s, net, Inject(a, p), Deliver(b, 0), Deliver(a, 1));
    assert [] + [a] + [b] + [a] == [a, b, a];
  }

  lemma RunOfThree(s: Setup, net: Net, a: Event, b: Event, c: Event)
    requires |net.caches| == |s.tokens|
    ensures Run(s, net, [a, b, c]) == Step(s, Step(s, Step(s, net, a), b), c)
  {
    assert [a] == [] + [a] && [a, b] == [a] + [b] && [a, b, c] == [a, b] + [c];
    RunAppend(s, net, [], a);
    RunAppend(s, net, [a], b);
    RunAppend(s, net, [a, b], c);
  }

  // A daemon that knows nothing keeps a message whose hops are used up, and sends it in reply.
  lemma KeptThenReplied(s: Setup, net: Net, d: nat, k: nat)
    requires |net.caches| == |s.tokens| && d < |net.caches| && net.caches[d] == EMPTY && k < |net.copies|
    requires var p := net.copies[k].packet;
             && p.kind.Plain? && !p.doNotCache && MessageId(s.hashes, p).Some?
             && p.hops <= p.maxHops < 255 && p.maxHops <= p.hops + 1
    ensures var c := net.copies[k];
            var reply := Copy(c.packet.(hops := c.packet.hops + 1), c.path + [d], c.start, true);
            var after := Step(s, net, Deliver(d, k));
            && after.copies == net.copies && after.kept == net.kept + [reply]
            && (forall i :: 0 <= i < |net.caches| && i != d ==> after.caches[i] == net.caches[i])
            && Step(s, after, Reply(|net.kept|)) == after.(copies := net.copies + [reply])
  {
    var p := net.copies[k].packet;
    assert MessageId(s.hashes, p.(hops := p.hops + 1)) == MessageId(s.hashes, p);
  }

  /** The two links more are possible: each of the last two daemons sends the message from its
      cache only. */
  lemma RepliesGoTwoFurther(s: Setup, p: Packet)
    requires |s.tokens| == 3 && p.kind.Plain? && !p.doNotCache && MessageId(s.hashes, p).Some?
    requires p.hops == 0 && p.maxHops == 1
    ensures var net := Run(s, EmptyNet(s), [Inject(0, p), Deliver(1, 0), Reply(1), Deliver(2, 1), Reply(2)]);
            |net.copies| == 3 && |net.copies[2].path| == p.maxHops - p.hops + 2
  {
    var e := [Inject(0, p), Deliver(1, 0), Reply(1), Deliver(2, 1), Reply(2)];
    var one := Step(s, EmptyNet(s), e[0]);
    InjectedFirst(s, p);
    KeptThenReplied(s, one, 1, 0);
    var three := Step(s, Step(s, one, e[1]), e[2]);
    KeptThenReplied(s, three, 2, 1);
    RunOfFive(s, EmptyNet(s), e[0], e[1], e[2], e[3], e[4]);
  }

  lemma InjectedFirst(s: Setup, p: Packet)
    requires |s.tokens| > 0 && p.kind.Plain? && !p.doNotCache && MessageId(s.hashes, p).Some?
    requires p.hops == 0 && p.maxHops == 1
    ensures var one := Step(s, EmptyNet(s), Inject(0, p));
            && |one.copies| == |one.kept| == 1 && one.copies[0].packet == p && |one.copies[0].path| == 1
            && forall i :: 0 < i < |s.tokens| ==> one.caches[i] == EMPTY
  {}

  lemma RunOfFive(s: Setup, net: Net, a: Event, b: Event, c: Event, d: Event, e: Event)
    requires |net.caches| == |s.tokens|
    ensures Run(s, net, [a, b, c, d, e]) == Step(s, Step(s, Step(s, Step(s, Step(s, net, a), b), c), d), e)
  {
    assert [a, b, c, d] == [a, b, c] + [d] && [a, b, c, d, e] == [a, b, c, d] + [e];
    RunOfThree(s, net, a, b, c);
    RunAppend(s, net, [a, b, c], d);
    RunAppend(s, net, [a, b, c, d], e);
  }

  function FirstDaemons(n: nat): (path: seq<nat>)
    ensures |path| == n && forall i :: 0 <= i < n ==> path[i] == i
  {
    seq(n, i => i)
  }

  // The message went through the first d daemons; the last of them keeps it, the others know
  // nothing.
  predicate Passed(s: Setup, net: Net, p: Packet, d: nat) {
    && |net.caches| == |s.tokens| && 0 < d <= |s.tokens| && |net.kept| == d && |net.copies| == d - 1
    && net.kept[d - 1] == Copy(p, FirstDaemons(d), 255, true)
    && StillSaved(s, net, net.kept[d - 1])
    && forall i :: d <= i < |s.tokens| ==> net.caches[i] == EMPTY
  }

  lemma PassedOn(s: Setup, net: Net, p: Packet, d: nat)
    requires p.kind.Plain? && p.hops == p.maxHops == 255 && !p.doNotCache && MessageId(s.hashes, p).Some?
    requires d < |s.tokens| && Passed(s, net, p, d)
    ensures Passed(s, Step(s, Step(s, net, Reply(d - 1)), Deliver(d, d - 1)), p, d + 1)
  {
    var one := Step(s, net, Reply(d - 1));
    assert one.copies[d - 1] == net.kept[d - 1];
    assert FirstDaemons(d) + [d] == FirstDaemons(d + 1);
    assert !MaySend(p);
  }

  /** With a maximum of 255 hops the count stops at 255 and replies are not bounded by it: a
      message can cross as many links as there are daemons. */
  lemma {:induction false} RepliesGoOnAt255(s: Setup, p: Packet, d: nat) returns (events: seq<Event>)
    requires p.kind.Plain? && p.hops == p.maxHops == 255 && !p.doNotCache && MessageId(s.hashes, p).Some?
    requires 0 < d <= |s.tokens|
    ensures var net := Run(s, EmptyNet(s), events);
            && Passed(s, net, p, d)
            && Step(s, net, Reply(d - 1)).copies == net.copies + [Copy(p, FirstDaemons(d), 255, true)]
  {
    if d == 1 {
      events := [Inject(0, p)];
      var none: seq<nat> := [];
      assert none + [0] == FirstDaemons(1);
      LocalAlwaysForwarded(s.hashes, s.tokens[0], EMPTY, p);
      RunAppend(s, EmptyNet(s), [], Inject(0, p));
      assert [Inject(0, p)] == [] + [Inject(0, p)];
    } else {
      var before := RepliesGoOnAt255(s, p, d - 1);
      PassedOn(s, Run(s, EmptyNet(s), before), p, d - 1);
      events := before + [Reply(d - 2)] + [Deliver(d - 1, d - 2)];
      RunAppend(s, EmptyNet(s), before, Reply(d - 2));
      RunAppend(s, EmptyNet(s), before + [Reply(d - 2)], Deliver(d - 1, d - 2));
    }
  }
}
