/** ad.c: what one daemon does with each packet it receives. The packet cache (pcache) is taken
    to keep every id and every ack it was ever given. */
module Daemon {
  import opened Common

  // Message ids, acks and tokens are 16-byte strings; here they are numbers.
  type Id = nat

  // Plain stands for data, clear text and the two key types, which are processed alike.
  datatype Kind = Plain | Ack | DataReq | Mgmt

  datatype Packet = Packet(
    kind: Kind,
    hops: nat,
    maxHops: nat,
    ackReq: bool,         // the header carries a message id
    messageId: Id,        // that id
    doNotCache: bool,
    token: Id,            // the first 16 bytes of a data request
    body: seq<nat>,       // the rest of the payload
    acks: seq<Id>)        // the payload of an ack packet

  /** What the daemons share: how ids are computed from payloads and from acks. */
  datatype Hashes = Hashes(ofPayload: (Id, seq<nat>) -> Id, ofAck: Id -> Id)

  datatype Cache = Cache(
    saved: set<Id>,       // ids of messages saved or recorded
    acked: set<Id>,       // ids for which an ack is known
    passed: set<Id>)      // acks already handed to the token of this daemon

  /** pcache_message_id: none when there is nothing after the header. */
  function MessageId(h: Hashes, p: Packet): Option<Id> {
    if p.body == [] && !p.kind.DataReq? then None
    else if p.ackReq then Some(p.messageId)
    else Some(h.ofPayload(if p.kind.DataReq? then p.token else 0, p.body))
  }

  function AckIds(h: Hashes, acks: seq<Id>): set<Id> {
    set a | a in acks :: h.ofAck(a)
  }

  /** pcache_acks_for_token: the acks not handed to our token before, each once, in order. */
  function NewAcks<A(==)>(passed: set<A>, acks: seq<A>): (newOnes: seq<A>)
    ensures |newOnes| <= |acks|
  {
    if acks == [] then [] else
      var last := acks[|acks| - 1];
      var before := NewAcks(passed, acks[..|acks| - 1]);
      if last in passed || last in acks[..|acks| - 1] then before else before + [last]
  }

  function AckSet<A(==)>(acks: seq<A>): set<A> {
    set a | a in acks
  }

  /** process_acks, on the acks themselves. */
  function ProcessAcks(h: Hashes, c: Cache, p: Packet): (Cache, Option<Packet>) {
    var ids := AckIds(h, p.acks);
    var c' := Cache(c.saved - ids, c.acked + ids, c.passed + AckSet(p.acks));
    var newOnes := NewAcks(c.passed, p.acks);
    (c', if newOnes == [] then None else Some(p.(acks := newOnes)))
  }

  /** A data request goes on with our own token in place of the one it came with. */
  function Rewritten(p: Packet, ownToken: Id): Packet {
    if p.kind.DataReq? then p.(token := ownToken) else p
  }

  /** process_message; None means that the packet is dropped. */
  function ProcessMessage(h: Hashes, ownToken: Id, c: Cache, p: Packet, isLocal: bool): (Cache, Option<Packet>) {
    if p.kind.Ack? then ProcessAcks(h, c, p)
    else
      match MessageId(h, p)
      case None => (c, None)
      case Some(id) =>
        var seen := id in c.acked || id in c.saved;
        if !isLocal && seen then (c, None)
        else
          var p' := Rewritten(p, ownToken);
          var c' := if seen then c else c.(saved := c.saved + {MessageId(h, p').value});
          (c', Some(p'))
  }

  /** The hop count is increased before processing, except for packets from this host. */
  function Counted(p: Packet, isLocal: bool): Packet {
    if p.hops < 255 && !isLocal then p.(hops := p.hops + 1) else p
  }

  /** is_valid_message, as far as hop counts go. */
  predicate ValidHops(p: Packet) {
    p.hops <= p.maxHops <= 255
  }

  /** One turn of allnet_daemon_loop for a packet that is not a management packet. */
  function Receive(h: Hashes, ownToken: Id, c: Cache, p: Packet, isLocal: bool): (Cache, Option<Packet>) {
    if !ValidHops(p) || p.kind.Mgmt? then (c, None)
    else ProcessMessage(h, ownToken, c, Counted(p, isLocal), isLocal)
  }

  /** The guard of send_out. */
  predicate MaySend(p: Packet) {
    p.maxHops > 0 && p.hops < 255 && p.hops < p.maxHops
  }

  /** What pcache_save_packet stores: the packet that goes on, unless it was seen before or must
      not be cached. */
  function Stored(h: Hashes, ownToken: Id, c: Cache, p: Packet, isLocal: bool): Option<Packet> {
    var (c', out) := Receive(h, ownToken, c, p, isLocal);
    if out.Some? && !p.kind.Ack? && !p.doNotCache && c' != c then out else None
  }

  /** What reaches the other daemons: the packet, if it passes the guard of send_out. */
  function SentOut(out: Option<Packet>): Option<Packet> {
    if out.Some? && MaySend(out.value) then out else None
  }

  // ---------- the code ----------

  class DaemonState {
    const hashes: Hashes
    const ownToken: Id
    var saved: set<Id>
    var acked: set<Id>
    var passed: set<Id>

    constructor (hashes: Hashes, ownToken: Id)
      ensures this.hashes == hashes && this.ownToken == ownToken
      ensures TheCache() == Cache({}, {}, {})
    {
      this.hashes, this.ownToken := hashes, ownToken;
      saved, acked, passed := {}, {}, {};
    }

    function TheCache(): Cache
      reads this
    {
      Cache(saved, acked, passed)
    }

    // pcache_save_acks: each ack is recorded, and the message that it acknowledges deleted.
    method SaveAcks(acks: seq<Id>)
      modifies this`saved, this`acked
      ensures saved == old(saved) - AckIds(hashes, acks)
      ensures acked == old(acked) + AckIds(hashes, acks)
    {
      for i := 0 to |acks|
        invariant saved == old(saved) - AckIds(hashes, acks[..i])
        invariant acked == old(acked) + AckIds(hashes, acks[..i])
      {
        AckIdsAppend(hashes, acks[..i], acks[i]);
        assert acks[..i + 1] == acks[..i] + [acks[i]];
        acked := acked + {hashes.ofAck(acks[i])};
        saved := saved - {hashes.ofAck(acks[i])};
      }
      assert acks[..|acks|] == acks;
    }

    // pcache_acks_for_token, with pcache_ack_for_token as the test and the mark.
    method AcksForToken(acks: seq<Id>) returns (newOnes: seq<Id>)
      modifies this`passed
      ensures newOnes == NewAcks(old(passed), acks)
      ensures passed == old(passed) + AckSet(acks)
    {
      newOnes := [];
      for i := 0 to |acks|
        invariant newOnes == NewAcks(old(passed), acks[..i])
        invariant passed == old(passed) + AckSet(acks[..i])
      {
        assert acks[..i + 1][..i] == acks[..i];
        assert AckSet(acks[..i + 1]) == AckSet(acks[..i]) + {acks[i]};
        if acks[i] !in passed {
          passed := passed + {acks[i]};
          newOnes := newOnes + [acks[i]];
        }
      }
      assert acks[..|acks|] == acks;
    }

    /** allnet_daemon_loop, from the validity check to the decision what to send. */
    method Process(p: Packet, isLocal: bool) returns (out: Option<Packet>)
      modifies this
      ensures (TheCache(), out) == Receive(hashes, ownToken, old(TheCache()), p, isLocal)
    {
      if !ValidHops(p) || p.kind.Mgmt? {
        return None;
      }
      var q := p;
      if q.hops < 255 && !isLocal {
        q := q.(hops := q.hops + 1);
      }
      if q.kind.Ack? {
        SaveAcks(q.acks);
        var newOnes := AcksForToken(q.acks);
        if |newOnes| <= 0 {
          return None;
        }
        return Some(q.(acks := newOnes));
      }
      var id := MessageId(hashes, q);
      if id.None? {
        return None;
      }
      var seenBefore := id.value in acked || id.value in saved;
      if !isLocal && seenBefore {
        return None;
      }
      if q.kind.DataReq? {
        q := q.(token := ownToken);
      }
      if !seenBefore {
        saved := saved + {MessageId(hashes, q).value};
      }
      return Some(q);
    }
  }

  lemma AckIdsAppend(h: Hashes, acks: seq<Id>, a: Id)
    ensures AckIds(h, acks + [a]) == AckIds(h, acks) + {h.ofAck(a)}
  {
    forall id | id in AckIds(h, acks) ensures id in AckIds(h, acks + [a]) {
      var x :| x in acks && h.ofAck(x) == id;
      assert x in acks + [a];
    }
    assert a in acks + [a];
  }

  // ---------- what the cache remembers ----------

  /** Ids whose messages are not relayed again when they come from outside. */
  function Handled(c: Cache): set<Id> {
    c.saved + c.acked
  }

  /** Nothing that was handled becomes unhandled, and no ack becomes new again. */
  lemma HandledGrows(h: Hashes, ownToken: Id, c: Cache, p: Packet, isLocal: bool)
    ensures var c' := Receive(h, ownToken, c, p, isLocal).0;
            Handled(c) <= Handled(c') && c.passed <= c'.passed
  {}

  /** A message from outside that is not an ack goes on exactly when it is well formed and its
      id was not handled before. Then the id it goes on under is handled, and nothing else
      changes; otherwise nothing changes at all. */
  lemma ForwardedIffNew(h: Hashes, ownToken: Id, c: Cache, p: Packet)
    requires !p.kind.Ack?
    ensures var (c', out) := Receive(h, ownToken, c, p, false);
            && (out.Some? <==>
                  ValidHops(p) && !p.kind.Mgmt? && MessageId(h, p).Some? && MessageId(h, p).value !in Handled(c))
            && (out.None? ==> c' == c)
            && (out.Some? ==>
                  && MessageId(h, out.value).Some?
                  && Handled(c') == Handled(c) + {MessageId(h, out.value).value}
                  && c'.acked == c.acked && c'.passed == c.passed)
  {
    assert MessageId(h, Counted(p, false)) == MessageId(h, p);
  }

  /** The same by what the packet carries: its message id, or else the hash of its payload, which
      in a data request begins with the token. What goes on is the packet with one hop more and, in a
      data request, our token, and is saved as such. */
  lemma ForwardedByContent(h: Hashes, ownToken: Id, c: Cache, p: Packet)
    requires p.kind.Plain? || p.kind.DataReq?
    ensures var id := if p.ackReq then p.messageId
                      else h.ofPayload(if p.kind.DataReq? then p.token else 0, p.body);
            var newId := if p.ackReq then p.messageId
                         else h.ofPayload(if p.kind.DataReq? then ownToken else 0, p.body);
            var (c', out) := Receive(h, ownToken, c, p, false);
            if p.hops <= p.maxHops <= 255 && (p.body != [] || p.kind.DataReq?) && id !in c.saved && id !in c.acked
            then
              && out == Some(p.(hops := if p.hops < 255 then p.hops + 1 else p.hops,
                                token := if p.kind.DataReq? then ownToken else p.token))
              && c' == c.(saved := c.saved + {newId})
            else out == None && c' == c
  {}

  /** A packet of a local program goes on as it is but for the token, whether it was seen before or
      not; only when it was not is it saved. */
  lemma LocalByContent(h: Hashes, ownToken: Id, c: Cache, p: Packet)
    requires p.kind.Plain? || p.kind.DataReq?
    ensures var id := if p.ackReq then p.messageId
                      else h.ofPayload(if p.kind.DataReq? then p.token else 0, p.body);
            var newId := if p.ackReq then p.messageId
                         else h.ofPayload(if p.kind.DataReq? then ownToken else 0, p.body);
            var (c', out) := Receive(h, ownToken, c, p, true);
            if p.hops <= p.maxHops <= 255 && (p.body != [] || p.kind.DataReq?) then
              && out == Some(p.(token := if p.kind.DataReq? then ownToken else p.token))
              && c' == if id in c.saved || id in c.acked then c else c.(saved := c.saved + {newId})
            else out == None && c' == c
  {}

  /** Different messages do not hide each other: from any cache, two plain messages without
      message ids whose payloads have different, unhandled hashes both go on. */
  lemma DifferentMessagesGoOn(h: Hashes, ownToken: Id, c: Cache, p: Packet, q: Packet)
    requires p.kind.Plain? && q.kind.Plain? && !p.ackReq && !q.ackReq && p.body != [] && q.body != []
    requires p.hops <= p.maxHops <= 255 && q.hops <= q.maxHops <= 255
    requires h.ofPayload(0, p.body) != h.ofPayload(0, q.body)
    requires h.ofPayload(0, p.body) !in c.saved + c.acked && h.ofPayload(0, q.body) !in c.saved + c.acked
    ensures var (c1, first) := Receive(h, ownToken, c, p, false);
            var (c2, second) := Receive(h, ownToken, c1, q, false);
            && first.Some? && second.Some? && first.value.body == p.body && second.value.body == q.body
            && c2.saved == c.saved + {h.ofPayload(0, p.body), h.ofPayload(0, q.body)}
  {
    ForwardedByContent(h, ownToken, c, p);
    ForwardedByContent(h, ownToken, Receive(h, ownToken, c, p, false).0, q);
  }

  // What a local program sends always goes on when it is well formed, and is handled then.
  lemma LocalAlwaysForwarded(h: Hashes, ownToken: Id, c: Cache, p: Packet)
    requires !p.kind.Ack?
    ensures var (c', out) := Receive(h, ownToken, c, p, true);
            && (out.Some? <==> ValidHops(p) && !p.kind.Mgmt? && MessageId(h, p).Some?)
            && (out.Some? && KeepsId(h, ownToken, p) ==> Handled(c') == Handled(c) + {MessageId(h, p).value})
  {}

  // A relayed packet is the received one with its hop count increased, and for a data request
  // our own token.
  lemma RelayedPacket(h: Hashes, ownToken: Id, c: Cache, p: Packet, isLocal: bool)
    requires !p.kind.Ack?
    ensures var out := Receive(h, ownToken, c, p, isLocal).1;
            out.Some? ==> out.value == Rewritten(Counted(p, isLocal), ownToken)
  {}

  /** The packet has the same id before and after its token is replaced. */
  predicate KeepsId(h: Hashes, ownToken: Id, p: Packet) {
    !p.kind.DataReq? || p.ackReq || h.ofPayload(ownToken, p.body) == h.ofPayload(p.token, p.body)
  }

  /** A second copy of a packet that was not handled before is dropped exactly when the packet
      is saved under the id it arrived with. */
  lemma SecondCopyDropped(h: Hashes, ownToken: Id, c: Cache, p: Packet)
    requires !p.kind.Ack? && Receive(h, ownToken, c, p, false).1.Some?
    ensures var c' := Receive(h, ownToken, c, p, false).0;
            Receive(h, ownToken, c', p, false).1.None? <==> KeepsId(h, ownToken, p)
  {
    var q := Counted(p, false);
    assert MessageId(h, q) == MessageId(h, p);
    var c' := Receive(h, ownToken, c, p, false).0;
    assert c'.saved == c.saved + {MessageId(h, Rewritten(q, ownToken)).value};
  }

  // ---------- acks ----------

  /** The acks that go on are the new ones, each of them once. */
  lemma {:induction false} NewAcksAre<A>(passed: set<A>, acks: seq<A>)
    ensures AckSet(NewAcks(passed, acks)) == AckSet(acks) - passed
    ensures forall i, j :: 0 <= i < j < |NewAcks(passed, acks)| ==>
              NewAcks(passed, acks)[i] != NewAcks(passed, acks)[j]
  {
    if acks != [] {
      var n := |acks| - 1;
      NewAcksAre(passed, acks[..n]);
      assert acks == acks[..n] + [acks[n]];
      var before := NewAcks(passed, acks[..n]);
      assert forall a :: a in before <==> a in AckSet(before);
      assert forall a :: a in AckSet(acks) <==> a in AckSet(acks[..n]) || a == acks[n];
      if acks[n] !in acks[..n] {
        assert acks[n] !in AckSet(before);
        assert forall i :: 0 <= i < |before| ==> before[i] in AckSet(before);
      }
    }
  }

  /** They keep their order. */
  lemma {:induction false} NewAcksInOrder<A>(passed: set<A>, acks: seq<A>) returns (at: seq<nat>)
    ensures |at| == |NewAcks(passed, acks)|
    ensures forall i :: 0 <= i < |at| ==> at[i] < |acks| && acks[at[i]] == NewAcks(passed, acks)[i]
    ensures forall i, j :: 0 <= i < j < |at| ==> at[i] < at[j]
  {
    if acks == [] {
      at := [];
    } else {
      var n := |acks| - 1;
      at := NewAcksInOrder(passed, acks[..n]);
      if !(acks[n] in passed || acks[n] in acks[..n]) {
        at := at + [n];
      }
    }
  }

  /** The acks of a packet that goes on were never handed on before, and all acks of the packet
      received are from then on. */
  lemma AcksGoOnWhenNew(h: Hashes, ownToken: Id, c: Cache, p: Packet, isLocal: bool)
    requires p.kind.Ack? && ValidHops(p)
    ensures var (c', out) := Receive(h, ownToken, c, p, isLocal);
            && c'.passed == c.passed + AckSet(p.acks)
            && (out.None? <==> AckSet(p.acks) <= c.passed)
            && (out.Some? ==> AckSet(out.value.acks) == AckSet(p.acks) - c.passed)
  {
    NewAcksAre(c.passed, p.acks);
    var newOnes := NewAcks(c.passed, p.acks);
    if newOnes == [] {
      assert AckSet(p.acks) - c.passed == {};
      assert forall a :: a in AckSet(p.acks) ==> a in c.passed || a in AckSet(p.acks) - c.passed;
    } else {
      assert newOnes[0] in AckSet(newOnes);
    }
  }

  // ---------- runs of one daemon ----------

  /** Packets arrive in any order and number; the rest of the daemon (management traffic) may
      save further ids in between. */
  datatype Event = Arrival(packet: Packet, isLocal: bool) | Saves(ids: set<Id>)

  function StepOf(h: Hashes, ownToken: Id, c: Cache, e: Event): (Cache, Option<Packet>) {
    match e
    case Arrival(p, isLocal) => Receive(h, ownToken, c, p, isLocal)
    case Saves(ids) => (c.(saved := c.saved + ids), None)
  }

  function CacheAfter(h: Hashes, ownToken: Id, c: Cache, events: seq<Event>, n: nat): Cache
    requires n <= |events|
  {
    if n == 0 then c else StepOf(h, ownToken, CacheAfter(h, ownToken, c, events, n - 1), events[n - 1]).0
  }

  /** What the i-th event makes the daemon send. */
  function OutputOf(h: Hashes, ownToken: Id, c: Cache, events: seq<Event>, i: nat): Option<Packet>
    requires i < |events|
  {
    StepOf(h, ownToken, CacheAfter(h, ownToken, c, events, i), events[i]).1
  }

  lemma {:induction false} HandledAlongRun(h: Hashes, ownToken: Id, c: Cache, events: seq<Event>, m: nat, n: nat)
    requires m <= n <= |events|
    ensures Handled(CacheAfter(h, ownToken, c, events, m)) <= Handled(CacheAfter(h, ownToken, c, events, n))
    ensures CacheAfter(h, ownToken, c, events, m).passed <= CacheAfter(h, ownToken, c, events, n).passed
  {
    if m < n {
      HandledAlongRun(h, ownToken, c, events, m, n - 1);
      var before := CacheAfter(h, ownToken, c, events, n - 1);
      match events[n - 1]
      case Arrival(p, isLocal) => HandledGrows(h, ownToken, before, p, isLocal);
      case Saves(ids) =>
    }
  }

  /** Once its id is handled, for whatever reason, a message from outside is dropped for ever. */
  lemma HandledIsDropped(h: Hashes, ownToken: Id, c: Cache, events: seq<Event>, m: nat, j: nat)
    requires m <= j < |events|
    requires events[j].Arrival? && !events[j].isLocal && !events[j].packet.kind.Ack?
    requires var id := MessageId(h, events[j].packet);
             id.Some? && id.value in Handled(CacheAfter(h, ownToken, c, events, m))
    ensures OutputOf(h, ownToken, c, events, j).None?
  {
    HandledAlongRun(h, ownToken, c, events, m, j);
    ForwardedIffNew(h, ownToken, CacheAfter(h, ownToken, c, events, j), events[j].packet);
  }

  /** Over any run from any cache, a message or data request that keeps its id and has gone on
      once is dropped whenever it comes from outside later: relayed from outside at most once,
      and never after the daemon sent it for a local program. By SecondCopyDropped this fails
      for every data request that does not keep its id. */
  lemma RelayedAtMostOnce(h: Hashes, ownToken: Id, c: Cache, events: seq<Event>, i: nat, j: nat)
    requires i < j < |events|
    requires events[i].Arrival? && !events[i].packet.kind.Ack? && KeepsId(h, ownToken, events[i].packet)
    requires events[j].Arrival? && !events[j].packet.kind.Ack? && !events[j].isLocal
    requires MessageId(h, events[i].packet) == MessageId(h, events[j].packet)
    requires OutputOf(h, ownToken, c, events, i).Some?
    ensures OutputOf(h, ownToken, c, events, j).None?
  {
    var before, p := CacheAfter(h, ownToken, c, events, i), events[i].packet;
    assert MessageId(h, Counted(p, events[i].isLocal)) == MessageId(h, p);
    assert MessageId(h, p).value in Handled(CacheAfter(h, ownToken, c, events, i + 1));
    HandledIsDropped(h, ownToken, c, events, i + 1, j);
  }

  /** A message is also dropped when an ack for it arrived earlier. */
  lemma NotRelayedOnceAcked(h: Hashes, ownToken: Id, c: Cache, events: seq<Event>, i: nat, j: nat, a: Id)
    requires i < j < |events|
    requires events[i].Arrival? && events[i].packet.kind.Ack? && ValidHops(events[i].packet)
    requires a in events[i].packet.acks
    requires events[j].Arrival? && !events[j].packet.kind.Ack? && !events[j].isLocal
    requires MessageId(h, events[j].packet) == Some(h.ofAck(a))
    ensures OutputOf(h, ownToken, c, events, j).None?
  {
    assert h.ofAck(a) in AckIds(h, events[i].packet.acks);
    assert h.ofAck(a) in Handled(CacheAfter(h, ownToken, c, events, i + 1));
    HandledIsDropped(h, ownToken, c, events, i + 1, j);
  }

  /** Over any run each ack goes on at most once, whether it came from outside or not. */
  lemma AckPassedAtMostOnce(h: Hashes, ownToken: Id, c: Cache, events: seq<Event>, i: nat, j: nat, a: Id)
    requires i < j < |events|
    requires events[i].Arrival? && events[i].packet.kind.Ack?
    requires events[j].Arrival? && events[j].packet.kind.Ack?
    requires var out := OutputOf(h, ownToken, c, events, i); out.Some? && a in out.value.acks
    ensures var out := OutputOf(h, ownToken, c, events, j); out.None? || a !in out.value.acks
  {
    var before, later := CacheAfter(h, ownToken, c, events, i), CacheAfter(h, ownToken, c, events, j);
    AcksGoOnWhenNew(h, ownToken, before, events[i].packet, events[i].isLocal);
    var first := OutputOf(h, ownToken, c, events, i).value;
    assert a in AckSet(first.acks);
    HandledAlongRun(h, ownToken, c, events, i + 1, j);
    assert a in later.passed;
    if ValidHops(events[j].packet) {
      AcksGoOnWhenNew(h, ownToken, later, events[j].packet, events[j].isLocal);
      var out := OutputOf(h, ownToken, c, events, j);
      assert out.Some? ==> a !in AckSet(out.value.acks);
    }
  }
}
