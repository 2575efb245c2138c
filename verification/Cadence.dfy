/** ad.c: the counter of send_out that spaces keepalives, and the virtual clock. */
module Cadence {

  const SEND_LIMIT_DEFAULT: nat := 99
  const SEND_KEEPALIVES_EVERY: nat := SEND_LIMIT_DEFAULT / 5
  const VIRTUAL_CLOCK_SECONDS: int := 10

  /** How many of the sends carried keepalives. */
  function Rounds(sends: seq<bool>): nat {
    if sends == [] then 0 else Rounds(sends[..|sends| - 1]) + if sends[|sends| - 1] then 1 else 0
  }

  /** The n-th send carries keepalives iff n is 1 modulo 20. */
  predicate EveryTwentieth(sends: seq<bool>) {
    forall i :: 0 <= i < |sends| ==> (sends[i] <==> i % 20 == 0)
  }

  /** How often the clock ticks on the given readings, from a last update at last. */
  function LastTick(readings: seq<int>): int {
    if readings == [] then 0 else
      var last := LastTick(readings[..|readings| - 1]);
      var now := readings[|readings| - 1];
      if last + VIRTUAL_CLOCK_SECONDS < now then now else last
  }

  /** The readings at which the clock ticked, in order. */
  function Ticks(readings: seq<int>): seq<int> {
    if readings == [] then [] else
      var n := |readings| - 1;
      Ticks(readings[..n])
      + if LastTick(readings[..n]) + VIRTUAL_CLOCK_SECONDS < readings[n] then [readings[n]] else []
  }

  class Pacer {
    var sentCount: nat
    var virtualClock: nat
    var lastUpdate: int
    ghost var sends: seq<bool>   // the results of all calls of CountSend
    ghost var readings: seq<int>

    ghost predicate Valid()
      reads this
    {
      && sentCount <= SEND_KEEPALIVES_EVERY
      && sentCount == (if |sends| % 20 == 0 then SEND_KEEPALIVES_EVERY else |sends| % 20 - 1)
      && EveryTwentieth(sends)
      && virtualClock == 1 + |Ticks(readings)|
      && lastUpdate == LastTick(readings)
    }

    constructor ()
      ensures Valid() && sends == [] && readings == [] && virtualClock == 1
    {
      sentCount, virtualClock, lastUpdate := SEND_KEEPALIVES_EVERY, 1, 0;
      sends, readings := [], [];
    }

    /** The counter of send_out: the n-th send carries keepalives iff n is 1 modulo 20. */
    method CountSend() returns (sendKeepalives: bool)
      requires Valid()
      modifies this
      ensures Valid() && sends == old(sends) + [sendKeepalives]
      ensures virtualClock == old(virtualClock) && readings == old(readings)
      ensures sendKeepalives <==> |sends| % 20 == 1
    {
      sendKeepalives := false;
      var count := sentCount;
      sentCount := sentCount + 1;
      if count >= SEND_KEEPALIVES_EVERY {
        sentCount := 0;
        sendKeepalives := true;
      }
      sends := sends + [sendKeepalives];
    }

    /** update_virtual_clock: the clock is 1 plus the number of its ticks, whatever the time of
        day does. */
    method UpdateVirtualClock(now: int) returns (ticked: bool)
      requires Valid()
      modifies this
      ensures Valid() && readings == old(readings) + [now] && sends == old(sends)
      ensures virtualClock == 1 + |Ticks(readings)|
      ensures ticked <==> virtualClock != old(virtualClock)
      ensures virtualClock == if ticked then old(virtualClock) + 1 else old(virtualClock)
    {
      ghost var longer := readings + [now];
      assert longer[..|longer| - 1] == readings;
      ticked := lastUpdate + 10 < now;
      if ticked {
        virtualClock := virtualClock + 1;
        lastUpdate := now;
      }
      readings := longer;
    }
  }

  /** Of the results of any run of sends, any SEND_LIMIT_DEFAULT consecutive ones have 4 or 5
      rounds of keepalives. */
  lemma RoundsPerSendLimit(pacer: Pacer, from: nat)
    requires pacer.Valid() && from + SEND_LIMIT_DEFAULT <= |pacer.sends|
    ensures 4 <= Rounds(pacer.sends[from..from + SEND_LIMIT_DEFAULT]) <= 5
  {
    RoundsClosedForm(pacer.sends, from, SEND_LIMIT_DEFAULT);
  }

  lemma {:induction false} RoundsClosedForm(sends: seq<bool>, from: nat, n: nat)
    requires EveryTwentieth(sends) && from + n <= |sends|
    ensures Rounds(sends[from..from + n]) == (from + n + 19) / 20 - (from + 19) / 20
  {
    if n > 0 {
      RoundsClosedForm(sends, from, n - 1);
      assert sends[from..from + n][..n - 1] == sends[from..from + n - 1];
      assert sends[from..from + n][n - 1] == sends[from + n - 1];
    }
  }

  /** The clock ticks at a reading exactly when it is more than ten seconds after the last tick, or
      after 0 if there was none. */
  lemma TicksWhenDue(readings: seq<int>, now: int)
    ensures var ticks := Ticks(readings);
            var last := if ticks == [] then 0 else ticks[|ticks| - 1];
            Ticks(readings + [now]) == if now > last + 10 then ticks + [now] else ticks
  {
    TicksApart(readings);
    assert (readings + [now])[..|readings|] == readings;
  }

  predicate FarApart(ticks: seq<int>, i: nat)
    requires i < |ticks|
  {
    ticks[i] >= 11 + if i == 0 then 0 else ticks[i - 1]
  }

  /** Successive ticks are more than ten seconds apart, for arbitrary readings. */
  lemma {:induction false} TicksApart(readings: seq<int>)
    ensures forall i :: 0 <= i < |Ticks(readings)| ==> FarApart(Ticks(readings), i)
    ensures LastTick(readings) == if Ticks(readings) == [] then 0 else Ticks(readings)[|Ticks(readings)| - 1]
  {
    if readings != [] {
      var n := |readings| - 1;
      var ticks, before := Ticks(readings), Ticks(readings[..n]);
      TicksApart(readings[..n]);
      forall i | 0 <= i < |ticks| ensures FarApart(ticks, i) {
        if i < |before| {
          assert FarApart(before, i);
        }
      }
    }
  }
}
