/** track.c: the share of the bandwidth that a sender took over the last 128 packets. */
module Track {
  import opened Bytes
  import opened Common

  const SAVED_ADDRESSES: nat := 128
  const ADDRESS_SIZE: nat := 8
  const ALLNET_PRIORITY_MAX: nat := 0x4000_0000
  const DEFAULT_MAX: nat := ALLNET_PRIORITY_MAX - 1

  /** An address of which only the first bits count. */
  datatype Sender = Sender(address: seq<Byte>, bits: nat) {
    predicate Valid() {
      |address| == ADDRESS_SIZE && bits <= 8 * ADDRESS_SIZE
    }
  }

  datatype Packet = Packet(sender: Sender, size: nat)

  /** Two senders match when they agree on all bits that both of them give. */
  ghost predicate SameSender(a: Sender, b: Sender)
    requires a.Valid() && b.Valid()
  {
    forall i :: 0 <= i < a.bits && i < b.bits ==> BitAt(a.address, i) == BitAt(b.address, i)
  }

  lemma SamePrefixOfBoth(a: Sender, b: Sender, nbits: nat)
    requires a.Valid() && b.Valid() && nbits == if a.bits > b.bits then b.bits else a.bits
    ensures SamePrefix(a.address, b.address, nbits) <==> SameSender(a, b)
  {
    SplitPrefix(a.address, b.address, nbits);
    assert SameSender(a, b) <==> PrefixAgree(a.address, b.address, nbits);
  }

  /** matches, in util.c */
  method Matches(x: Sender, y: Sender) returns (r: nat)
    requires x.Valid() && y.Valid()
    ensures r != 0 <==> forall i :: 0 <= i < x.bits && i < y.bits ==> BitAt(x.address, i) == BitAt(y.address, i)
    ensures r != 0 ==> r <= x.bits + 1 && r <= y.bits + 1 && (r == x.bits + 1 || r == y.bits + 1)
  {
    var nbits := x.bits;
    if nbits > y.bits {
      nbits := y.bits;
    }
    SamePrefixOfBoth(x, y, nbits);
    var bytes := nbits / 8;
    for i := 0 to bytes
      invariant x.address[..i] == y.address[..i]
    {
      if x.address[i] != y.address[i] {
        assert x.address[..bytes][i] != y.address[..bytes][i];
        return 0;
      }
      assert x.address[..i + 1] == x.address[..i] + [x.address[i]];
      assert y.address[..i + 1] == y.address[..i] + [y.address[i]];
    }
    if nbits % 8 == 0 {
      return nbits + 1;
    }
    var shift := 8 - nbits % 8;
    if ShiftRight(x.address[bytes], shift) == ShiftRight(y.address[bytes], shift) {
      return nbits + 1;
    }
    return 0;
  }

  // ---------- totals over packets ----------

  ghost predicate AllValid(ps: seq<Packet>) {
    forall i :: 0 <= i < |ps| ==> ps[i].sender.Valid()
  }

  ghost function Total(ps: seq<Packet>): nat {
    if ps == [] then 0 else Total(ps[..|ps| - 1]) + ps[|ps| - 1].size
  }

  /** The bytes of those packets whose sender matches source. */
  ghost function Matching(ps: seq<Packet>, source: Sender): nat
    requires source.Valid() && AllValid(ps)
  {
    if ps == [] then 0 else
      var last := ps[|ps| - 1];
      Matching(ps[..|ps| - 1], source) + if SameSender(source, last.sender) then last.size else 0
  }

  lemma {:induction false} TotalConcat(a: seq<Packet>, b: seq<Packet>)
    ensures Total(a + b) == Total(a) + Total(b)
  {
    if b == [] {
      assert a + b == a;
    } else {
      assert (a + b)[..|a + b| - 1] == a + b[..|b| - 1];
      TotalConcat(a, b[..|b| - 1]);
    }
  }

  lemma {:induction false} MatchingConcat(a: seq<Packet>, b: seq<Packet>, source: Sender)
    requires source.Valid() && AllValid(a) && AllValid(b)
    ensures Matching(a + b, source) == Matching(a, source) + Matching(b, source)
  {
    if b == [] {
      assert a + b == a;
    } else {
      assert (a + b)[..|a + b| - 1] == a + b[..|b| - 1];
      MatchingConcat(a, b[..|b| - 1], source);
    }
  }

  lemma {:induction false} MatchingAtMostTotal(ps: seq<Packet>, source: Sender)
    requires source.Valid() && AllValid(ps)
    ensures Matching(ps, source) <= Total(ps)
  {
    if ps != [] {
      MatchingAtMostTotal(ps[..|ps| - 1], source);
    }
  }

  // ---------- the window and the ring ----------

  /** The last 128 packets, or all of them. */
  function Window(history: seq<Packet>): (w: seq<Packet>)
    ensures |w| == if |history| < SAVED_ADDRESSES then |history| else SAVED_ADDRESSES
  {
    if |history| < SAVED_ADDRESSES then history else history[|history| - SAVED_ADDRESSES..]
  }

  const BLANK := Packet(Sender([0, 0, 0, 0, 0, 0, 0, 0], 0), 0)

  // The slots of the ring: slot i holds the last packet whose number is i modulo 128.
  function Ring(history: seq<Packet>): (ring: seq<Packet>)
    ensures |ring| == SAVED_ADDRESSES
    ensures forall i :: 0 <= i < SAVED_ADDRESSES ==> ring[i] == SlotOf(history, |history| % SAVED_ADDRESSES, i)
  {
    seq(SAVED_ADDRESSES, i requires 0 <= i < SAVED_ADDRESSES =>
      SlotOf(history, |history| % SAVED_ADDRESSES, i))
  }

  // c is the cursor: the slots before it belong to the current round, the others to the last.
  function SlotOf(history: seq<Packet>, c: nat, i: nat): Packet
    requires c < SAVED_ADDRESSES && i < SAVED_ADDRESSES && c <= |history|
    requires |history| < SAVED_ADDRESSES ==> c == |history|
  {
    var n := |history|;
    if i < c then history[n - c + i]
    else if n < SAVED_ADDRESSES then BLANK
    else history[n - SAVED_ADDRESSES + (i - c)]
  }

  lemma {:induction false} BlankTotals(k: nat, source: Sender)
    requires source.Valid()
    ensures var blanks := seq(k, _ => BLANK);
            AllValid(blanks) && Total(blanks) == 0 && Matching(blanks, source) == 0
  {
    if k > 0 {
      BlankTotals(k - 1, source);
      assert seq(k, _ => BLANK)[..k - 1] == seq(k - 1, _ => BLANK);
    }
  }

  lemma SplitTail(ps: seq<Packet>, i: nat, j: nat)
    requires i <= j <= |ps|
    ensures ps[i..] == ps[i..j] + ps[j..]
  {}

  // A ring that is not full yet, and one that is.
  lemma RingNotFull(history: seq<Packet>)
    requires |history| < SAVED_ADDRESSES
    ensures Ring(history) == history + seq(SAVED_ADDRESSES - |history|, _ => BLANK)
  {}

  lemma RingFull(history: seq<Packet>) returns (newer: seq<Packet>, older: seq<Packet>)
    requires |history| >= SAVED_ADDRESSES
    ensures Ring(history) == newer + older && Window(history) == older + newer
  {
    var n, c := |history|, |history| % SAVED_ADDRESSES;
    newer, older := history[n - c..], history[n - SAVED_ADDRESSES..n - c];
    SplitTail(history, n - SAVED_ADDRESSES, n - c);
    assert Ring(history) == newer + older;
  }

  /** The slots of the ring add up to what the window adds up to. */
  lemma RingTotals(history: seq<Packet>, source: Sender)
    requires source.Valid() && AllValid(history)
    ensures AllValid(Ring(history)) && AllValid(Window(history))
    ensures Total(Ring(history)) == Total(Window(history))
    ensures Matching(Ring(history), source) == Matching(Window(history), source)
  {
    if |history| < SAVED_ADDRESSES {
      var blanks := seq(SAVED_ADDRESSES - |history|, _ => BLANK);
      RingNotFull(history);
      BlankTotals(SAVED_ADDRESSES - |history|, source);
      TotalConcat(history, blanks);
      MatchingConcat(history, blanks, source);
    } else {
      var newer, older := RingFull(history);
      assert AllValid(Window(history));
      SwapParts(older, newer, source);
    }
  }

  lemma SwapParts(a: seq<Packet>, b: seq<Packet>, source: Sender)
    requires source.Valid() && AllValid(a + b)
    ensures AllValid(b + a)
    ensures Total(a + b) == Total(b + a) && Matching(a + b, source) == Matching(b + a, source)
  {
    assert forall i :: 0 <= i < |a| ==> a[i] == (a + b)[i];
    assert forall i :: 0 <= i < |b| ==> b[i] == (a + b)[|a| + i];
    TotalConcat(a, b);
    TotalConcat(b, a);
    MatchingConcat(a, b, source);
    MatchingConcat(b, a, source);
  }

  /** Overwriting the slot at the cursor slides the window by one packet. */
  lemma RingAppend(history: seq<Packet>, p: Packet)
    ensures Ring(history)[|history| % SAVED_ADDRESSES := p] == Ring(history + [p])
  {
    var n, c := |history|, |history| % SAVED_ADDRESSES;
    var longer := history + [p];
    var c' := if c + 1 == SAVED_ADDRESSES then 0 else c + 1;
    assert (n + 1) % SAVED_ADDRESSES == c';
    forall i | 0 <= i < SAVED_ADDRESSES
      ensures Ring(history)[c := p][i] == SlotOf(longer, c', i)
    {}
  }

  // ---------- the answer ----------

  /** The share of source among the packets w, as a fraction of ALLNET_PRIORITY_MAX. */
  ghost function Share(w: seq<Packet>, source: Sender): nat
    requires source.Valid() && AllValid(w)
  {
    Fraction(Total(w), Matching(w, source))
  }

  function Fraction(total: nat, nmatches: nat): nat {
    if total == 0 then DEFAULT_MAX else (ALLNET_PRIORITY_MAX / total) * nmatches
  }

  class RateTracker {
    const record: array<Packet>
    var next: int
    ghost var history: seq<Packet>

    ghost predicate Valid()
      reads this, record
    {
      && record.Length == SAVED_ADDRESSES
      && AllValid(history)
      && (if next < 0 then history == []
          else next == |history| % SAVED_ADDRESSES && record[..] == Ring(history))
    }

    constructor ()
      ensures Valid() && history == [] && fresh(record)
    {
      record := new Packet[SAVED_ADDRESSES](_ => BLANK);
      next := -1;
      history := [];
    }

    // The initialization at the first call.
    method Start()
      requires Valid()
      modifies this`next, record
      ensures Valid() && next >= 0 && history == old(history)
    {
      if next < 0 {
        for i := 0 to SAVED_ADDRESSES
          invariant forall j :: 0 <= j < i ==> record[j] == BLANK
        {
          record[i] := BLANK;
        }
        next := 0;
        assert record[..] == Ring([]);
      }
    }

    // How much was sent in the window, and how much of it by this source.
    method Weigh(source: Sender) returns (total: nat, nmatches: nat)
      requires Valid() && next >= 0 && source.Valid()
      ensures AllValid(Window(history))
      ensures total == Total(Window(history)) && nmatches == Matching(Window(history), source)
    {
      RingTotals(history, source);
      total, nmatches := SumRecords(source);
    }

    // The summing loop: slots of size 0 are skipped.
    method SumRecords(source: Sender) returns (total: nat, nmatches: nat)
      requires source.Valid() && AllValid(record[..])
      ensures total == Total(record[..]) && nmatches == Matching(record[..], source)
    {
      total, nmatches := 0, 0;
      for i := 0 to record.Length
        invariant total == Total(record[..i]) && nmatches == Matching(record[..i], source)
      {
        assert record[..i + 1][..i] == record[..i];
        if record[i].size > 0 {
          total := total + record[i].size;
          var m := Matches(source, record[i].sender);
          if m != 0 {
            nmatches := nmatches + record[i].size;
          }
        }
      }
      assert record[..record.Length] == record[..];
    }

    /** track_rate: the share of source over the window and the packet being recorded. */
    method TrackRate(source: Sender, packetSize: nat) returns (rate: nat)
      requires Valid() && source.Valid()
      requires Total(Window(history)) + packetSize < 0x1_0000_0000
      modifies this, record
      ensures Valid()
      ensures history == old(history) + [Packet(source, packetSize)]
      ensures AllValid(Window(old(history)))
      ensures rate == Share(Window(old(history)) + [Packet(source, packetSize)], source)
    {
      Start();
      var total, nmatches := Weigh(source);
      Save(Packet(source, packetSize));
      nmatches := nmatches + packetSize;
      total := total + packetSize;
      WithCurrent(Window(old(history)), Packet(source, packetSize));
      return Fraction(total, nmatches);
    }

    // Storing the packet at the cursor.
    method Save(p: Packet)
      requires Valid() && next >= 0 && p.sender.Valid()
      modifies this, record
      ensures Valid() && history == old(history) + [p]
    {
      RingAppend(history, p);
      NextCursor(|history|);
      record[next] := p;
      assert record[..] == old(record[..])[next := p];
      next := (next + 1) % SAVED_ADDRESSES;
      history := history + [p];
    }
  }

  lemma NextCursor(n: nat)
    ensures (n % SAVED_ADDRESSES + 1) % SAVED_ADDRESSES == (n + 1) % SAVED_ADDRESSES
  {}

  lemma WithCurrent(w: seq<Packet>, p: Packet)
    requires AllValid(w) && p.sender.Valid()
    ensures Total(w + [p]) == Total(w) + p.size
    ensures Matching(w + [p], p.sender) == Matching(w, p.sender) + p.size
  {
    TotalConcat(w, [p]);
    MatchingConcat(w, [p], p.sender);
    OnePacket(p, p.sender);
  }

  /** The sums on one packet; TotalConcat and MatchingConcat extend them to all lists. */
  lemma OnePacket(p: Packet, source: Sender)
    requires p.sender.Valid() && source.Valid()
    ensures Total([p]) == p.size && Matching([p], source) == if SameSender(source, p.sender) then p.size else 0
  {
    assert [p][..0] == [];
  }

  // ---------- what the answer means ----------

  /** The window is the last 128 packets. */
  lemma WindowIs(history: seq<Packet>)
    ensures |history| <= 128 ==> Window(history) == history
    ensures |history| > 128 ==> Window(history) == history[|history| - 128..]
  {}

  /** The exact answer: a whole multiple of the matching size, by how often the total goes into
      2^30. Only when nothing was ever sent is it one less than 2^30. */
  lemma ShareIs(w: seq<Packet>, source: Sender, q: nat)
    requires source.Valid() && AllValid(w)
    ensures Total(w) > 0 && q * Total(w) <= 0x4000_0000 < q * Total(w) + Total(w) ==>
              Share(w, source) == q * Matching(w, source)
    ensures Total(w) == 0 ==> Share(w, source) == 0x3fff_ffff
  {
    if Total(w) > 0 && q * Total(w) <= 0x4000_0000 < q * Total(w) + Total(w) {
      QuotientIs(0x4000_0000, Total(w), q);
    }
  }

  lemma QuotientIs(max: nat, total: nat, q: nat)
    requires total > 0 && q * total <= max < q * total + total
    ensures max / total == q
  {
    var d := max / total;
    assert max == total * d + max % total;
    if d < q {
      OneTimesMore(total, d, q);
    } else if q < d {
      OneTimesMore(total, q, d);
    }
  }

  /** The share never exceeds the maximum, and differs from the exact fraction by less
      than the matching size. */
  lemma ShareError(w: seq<Packet>, source: Sender)
    requires source.Valid() && AllValid(w) && Total(w) > 0
    ensures 0 <= Share(w, source) <= ALLNET_PRIORITY_MAX
    ensures var total, matching := Total(w), Matching(w, source);
            && total * Share(w, source) <= ALLNET_PRIORITY_MAX * matching
            && (matching > 0 ==> ALLNET_PRIORITY_MAX * matching < total * Share(w, source) + matching * total)
  {
    MatchingAtMostTotal(w, source);
    QuotientError(ALLNET_PRIORITY_MAX, Total(w), Matching(w, source));
  }

  lemma QuotientError(max: nat, total: nat, part: nat)
    requires total > 0 && part <= total
    ensures (max / total) * part <= max
    ensures total * ((max / total) * part) <= max * part
    ensures part > 0 ==> max * part < total * ((max / total) * part) + part * total
  {
    var q := max / total;
    var r := max % total;
    assert max == total * q + r;
    assert q * part <= q * total by { MulMonotone(q, part, total); }
    assert max * part == total * q * part + r * part;
    assert total * (q * part) == total * q * part;
    if part > 0 {
      StrictMonotone(part, r, total);
    }
  }

  lemma StrictMonotone(c: nat, a: nat, b: nat)
    requires a < b && c > 0
    ensures a * c < c * b
  {
    OneTimesMore(c, a, b);
  }

  /** A sender to whom all of the window belongs gets the whole range, less than its size short. */
  lemma OnlySender(w: seq<Packet>, source: Sender)
    requires source.Valid() && AllValid(w) && Total(w) > 0
    requires forall i :: 0 <= i < |w| ==> SameSender(source, w[i].sender)
    ensures ALLNET_PRIORITY_MAX - Total(w) < Share(w, source) <= ALLNET_PRIORITY_MAX
  {
    AllMatching(w, source);
    ShareError(w, source);
    QuotientRange(ALLNET_PRIORITY_MAX, Total(w));
  }

  lemma QuotientRange(max: nat, total: nat)
    requires total > 0
    ensures max - total < (max / total) * total
  {}

  lemma {:induction false} AllMatching(w: seq<Packet>, source: Sender)
    requires source.Valid() && AllValid(w)
    requires forall i :: 0 <= i < |w| ==> SameSender(source, w[i].sender)
    ensures Matching(w, source) == Total(w)
  {
    if w != [] {
      AllMatching(w[..|w| - 1], source);
    }
  }

  // ---------- the shares of different senders ----------

  ghost function MatchingSum(w: seq<Packet>, senders: seq<Sender>): nat
    requires AllValid(w) && forall i :: 0 <= i < |senders| ==> senders[i].Valid()
  {
    if senders == [] then 0
    else MatchingSum(w, senders[..|senders| - 1]) + Matching(w, senders[|senders| - 1])
  }

  ghost function ShareSum(w: seq<Packet>, senders: seq<Sender>): nat
    requires AllValid(w) && forall i :: 0 <= i < |senders| ==> senders[i].Valid()
  {
    if senders == [] then 0
    else ShareSum(w, senders[..|senders| - 1]) + Share(w, senders[|senders| - 1])
  }

  ghost predicate AtMostOneMatch(w: seq<Packet>, senders: seq<Sender>)
    requires AllValid(w) && forall i :: 0 <= i < |senders| ==> senders[i].Valid()
  {
    forall k, i, j :: 0 <= k < |w| && 0 <= i < j < |senders| ==>
      !(SameSender(senders[i], w[k].sender) && SameSender(senders[j], w[k].sender))
  }

  // One packet adds to the sum of at most one sender.
  lemma {:induction false} MatchingSumStep(w: seq<Packet>, senders: seq<Sender>)
    requires AllValid(w) && w != [] && forall i :: 0 <= i < |senders| ==> senders[i].Valid()
    requires AtMostOneMatch(w, senders)
    ensures MatchingSum(w, senders) <= MatchingSum(w[..|w| - 1], senders) + w[|w| - 1].size
    ensures (forall i :: 0 <= i < |senders| ==> !SameSender(senders[i], w[|w| - 1].sender))
            ==> MatchingSum(w, senders) == MatchingSum(w[..|w| - 1], senders)
  {
    if senders != [] {
      MatchingSumStep(w, senders[..|senders| - 1]);
    }
  }

  lemma {:induction false} MatchingSumBound(w: seq<Packet>, senders: seq<Sender>)
    requires AllValid(w) && forall i :: 0 <= i < |senders| ==> senders[i].Valid()
    requires AtMostOneMatch(w, senders)
    ensures MatchingSum(w, senders) <= Total(w)
  {
    if w == [] {
      NothingMatches(senders);
    } else {
      MatchingSumBound(w[..|w| - 1], senders);
      MatchingSumStep(w, senders);
    }
  }

  lemma {:induction false} NothingMatches(senders: seq<Sender>)
    requires forall i :: 0 <= i < |senders| ==> senders[i].Valid()
    ensures MatchingSum([], senders) == 0
  {
    if senders != [] {
      NothingMatches(senders[..|senders| - 1]);
    }
  }

  lemma {:induction false} ShareSumIsScaled(w: seq<Packet>, senders: seq<Sender>)
    requires AllValid(w) && forall i :: 0 <= i < |senders| ==> senders[i].Valid()
    requires Total(w) > 0
    ensures ShareSum(w, senders) == (ALLNET_PRIORITY_MAX / Total(w)) * MatchingSum(w, senders)
  {
    if senders != [] {
      ShareSumIsScaled(w, senders[..|senders| - 1]);
      Distribute(ALLNET_PRIORITY_MAX / Total(w), MatchingSum(w, senders[..|senders| - 1]),
                 Matching(w, senders[|senders| - 1]));
    }
  }

  lemma Distribute(c: nat, a: nat, b: nat)
    ensures c * (a + b) == c * a + c * b
  {}

  /** The shares of senders no two of which match the same packet add up to at most the
      maximum. */
  lemma SharesOfPartition(w: seq<Packet>, senders: seq<Sender>)
    requires AllValid(w) && forall i :: 0 <= i < |senders| ==> senders[i].Valid()
    requires Total(w) > 0 && AtMostOneMatch(w, senders)
    ensures ShareSum(w, senders) <= ALLNET_PRIORITY_MAX
  {
    MatchingSumBound(w, senders);
    ShareSumIsScaled(w, senders);
    QuotientError(ALLNET_PRIORITY_MAX, Total(w), MatchingSum(w, senders));
  }
}
