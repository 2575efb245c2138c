/** ad.c: process_acks on the bytes of an ack packet. The new acks are moved to the front of the
    payload, in place, and the packet gets shorter. */
module AckBytes {
  import opened Bytes
  import opened Common
  import opened Daemon

  const MESSAGE_ID_SIZE: nat := 16
  const LARGE_HEADER_SIZE: nat := 48
  const STREAM_ID_SIZE: nat := 4
  const ALLNET_TIME_SIZE: nat := 8

  /** The transport bits that make the header longer. */
  datatype Transport = Transport(stream: bool, ackReq: bool, large: bool, expiration: bool)

  function AllnetSize(t: Transport): nat {
    ALLNET_HEADER_SIZE
    + (if t.ackReq then MESSAGE_ID_SIZE else 0)
    + (if t.large then LARGE_HEADER_SIZE else 0)
    + (if t.stream then STREAM_ID_SIZE else 0)
    + (if t.expiration then ALLNET_TIME_SIZE else 0)
  }

  /** What each transport bit adds to the 24 bytes of a header. */
  lemma HeaderSizes()
    ensures AllnetSize(Transport(false, false, false, false)) == 24
    ensures AllnetSize(Transport(true, false, false, false)) == 24 + 4
    ensures AllnetSize(Transport(false, true, false, false)) == 24 + 16
    ensures AllnetSize(Transport(false, false, true, false)) == 24 + 48
    ensures AllnetSize(Transport(false, false, false, true)) == 24 + 8
    ensures AllnetSize(Transport(true, true, true, true)) == 24 + 4 + 16 + 48 + 8
  {}

  // The macros ALLNET_AFTER_... of packet.h, each of which gives up on a packet that is shorter
  // than its header.
  function AfterStreamId(t: Transport, s: nat): nat {
    if s < AllnetSize(t) then s
    else if t.stream then ALLNET_HEADER_SIZE + STREAM_ID_SIZE else ALLNET_HEADER_SIZE
  }

  function AfterMessageId(t: Transport, s: nat): nat {
    if s < AllnetSize(t) then s else AfterStreamId(t, s) + if t.ackReq then MESSAGE_ID_SIZE else 0
  }

  function AfterSequence(t: Transport, s: nat): nat {
    if s < AllnetSize(t) then s else AfterMessageId(t, s) + if t.large then MESSAGE_ID_SIZE + 32 else 0
  }

  function AfterHeader(t: Transport, s: nat): (start: nat)
    ensures start == if s < AllnetSize(t) then s else AllnetSize(t)
  {
    if s < AllnetSize(t) then s else AfterSequence(t, s) + if t.expiration then ALLNET_TIME_SIZE else 0
  }

  // minz, in util.c
  function MinZ(from: int, subtract: int): int {
    if from >= subtract then from - subtract else 0
  }

  // ---------- acks in a packet ----------

  function AckAt(m: seq<Byte>, start: nat, i: nat): seq<Byte>
    requires start + MESSAGE_ID_SIZE * (i + 1) <= |m|
  {
    m[start + MESSAGE_ID_SIZE * i..start + MESSAGE_ID_SIZE * (i + 1)]
  }

  /** An ack is the 16 bytes at its place. */
  lemma AckIs(m: seq<Byte>, start: nat, i: nat)
    requires start + 16 * i + 16 <= |m|
    ensures |AckAt(m, start, i)| == 16
    ensures forall j :: 0 <= j < 16 ==> AckAt(m, start, i)[j] == m[start + 16 * i + j]
  {}

  /** The n acks that begin at start. */
  function AcksAt(m: seq<Byte>, start: nat, n: nat): (acks: seq<seq<Byte>>)
    requires start + MESSAGE_ID_SIZE * n <= |m|
    ensures |acks| == n && forall i :: 0 <= i < n ==> acks[i] == AckAt(m, start, i)
  {
    seq(n, i requires 0 <= i < n => AckAt(m, start, i))
  }

  // memcpy of one ack over another
  function AckCopied(m: seq<Byte>, to: nat, from: nat): (r: seq<Byte>)
    requires to + MESSAGE_ID_SIZE <= |m| && from + MESSAGE_ID_SIZE <= |m|
    ensures |r| == |m|
    ensures forall j :: 0 <= j < |m| ==>
              r[j] == if to <= j < to + MESSAGE_ID_SIZE then m[from + (j - to)] else m[j]
  {
    m[..to] + m[from..from + MESSAGE_ID_SIZE] + m[to + MESSAGE_ID_SIZE..]
  }

  // From the i-th ack on, m and original hold the same acks.
  ghost predicate LaterAcks(m: seq<Byte>, start: nat, i: nat, num: nat, original: seq<Byte>)
    requires start + MESSAGE_ID_SIZE * num <= |m| && |m| == |original|
  {
    forall j :: i <= j < num ==> AckAt(m, start, j) == AckAt(original, start, j)
  }

  /** In m the acks done are in front, and those from the i-th on are still in place. */
  ghost predicate Compacted(m: seq<Byte>, start: nat, done: seq<seq<Byte>>, i: nat, num: nat, original: seq<Byte>) {
    && start + MESSAGE_ID_SIZE * num <= |m| && |m| == |original|
    && |done| <= i <= num
    && AcksAt(m, start, |done|) == done
    && LaterAcks(m, start, i, num, original)
    && m[..start] == original[..start]
  }

  // Copying ack i behind those in front.
  lemma CompactedStep(m: seq<Byte>, start: nat, done: seq<seq<Byte>>, i: nat, num: nat,
                      original: seq<Byte>, m': seq<Byte>)
    requires Compacted(m, start, done, i, num, original) && i < num
    requires m' == AckCopied(m, start + MESSAGE_ID_SIZE * |done|, start + MESSAGE_ID_SIZE * i)
    ensures Compacted(m', start, done + [AckAt(original, start, i)], i + 1, num, original)
  {
    var r := |done|;
    var after := done + [AckAt(original, start, i)];
    assert AckAt(m', start, r) == AckAt(m, start, i);
    forall j | 0 <= j <= r ensures AcksAt(m', start, r + 1)[j] == after[j] {
      if j < r {
        assert AckAt(m', start, j) == AckAt(m, start, j) == AcksAt(m, start, r)[j];
      }
    }
    assert AcksAt(m', start, r + 1) == after;
    forall j | i < j < num ensures AckAt(m', start, j) == AckAt(original, start, j) {
      assert AckAt(m', start, j) == AckAt(m, start, j);
    }
    assert m'[..start] == m[..start];
  }

  method CopyAck(message: array<Byte>, to: nat, from: nat)
    requires to <= from && from + MESSAGE_ID_SIZE <= message.Length
    modifies message
    ensures message[..] == AckCopied(old(message[..]), to, from)
  {
    if to != from {
      forall k | 0 <= k < MESSAGE_ID_SIZE {
        message[to + k] := message[from + k];
      }
    }
  }

  // Keeping the i-th ack behind those done.
  method KeepAck(message: array<Byte>, start: nat, r: nat, i: nat, ghost num: nat,
                 ghost done: seq<seq<Byte>>, ghost original: seq<Byte>)
    requires Compacted(message[..], start, done, i, num, original) && i < num && r == |done|
    modifies message
    ensures Compacted(message[..], start, done + [AckAt(original, start, i)], i + 1, num, original)
  {
    ghost var m := message[..];
    CopyAck(message, start + MESSAGE_ID_SIZE * r, start + MESSAGE_ID_SIZE * i);
    CompactedStep(m, start, done, i, num, original, message[..]);
  }

  /** After i acks: those done are the new ones, and all i are marked. */
  ghost predicate Marked<A>(passed: set<A>, acks: seq<A>, i: nat, done: seq<A>, marked: set<A>) {
    i <= |acks| && done == NewAcks(passed, acks[..i]) && marked == passed + AckSet(acks[..i])
  }

  // One turn of the loop: the ack is marked, and kept if it was not marked before.
  lemma MarkedStep<A>(passed: set<A>, acks: seq<A>, i: nat, done: seq<A>, marked: set<A>)
    requires i < |acks| && Marked(passed, acks, i, done, marked)
    ensures Marked(passed, acks, i + 1, if acks[i] in marked then done else done + [acks[i]], marked + {acks[i]})
    ensures acks[i] in marked ==> marked + {acks[i]} == marked
  {
    assert acks[..i + 1][..i] == acks[..i];
    assert acks[..i + 1] == acks[..i] + [acks[i]];
  }

  /** pcache_acks_for_token: moves the new acks to the front, keeps their order, and returns how
      many they are. */
  method AcksForToken(message: array<Byte>, start: nat, num: nat, passed: set<seq<Byte>>)
    returns (result: nat, passed': set<seq<Byte>>)
    requires start + MESSAGE_ID_SIZE * num <= message.Length
    modifies message
    ensures result <= num
    ensures AcksAt(message[..], start, result) == NewAcks(passed, AcksAt(old(message[..]), start, num))
    ensures passed' == passed + AckSet(AcksAt(old(message[..]), start, num))
    ensures message[..start] == old(message[..start])
  {
    ghost var original := message[..];
    ghost var acks := AcksAt(original, start, num);
    ghost var done: seq<seq<Byte>> := [];
    result, passed' := 0, passed;
    for i := 0 to num
      invariant result == |done| && Marked(passed, acks, i, done, passed')
      invariant Compacted(message[..], start, done, i, num, original)
    {
      var ack := AckAt(message[..], start, i);
      MarkedStep(passed, acks, i, done, passed');
      assert ack == acks[i];
      if ack !in passed' {
        passed' := passed' + {ack};
        KeepAck(message, start, result, i, num, done, original);
        done := done + [ack];
        result := result + 1;
      }
    }
    assert acks[..num] == acks;
  }

  /** The size of a packet whose num acks were reduced to count. */
  function ShorterSize(size: nat, num: nat, count: nat): int {
    size - MESSAGE_ID_SIZE * (num - count)
  }

  // Taking whole acks off a payload leaves the partial one at its end.
  lemma ShorterSizeIs(t: Transport, size: nat, num: nat, count: nat)
    requires 0 < count <= num == (size - AfterHeader(t, size)) / MESSAGE_ID_SIZE
    ensures var newSize := ShorterSize(size, num, count);
            && AllnetSize(t) < newSize <= size
            && AfterHeader(t, newSize) == AfterHeader(t, size)
            && (newSize - AfterHeader(t, size)) / MESSAGE_ID_SIZE == count
  {
    assert (size - AfterHeader(t, size)) / MESSAGE_ID_SIZE > 0;
    ShorterPayload(size - AfterHeader(t, size), num, count);
  }

  lemma ShorterPayload(payload: nat, num: nat, count: nat)
    requires count <= num == payload / MESSAGE_ID_SIZE
    ensures payload - MESSAGE_ID_SIZE * (num - count) >= MESSAGE_ID_SIZE * count
    ensures (payload - MESSAGE_ID_SIZE * (num - count)) / MESSAGE_ID_SIZE == count
  {}

  // The bytes that the old acks took are taken off the size; num == count takes off none.
  lemma SizeAfter(t: Transport, size: nat, num: nat, count: nat)
    requires ALLNET_HEADER_SIZE <= size && num == (size - AfterHeader(t, size)) / MESSAGE_ID_SIZE
    requires 0 < count <= num
    ensures var newSize := if count < num then size - (num - count) * MESSAGE_ID_SIZE else size;
            && newSize == ShorterSize(size, num, count)
            && AllnetSize(t) < newSize <= size
            && AfterHeader(t, newSize) == AfterHeader(t, size)
            && (newSize - AfterHeader(t, size)) / MESSAGE_ID_SIZE == count
  {
    ShorterSizeIs(t, size, num, count);
  }

  /** process_acks: 0 means that the packet is dropped. Neither of its two error exits can be
      reached; what remains holds exactly the new acks, is longer than a header and never longer
      than before. */
  method ProcessAckBytes(message: array<Byte>, size: nat, t: Transport, passed: set<seq<Byte>>)
    returns (newSize: nat, passed': set<seq<Byte>>)
    requires ALLNET_HEADER_SIZE <= size <= message.Length
    modifies message
    ensures var start := AfterHeader(t, size);
            var acks := AcksAt(old(message[..]), start, (size - start) / MESSAGE_ID_SIZE);
            var newOnes := NewAcks(passed, acks);
            && (newSize == 0 <==> newOnes == [])
            && (newSize != 0 ==>
                  && AllnetSize(t) < newSize <= size
                  && AfterHeader(t, newSize) == start
                  && (newSize - start) / MESSAGE_ID_SIZE == |newOnes|
                  && newSize == size - 16 * (|acks| - |newOnes|)
                  && AcksAt(message[..], start, |newOnes|) == newOnes)
            && passed' == passed + AckSet(acks)
            && message[..start] == old(message[..start])
  {
    var start := AfterHeader(t, size);
    var num := MinZ(size, start) / MESSAGE_ID_SIZE;
    assert num == (size - start) / MESSAGE_ID_SIZE;
    AcksFit(size - start, num);
    var count;
    count, passed' := AcksForToken(message, start, num, passed);
    if count <= 0 {
      return 0, passed';
    }
    if count > num {
      assert false;   // the exit for more acks than there were
    }
    newSize := Shortened(t, size, num, count);
  }

  lemma AcksFit(payload: nat, num: nat)
    requires num == payload / MESSAGE_ID_SIZE
    ensures MESSAGE_ID_SIZE * num <= payload
  {}

  // The end of process_acks.
  method Shortened(t: Transport, size: nat, num: nat, count: nat) returns (newSize: nat)
    requires ALLNET_HEADER_SIZE <= size && num == (size - AfterHeader(t, size)) / MESSAGE_ID_SIZE
    requires 0 < count <= num
    ensures newSize == ShorterSize(size, num, count)
    ensures AllnetSize(t) < newSize <= size && AfterHeader(t, newSize) == AfterHeader(t, size)
    ensures (newSize - AfterHeader(t, size)) / MESSAGE_ID_SIZE == count
  {
    SizeAfter(t, size, num, count);
    newSize := size;
    if count < num {
      newSize := newSize - (num - count) * MESSAGE_ID_SIZE;
      if newSize <= AllnetSize(t) {
        assert false;   // the exit for a packet without payload
      }
    }
  }
}
