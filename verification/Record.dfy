/** record.c: two direct-mapped tables of packet hashes, against the full history of the
    packets that were recorded. */
module Record {
  import opened Bytes
  import opened Common
  import opened WordHash

  const ENTRIES_PER_TABLE: nat := 0x1_0000
  // The hash starts one byte after the hop count, which is byte 2 of the header.
  const HASH_OFFSET: nat := 3

  type Index = bv16

  function LeftHash(hash: Word): (r: Word)
    ensures r < 0x1_0000
  {
    ((hash >> 16) & 0xff00) | ((hash >> 8) & 0xff)
  }

  function RightHash(hash: Word): (r: Word)
    ensures r < 0x1_0000
  {
    ((hash >> 8) & 0xff00) | (hash & 0xff)
  }

  // The remainder by the number of entries changes nothing: both values fit 16 bits.
  function Narrow(x: Word): Index
    requires x < 0x1_0000
  {
    x as bv16
  }

  function LeftIndex(hash: Word): Index {
    Narrow(LeftHash(hash))
  }

  function RightIndex(hash: Word): Index {
    Narrow(RightHash(hash))
  }

  function Slot(i: Index): (s: nat)
    ensures s < ENTRIES_PER_TABLE
  {
    i as int
  }

  lemma SlotInjective(i: Index, j: Index)
    requires Slot(i) == Slot(j)
    ensures i == j
  {
    assert (i as int) as bv16 == i;
    assert (j as int) as bv16 == j;
  }

  /** The two table positions of a hash, together, determine it. */
  lemma SlotsDetermineHash(g: Word, h: Word)
    ensures Slot(LeftIndex(g)) == Slot(LeftIndex(h)) && Slot(RightIndex(g)) == Slot(RightIndex(h))
            <==> g == h
  {
    if Slot(LeftIndex(g)) == Slot(LeftIndex(h)) && Slot(RightIndex(g)) == Slot(RightIndex(h)) {
      SlotInjective(LeftIndex(g), LeftIndex(h));
      SlotInjective(RightIndex(g), RightIndex(h));
      IndicesInjective(g, h);
    }
  }

  lemma IndicesInjective(g: Word, h: Word)
    requires LeftIndex(g) == LeftIndex(h) && RightIndex(g) == RightIndex(h)
    ensures g == h
  {
    NarrowInjective(LeftHash(g), LeftHash(h));
    NarrowInjective(RightHash(g), RightHash(h));
    HashesInjective(g, h);
  }

  lemma NarrowInjective(x: Word, y: Word)
    requires x < 0x1_0000 && y < 0x1_0000 && Narrow(x) == Narrow(y)
    ensures x == y
  {}

  lemma HashesInjective(g: Word, h: Word)
    requires LeftHash(g) == LeftHash(h) && RightHash(g) == RightHash(h)
    ensures g == h
  {}

  // ---------- the full history ----------

  datatype Event = Event(hash: Word, time: int)
  datatype Entry = Entry(hash: Word, lastSeen: int)

  /** The last time h was recorded, as an index into the history, or -1. */
  function LastRecording(history: seq<Event>, h: Word): (k: int)
    ensures -1 <= k < |history|
    ensures k >= 0 ==> history[k].hash == h
    ensures forall j :: k < j < |history| ==> history[j].hash != h
  {
    if history == [] then -1
    else if history[|history| - 1].hash == h then |history| - 1
    else LastRecording(history[..|history| - 1], h)
  }

  function LastLeft(history: seq<Event>, i: Index): (k: int)
    ensures -1 <= k < |history|
    ensures k >= 0 ==> LeftIndex(history[k].hash) == i
    ensures forall j :: k < j < |history| ==> LeftIndex(history[j].hash) != i
  {
    if history == [] then -1
    else if LeftIndex(history[|history| - 1].hash) == i then |history| - 1
    else LastLeft(history[..|history| - 1], i)
  }

  function LastRight(history: seq<Event>, i: Index): (k: int)
    ensures -1 <= k < |history|
    ensures k >= 0 ==> RightIndex(history[k].hash) == i
    ensures forall j :: k < j < |history| ==> RightIndex(history[j].hash) != i
  {
    if history == [] then -1
    else if RightIndex(history[|history| - 1].hash) == i then |history| - 1
    else LastRight(history[..|history| - 1], i)
  }

  // What a table holds at each index after a history: the last event that hit the index.
  function EntryOf(history: seq<Event>, k: int): Entry
    requires -1 <= k < |history|
  {
    if k < 0 then Entry(0, 0) else Entry(history[k].hash, history[k].time)
  }

  function LeftEntry(history: seq<Event>, i: Index): Entry {
    EntryOf(history, LastLeft(history, i))
  }

  function RightEntry(history: seq<Event>, i: Index): Entry {
    EntryOf(history, LastRight(history, i))
  }

  // ---------- what record_packet promises, on the history alone ----------

  ghost predicate OverwrittenLeft(history: seq<Event>, k: nat)
    requires k < |history|
  {
    exists j :: k < j < |history| && LeftIndex(history[j].hash) == LeftIndex(history[k].hash)
  }

  ghost predicate OverwrittenRight(history: seq<Event>, k: nat)
    requires k < |history|
  {
    exists j :: k < j < |history| && RightIndex(history[j].hash) == RightIndex(history[k].hash)
  }

  /** h was recorded, and since its last recording not both of its slots were taken by
      another hash. A recording made when the clock read 0 does not count. */
  ghost predicate Remembered(history: seq<Event>, h: Word) {
    var k := LastRecording(history, h);
    k >= 0 && history[k].time != 0 && !(OverwrittenLeft(history, k) && OverwrittenRight(history, k))
  }

  // At least one second; the 64-bit difference is returned as an unsigned int.
  function Age(now: int, time: int): nat {
    (if now - time <= 0 then 1 else now - time) % 0x1_0000_0000
  }

  /** The answer for a packet with hash h, on the full history. */
  ghost function Answer(history: seq<Event>, h: Word, now: int): nat {
    if Remembered(history, h) then Age(now, history[LastRecording(history, h)].time) else 0
  }

  // ---------- what the code computes from the two tables ----------

  /** get_hash_time */
  function GetHashTime(entry: Entry, hash: Word, now: int): nat {
    if entry.hash != hash || entry.lastSeen == 0 then 0 else Age(now, entry.lastSeen)
  }

  function LesserTime(left: nat, right: nat): nat {
    if left == 0 then right
    else if right == 0 then left
    else if left > right then right
    else left
  }

  lemma LeftEntryHolds(history: seq<Event>, h: Word)
    ensures var k := LastRecording(history, h);
            if k >= 0 then
              if OverwrittenLeft(history, k) then LeftEntry(history, LeftIndex(h)).hash != h
              else LeftEntry(history, LeftIndex(h)) == Entry(h, history[k].time)
            else LeftEntry(history, LeftIndex(h)).hash == h ==> LeftEntry(history, LeftIndex(h)) == Entry(h, 0)
  {
    var k, l := LastRecording(history, h), LastLeft(history, LeftIndex(h));
    if k >= 0 {
      assert l >= k;
      assert OverwrittenLeft(history, k) <==> l > k;
    }
  }

  lemma RightEntryHolds(history: seq<Event>, h: Word)
    ensures var k := LastRecording(history, h);
            if k >= 0 then
              if OverwrittenRight(history, k) then RightEntry(history, RightIndex(h)).hash != h
              else RightEntry(history, RightIndex(h)) == Entry(h, history[k].time)
            else RightEntry(history, RightIndex(h)).hash == h ==> RightEntry(history, RightIndex(h)) == Entry(h, 0)
  {
    var k, r := LastRecording(history, h), LastRight(history, RightIndex(h));
    if k >= 0 {
      assert r >= k;
      assert OverwrittenRight(history, k) <==> r > k;
    }
  }

  /** In every reachable state the two entries that hold the same hash hold the same time. */
  lemma TwoSlotAgreement(history: seq<Event>, h: Word)
    requires LeftEntry(history, LeftIndex(h)).hash == h && RightEntry(history, RightIndex(h)).hash == h
    ensures LeftEntry(history, LeftIndex(h)) == RightEntry(history, RightIndex(h))
  {
    LeftEntryHolds(history, h);
    RightEntryHolds(history, h);
  }

  /** Looking the hash up in the two tables answers as the full history does. */
  lemma TablesRefineHistory(history: seq<Event>, h: Word, now: int)
    ensures LesserTime(GetHashTime(LeftEntry(history, LeftIndex(h)), h, now),
                       GetHashTime(RightEntry(history, RightIndex(h)), h, now))
            == Answer(history, h, now)
  {
    LeftEntryHolds(history, h);
    RightEntryHolds(history, h);
  }

  /** What the answer for a remembered hash is: the seconds since its last recording, at least 1,
      modulo 2^32. */
  lemma AnswerIsAge(history: seq<Event>, h: Word, now: int)
    requires Remembered(history, h)
    ensures var age := now - history[LastRecording(history, h)].time;
            && (age <= 0 ==> Answer(history, h, now) == 1)
            && (0 < age < 0x1_0000_0000 ==> Answer(history, h, now) == age)
            && (0 < age ==> exists wraps: nat ::
                  0 <= age - wraps * 0x1_0000_0000 == Answer(history, h, now) < 0x1_0000_0000)
  {
    var age := now - history[LastRecording(history, h)].time;
    if 0 < age {
      var wraps := age / 0x1_0000_0000;
      assert 0 <= age - wraps * 0x1_0000_0000 == Answer(history, h, now) < 0x1_0000_0000;
    }
  }

  // ---------- consequences over whole runs ----------

  /** The answer is nonzero for exactly the remembered hashes, unless the age in seconds is a
      positive multiple of 2^32 and is lost in the conversion to unsigned int. */
  lemma SeenIffRemembered(history: seq<Event>, h: Word, now: int)
    ensures Answer(history, h, now) != 0 <==>
            && Remembered(history, h)
            && var age := now - history[LastRecording(history, h)].time;
               !(age > 0 && age % 0x1_0000_0000 == 0)
  {}

  /** Such an age: a packet is remembered but answered as not seen 2^32 seconds later. */
  lemma AgeLost(h: Word)
    ensures var history, now := [Event(h, 1)], 0x1_0000_0001;
            Remembered(history, h) && Answer(history, h, now) == 0
  {
    var history := [Event(h, 1)];
    assert history[0].hash == h && LastRecording(history, h) == 0;
  }

  /** However many packets follow, h is remembered as long as at most one other hash g is
      among them. */
  lemma OneCompetitorCannotErase(history: seq<Event>, k: nat, g: Word)
    requires k < |history|
    requires forall j :: k <= j < |history| ==> history[j].time != 0
    requires forall j :: k < j < |history| ==> history[j].hash == history[k].hash || history[j].hash == g
    ensures Remembered(history, history[k].hash)
  {
    var h := history[k].hash;
    var last := LastRecording(history, h);
    if OverwrittenLeft(history, last) && OverwrittenRight(history, last) {
      SlotsDetermineHash(g, h);
    }
  }

  function LeftRival(h: Word): Word {
    h ^ 0x1
  }

  function RightRival(h: Word): Word {
    h ^ 0x100
  }

  lemma RivalHashes(h: Word)
    ensures LeftRival(h) != h && LeftHash(LeftRival(h)) == LeftHash(h)
    ensures RightRival(h) != h && RightHash(RightRival(h)) == RightHash(h)
  {}

  lemma RivalBounds(h: Word)
    requires h < 0x8000_0000
    ensures LeftRival(h) < 0x8000_0000 && RightRival(h) < 0x8000_0000
  {}

  lemma Rivals(h: Word)
    ensures LeftRival(h) != h && LeftIndex(LeftRival(h)) == LeftIndex(h)
    ensures RightRival(h) != h && RightIndex(RightRival(h)) == RightIndex(h)
  {
    RivalHashes(h);
  }

  /** Two other hashes do suffice: one takes the left slot, the other the right slot. */
  lemma TwoCompetitorsErase(history: seq<Event>, h: Word, t: int, t1: int, t2: int)
    ensures !Remembered(history + [Event(h, t), Event(LeftRival(h), t1), Event(RightRival(h), t2)], h)
  {
    var n, run := |history|, history + [Event(h, t), Event(LeftRival(h), t1), Event(RightRival(h), t2)];
    Rivals(h);
    assert run[n].hash == h && run[n + 1].hash == LeftRival(h) && run[n + 2].hash == RightRival(h);
    var k := LastRecording(run, h);
    assert k == n;
    assert OverwrittenLeft(run, k) && OverwrittenRight(run, k);
  }

  // ---------- packets ----------

  function PacketHash(packet: seq<Byte>): Word
    requires |packet| >= ALLNET_HEADER_SIZE
  {
    var data := packet[HASH_OFFSET..];
    RecordHash(data, (|data| * 8) % 0x1_0000_0000)
  }

  /** A packet is recognised after it has been recorded, whatever happened before and whatever
      was done to its first three bytes (version, type and hop count) on the way. */
  lemma DuplicateDetected(history: seq<Event>, packet: seq<Byte>, copy: seq<Byte>, time: int, now: int)
    requires |packet| == |copy| && |packet| >= ALLNET_HEADER_SIZE && time != 0
    requires forall i :: 3 <= i < |packet| ==> packet[i] == copy[i]
    ensures var seen := Answer(history + [Event(PacketHash(packet), time)], PacketHash(copy), now);
            && (now <= time ==> seen == 1)
            && (0 < now - time < 0x1_0000_0000 ==> seen == now - time)
  {
    assert packet[HASH_OFFSET..] == copy[HASH_OFFSET..];
    var run := history + [Event(PacketHash(packet), time)];
    assert run[|history|].hash == PacketHash(copy);
    AnswerIsAge(run, PacketHash(copy), now);
  }

  /** Everything behind the first three bytes is hashed, with its length in bits: a change inside
      one whole word of it changes the value of which the hash is the absolute value. */
  lemma {:induction false} ChangeIsHashed(packet: seq<Byte>, other: seq<Byte>, i: nat)
    requires |packet| == |other| && 24 <= |packet| < 0x1000_0000 && 3 + 4 * i + 4 <= |packet|
    requires forall k :: 3 <= k < |packet| && !(3 + 4 * i <= k < 3 + 4 * i + 4) ==> packet[k] == other[k]
    requires packet[3 + 4 * i..3 + 4 * i + 4] != other[3 + 4 * i..3 + 4 * i + 4]
    ensures var p, q := packet[3..], other[3..];
            var x, y := RecordRaw(p, 8 * |p|), RecordRaw(q, 8 * |q|);
            && PacketHash(packet) == AbsoluteValue(x) && PacketHash(other) == AbsoluteValue(y)
            && x != y
  {
    var p, q := packet[3..], other[3..];
    PacketHashIs(packet);
    PacketHashIs(other);
    BehindHops(packet, other, i);
    WordInside(i, |p|);
    ChangedWord(p, q, 8 * |p|, i);
  }

  lemma {:induction false} PacketHashIs(packet: seq<Byte>)
    requires 24 <= |packet| < 0x1000_0000
    ensures PacketHash(packet) == AbsoluteValue(RecordRaw(packet[3..], 8 * |packet[3..]|))
  {
    var data := packet[3..];
    BitsFit(|data| * 8);
    HashOfBits(data, (|data| * 8) % 0x1_0000_0000, 8 * |data|);
  }

  lemma {:induction false} HashOfBits(data: seq<Byte>, b: nat, bits: nat)
    requires b == bits <= 8 * |data| && bits < 0x1_0000_0000
    ensures RecordHash(data, b) == AbsoluteValue(RecordRaw(data, bits))
  {}

  lemma BehindHops(packet: seq<Byte>, other: seq<Byte>, i: nat)
    requires |packet| == |other| && 3 + 4 * i + 4 <= |packet|
    requires forall k :: 3 <= k < |packet| && !(3 + 4 * i <= k < 3 + 4 * i + 4) ==> packet[k] == other[k]
    requires packet[3 + 4 * i..3 + 4 * i + 4] != other[3 + 4 * i..3 + 4 * i + 4]
    ensures DifferInWord(packet[3..], other[3..], i)
  {
    var p, q := packet[3..], other[3..];
    assert p[4 * i..4 * i + 4] == packet[3 + 4 * i..3 + 4 * i + 4];
    assert q[4 * i..4 * i + 4] == other[3 + 4 * i..3 + 4 * i + 4];
    assert forall k :: 0 <= k < |p| ==> p[k] == packet[3 + k] && q[k] == other[3 + k];
  }

  lemma WordInside(i: nat, length: nat)
    requires 4 * i + 4 <= length
    ensures i < 8 * length / 32
  {}

  /** An example: 24 bytes, of which the fourth is 1 and all behind it are 0, whatever the first
      three are. The length is 168 bits, rotated five times; the first word is rotated four times. */
  lemma {:induction false} PacketExample(packet: seq<Byte>)
    requires |packet| == 24 && packet[3] == 1 && forall i :: 4 <= i < 24 ==> packet[i] == 0
    ensures PacketHash(packet) == 168 * 32 + 16
  {
    var data := packet[3..];
    BitsFit(8 * |data|);
    ExampleWords(data);
    ExampleRaw();
    assert AddLength(0, 168) == 168;
  }

  lemma ExampleWords(data: seq<Byte>)
    requires |data| == 21 && data[0] == 1 && forall i :: 1 <= i < 21 ==> data[i] == 0
    ensures Words(data, 5) == [1, 0, 0, 0, 0] && Leftover(data, 168) == 0
  {
    NoWord();
    WordOfIs(1, 0, 0, 0);
    assert WordAt(data, 0) == 1;
    assert forall i :: 1 <= i < 5 ==> WordAt(data, i) == WordOf(0, 0, 0, 0);
  }

  lemma {:induction false} ExampleRaw()
    ensures Raw(168, [1, 0, 0, 0, 0]) == 168 * 32 + 16
  {
    var ws: seq<Word> := [1, 0, 0, 0, 0];
    OneWordRaw(168, 1);
    ZeroWordRaw(168, [1]);
    ZeroWordRaw(168, [1, 0]);
    ZeroWordRaw(168, [1, 0, 0]);
    ZeroWordRaw(168, [1, 0, 0, 0]);
    assert [1 as Word] + [0] == [1, 0] && [1 as Word, 0] + [0] == [1, 0, 0];
    assert [1 as Word, 0, 0] + [0] == [1, 0, 0, 0] && [1 as Word, 0, 0, 0] + [0] == ws;
  }

  lemma {:induction false} ZeroWordRaw(seed: Word, ws: seq<Word>)
    ensures Raw(seed, ws + [0]) == Rotl1(Raw(seed, ws))
  {
    RawAppend(seed, ws, 0);
    XorLaws(Rotl1(Raw(seed, ws)), 0, 0);
  }

  /** The left position is made of bytes 3 and 1 of the hash, the right one of bytes 2 and 0. */
  lemma PositionsAreBytes(hash: Word)
    ensures LeftHash(hash) == WordOf(ByteOf(hash, 1), ByteOf(hash, 3), 0, 0)
    ensures RightHash(hash) == WordOf(ByteOf(hash, 0), ByteOf(hash, 2), 0, 0)
  {}

  // A packet whose 24 hashed bytes are zero except for the last word.
  function ZerosThen(w: Word): (packet: seq<Byte>)
    ensures |packet| == 27
  {
    seq(23, _ => 0) + [ByteOf(w, 0), ByteOf(w, 1), ByteOf(w, 2), ByteOf(w, 3)]
  }

  /** Every hash below 2^31 is the hash of some packet. */
  lemma EveryHashReached(h: Word) returns (packet: seq<Byte>)
    requires h < 0x8000_0000
    ensures |packet| >= ALLNET_HEADER_SIZE && PacketHash(packet) == h
  {
    var zeros: seq<Byte> := seq(20, _ => 0);
    var r := Raw(AddLength(0, 192), Words(zeros, 5));
    var w := Xor(Rotl1(r), h);
    packet := ZerosThen(w);
    WordsOfZeros(w);
    RawAppend(AddLength(0, 192), Words(zeros, 5), w);
    XorLaws(Rotl1(r), Rotl1(r), h);
    XorLaws(0, h, 0);
    assert Raw(AddLength(0, 192), Words(packet[HASH_OFFSET..], 6)) == h;
    HashOfWholeWords(packet, h);
  }

  lemma {:induction false} WordsOfZeros(w: Word)
    ensures Words(ZerosThen(w)[HASH_OFFSET..], 6) == Words(seq(20, _ => 0), 5) + [w]
  {
    var zeros: seq<Byte> := seq(20, _ => 0);
    var data := ZerosThen(w)[HASH_OFFSET..];
    WordOfBytes(w);
    assert data[..20] == zeros;
    assert WordAt(data, 5) == w;
    forall i | 0 <= i < 5 ensures WordAt(data, i) == WordAt(zeros, i) {
      assert forall j :: 0 <= j < 20 ==> data[j] == data[..20][j];
    }
  }

  // The hash of a packet with 24 hashed bytes, by the value before the absolute value.
  lemma HashOfWholeWords(packet: seq<Byte>, h: Word)
    requires |packet| == HASH_OFFSET + 24 && h < 0x8000_0000
    requires Raw(AddLength(0, 192), Words(packet[HASH_OFFSET..], 6)) == h
    ensures PacketHash(packet) == h
  {
    var data := packet[HASH_OFFSET..];
    BitsFit(|data| * 8);
    RecordHashOf(data, (|data| * 8) % 0x1_0000_0000, h);
  }

  lemma BitsFit(bits: nat)
    requires bits < 0x1_0000_0000
    ensures bits % 0x1_0000_0000 == bits
  {}

  lemma RecordHashOf(data: seq<Byte>, bits: nat, h: Word)
    requires |data| == 24 && bits == 192 && h < 0x8000_0000
    requires Raw(AddLength(0, 192), Words(data, 6)) == h
    ensures RecordHash(data, bits) == h
  {
    NothingLeft(data, bits);
    assert bits / 32 == 6;
    assert RecordRaw(data, bits) == h;
  }

  /** Every recorded packet whose hash is below 2^31 is forgotten after two well-chosen
      packets. */
  lemma TwoPacketsErase(packet: seq<Byte>)
    requires |packet| >= ALLNET_HEADER_SIZE && PacketHash(packet) < 0x8000_0000
    ensures exists a: seq<Byte>, b: seq<Byte> ::
              && |a| >= ALLNET_HEADER_SIZE && |b| >= ALLNET_HEADER_SIZE
              && PacketHash(a) != PacketHash(packet) && PacketHash(b) != PacketHash(packet)
              && forall history: seq<Event>, t: int, t1: int, t2: int ::
                   !Remembered(history + [Event(PacketHash(packet), t), Event(PacketHash(a), t1),
                                          Event(PacketHash(b), t2)], PacketHash(packet))
  {
    var h := PacketHash(packet);
    RivalBounds(h);
    Rivals(h);
    var a := EveryHashReached(LeftRival(h));
    var b := EveryHashReached(RightRival(h));
    forall history: seq<Event>, t: int, t1: int, t2: int
      ensures !Remembered(history + [Event(h, t), Event(PacketHash(a), t1), Event(PacketHash(b), t2)], h)
    {
      TwoCompetitorsErase(history, h, t, t1, t2);
    }
  }

  /** What arrives at record_packet, and when. */
  datatype Recording = Recording(packet: seq<Byte>, time: int)

  // All long enough to be recorded, at nonzero times.
  ghost predicate Recordings(rs: seq<Recording>) {
    forall i :: 0 <= i < |rs| ==> |rs[i].packet| >= ALLNET_HEADER_SIZE && rs[i].time != 0
  }

  ghost function HistoryOf(rs: seq<Recording>): (history: seq<Event>)
    requires Recordings(rs)
    ensures |history| == |rs|
    ensures forall i :: 0 <= i < |rs| ==> history[i] == Event(PacketHash(rs[i].packet), rs[i].time)
  {
    seq(|rs|, i requires 0 <= i < |rs| => Event(PacketHash(rs[i].packet), rs[i].time))
  }

  ghost predicate Forgotten(rs: seq<Recording>, packet: seq<Byte>)
    requires |packet| >= ALLNET_HEADER_SIZE
  {
    && Recordings(rs) && (exists i :: 0 <= i < |rs| && rs[i].packet == packet)
    && !Remembered(HistoryOf(rs), PacketHash(packet))
  }

  lemma PacketHashAtMost(packet: seq<Byte>)
    requires |packet| >= ALLNET_HEADER_SIZE
    ensures PacketHash(packet) <= 0x8000_0000
  {
    AbsoluteValueAtMost(RecordRaw(packet[HASH_OFFSET..], (|packet[HASH_OFFSET..]| * 8) % 0x1_0000_0000));
  }

  lemma AbsoluteValueAtMost(x: Word)
    ensures AbsoluteValue(x) <= 0x8000_0000
  {}

  // No other absolute value has the left position of 2^31.
  lemma TopHashAlone(g: Word)
    requires g <= 0x8000_0000 && LeftHash(g) == LeftHash(0x8000_0000)
    ensures g == 0x8000_0000
  {}

  lemma TopSlotAlone(g: Word)
    requires g <= 0x8000_0000 && LeftIndex(g) == LeftIndex(0x8000_0000)
    ensures g == 0x8000_0000
  {
    NarrowInjective(LeftHash(g), LeftHash(0x8000_0000));
    TopHashAlone(g);
  }

  lemma TopHashRemembered(rs: seq<Recording>, packet: seq<Byte>, i: nat)
    requires Recordings(rs) && i < |rs| && rs[i].packet == packet && |packet| >= ALLNET_HEADER_SIZE
    requires PacketHash(packet) == 0x8000_0000
    ensures Remembered(HistoryOf(rs), PacketHash(packet))
  {
    var history, h := HistoryOf(rs), PacketHash(packet);
    assert history[i].hash == h;
    var k := LastRecording(history, h);
    forall j | k < j < |history| ensures LeftIndex(history[j].hash) != LeftIndex(h) {
      PacketHashAtMost(rs[j].packet);
      if LeftIndex(history[j].hash) == LeftIndex(h) {
        TopSlotAlone(history[j].hash);
      }
    }
  }

  lemma CanBeForgotten(packet: seq<Byte>) returns (rs: seq<Recording>)
    requires |packet| >= ALLNET_HEADER_SIZE && PacketHash(packet) < 0x8000_0000
    ensures Forgotten(rs, packet)
  {
    var h := PacketHash(packet);
    RivalBounds(h);
    var a := EveryHashReached(LeftRival(h));
    var b := EveryHashReached(RightRival(h));
    rs := ThreeRecordings(packet, a, b);
    TwoCompetitorsErase([], h, 1, 1, 1);
    assert [] + HistoryOf(rs) == HistoryOf(rs);
  }

  lemma ThreeRecordings(a: seq<Byte>, b: seq<Byte>, c: seq<Byte>) returns (rs: seq<Recording>)
    requires |a| >= ALLNET_HEADER_SIZE && |b| >= ALLNET_HEADER_SIZE && |c| >= ALLNET_HEADER_SIZE
    ensures Recordings(rs) && exists i :: 0 <= i < |rs| && rs[i].packet == a
    ensures HistoryOf(rs) == [Event(PacketHash(a), 1), Event(PacketHash(b), 1), Event(PacketHash(c), 1)]
  {
    rs := [Recording(a, 1), Recording(b, 1), Recording(c, 1)];
    assert rs[0].packet == a;
  }

  /** A recorded packet can be forgotten exactly when its hash is below 2^31. */
  lemma ForgottenIff(packet: seq<Byte>)
    requires |packet| >= ALLNET_HEADER_SIZE
    ensures (exists rs: seq<Recording> :: Forgotten(rs, packet)) <==> PacketHash(packet) < 0x8000_0000
  {
    PacketHashAtMost(packet);
    if PacketHash(packet) < 0x8000_0000 {
      var rs := CanBeForgotten(packet);
    } else if rs: seq<Recording> :| Forgotten(rs, packet) {
      var i :| 0 <= i < |rs| && rs[i].packet == packet;
      TopHashRemembered(rs, packet, i);
    }
  }

  // ---------- the code ----------

  class Recorder {
    const hash1: array<Entry>
    const hash2: array<Entry>
    ghost var history: seq<Event>

    ghost predicate Valid()
      reads this, hash1, hash2
    {
      && hash1 != hash2
      && hash1.Length == ENTRIES_PER_TABLE && hash2.Length == ENTRIES_PER_TABLE
      && (forall i: Index :: hash1[Slot(i)] == LeftEntry(history, i))
      && (forall i: Index :: hash2[Slot(i)] == RightEntry(history, i))
    }

    constructor ()
      ensures Valid() && history == []
      ensures fresh(hash1) && fresh(hash2)
    {
      hash1 := new Entry[ENTRIES_PER_TABLE](_ => Entry(0, 0));
      hash2 := new Entry[ENTRIES_PER_TABLE](_ => Entry(0, 0));
      history := [];
    }

    method StoreLeft(hash: Word, now: int)
      requires hash1.Length == ENTRIES_PER_TABLE
      requires forall i: Index :: hash1[Slot(i)] == LeftEntry(history, i)
      modifies hash1
      ensures forall i: Index :: hash1[Slot(i)] == LeftEntry(history + [Event(hash, now)], i)
    {
      hash1[Slot(LeftIndex(hash))] := Entry(hash, now);
      ghost var longer := history + [Event(hash, now)];
      assert longer[..|history|] == history;
      forall i: Index ensures hash1[Slot(i)] == LeftEntry(longer, i) {
        if Slot(i) == Slot(LeftIndex(hash)) {
          SlotInjective(i, LeftIndex(hash));
        }
      }
    }

    method StoreRight(hash: Word, now: int)
      requires hash2.Length == ENTRIES_PER_TABLE
      requires forall i: Index :: hash2[Slot(i)] == RightEntry(history, i)
      modifies hash2
      ensures forall i: Index :: hash2[Slot(i)] == RightEntry(history + [Event(hash, now)], i)
    {
      hash2[Slot(RightIndex(hash))] := Entry(hash, now);
      ghost var longer := history + [Event(hash, now)];
      assert longer[..|history|] == history;
      forall i: Index ensures hash2[Slot(i)] == RightEntry(longer, i) {
        if Slot(i) == Slot(RightIndex(hash)) {
          SlotInjective(i, RightIndex(hash));
        }
      }
    }

    /** Answers from the history before this packet, and adds this packet to it. */
    method RecordPacket(packet: Option<seq<Byte>>, now: int) returns (seen: nat)
      requires Valid()
      modifies this, hash1, hash2
      ensures Valid()
      ensures if packet.None? || |packet.value| < ALLNET_HEADER_SIZE then
                seen == 1 && history == old(history)
              else
                && seen == Answer(old(history), PacketHash(packet.value), now)
                && history == old(history) + [Event(PacketHash(packet.value), now)]
    {
      if packet.None? || |packet.value| < ALLNET_HEADER_SIZE {
        return 1;
      }
      var data := packet.value[HASH_OFFSET..];
      var hash := SimpleHash(data, (|data| * 8) % 0x1_0000_0000);
      var leftTime := GetHashTime(hash1[Slot(LeftIndex(hash))], hash, now);
      var rightTime := GetHashTime(hash2[Slot(RightIndex(hash))], hash, now);
      TablesRefineHistory(history, hash, now);

      StoreLeft(hash, now);
      StoreRight(hash, now);
      history := history + [Event(hash, now)];

      if leftTime == 0 {
        return rightTime;
      }
      if rightTime == 0 {
        return leftTime;
      }
      if leftTime > rightTime {
        return rightTime;
      }
      return leftTime;
    }
  }
}
