/** hash.c: the one allocation of a hash table. It starts with the entries, each an 8-byte next
    pointer and the entry's data; behind the room for all entries is the array of buckets, each
    an 8-byte pointer to its first entry. Pointers are addresses, stored with the least
    significant byte first. */
module Arena {
  import opened Bytes

  const NULL: nat := 0
  const POINTER_SIZE: nat := 8   // also the size of an entry without its data

  // ---------- pointers in memory ----------

  // How many numbers k bytes can hold.
  function Range(k: nat): nat {
    if k == 0 then 1 else 256 * Range(k - 1)
  }

  const ADDRESSES: nat := Range(POINTER_SIZE)

  function NumberBytes(x: nat, k: nat): (s: seq<Byte>)
    ensures |s| == k
  {
    if k == 0 then [] else [(x % 256) as Byte] + NumberBytes(x / 256, k - 1)
  }

  function NumberOf(s: seq<Byte>): nat {
    if s == [] then 0 else s[0] as int + 256 * NumberOf(s[1..])
  }

  lemma ByteValue(x: nat)
    requires x < 256
    ensures (x as Byte) as int == x
  {
    assert x % 256 == x;
  }

  lemma {:induction false} NumberRoundTrip(x: nat, k: nat)
    requires x < Range(k)
    ensures NumberOf(NumberBytes(x, k)) == x
  {
    if k > 0 {
      assert NumberBytes(x, k)[1..] == NumberBytes(x / 256, k - 1);
      NumberRoundTrip(x / 256, k - 1);
      ByteValue(x % 256);
    }
  }

  // A pointer as it is stored.
  function PointerBytes(p: nat): (s: seq<Byte>)
    ensures |s| == POINTER_SIZE
  {
    NumberBytes(p, POINTER_SIZE)
  }

  /** A stored address reads back. */
  lemma PointerRoundTrip(p: nat)
    requires p < ADDRESSES
    ensures NumberOf(PointerBytes(p)) == p
  {
    NumberRoundTrip(p, POINTER_SIZE);
  }

  // The pointer stored at a place of memory.
  function PointerAt(memory: seq<Byte>, at: nat): nat
    requires at + POINTER_SIZE <= |memory|
  {
    NumberOf(memory[at..at + POINTER_SIZE])
  }

  // memory with data copied to at, as memcpy does.
  function Written(memory: seq<Byte>, at: nat, data: seq<Byte>): (r: seq<Byte>)
    requires at + |data| <= |memory|
    ensures |r| == |memory|
    ensures forall j :: 0 <= j < |memory| ==> r[j] == if at <= j < at + |data| then data[j - at] else memory[j]
  {
    memory[..at] + data + memory[at + |data|..]
  }

  // ---------- the parts of the allocation ----------

  function EntrySize(userBytes: nat): (size: nat)
    ensures size % 8 == 0 && POINTER_SIZE + userBytes <= size < POINTER_SIZE + userBytes + 8
  {
    var needed := POINTER_SIZE + userBytes;
    if needed % 8 != 0 then needed + (8 - needed % 8) else needed
  }

  /** Where entry k starts: k * size. */
  function Offset(k: nat, size: nat): nat {
    if k == 0 then 0 else Offset(k - 1, size) + size
  }

  lemma {:induction false} OffsetProduct(k: nat, size: nat)
    ensures Offset(k, size) == k * size
  {
    if k > 0 {
      OffsetProduct(k - 1, size);
    }
  }

  /** Entries do not overlap; with k the number of entries, entry j ends below the buckets. */
  lemma {:induction false} OffsetsApart(j: nat, k: nat, size: nat)
    requires j < k
    ensures Offset(j, size) + size <= Offset(k, size)
    decreases k
  {
    if j + 1 < k {
      OffsetsApart(j, k - 1, size);
    }
  }

  /** An allocation at address start with n entries of size bytes and n buckets. */
  datatype Layout = Layout(start: nat, size: nat, userBytes: nat, n: nat) {
    function TableStart(): nat {
      Offset(n, size)
    }

    function Total(): nat {
      Offset(n, size) + POINTER_SIZE * n
    }

    // Where bucket b is.
    function HeadOffset(b: nat): nat {
      Offset(n, size) + POINTER_SIZE * b
    }

    // The address of entry k; no entry is NULL.
    function Address(k: int): nat {
      if k < 0 then NULL else start + Offset(k, size)
    }
  }

  predicate ValidLayout(l: Layout) {
    l.size == EntrySize(l.userBytes) && NULL < l.start && l.start + l.Total() <= ADDRESSES
  }

  /** What the allocation consists of: the next field and the data of each entry, and the heads
      of the buckets. */
  datatype Part = Next(k: nat) | Data(k: nat) | Head(b: nat)

  predicate PartOf(l: Layout, p: Part) {
    match p
    case Next(k) => k < l.n
    case Data(k) => k < l.n
    case Head(b) => b < l.n
  }

  function From(l: Layout, p: Part): nat {
    match p
    case Next(k) => Offset(k, l.size)
    case Data(k) => Offset(k, l.size) + POINTER_SIZE
    case Head(b) => l.HeadOffset(b)
  }

  function Size(l: Layout, p: Part): nat {
    if p.Data? then l.userBytes else POINTER_SIZE
  }

  function Upto(l: Layout, p: Part): nat {
    From(l, p) + Size(l, p)
  }

  /** Every part is inside the allocation. */
  lemma PartInside(l: Layout, p: Part)
    requires ValidLayout(l) && PartOf(l, p)
    ensures Upto(l, p) <= l.Total()
    ensures !p.Head? ==> Upto(l, p) <= l.TableStart()
  {
    if !p.Head? {
      OffsetsApart(p.k, l.n, l.size);
    }
  }

  /** No two parts overlap: neither two entries, nor the next field and the data of one entry,
      nor an entry and the buckets, nor two buckets. */
  lemma PartsApart(l: Layout, p: Part, q: Part)
    requires ValidLayout(l) && PartOf(l, p) && PartOf(l, q) && p != q
    ensures Upto(l, p) <= From(l, q) || Upto(l, q) <= From(l, p)
  {
    PartInside(l, p);
    PartInside(l, q);
    if !p.Head? && !q.Head? {
      if p.k < q.k {
        OffsetsApart(p.k, q.k, l.size);
      } else if q.k < p.k {
        OffsetsApart(q.k, p.k, l.size);
      }
    }
  }

  /** The bytes of a part. */
  function Content(memory: seq<Byte>, l: Layout, p: Part): (s: seq<Byte>)
    requires ValidLayout(l) && PartOf(l, p) && |memory| == l.Total()
    ensures |s| == Size(l, p)
  {
    PartInside(l, p);
    memory[From(l, p)..Upto(l, p)]
  }

  /** Writing to one part changes no other part. */
  lemma WriteKeepsOthers(memory: seq<Byte>, l: Layout, p: Part, data: seq<Byte>, q: Part)
    requires ValidLayout(l) && PartOf(l, p) && PartOf(l, q) && |memory| == l.Total() && p != q
    requires |data| <= Size(l, p)
    ensures From(l, p) + |data| <= |memory|
    ensures Content(Written(memory, From(l, p), data), l, q) == Content(memory, l, q)
  {
    PartInside(l, p);
    PartInside(l, q);
    PartsApart(l, p, q);
    WriteKeepsRange(memory, From(l, p), data, From(l, q), Upto(l, q));
  }

  lemma WriteKeepsRange(memory: seq<Byte>, at: nat, data: seq<Byte>, from: nat, upto: nat)
    requires at + |data| <= |memory| && from <= upto <= |memory|
    requires upto <= at || at + |data| <= from
    ensures Written(memory, at, data)[from..upto] == memory[from..upto]
  {}

  lemma WriteReadsBack(memory: seq<Byte>, l: Layout, p: Part, data: seq<Byte>)
    requires ValidLayout(l) && PartOf(l, p) && |memory| == l.Total() && |data| <= Size(l, p)
    ensures From(l, p) + |data| <= |memory|
    ensures Content(Written(memory, From(l, p), data), l, p)[..|data|] == data
  {
    PartInside(l, p);
    var after := Written(memory, From(l, p), data);
    assert after[From(l, p)..From(l, p) + |data|] == data;
    assert Content(after, l, p)[..|data|] == after[From(l, p)..From(l, p) + |data|];
  }

  // ---------- the items, in the order they were added ----------

  datatype Item = Item(bucket: nat, data: seq<Byte>)

  /** The latest of the first m items that belongs to bucket b, or -1. */
  function Latest(items: seq<Item>, m: nat, b: nat): (k: int)
    requires m <= |items|
    ensures -1 <= k < m
    ensures k >= 0 ==> items[k].bucket == b
    ensures forall j :: k < j < m ==> items[j].bucket != b
  {
    if m == 0 then -1
    else if items[m - 1].bucket == b then m - 1
    else Latest(items, m - 1, b)
  }

  // Later items do not change which of the first m is the latest.
  lemma {:induction false} LatestPrefix(items: seq<Item>, more: seq<Item>, m: nat, b: nat)
    requires m <= |items|
    ensures Latest(items + more, m, b) == Latest(items, m, b)
  {
    if m > 0 {
      LatestPrefix(items, more, m - 1, b);
    }
  }

  // The parts in use: all buckets, and the entries of the items.
  predicate Live(l: Layout, items: seq<Item>, p: Part) {
    match p
    case Next(k) => k < |items|
    case Data(k) => k < |items|
    case Head(b) => b < l.n
  }

  /** The item that a bucket or entry must point to: a bucket to its latest item, an entry to
      the item before it in its bucket. */
  function Pointed(l: Layout, items: seq<Item>, p: Part): (k: int)
    requires Live(l, items, p) && !p.Data?
    ensures -1 <= k < |items|
  {
    match p
    case Next(k) => Latest(items, k, items[k].bucket)
    case Head(b) => Latest(items, |items|, b)
  }

  /** What a part in use must contain. */
  function Expected(l: Layout, items: seq<Item>, p: Part): seq<Byte>
    requires Live(l, items, p)
  {
    if p.Data? then items[p.k].data else PointerBytes(l.Address(Pointed(l, items, p)))
  }

  /** The allocation holds the items: their data, and their chains. */
  ghost predicate HoldsItems(memory: seq<Byte>, l: Layout, items: seq<Item>) {
    && ValidLayout(l) && |memory| == l.Total() && |items| <= l.n
    && forall p :: Live(l, items, p) ==> Content(memory, l, p) == Expected(l, items, p)
  }

  // Addresses of entries fit a pointer.
  lemma AddressFits(l: Layout, k: int)
    requires ValidLayout(l) && k < l.n
    ensures l.Address(k) < ADDRESSES
    ensures k >= 0 ==> l.Address(k) + l.size <= l.start + l.TableStart()
  {
    if k >= 0 {
      OffsetsApart(k, l.n, l.size);
    }
    AddressSpace();
  }

  lemma AddressSpace()
    ensures ADDRESSES == 0x1_0000_0000_0000_0000
  {
    assert Range(4) == 0x1_0000_0000;
  }

  /** The pointer in a next field or a bucket reads back. */
  lemma PointerHeld(memory: seq<Byte>, l: Layout, items: seq<Item>, p: Part)
    requires HoldsItems(memory, l, items) && Live(l, items, p) && !p.Data?
    ensures Upto(l, p) <= |memory|
    ensures PointerAt(memory, From(l, p)) == l.Address(Pointed(l, items, p))
  {
    var k := Pointed(l, items, p);
    PartInside(l, p);
    AddressFits(l, k);
    PointerRoundTrip(l.Address(k));
    assert Content(memory, l, p) == PointerBytes(l.Address(k));
  }

  /** The memory after the three writes of hash_add: the next field and the data of entry k,
      and bucket b. */
  function Added(memory: seq<Byte>, l: Layout, k: nat, b: nat, data: seq<Byte>): (r: seq<Byte>)
    requires ValidLayout(l) && k < l.n && b < l.n && |memory| == l.Total() && |data| <= l.userBytes
    ensures |r| == |memory|
  {
    PartInside(l, Next(k));
    PartInside(l, Data(k));
    PartInside(l, Head(b));
    var linked := Written(memory, From(l, Next(k)), PointerBytes(PointerAt(memory, From(l, Head(b)))));
    var filled := Written(linked, From(l, Data(k)), data);
    Written(filled, From(l, Head(b)), PointerBytes(l.Address(k)))
  }

  // The three writes change three parts.
  lemma AddedContent(memory: seq<Byte>, l: Layout, k: nat, b: nat, data: seq<Byte>, p: Part)
    requires ValidLayout(l) && k < l.n && b < l.n && |memory| == l.Total() && |data| <= l.userBytes
    requires PartOf(l, p)
    ensures Upto(l, Head(b)) <= |memory|
    ensures var after := Content(Added(memory, l, k, b, data), l, p);
            if p == Next(k) then after == PointerBytes(PointerAt(memory, From(l, Head(b))))
            else if p == Data(k) then after[..|data|] == data
            else if p == Head(b) then after == PointerBytes(l.Address(k))
            else after == Content(memory, l, p)
  {
    PartInside(l, Next(k));
    PartInside(l, Data(k));
    PartInside(l, Head(b));
    var first := PointerBytes(PointerAt(memory, From(l, Head(b))));
    var linked := Written(memory, From(l, Next(k)), first);
    var filled := Written(linked, From(l, Data(k)), data);
    WriteContent(memory, l, Next(k), first, p);
    WriteContent(linked, l, Data(k), data, p);
    WriteContent(filled, l, Head(b), PointerBytes(l.Address(k)), p);
  }

  lemma WriteContent(memory: seq<Byte>, l: Layout, p: Part, data: seq<Byte>, q: Part)
    requires ValidLayout(l) && PartOf(l, p) && PartOf(l, q) && |memory| == l.Total() && |data| <= Size(l, p)
    ensures From(l, p) + |data| <= |memory|
    ensures var after := Content(Written(memory, From(l, p), data), l, q);
            if p == q then after[..|data|] == data else after == Content(memory, l, q)
  {
    if p == q {
      WriteReadsBack(memory, l, p, data);
    } else {
      WriteKeepsOthers(memory, l, p, data, q);
    }
  }

  /** The three writes of hash_add turn an allocation that holds items into one that also holds
      a new item, at the head of the chain of its bucket. */
  lemma AddHoldsItem(memory: seq<Byte>, l: Layout, items: seq<Item>, b: nat, data: seq<Byte>) returns (item: Item)
    requires HoldsItems(memory, l, items) && |items| < l.n && b < l.n && |data| <= l.userBytes
    ensures item.bucket == b && |item.data| == l.userBytes && item.data[..|data|] == data
    ensures HoldsItems(Added(memory, l, |items|, b, data), l, items + [item])
  {
    var after := Added(memory, l, |items|, b, data);
    AddedContent(memory, l, |items|, b, data, Data(|items|));
    item := Item(b, Content(after, l, Data(|items|)));
    forall p | Live(l, items + [item], p)
      ensures Content(after, l, p) == Expected(l, items + [item], p)
    {
      AddedContent(memory, l, |items|, b, data, p);
      ExpectedAfter(memory, l, items, item, p);
    }
  }

  // What the parts must contain after one more item, by what they contain before.
  lemma ExpectedAfter(memory: seq<Byte>, l: Layout, items: seq<Item>, item: Item, p: Part)
    requires HoldsItems(memory, l, items) && |items| < l.n && item.bucket < l.n
    requires Live(l, items + [item], p)
    ensures Upto(l, Head(item.bucket)) <= |memory|
    ensures Expected(l, items + [item], p)
            == if p == Next(|items|) then PointerBytes(PointerAt(memory, From(l, Head(item.bucket))))
               else if p == Data(|items|) then item.data
               else if p == Head(item.bucket) then PointerBytes(l.Address(|items|))
               else Content(memory, l, p)
  {
    PointerHeld(memory, l, items, Head(item.bucket));
    if p.Head? {
      LatestPrefix(items, [item], |items|, p.b);
    } else if p.Next? {
      LatestPrefix(items, [item], p.k, (items + [item])[p.k].bucket);
    }
    assert p != Next(|items|) && p != Data(|items|) ==> Live(l, items, p);
  }

  // ---------- what the chains are ----------

  /** The entries met by following the next fields from entry. */
  function Chain(memory: seq<Byte>, l: Layout, entry: nat): seq<nat>
    decreases entry
  {
    if l.start <= entry && entry - l.start + POINTER_SIZE <= |memory| && PointerAt(memory, entry - l.start) < entry
    then [entry] + Chain(memory, l, PointerAt(memory, entry - l.start))
    else []
  }

  /** The addresses of those of the first m items that belong to bucket b, latest first. */
  function BucketAddresses(l: Layout, items: seq<Item>, m: nat, b: nat): seq<nat>
    requires m <= |items|
  {
    if m == 0 then []
    else if items[m - 1].bucket == b then [l.Address(m - 1)] + BucketAddresses(l, items, m - 1, b)
    else BucketAddresses(l, items, m - 1, b)
  }

  /** A next field leads to a strictly lower address, or is NULL. */
  lemma NextGoesDown(memory: seq<Byte>, l: Layout, items: seq<Item>, k: nat)
    requires HoldsItems(memory, l, items) && k < |items|
    ensures Upto(l, Next(k)) <= |memory| && PointerAt(memory, From(l, Next(k))) < l.Address(k)
    ensures PointerAt(memory, From(l, Next(k))) == l.Address(Latest(items, k, items[k].bucket))
  {
    PointerHeld(memory, l, items, Next(k));
    var j := Latest(items, k, items[k].bucket);
    if j >= 0 {
      OffsetsApart(j, k, l.size);
    }
  }

  lemma {:induction false} ChainStep(memory: seq<Byte>, l: Layout, k: nat)
    requires Offset(k, l.size) + POINTER_SIZE <= |memory|
    requires PointerAt(memory, Offset(k, l.size)) < l.Address(k)
    ensures Chain(memory, l, l.Address(k))
            == [l.Address(k)] + Chain(memory, l, PointerAt(memory, Offset(k, l.size)))
  {}

  lemma {:induction false} ChainFromLatest(memory: seq<Byte>, l: Layout, items: seq<Item>, m: nat, b: nat)
    requires HoldsItems(memory, l, items) && m <= |items|
    ensures Chain(memory, l, l.Address(Latest(items, m, b))) == BucketAddresses(l, items, m, b)
  {
    if m > 0 {
      ChainFromLatest(memory, l, items, m - 1, b);
      if items[m - 1].bucket == b {
        NextGoesDown(memory, l, items, m - 1);
        ChainStep(memory, l, m - 1);
      }
    }
  }

  lemma {:induction false} InBucketAddresses(l: Layout, items: seq<Item>, m: nat, b: nat, k: nat)
    requires m <= |items| && k < |items| && l.size > 0
    ensures l.Address(k) in BucketAddresses(l, items, m, b) <==> k < m && items[k].bucket == b
  {
    if m > 0 {
      InBucketAddresses(l, items, m - 1, b, k);
      if k < m - 1 {
        OffsetsApart(k, m - 1, l.size);
      } else if m - 1 < k {
        OffsetsApart(m - 1, k, l.size);
      }
    }
  }

  /** Following the pointers from bucket b through memory meets the entries of the items of that
      bucket, latest first, and no others: every entry is in exactly one chain, that of its own
      bucket. */
  lemma ChainsPartitionEntries(memory: seq<Byte>, l: Layout, items: seq<Item>, b: nat)
    requires HoldsItems(memory, l, items) && b < l.n
    ensures l.HeadOffset(b) + POINTER_SIZE <= |memory|
    ensures var chain := Chain(memory, l, PointerAt(memory, l.HeadOffset(b)));
            && chain == BucketAddresses(l, items, |items|, b)
            && forall k :: 0 <= k < |items| ==> (l.Address(k) in chain <==> items[k].bucket == b)
  {
    PointerHeld(memory, l, items, Head(b));
    ChainFromLatest(memory, l, items, |items|, b);
    forall k | 0 <= k < |items|
      ensures l.Address(k) in BucketAddresses(l, items, |items|, b) <==> items[k].bucket == b
    {
      InBucketAddresses(l, items, |items|, b, k);
    }
  }

  // All buckets empty: the allocation holds no items, whatever its other bytes are.
  lemma EmptyBuckets(memory: seq<Byte>, l: Layout)
    requires ValidLayout(l) && |memory| == l.Total()
    requires forall b :: 0 <= b < l.n ==> Content(memory, l, Head(b)) == PointerBytes(NULL)
    ensures HoldsItems(memory, l, [])
  {
    forall p | Live(l, [], p) ensures Content(memory, l, p) == Expected(l, [], p) {
      assert p == Head(p.b);
    }
  }
}
