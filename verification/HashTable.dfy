/** hash.c: keys and lookups, and the chained hash table carved out of one allocation, whose
    memory module Arena describes. */
module HashTable {
  import opened Bytes
  import opened Common
  import opened Arena

  // ---------- keys and buckets ----------

  // How many leading bytes get32bits looks at.
  function KeyBytes(bits: nat): nat {
    if bits >= 32 then 4 else bits / 8
  }

  /** get32bits before the sign is dropped, as an unsigned number. The shifted bytes do not
      overlap, so that or-ing them together adds them up. */
  function RawKey(s: seq<Byte>, bits: nat): (raw: nat)
    requires KeyBytes(bits) <= |s|
    ensures raw < 0x1_0000_0000
  {
    if bits >= 32 then
      0x100_0000 * (s[0] as int) + 0x1_0000 * (s[1] as int) + 0x100 * (s[2] as int) + (s[3] as int)
    else
      (if bits >= 8 then 0x100_0000 * (s[0] as int) else 0)
      + (if bits >= 16 then 0x1_0000 * (s[1] as int) else 0)
      + (if bits >= 24 then 0x100 * (s[2] as int) else 0)
  }

  // Negating the least int, -2^31, is undefined; callers may not ask for it.
  predicate KeyDefined(s: seq<Byte>, bits: nat)
    requires KeyBytes(bits) <= |s|
  {
    RawKey(s, bits) != 0x8000_0000
  }

  /** get32bits: the absolute value of the 32-bit two's complement number. */
  function Get32Bits(s: seq<Byte>, bits: nat): nat
    requires KeyBytes(bits) <= |s|
  {
    var result := RawKey(s, bits);
    if result >= 0x8000_0000 then 0x1_0000_0000 - result else result
  }

  lemma KeyOfPrefix(s: seq<Byte>, sbits: nat, t: seq<Byte>, tbits: nat)
    requires KeyBytes(sbits) == KeyBytes(tbits) <= |s| && KeyBytes(tbits) <= |t|
    requires s[..KeyBytes(sbits)] == t[..KeyBytes(sbits)]
    ensures Get32Bits(s, sbits) == Get32Bits(t, tbits)
    ensures KeyDefined(s, sbits) == KeyDefined(t, tbits)
  {
    var k := KeyBytes(sbits);
    assert forall i :: 0 <= i < k ==> s[i] == s[..k][i] && t[i] == t[..k][i];
  }

  // The first k bytes with the most significant first; missing ones are 0.
  function BigEndian(s: seq<Byte>, k: nat): nat
    requires k <= |s|
  {
    if k == 0 then 0 else 256 * BigEndian(s, k - 1) + (s[k - 1] as int)
  }

  /** get32bits reads up to four whole bytes of the given bits, the most significant first, and puts
      zeros behind them; of this 32-bit two's complement number it gives the absolute value. */
  lemma KeyIs(s: seq<Byte>, bits: nat, k: nat)
    requires k <= 4 && k <= |s| && 8 * k <= bits && (k < 4 ==> bits < 8 * k + 8)
    ensures KeyBytes(bits) == k
    ensures var x := BigEndian(s[..k] + [0, 0, 0, 0][k..], 4);
            && (x < 0x8000_0000 ==> Get32Bits(s, bits) == x)
            && (x >= 0x8000_0000 ==> Get32Bits(s, bits) == 0x1_0000_0000 - x)
            && (KeyDefined(s, bits) <==> x != 0x8000_0000)
  {
    var padded := s[..k] + [0, 0, 0, 0][k..];
    FourBytes(padded);
    assert RawKey(s, bits) == RawKey(padded, 32);
  }

  lemma FourBytes(s: seq<Byte>)
    requires |s| == 4
    ensures BigEndian(s, 4) == RawKey(s, 32)
  {
    assert BigEndian(s, 1) == s[0] as int;
    assert BigEndian(s, 2) == 256 * (s[0] as int) + (s[1] as int);
    assert BigEndian(s, 3) == 0x1_0000 * (s[0] as int) + 256 * (s[1] as int) + (s[2] as int);
  }

  /** The bucket is what is left of the key after taking away the number of entries as often as it
      goes into it. */
  lemma BucketIs(hash: nat, n: nat, b: nat, times: nat)
    requires n > 0 && b < n && hash == n * times + b
    ensures Bucket(hash, n) == b
  {
    var q, r := hash / n, hash % n;
    assert hash == n * q + r;
    if q < times {
      OneTimesMore(n, q, times);
    } else if times < q {
      OneTimesMore(n, times, q);
    }
  }

  function Bucket(hash: nat, n: nat): (b: nat)
    requires n > 0
    ensures b < n
  {
    hash % n
  }

  // ---------- lookups ----------

  /** data agrees with the first bits of q, as far as there is data. */
  ghost predicate Agree(data: seq<Byte>, q: seq<Byte>, bits: nat)
    requires bits <= 8 * |q|
  {
    forall i :: 0 <= i < bits && i < 8 * |data| ==> BitAt(data, i) == BitAt(q, i)
  }

  /** To agree with a query of fewer bits is to have it as a prefix, and to agree with a longer
      one is to be a prefix of it. */
  lemma AgreeMeans(data: seq<Byte>, q: seq<Byte>, bits: nat)
    requires bits <= 8 * |q|
    ensures bits <= 8 * |data| ==> (Agree(data, q, bits) <==> PrefixAgree(data, q, bits))
    ensures bits >= 8 * |data| ==> (Agree(data, q, bits) <==> data == q[..|data|])
  {
    if bits >= 8 * |data| {
      WholeBytes(data, q, |data|);
      assert data[..|data|] == data;
      assert Agree(data, q, bits) <==> PrefixAgree(data, q, 8 * |data|);
    }
  }

  /** An item of bucket b whose data agrees with q. */
  ghost predicate Matches(item: Item, b: nat, q: seq<Byte>, bits: nat)
    requires bits <= 8 * |q|
  {
    item.bucket == b && Agree(item.data, q, bits)
  }

  // How many bits the code compares.
  function ComparedBits(userBytes: nat, bits: nat): nat {
    if bits > 8 * userBytes then 8 * userBytes else bits
  }

  /** What a lookup answers, on the items alone. */
  ghost predicate Found(items: seq<Item>, n: nat, q: seq<Byte>, bits: nat)
    requires n > 0 && bits <= 8 * |q|
  {
    var b := Bucket(Get32Bits(q, bits), n);
    exists k :: 0 <= k < |items| && Matches(items[k], b, q, bits)
  }

  /** Every item is in the bucket of its own data. */
  ghost predicate OwnBuckets(items: seq<Item>, n: nat)
    requires n > 0
  {
    forall k :: 0 <= k < |items| ==> items[k].bucket == Bucket(Get32Bits(items[k].data, 8 * |items[k].data|), n)
  }

  // Data that agrees with a query has the same key bytes.
  lemma SameKey(data: seq<Byte>, q: seq<Byte>, bits: nat)
    requires bits <= 8 * |q| && KeyBytes(bits) == KeyBytes(8 * |data|)
    requires Agree(data, q, bits)
    ensures Get32Bits(data, 8 * |data|) == Get32Bits(q, bits)
  {
    var k := KeyBytes(bits);
    assert PrefixAgree(data, q, 8 * k);
    WholeBytes(data, q, k);
    KeyOfPrefix(data, 8 * |data|, q, bits);
  }

  ghost predicate AllOfSize(items: seq<Item>, userBytes: nat) {
    forall k :: 0 <= k < |items| ==> |items[k].data| == userBytes
  }

  /** The data of some item agrees with q. */
  ghost predicate SomeItemAgrees(items: seq<Item>, q: seq<Byte>, bits: nat)
    requires bits <= 8 * |q|
  {
    exists k :: 0 <= k < |items| && Agree(items[k].data, q, bits)
  }

  lemma SomeItemAgreesMeans(items: seq<Item>, userBytes: nat, q: seq<Byte>, bits: nat)
    requires bits <= 8 * |q| && AllOfSize(items, userBytes)
    ensures bits <= 8 * userBytes ==>
              (SomeItemAgrees(items, q, bits)
               <==> exists k :: 0 <= k < |items| && PrefixAgree(items[k].data, q, bits))
    ensures bits >= 8 * userBytes ==>
              (SomeItemAgrees(items, q, bits)
               <==> exists k :: 0 <= k < |items| && items[k].data == q[..userBytes])
  {
    forall k | 0 <= k < |items|
      ensures bits <= 8 * userBytes ==> (Agree(items[k].data, q, bits) <==> PrefixAgree(items[k].data, q, bits))
      ensures bits >= 8 * userBytes ==> (Agree(items[k].data, q, bits) <==> items[k].data == q[..userBytes])
    {
      AgreeMeans(items[k].data, q, bits);
    }
  }

  /** A lookup that uses as many key bytes as the entries have answers whether some entry
      agrees with q on the compared prefix: the table is a set of bit strings. */
  lemma LookupIsMembership(items: seq<Item>, n: nat, userBytes: nat, q: seq<Byte>, bits: nat)
    requires n > 0 && bits <= 8 * |q| && OwnBuckets(items, n)
    requires AllOfSize(items, userBytes)
    requires KeyBytes(bits) == KeyBytes(8 * userBytes)
    ensures Found(items, n, q, bits) <==> SomeItemAgrees(items, q, bits)
    ensures bits <= 8 * userBytes ==>
              (Found(items, n, q, bits) <==> exists k :: 0 <= k < |items| && PrefixAgree(items[k].data, q, bits))
    ensures bits >= 8 * userBytes ==>
              (Found(items, n, q, bits) <==> exists k :: 0 <= k < |items| && items[k].data == q[..userBytes])
  {
    AgreeingIsFound(items, n, userBytes, q, bits);
    SomeItemAgreesMeans(items, userBytes, q, bits);
  }

  lemma AgreeingIsFound(items: seq<Item>, n: nat, userBytes: nat, q: seq<Byte>, bits: nat)
    requires n > 0 && bits <= 8 * |q| && OwnBuckets(items, n)
    requires AllOfSize(items, userBytes)
    requires KeyBytes(bits) == KeyBytes(8 * userBytes)
    ensures Found(items, n, q, bits) <==> SomeItemAgrees(items, q, bits)
  {
    var b := Bucket(Get32Bits(q, bits), n);
    forall k | 0 <= k < |items| ensures Matches(items[k], b, q, bits) <==> Agree(items[k].data, q, bits) {
      if Agree(items[k].data, q, bits) {
        SameKey(items[k].data, q, bits);
      }
    }
  }

  // Zero bytes, except for a 1 in byte j.
  function OneAt(length: nat, j: nat): (s: seq<Byte>)
    ensures |s| == length
  {
    seq(length, i => if i == j then 1 else 0)
  }

  lemma OneAtBits(length: nat, j: nat, i: nat)
    requires i < 8 * length && i < 8 * j + 7
    ensures !BitAt(OneAt(length, j), i)
  {
    var s := OneAt(length, j);
    if i / 8 == j {
      assert i % 8 < 7;
      assert !Bit(1, i % 8);
    } else {
      assert s[i / 8] == 0 && !Bit(0, i % 8);
    }
  }

  lemma OneAtKey(length: nat, j: nat, bits: nat)
    requires KeyBytes(bits) <= length
    ensures Get32Bits(OneAt(length, j), bits) % 3 == if j < KeyBytes(bits) then 1 else 0
    ensures KeyDefined(OneAt(length, j), bits)
  {
    var s := OneAt(length, j);
    assert (1 as bv8) as int == 1 && (0 as bv8) as int == 0;
    assert RawKey(s, bits)
           == if j >= KeyBytes(bits) then 0
              else if j == 0 then 0x100_0000 else if j == 1 then 0x1_0000 else if j == 2 then 0x100 else 1;
  }

  /** A lookup that uses fewer or more key bytes than the entries have can miss an entry that
      agrees with it on the whole compared prefix. */
  lemma OtherKeysMiss(userBytes: nat, bits: nat) returns (data: seq<Byte>, q: seq<Byte>)
    requires KeyBytes(bits) != KeyBytes(8 * userBytes)
    ensures |data| == userBytes && bits <= 8 * |q|
    ensures KeyDefined(data, 8 * userBytes) && KeyDefined(q, bits)
    ensures Agree(data, q, bits)
    ensures !Found([Item(Bucket(Get32Bits(data, 8 * userBytes), 3), data)], 3, q, bits)
  {
    var length := (bits + 7) / 8;
    // the first byte that is used in only one of the two keys
    var j := if KeyBytes(bits) < KeyBytes(8 * userBytes) then KeyBytes(bits) else userBytes;
    if KeyBytes(bits) < KeyBytes(8 * userBytes) {
      data, q := OneAt(userBytes, j), OneAt(length, length);
      OneAtKey(userBytes, j, 8 * userBytes);
      OneAtKey(length, length, bits);
    } else {
      data, q := OneAt(userBytes, userBytes), OneAt(length, j);
      OneAtKey(userBytes, userBytes, 8 * userBytes);
      OneAtKey(length, j, bits);
    }
    forall i | 0 <= i < bits && i < 8 * |data| ensures BitAt(data, i) == BitAt(q, i) {
      OneAtBits(userBytes, if KeyBytes(bits) < KeyBytes(8 * userBytes) then j else userBytes, i);
      OneAtBits(length, if KeyBytes(bits) < KeyBytes(8 * userBytes) then length else j, i);
    }
  }

  // The same by the tests of the loop in hash_find.
  predicate Hit(item: Item, b: nat, q: seq<Byte>, bits: nat)
    requires bits <= 8 * |q|
  {
    && item.bucket == b
    && SamePrefix(item.data, q, ComparedBits(|item.data|, bits))
  }

  ghost predicate NoHitFrom(items: seq<Item>, m: nat, b: nat, q: seq<Byte>, bits: nat)
    requires bits <= 8 * |q|
  {
    forall j :: m <= j < |items| ==> !Hit(items[j], b, q, bits)
  }

  lemma FoundIffHit(items: seq<Item>, n: nat, q: seq<Byte>, bits: nat)
    requires n > 0 && bits <= 8 * |q|
    ensures Found(items, n, q, bits) <==> !NoHitFrom(items, 0, Bucket(Get32Bits(q, bits), n), q, bits)
  {
    var b := Bucket(Get32Bits(q, bits), n);
    forall k | 0 <= k < |items|
      ensures Matches(items[k], b, q, bits) <==> Hit(items[k], b, q, bits)
    {
      HitIffAgree(items[k].data, q, bits);
    }
  }

  lemma HitIffAgree(data: seq<Byte>, q: seq<Byte>, bits: nat)
    requires bits <= 8 * |q|
    ensures Agree(data, q, bits) <==> SamePrefix(data, q, ComparedBits(|data|, bits))
  {
    SplitPrefix(data, q, ComparedBits(|data|, bits));
    assert Agree(data, q, bits) <==> PrefixAgree(data, q, ComparedBits(|data|, bits));
  }

  lemma NoHitDown(items: seq<Item>, m: nat, b: nat, q: seq<Byte>, bits: nat)
    requires bits <= 8 * |q| && m < |items|
    requires NoHitFrom(items, m + 1, b, q, bits) && !Hit(items[m], b, q, bits)
    ensures NoHitFrom(items, m, b, q, bits)
  {}

  // Following the chain of bucket b skips only items that are not hit.
  lemma NextInChain(items: seq<Item>, m: nat, b: nat, q: seq<Byte>, bits: nat)
    requires m <= |items| && bits <= 8 * |q|
    requires NoHitFrom(items, m, b, q, bits)
    ensures NoHitFrom(items, Latest(items, m, b) + 1, b, q, bits)
  {}

  // ---------- adding ----------

  // What hash_add leaves in an entry: the data, cut to the size of an entry; the rest of a
  // longer entry is whatever was in memory.
  predicate Holds(item: Item, bucket: nat, data: seq<Byte>, userBytes: nat) {
    && item.bucket == bucket && |item.data| == userBytes
    && if |data| <= userBytes then item.data[..|data|] == data else item.data == data[..userBytes]
  }

  // ---------- how many entries fit ----------

  function TotalPerEntry(userBytes: nat): nat {
    EntrySize(userBytes) + POINTER_SIZE
  }

  /** As many entries as lines, or as many as the budget has room for. */
  function Capacity(entries: nat, userBytes: nat, maxBytes: nat): nat {
    var room := maxBytes / TotalPerEntry(userBytes);
    if entries < room then entries else room
  }

  // The code compares the needed bytes with the budget instead.
  lemma CapacityByBytes(entries: nat, userBytes: nat, maxBytes: nat)
    ensures var total := TotalPerEntry(userBytes);
            && Capacity(entries, userBytes, maxBytes)
               == (if total * entries > maxBytes then maxBytes / total else entries)
            && total * Capacity(entries, userBytes, maxBytes) <= maxBytes
  {
    var total, room := TotalPerEntry(userBytes), maxBytes / TotalPerEntry(userBytes);
    assert maxBytes == total * room + maxBytes % total;
    if entries <= room {
      MulMonotone(total, entries, room);
    } else {
      MulMonotone(total, room + 1, entries);
      assert total * (room + 1) == total * room + total;
    }
  }

  lemma SizeOfParts(n: nat, size: nat)
    ensures (size + POINTER_SIZE) * n == Offset(n, size) + POINTER_SIZE * n && n * size == Offset(n, size)
  {
    OffsetProduct(n, size);
  }

  ghost predicate Sized(items: seq<Item>, n: nat, userBytes: nat) {
    forall k :: 0 <= k < |items| ==> |items[k].data| == userBytes && items[k].bucket < n
  }

  /** bitcmp */
  function BitCmp(b1: Byte, b2: Byte, bits: nat): int
    requires bits < 8
  {
    if bits == 0 then 0
    else if ShiftRight(b1, 8 - bits) == ShiftRight(b2, 8 - bits) then 0
    else 1
  }

  // The bytes of a stretch of memory that holds data.
  lemma DataBytes(memory: seq<Byte>, at: nat, data: seq<Byte>, k: nat)
    requires at + |data| <= |memory| && memory[at..at + |data|] == data && k <= |data|
    ensures memory[at..at + k] == data[..k]
    ensures k < |data| ==> memory[at + k] == data[k]
  {
    assert memory[at..at + k] == memory[at..at + |data|][..k];
  }

  /** malloc returned an address from which the needed bytes fit the address space. */
  ghost predicate Allocated(address: nat, entries: nat, entryBytes: nat, maxBytes: nat) {
    address + TotalPerEntry(entryBytes) * Capacity(entries, entryBytes, maxBytes) <= ADDRESSES
  }

  method ReadPointer(memory: array<Byte>, at: nat) returns (pointer: nat)
    requires at + POINTER_SIZE <= memory.Length
    ensures pointer == PointerAt(memory[..], at)
  {
    assert memory[..][at..at + POINTER_SIZE] == memory[at..at + POINTER_SIZE];
    return NumberOf(memory[at..at + POINTER_SIZE]);
  }

  // memcpy
  method CopyTo(memory: array<Byte>, at: nat, data: seq<Byte>)
    requires at + |data| <= memory.Length
    modifies memory
    ensures memory[..] == Written(old(memory[..]), at, data)
  {
    forall i | 0 <= i < |data| {
      memory[at + i] := data[i];
    }
  }

  // The writes of hash_add on memory that holds items: afterwards it holds one item more.
  method InsertItem(memory: array<Byte>, ghost l: Layout, ghost items: seq<Item>, ghost b: nat,
                    at: nat, head: nat, entry: nat, data: seq<Byte>) returns (ghost item: Item)
    requires HoldsItems(memory[..], l, items) && |items| < l.n && b < l.n && |data| <= l.userBytes
    requires at == From(l, Next(|items|)) && head == From(l, Head(b)) && entry == l.Address(|items|)
    modifies memory
    ensures item.bucket == b && |item.data| == l.userBytes && item.data[..|data|] == data
    ensures HoldsItems(memory[..], l, items + [item])
  {
    item := AddHoldsItem(memory[..], l, items, b, data);
    Insert(memory, l, |items|, b, at, head, entry, data);
  }

  // The three writes: the next field, the data, and the bucket.
  method Insert(memory: array<Byte>, ghost l: Layout, ghost k: nat, ghost b: nat,
                at: nat, head: nat, entry: nat, data: seq<Byte>)
    requires ValidLayout(l) && memory.Length == l.Total() && k < l.n && b < l.n && |data| <= l.userBytes
    requires at == From(l, Next(k)) && head == From(l, Head(b)) && entry == l.Address(k)
    modifies memory
    ensures memory[..] == Added(old(memory[..]), l, k, b, data)
  {
    PartInside(l, Next(k));
    PartInside(l, Data(k));
    PartInside(l, Head(b));
    WriteEntry(memory, at, head, entry, data);
  }

  method WriteEntry(memory: array<Byte>, at: nat, head: nat, entry: nat, data: seq<Byte>)
    requires at + POINTER_SIZE + |data| <= memory.Length && head + POINTER_SIZE <= memory.Length
    modifies memory
    ensures memory[..]
            == var linked := Written(old(memory[..]), at, PointerBytes(PointerAt(old(memory[..]), head)));
               Written(Written(linked, at + POINTER_SIZE, data), head, PointerBytes(entry))
  {
    var first := ReadPointer(memory, head);
    CopyTo(memory, at, PointerBytes(first));
    CopyTo(memory, at + POINTER_SIZE, data);
    CopyTo(memory, head, PointerBytes(entry));
  }

  /** The pointers of a table whose memory holds the items: the buckets are behind the room for
      all entries, and the next entry to use is behind those in use. */
  ghost predicate Consistent(memory: seq<Byte>, l: Layout, table: nat, freeptr: nat, items: seq<Item>) {
    && 0 < l.n && HoldsItems(memory, l, items)
    && table == l.start + l.TableStart()
    && freeptr == l.start + Offset(|items|, l.size)
    && Sized(items, l.n, l.userBytes)
  }

  // The new allocation, with all buckets empty; tableStart is where they are.
  method EmptyTable(l: Layout, tableStart: nat) returns (memory: array<Byte>)
    requires ValidLayout(l) && l.n > 0 && tableStart == l.TableStart()
    ensures fresh(memory) && memory.Length == l.Total()
    ensures Consistent(memory[..], l, l.start + tableStart, l.start, [])
  {
    memory := new Byte[tableStart + POINTER_SIZE * l.n];
    for i := 0 to l.n
      invariant forall b :: 0 <= b < i ==> Content(memory[..], l, Head(b)) == PointerBytes(NULL)
    {
      ClearBucket(memory, l, i, tableStart + POINTER_SIZE * i);
    }
    EmptyBuckets(memory[..], l);
  }

  method ClearBucket(memory: array<Byte>, ghost l: Layout, ghost i: nat, at: nat)
    requires ValidLayout(l) && memory.Length == l.Total() && i < l.n && at == l.HeadOffset(i)
    requires forall b :: 0 <= b < i ==> Content(memory[..], l, Head(b)) == PointerBytes(NULL)
    modifies memory
    ensures forall b :: 0 <= b < i + 1 ==> Content(memory[..], l, Head(b)) == PointerBytes(NULL)
  {
    ghost var before := memory[..];
    PartInside(l, Head(i));
    CopyTo(memory, at, PointerBytes(NULL));
    forall b | 0 <= b < i + 1 ensures Content(memory[..], l, Head(b)) == PointerBytes(NULL) {
      WriteContent(before, l, Head(i), PointerBytes(NULL), Head(b));
    }
  }

  // There is room for one more entry exactly when not all are in use.
  lemma FullIff(memory: seq<Byte>, l: Layout, table: nat, freeptr: nat, items: seq<Item>)
    requires Consistent(memory, l, table, freeptr, items)
    ensures freeptr + l.size > table <==> |items| == l.n
  {
    if |items| < l.n {
      OffsetsApart(|items|, l.n, l.size);
    }
  }

  lemma ConsistentAppend(memory: seq<Byte>, memory': seq<Byte>, l: Layout, table: nat, freeptr: nat,
                         items: seq<Item>, item: Item)
    requires Consistent(memory, l, table, freeptr, items) && HoldsItems(memory', l, items + [item])
    requires item.bucket < l.n && |item.data| == l.userBytes
    ensures Consistent(memory', l, table, freeptr + l.size, items + [item])
  {}

  class HashTable {
    var numEntries: nat
    var userBytes: nat
    var bytesPerEntry: nat
    var storageSize: nat
    var storage: nat            // the address of the allocation
    var table: nat              // the address of the buckets
    var freeptr: nat            // the address of the next entry to use
    var memory: array?<Byte>    // the bytes of the allocation

    ghost var items: seq<Item>

    ghost function Plan(): Layout
      reads this
    {
      Layout(storage, bytesPerEntry, userBytes, numEntries)
    }

    ghost predicate Valid()
      reads this, memory
    {
      && (table == NULL <==> memory == null)
      && (memory == null ==> items == [] && numEntries == 0)
      && (memory != null ==>
            && storageSize == memory.Length
            && Consistent(memory[..], Plan(), table, freeptr, items))
    }

    /** init_hash_table */
    constructor ()
      ensures Valid() && memory == null && items == []
    {
      numEntries, userBytes, bytesPerEntry, storageSize := 0, 0, 0, 0;
      storage, table, freeptr := NULL, NULL, NULL;
      memory := null;
      items := [];
    }

    /** init_hash_table_size; address is what malloc returns, and what it returns is inside the
        address space. The product of the number of lines and the bytes per line must fit 32
        bits, and the budget must fit an int. */
    method InitSize(entries: nat, entryBytes: nat, maxBytes: nat, address: nat) returns (used: nat)
      requires Valid()
      requires TotalPerEntry(entryBytes) * entries < 0x1_0000_0000 && maxBytes < 0x8000_0000
      requires address != NULL ==> Allocated(address, entries, entryBytes, maxBytes)
      modifies this
      ensures Valid()
      ensures var n := Capacity(entries, entryBytes, maxBytes);
              if n == 0 || address == NULL then
                && used == 0 && unchanged(this)
              else
                && 0 < used == TotalPerEntry(entryBytes) * n <= maxBytes
                && items == [] && numEntries == n && userBytes == entryBytes && storageSize == used
                && storage == address && memory != null && fresh(memory)
    {
      var perEntry := EntrySize(entryBytes);
      var total := perEntry + POINTER_SIZE;
      var needed := total * entries;
      var n := entries;
      CapacityByBytes(entries, entryBytes, maxBytes);
      if needed > maxBytes {
        n := maxBytes / total;
        needed := total * n;
      }
      if n == 0 || address == NULL {
        return 0;
      }
      SizeOfParts(n, perEntry);
      Allocate(n, entryBytes, perEntry, n * perEntry, needed, address);
      return needed;
    }

    // The entries at the start of the new allocation, the buckets behind them.
    method Allocate(n: nat, entryBytes: nat, perEntry: nat, offset: nat, needed: nat, address: nat)
      requires n > 0 && ValidLayout(Layout(address, perEntry, entryBytes, n))
      requires needed == Layout(address, perEntry, entryBytes, n).Total() && offset == Offset(n, perEntry)
      modifies this
      ensures Valid() && items == []
      ensures numEntries == n && userBytes == entryBytes && storageSize == needed
      ensures storage == address && memory != null && fresh(memory)
    {
      var bytes := EmptyTable(Layout(address, perEntry, entryBytes, n), offset);
      memory, storage := bytes, address;
      table := storage + offset;
      freeptr := storage;
      numEntries, userBytes, bytesPerEntry, storageSize := n, entryBytes, perEntry, needed;
      items := [];
      assert Plan() == Layout(address, perEntry, entryBytes, n);
    }

    // The condition of the loop in hash_find: memcmp on the whole bytes, then bitcmp.
    method EntryAgrees(entry: nat, ghost k: nat, q: seq<Byte>, minBits: nat, ghost bits: nat, beyond: Byte)
      returns (same: bool)
      requires Valid() && memory != null
      requires k < |items| && entry == Plan().Address(k)
      requires bits <= 8 * |q| && minBits == ComparedBits(userBytes, bits)
      ensures same <==> SamePrefix(items[k].data, q, ComparedBits(|items[k].data|, bits))
    {
      var minBytes := minBits / 8;
      var data := entry - storage + POINTER_SIZE;
      PartInside(Plan(), Data(k));
      assert Content(memory[..], Plan(), Data(k)) == items[k].data;
      DataBytes(memory[..], data, items[k].data, minBytes);
      if memory[data..data + minBytes] != q[..minBytes] {
        return false;
      }
      var last := if minBytes < |q| then q[minBytes] else beyond;
      return BitCmp(memory[data + minBytes], last, minBits % 8) == 0;
    }

    // The loop of hash_find.
    method WalkChain(index: nat, q: seq<Byte>, bits: nat, beyond: Byte) returns (found: int)
      requires Valid() && memory != null
      requires index < numEntries && bits <= 8 * |q|
      ensures found == if NoHitFrom(items, 0, index, q, bits) then 0 else 1
    {
      var minBits := bits;
      if minBits > userBytes * 8 {
        minBits := userBytes * 8;
      }
      var entry := Follow(Head(index), table + POINTER_SIZE * index - storage);
      ghost var k := Latest(items, |items|, index);
      NextInChain(items, |items|, index, q, bits);
      while entry != NULL
        invariant -1 <= k < |items|
        invariant entry == Plan().Address(k)
        invariant k >= 0 ==> items[k].bucket == index
        invariant NoHitFrom(items, k + 1, index, q, bits)
        decreases k
      {
        var same := EntryAgrees(entry, k, q, minBits, bits, beyond);
        if same {
          assert Hit(items[k], index, q, bits);
          return 1;
        }
        NoHitDown(items, k, index, q, bits);
        NextInChain(items, k, index, q, bits);
        entry := Follow(Next(k), entry - storage);
        k := Latest(items, k, index);
      }
      return 0;
    }

    // Reads the pointer in a bucket or a next field.
    method Follow(ghost p: Part, at: nat) returns (pointer: nat)
      requires Valid() && memory != null
      requires Live(Plan(), items, p) && !p.Data? && at == From(Plan(), p)
      ensures pointer == Plan().Address(Pointed(Plan(), items, p))
    {
      PointerHeld(memory[..], Plan(), items, p);
      pointer := ReadPointer(memory, at);
    }

    /** hash_find; beyond is whatever byte follows q in memory, which the last call of bitcmp
        reads when the compared prefix is all of q. */
    method HashFind(q: seq<Byte>, bits: nat, beyond: Byte) returns (found: int)
      requires Valid()
      requires bits <= 8 * |q| && (memory != null ==> KeyDefined(q, bits))
      ensures found == 0 || found == 1
      ensures found == 1 <==> memory != null && Found(items, numEntries, q, bits)
    {
      if table == NULL {
        return 0;
      }
      FoundIffHit(items, numEntries, q, bits);
      found := WalkChain(Bucket(Get32Bits(q, bits), numEntries), q, bits, beyond);
    }

    /** hash_add: the item is added behind all others, unless the arena is full. */
    method HashAdd(data: seq<Byte>)
      requires Valid() && memory != null
      requires KeyDefined(data, 8 * |data|)
      modifies this, memory
      ensures Valid() && memory == old(memory) && storage == old(storage)
      ensures numEntries == old(numEntries) && userBytes == old(userBytes) && storageSize == old(storageSize)
      ensures if |old(items)| == numEntries then items == old(items)
              else
                && |items| == |old(items)| + 1 && items[..|old(items)|] == old(items)
                && Holds(items[|old(items)|], Bucket(Get32Bits(data, 8 * |data|), numEntries), data, userBytes)
      ensures |old(items)| < numEntries ==>
                var added := items[|old(items)|].data;
                |added| == userBytes && forall i :: 0 <= i < |data| && i < userBytes ==> added[i] == data[i]
    {
      AddInBucket(Bucket(Get32Bits(data, 8 * |data|), numEntries), data);
    }

    method AddInBucket(index: nat, data: seq<Byte>)
      requires Valid() && memory != null && index < numEntries
      modifies this, memory
      ensures Valid() && memory == old(memory) && storage == old(storage)
      ensures numEntries == old(numEntries) && userBytes == old(userBytes) && storageSize == old(storageSize)
      ensures if |old(items)| == numEntries then items == old(items)
              else
                && |items| == |old(items)| + 1 && items[..|old(items)|] == old(items)
                && Holds(items[|old(items)|], index, data, userBytes)
    {
      var entry := freeptr;
      freeptr := freeptr + bytesPerEntry;
      FullIff(memory[..], Plan(), table, entry, items);
      if freeptr > table {
        freeptr := freeptr - bytesPerEntry;
        return;
      }
      var kept := if |data| > userBytes then data[..userBytes] else data;
      var head := table + POINTER_SIZE * index - storage;
      ghost var before := memory[..];
      ghost var item := InsertItem(memory, Plan(), items, index, entry - storage, head, entry, kept);
      ConsistentAppend(before, memory[..], Plan(), table, entry, items, item);
      items := items + [item];
    }
  }
}
