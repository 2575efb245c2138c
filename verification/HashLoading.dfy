/** hash.c: what a file leaves in the table, and what lookups in the loaded table answer. */
module HashLoading {
  import opened Bytes
  import opened Common
  import opened Arena
  import opened HashTable
  import opened HashFile

  /** The lines that the header of hash_from_file promises to load. */
  function RightLines(lines: seq<string>, length: nat): (right: seq<string>)
    ensures |right| == CountLength(lines, length)
  {
    if lines == [] then [] else (if |lines[0]| == length then [lines[0]] else []) + RightLines(lines[1..], length)
  }

  lemma {:induction false} RightLinesAre(lines: seq<string>, length: nat, line: string)
    ensures line in RightLines(lines, length) <==> line in lines && |line| == length
  {
    if lines != [] {
      RightLinesAre(lines[1..], length, line);
      assert lines == [lines[0]] + lines[1..];
    }
  }

  ghost predicate AllOfLength(lines: seq<string>, n: nat, length: nat)
    requires n <= |lines|
  {
    forall i :: 0 <= i < n ==> |lines[i]| == length
  }

  ghost predicate AllShort(lines: seq<string>) {
    forall i :: 0 <= i < |lines| ==> |lines[i]| < LINE_BUFFER
  }

  lemma {:induction false} ShortTail(line: string, lines: seq<string>)
    requires AllShort([line] + lines)
    ensures |line| < LINE_BUFFER && AllShort(lines)
  {
    assert ([line] + lines)[0] == line;
    forall i | 0 <= i < |lines| ensures |lines[i]| < LINE_BUFFER {
      assert ([line] + lines)[i + 1] == lines[i];
    }
  }

  // A line that fits the buffer is the next reading.
  lemma {:induction false} LineIsRead(s: string, k: nat)
    requires k == FirstNewline(s) < |s| && k < LINE_BUFFER
    ensures ReadOne(s) == Reading(Some(s[..k]), s[k + 1..])
  {}

  lemma {:induction false} ReadingsStep(s: string, k: nat, n: nat)
    requires n > 0 && k < |s| && ReadOne(s) == Reading(Some(s[..k]), s[k + 1..])
    ensures Readings(s, n) == [Some(s[..k])] + Readings(s[k + 1..], n - 1)
  {}

  /** One reading: a line of at most 2048 characters is read with its newline; 2049 characters without
      a newline are given up; so is what is behind the last newline. */
  lemma {:induction false} OneReading(line: string, rest: string)
    requires '\n' !in line
    ensures |line| <= 2048 ==> ReadOne(line + "\n" + rest) == Reading(Some(line), rest)
    ensures |line| == 2049 ==> ReadOne(line + rest) == Reading(None, rest)
    ensures |line| <= 2048 ==> ReadOne(line) == Reading(None, "")
  {
    if |line| <= 2048 {
      FirstNewlineAfter(line, rest);
      assert (line + "\n" + rest)[..|line|] == line && (line + "\n" + rest)[|line| + 1..] == rest;
      FirstNewlineIs(line);
    } else if |line| == 2049 {
      var s := line + rest;
      FirstNewlineIs(s);
      assert forall j :: 0 <= j < |line| ==> s[j] == line[j];
      assert s[2049..] == rest;
    }
  }

  /** Entries of no bytes are never loaded. */
  lemma {:induction false} NoBytesNoEntries(readings: seq<Option<string>>, n: nat)
    requires n <= |readings|
    ensures Accepted(readings, n, 0) == []
  {
    if n > 0 {
      NoBytesNoEntries(readings, n - 1);
      AcceptedStep(readings, n - 1, 0);
    }
  }

  ghost predicate SameStart(readings: seq<Option<string>>, lines: seq<string>, n: nat) {
    n <= |readings| && n <= |lines| && forall i :: 0 <= i < n ==> readings[i] == Some(lines[i])
  }

  lemma {:induction false} OneLineMore(readings: seq<Option<string>>, lines: seq<string>, n: nat, line: string)
    requires SameStart(readings, lines, n)
    ensures SameStart([Some(line)] + readings, [line] + lines, n + 1)
  {
    forall i | 0 <= i < n + 1 ensures ([Some(line)] + readings)[i] == Some(([line] + lines)[i]) {
      if i > 0 {
        assert readings[i - 1] == Some(lines[i - 1]);
      }
    }
  }

  /** Reading gives the lines of the file one by one when they fit the buffer. */
  lemma {:induction false} ReadingsAreLines(s: string, n: nat)
    requires n <= |Lines(s)| && AllShort(Lines(s))
    ensures SameStart(Readings(s, n), Lines(s), n)
  {
    if n > 0 {
      var k := FirstNewline(s);
      FirstLine(s);
      ShortTail(s[..k], Lines(s[k + 1..]));
      LineIsRead(s, k);
      ReadingsStep(s, k, n);
      ReadingsAreLines(s[k + 1..], n - 1);
      OneLineMore(Readings(s[k + 1..], n - 1), Lines(s[k + 1..]), n - 1, s[..k]);
    }
  }

  lemma {:induction false} RightLinesOfPrefix(lines: seq<string>, n: nat, length: nat)
    requires n <= |lines| && AllOfLength(lines, n, length)
    ensures RightLines(lines, length) == lines[..n] + RightLines(lines[n..], length)
  {
    if n == 0 {
      assert lines[0..] == lines;
    } else {
      var others := lines[1..];
      assert others[n - 1..] == lines[n..] && others[..n - 1] == lines[1..n];
      assert forall i :: 0 <= i < n - 1 ==> others[i] == lines[i + 1];
      RightLinesOfPrefix(others, n - 1, length);
      assert |lines[0]| == length;
      assert [lines[0]] + lines[1..n] == lines[..n];
    }
  }

  /** At most one accepted line for each reading; as many only if every reading was right. */
  lemma {:induction false} AcceptedCount(readings: seq<Option<string>>, n: nat, entryBytes: nat)
    requires n <= |readings|
    ensures |Accepted(readings, n, entryBytes)| <= n
    ensures |Accepted(readings, n, entryBytes)| == n <==> forall i :: 0 <= i < n ==> Fits(readings[i], entryBytes)
  {
    if n > 0 {
      AcceptedCount(readings, n - 1, entryBytes);
      AcceptedStep(readings, n - 1, entryBytes);
    }
  }

  lemma {:induction false} AcceptedAll(readings: seq<Option<string>>, lines: seq<string>, n: nat, entryBytes: nat)
    requires SameStart(readings, lines, n) && entryBytes > 0 && AllOfLength(lines, n, 2 * entryBytes)
    ensures Accepted(readings, n, entryBytes) == lines[..n]
  {
    if n > 0 {
      AcceptedAll(readings, lines, n - 1, entryBytes);
      AcceptedStep(readings, n - 1, entryBytes);
      assert lines[..n - 1] + [lines[n - 1]] == lines[..n];
    }
  }

  /** The header promises that lines of another length are ignored. In fact each of them takes
      the place of a right one: all lines of the right length are accepted exactly when none of
      the first lines, as many as there are lines of the right length, has another length. */
  lemma LoadsEveryRightLine(s: string, entryBytes: nat)
    requires entryBytes > 0 && AllShort(Lines(s))
    ensures var wanted := WantedLines(s, entryBytes);
            Accepted(Readings(s, wanted), wanted, entryBytes) == RightLines(Lines(s), 2 * entryBytes)
            <==> AllOfLength(Lines(s), wanted, 2 * entryBytes)
  {
    var lines, wanted := Lines(s), WantedLines(s, entryBytes);
    var readings := Readings(s, wanted);
    ReadingsAreLines(s, wanted);
    AcceptedCount(readings, wanted, entryBytes);
    if AllOfLength(lines, wanted, 2 * entryBytes) {
      AcceptedAll(readings, lines, wanted, entryBytes);
      RightLinesOfPrefix(lines, wanted, 2 * entryBytes);
      assert RightLines(lines[wanted..], 2 * entryBytes) == [];
    } else {
      var i :| 0 <= i < wanted && |lines[i]| != 2 * entryBytes;
      assert !Fits(readings[i], entryBytes);
    }
  }

  /** One wrong line in front is enough to lose a right one. */
  lemma WrongLineDisplaces()
    ensures var s := "a\n00\n";
            && WantedLines(s, 1) == 1
            && RightLines(Lines(s), 2) == ["00"]
            && Accepted(Readings(s, 1), 1, 1) == []
  {
    var s := "a\n00\n";
    assert FirstNewline(s[1..]) == 0;
    assert s[..1] == "a" && s[2..] == "00\n";
    assert FirstNewline("00\n"[2..]) == 0;
    assert FirstNewline("00\n"[1..]) == 1;
    assert "00\n"[..2] == "00" && "00\n"[3..] == "";
    assert Lines("00\n") == ["00"] + Lines("");
    assert Lines(s) == ["a"] + Lines("00\n");
    assert Lines(s)[1..] == ["00"];
    assert ReadOne(s).line == Some("a");
  }

  // ---------- the whole file as a set ----------

  lemma {:induction false} CountAll(lines: seq<string>, length: nat)
    requires AllOfLength(lines, |lines|, length)
    ensures CountLength(lines, length) == |lines|
  {
    if lines != [] {
      assert forall i :: 0 <= i < |lines| - 1 ==> lines[1..][i] == lines[i + 1];
      CountAll(lines[1..], length);
    }
  }

  /** When all lines have the right length and are hexadecimal, and the budget has room for all
      of them, the loaded table holds exactly the decoded lines, in order. */
  lemma LoadsTheFile(s: string, entryBytes: nat, freeBytes: nat)
    requires 0 < entryBytes <= MAX_ENTRY && Usable(Lines(s), entryBytes) && Lines(s) != []
    requires TotalPerEntry(entryBytes) * |Lines(s)| <= freeBytes
    ensures var n := |Lines(s)|;
            && WantedLines(s, entryBytes) == n
            && Capacity(n, entryBytes, freeBytes) == n
            && Accepted(Readings(s, n), n, entryBytes) == Lines(s)
            && AllLinesHex(Lines(s))
  {
    var lines, n := Lines(s), |Lines(s)|;
    CountAll(lines, 2 * entryBytes);
    CapacityByBytes(n, entryBytes, freeBytes);
    ReadingsAreLines(s, n);
    AcceptedAll(Readings(s, n), lines, n, entryBytes);
    assert lines[..n] == lines;
  }

  /** A lookup in the loaded table answers whether some line of the file stands for a bit string
      that agrees with q; with all bits of an entry, whether a line stands for just these. */
  lemma LookupInLoadedFile(s: string, entryBytes: nat, freeBytes: nat, q: seq<Byte>, bits: nat)
    requires 0 < entryBytes <= MAX_ENTRY && Usable(Lines(s), entryBytes) && Lines(s) != []
    requires TotalPerEntry(entryBytes) * |Lines(s)| <= freeBytes
    requires bits <= 8 * |q| && KeyBytes(bits) == KeyBytes(8 * entryBytes)
    ensures var wanted := WantedLines(s, entryBytes);
            var n := Capacity(wanted, entryBytes, freeBytes);
            var accepted := Accepted(Readings(s, wanted), wanted, entryBytes);
            && n > 0 && Usable(accepted, entryBytes)
            && FindsEntries(ItemsOf(accepted, entryBytes, n), n, Decoded(Lines(s), entryBytes), entryBytes, q, bits)
  {
    LoadsTheFile(s, entryBytes, freeBytes);
    LookupInItems(Lines(s), entryBytes, q, bits);
    SomeEntryAgreesMeans(Decoded(Lines(s), entryBytes), entryBytes, q, bits);
  }

  /** A lookup of the first bits of q in the items answers as a search of the entries would: for
      entries that begin with these bits, and for an entry that q begins with. */
  ghost predicate FindsEntries(items: seq<Item>, n: nat, entries: seq<seq<Byte>>, entryBytes: nat,
                               q: seq<Byte>, bits: nat)
    requires n > 0 && bits <= 8 * |q| && forall k :: 0 <= k < |entries| ==> |entries[k]| == entryBytes
  {
    && (bits <= 8 * entryBytes ==>
          (Found(items, n, q, bits) <==> exists k :: 0 <= k < |entries| && PrefixAgree(entries[k], q, bits)))
    && (bits >= 8 * entryBytes ==>
          (Found(items, n, q, bits) <==> q[..entryBytes] in entries))
  }

  /** The bit strings that the lines stand for. */
  ghost function Decoded(lines: seq<string>, entryBytes: nat): (entries: seq<seq<Byte>>)
    requires Usable(lines, entryBytes)
    ensures |entries| == |lines|
    ensures forall k :: 0 <= k < |lines| ==>
              entries[k] == Decode(lines[k], entryBytes) && |entries[k]| == entryBytes
  {
    seq(|lines|, k requires 0 <= k < |lines| => Decode(lines[k], entryBytes))
  }

  /** Some entry agrees with q: has the first bits of q as a prefix, or is a prefix of them. */
  ghost predicate SomeEntryAgrees(entries: seq<seq<Byte>>, q: seq<Byte>, bits: nat)
    requires bits <= 8 * |q|
  {
    exists k :: 0 <= k < |entries| && Agree(entries[k], q, bits)
  }

  /** For a query of whole entries this is membership. */
  lemma SomeEntryAgreesMeans(entries: seq<seq<Byte>>, entryBytes: nat, q: seq<Byte>, bits: nat)
    requires bits <= 8 * |q| && forall k :: 0 <= k < |entries| ==> |entries[k]| == entryBytes
    ensures bits >= 8 * entryBytes ==> (SomeEntryAgrees(entries, q, bits) <==> q[..entryBytes] in entries)
    ensures bits <= 8 * entryBytes ==>
              (SomeEntryAgrees(entries, q, bits)
               <==> exists k :: 0 <= k < |entries| && PrefixAgree(entries[k], q, bits))
  {
    forall k | 0 <= k < |entries|
      ensures bits <= 8 * entryBytes ==> (Agree(entries[k], q, bits) <==> PrefixAgree(entries[k], q, bits))
      ensures bits >= 8 * entryBytes ==> (Agree(entries[k], q, bits) <==> entries[k] == q[..entryBytes])
    {
      AgreeMeans(entries[k], q, bits);
    }
  }

  lemma LookupInItems(lines: seq<string>, entryBytes: nat, q: seq<Byte>, bits: nat)
    requires Usable(lines, entryBytes) && lines != []
    requires bits <= 8 * |q| && KeyBytes(bits) == KeyBytes(8 * entryBytes)
    ensures Found(ItemsOf(lines, entryBytes, |lines|), |lines|, q, bits)
            <==> SomeEntryAgrees(Decoded(lines, entryBytes), q, bits)
  {
    var n := |lines|;
    var items := ItemsOf(lines, entryBytes, n);
    ItemsCarryDecoded(lines, entryBytes, n);
    ItemsInOwnBuckets(lines, entryBytes, n);
    LookupIsMembership(items, n, entryBytes, q, bits);
    AgreeAlike(items, Decoded(lines, entryBytes), q, bits);
  }

  lemma {:induction false} ItemsCarryDecoded(lines: seq<string>, entryBytes: nat, n: nat)
    requires Usable(lines, entryBytes) && n > 0
    ensures var items := ItemsOf(lines, entryBytes, n);
            && AllOfSize(items, entryBytes)
            && forall k :: 0 <= k < |items| ==> items[k].data == Decoded(lines, entryBytes)[k]
  {
    var items := ItemsOf(lines, entryBytes, n);
    forall k | 0 <= k < |items|
      ensures items[k].data == Decode(lines[k], entryBytes) && |items[k].data| == entryBytes
    {
      ItemsOfData(lines, entryBytes, n, k);
    }
  }

  lemma {:induction false} AgreeAlike(items: seq<Item>, entries: seq<seq<Byte>>, q: seq<Byte>, bits: nat)
    requires bits <= 8 * |q| && |items| == |entries|
    requires forall k :: 0 <= k < |items| ==> items[k].data == entries[k]
    ensures SomeItemAgrees(items, q, bits) <==> SomeEntryAgrees(entries, q, bits)
  {}

  lemma ItemsInOwnBuckets(lines: seq<string>, entryBytes: nat, n: nat)
    requires Usable(lines, entryBytes) && n > 0
    ensures OwnBuckets(ItemsOf(lines, entryBytes, n), n)
  {
    var items := ItemsOf(lines, entryBytes, n);
    forall k | 0 <= k < |items|
      ensures items[k].bucket == Bucket(Get32Bits(items[k].data, 8 * |items[k].data|), n)
    {
      ItemsOfAt(lines, entryBytes, n, k);
      assert items[k] == ItemOf(lines[k], entryBytes, n) && |items[k].data| == entryBytes;
    }
  }

  /** The file that lists the given entries. */
  function FileOf(entries: seq<seq<Byte>>): string {
    if entries == [] then "" else Encode(entries[0]) + "\n" + FileOf(entries[1..])
  }

  lemma FirstNewlineAfter(line: string, rest: string)
    requires '\n' !in line
    ensures FirstNewline(line + "\n" + rest) == |line|
  {
    var s := line + "\n" + rest;
    FirstNewlineIs(s);
    assert s[|line|] == '\n';
    assert forall j :: 0 <= j < |line| ==> s[j] == line[j];
  }

  lemma {:induction false} LineInFront(line: string, rest: string)
    requires '\n' !in line
    ensures Lines(line + "\n" + rest) == [line] + Lines(rest)
  {
    var s := line + "\n" + rest;
    FirstNewlineAfter(line, rest);
    assert s[..|line|] == line && s[|line| + 1..] == rest;
  }

  ghost predicate Encoded(lines: seq<string>, entries: seq<seq<Byte>>) {
    |lines| == |entries| && forall k :: 0 <= k < |lines| ==> lines[k] == Encode(entries[k])
  }

  lemma {:induction false} EncodedInFront(lines: seq<string>, entries: seq<seq<Byte>>, entry: seq<Byte>)
    requires Encoded(lines, entries)
    ensures Encoded([Encode(entry)] + lines, [entry] + entries)
  {}

  lemma {:induction false} LinesOfFile(entries: seq<seq<Byte>>)
    ensures Encoded(Lines(FileOf(entries)), entries)
  {
    if entries != [] {
      EncodeIsHex(entries[0]);
      LineInFront(Encode(entries[0]), FileOf(entries[1..]));
      LinesOfFile(entries[1..]);
      EncodedInFront(Lines(FileOf(entries[1..])), entries[1..], entries[0]);
      assert [entries[0]] + entries[1..] == entries;
    }
  }

  /** Round trip: a file written from a list of entries, loaded and searched, is the set of
      those entries. */
  lemma WriteLoadFind(entries: seq<seq<Byte>>, entryBytes: nat, freeBytes: nat, q: seq<Byte>, bits: nat)
    requires 0 < entryBytes <= MAX_ENTRY && entries != []
    requires forall k :: 0 <= k < |entries| ==> |entries[k]| == entryBytes
    requires TotalPerEntry(entryBytes) * |entries| <= freeBytes
    requires bits <= 8 * |q| && KeyBytes(bits) == KeyBytes(8 * entryBytes)
    ensures var s := FileOf(entries);
            var wanted := WantedLines(s, entryBytes);
            var n := Capacity(wanted, entryBytes, freeBytes);
            var accepted := Accepted(Readings(s, wanted), wanted, entryBytes);
            && n == |entries| && Usable(accepted, entryBytes)
            && var found := Found(ItemsOf(accepted, entryBytes, n), n, q, bits);
               && (bits <= 8 * entryBytes ==>
                     (found <==> exists k :: 0 <= k < |entries| && PrefixAgree(entries[k], q, bits)))
               && (bits >= 8 * entryBytes ==> (found <==> q[..entryBytes] in entries))
  {
    LinesStandForEntries(entries, entryBytes);
    LoadsTheFile(FileOf(entries), entryBytes, freeBytes);
    LookupInLoadedFile(FileOf(entries), entryBytes, freeBytes, q, bits);
  }

  lemma {:induction false} LinesStandForEntries(entries: seq<seq<Byte>>, entryBytes: nat)
    requires forall k :: 0 <= k < |entries| ==> |entries[k]| == entryBytes
    ensures var lines := Lines(FileOf(entries));
            |lines| == |entries| && Usable(lines, entryBytes) && Decoded(lines, entryBytes) == entries
  {
    var lines := Lines(FileOf(entries));
    LinesOfFile(entries);
    forall k | 0 <= k < |lines|
      ensures |lines[k]| == 2 * entryBytes && AllHex(lines[k]) && Decode(lines[k], entryBytes) == entries[k]
    {
      DecodeEncode(entries[k]);
    }
    assert Decoded(lines, entryBytes) == entries;
  }
}
