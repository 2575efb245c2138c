/** hash.c: loading the table from a file with one hexadecimal entry per line. */
module HashFile {
  import opened Bytes
  import opened Common
  import opened Files
  import opened Arena
  import opened HashTable

  const MAX_ENTRY: nat := 1024
  const LINE_BUFFER: nat := MAX_ENTRY * 2 + 1

  // ---------- hexadecimal ----------

  predicate IsHex(c: char) {
    '0' <= c <= '9' || 'a' <= c <= 'f' || 'A' <= c <= 'F'
  }

  /** hexvalue; on any other character the program exits */
  function HexValue(c: char): (v: nat)
    requires IsHex(c)
    ensures v < 16
  {
    if '0' <= c <= '9' then c as int - '0' as int
    else if 'a' <= c <= 'f' then c as int - 'a' as int + 10
    else c as int - 'A' as int + 10
  }

  /** hexbyte; the two digits do not overlap, so that or-ing them adds them up */
  function HexByte(c1: char, c2: char): Byte
    requires IsHex(c1) && IsHex(c2)
  {
    Join(HexValue(c1), HexValue(c2))
  }

  function Join(high: nat, low: nat): Byte
    requires high < 16 && low < 16
  {
    (16 * high + low) as bv8
  }

  lemma JoinParts(b: Byte)
    ensures Join(b as int / 16, b as int % 16) == b
  {
    var n := b as int;
    assert 16 * (n / 16) + n % 16 == n;
    assert n as bv8 == b;
  }

  predicate AllHex(line: string) {
    forall i :: 0 <= i < |line| ==> IsHex(line[i])
  }

  /** The n bytes that a line of hexadecimal digits stands for. */
  function Decode(line: string, n: nat): (data: seq<Byte>)
    requires |line| == 2 * n && AllHex(line)
    ensures |data| == n
  {
    seq(n, i requires 0 <= i < n => HexByte(line[2 * i], line[2 * i + 1]))
  }

  function HexDigit(v: nat): char
    requires v < 16
  {
    LOWER_CASE[v]
  }

  function Encode(data: seq<Byte>): (line: string)
    ensures |line| == 2 * |data|
  {
    if data == [] then [] else
      var last := data[|data| - 1];
      Encode(data[..|data| - 1]) + [HighDigit(last), LowDigit(last)]
  }

  function HighDigit(b: Byte): char {
    HexDigit(b as int / 16)
  }

  function LowDigit(b: Byte): char {
    HexDigit(b as int % 16)
  }

  lemma {:induction false} EncodeAt(data: seq<Byte>, i: nat)
    requires i < |data|
    ensures Encode(data)[2 * i] == HighDigit(data[i]) && Encode(data)[2 * i + 1] == LowDigit(data[i])
  {
    if i < |data| - 1 {
      EncodeAt(data[..|data| - 1], i);
    }
  }

  lemma HexDigitValue(v: nat)
    requires v < 16
    ensures IsHex(HexDigit(v)) && HexValue(HexDigit(v)) == v && HexDigit(v) != '\n'
  {}

  lemma {:induction false} EncodeIsHex(data: seq<Byte>)
    ensures AllHex(Encode(data)) && '\n' !in Encode(data)
  {
    var line := Encode(data);
    forall i | 0 <= i < |line| ensures IsHex(line[i]) && line[i] != '\n' {
      EncodeAt(data, i / 2);
      HexByteOfDigits(data[i / 2]);
      assert i == 2 * (i / 2) || i == 2 * (i / 2) + 1;
    }
  }

  /** Decoding undoes encoding, on every byte string. */
  lemma {:induction false} DecodeEncode(data: seq<Byte>)
    ensures AllHex(Encode(data)) && Decode(Encode(data), |data|) == data
  {
    EncodeIsHex(data);
    forall i | 0 <= i < |data| ensures Decode(Encode(data), |data|)[i] == data[i] {
      DecodeEncodeAt(data, i);
    }
  }

  lemma {:induction false} DecodeEncodeAt(data: seq<Byte>, i: nat)
    requires AllHex(Encode(data)) && i < |data|
    ensures Decode(Encode(data), |data|)[i] == data[i]
  {
    EncodeAt(data, i);
    HexByteOfDigits(data[i]);
  }

  lemma HexByteOfDigits(b: Byte)
    ensures var c1, c2 := HighDigit(b), LowDigit(b);
            IsHex(c1) && IsHex(c2) && c1 != '\n' && c2 != '\n' && HexByte(c1, c2) == b
  {
    HexDigitValue(b as int / 16);
    HexDigitValue(b as int % 16);
    JoinParts(b);
  }

  const LOWER_CASE := "0123456789abcdef"
  const UPPER_CASE := "0123456789ABCDEF"

  /** c is the digit of v, in either case. */
  predicate IsDigitOf(c: char, v: nat)
    requires v < 16
  {
    c == LOWER_CASE[v] || c == UPPER_CASE[v]
  }

  /** The accepted characters are the digits of either case, and each has the value of its place. */
  lemma HexDigits(c: char, v: nat)
    requires v < 16
    ensures IsHex(c) <==> c in LOWER_CASE || c in UPPER_CASE
    ensures IsHex(c) && HexValue(c) == v <==> IsDigitOf(c, v)
  {
    HexDigitOf(c, v);
    if IsHex(c) {
      HexDigitOf(c, HexValue(c));
    } else if c in LOWER_CASE {
      var u :| 0 <= u < 16 && LOWER_CASE[u] == c;
      HexDigitOf(c, u);
    } else if c in UPPER_CASE {
      var u :| 0 <= u < 16 && UPPER_CASE[u] == c;
      HexDigitOf(c, u);
    }
  }

  lemma HexDigitOf(c: char, v: nat)
    requires v < 16
    ensures IsHex(c) && HexValue(c) == v <==> IsDigitOf(c, v)
  {
    if v < 10 {
      assert LOWER_CASE[v] == UPPER_CASE[v] == ('0' as int + v) as char;
    } else {
      assert LOWER_CASE[v] == ('a' as int + v - 10) as char;
      assert UPPER_CASE[v] == ('A' as int + v - 10) as char;
    }
  }

  lemma JoinedParts(high: nat, low: nat)
    requires high < 16 && low < 16
    ensures Join(high, low) as int == 16 * high + low
  {
    assert (16 * high + low) % 256 == 16 * high + low;
  }

  lemma HexByteMeans(c1: char, c2: char, b: Byte)
    ensures IsHex(c1) && IsHex(c2) && HexByte(c1, c2) == b
            <==> IsDigitOf(c1, b as int / 16) && IsDigitOf(c2, b as int % 16)
  {
    HexDigits(c1, b as int / 16);
    HexDigits(c2, b as int % 16);
    if IsHex(c1) && IsHex(c2) {
      JoinedParts(HexValue(c1), HexValue(c2));
      JoinParts(b);
    }
  }

  /** A line writes the given bytes in hexadecimal, in any mix of cases. */
  ghost predicate Writes(line: string, data: seq<Byte>) {
    && |line| == 2 * |data|
    && forall i :: 0 <= i < |data| ==> WritesByte(line, data, i)
  }

  ghost predicate WritesByte(line: string, data: seq<Byte>, i: nat)
    requires |line| == 2 * |data| && i < |data|
  {
    IsDigitOf(line[2 * i], data[i] as int / 16) && IsDigitOf(line[2 * i + 1], data[i] as int % 16)
  }

  /** A line is accepted and decoded as the given bytes exactly when it writes them, in any mix of
      cases. */
  lemma {:induction false} DecodesWhatIsWritten(line: string, data: seq<Byte>)
    requires |line| == 2 * |data|
    ensures AllHex(line) && Decode(line, |data|) == data <==> Writes(line, data)
  {
    if Writes(line, data) {
      WrittenIsHex(line, data);
      forall i | 0 <= i < |data| ensures Decode(line, |data|)[i] == data[i] {
        assert WritesByte(line, data, i);
        HexByteMeans(line[2 * i], line[2 * i + 1], data[i]);
      }
    } else if AllHex(line) && Decode(line, |data|) == data {
      forall i | 0 <= i < |data| ensures WritesByte(line, data, i) {
        assert Decode(line, |data|)[i] == HexByte(line[2 * i], line[2 * i + 1]);
        HexByteMeans(line[2 * i], line[2 * i + 1], data[i]);
      }
    }
  }

  lemma {:induction false} WrittenIsHex(line: string, data: seq<Byte>)
    requires Writes(line, data)
    ensures AllHex(line)
  {
    forall k | 0 <= k < |line| ensures IsHex(line[k]) {
      var i := k / 2;
      WrittenDigits(line, data, i);
      assert k == 2 * i || k == 2 * i + 1;
    }
  }

  lemma {:induction false} WrittenDigits(line: string, data: seq<Byte>, i: nat)
    requires Writes(line, data) && i < |data|
    ensures IsHex(line[2 * i]) && IsHex(line[2 * i + 1])
  {
    assert WritesByte(line, data, i);
    HexByteMeans(line[2 * i], line[2 * i + 1], data[i]);
  }

  // ---------- lines ----------

  function FirstNewline(s: string): (i: nat)
    ensures i <= |s|
  {
    if s == [] || s[0] == '\n' then 0 else 1 + FirstNewline(s[1..])
  }

  lemma {:induction false} FirstNewlineIs(s: string)
    ensures var i := FirstNewline(s);
            && (i < |s| ==> s[i] == '\n')
            && forall j :: 0 <= j < i ==> s[j] != '\n'
  {
    if s != [] && s[0] != '\n' {
      FirstNewlineIs(s[1..]);
      assert forall j :: 0 < j < |s| ==> s[j] == s[1..][j - 1];
    }
  }

  /** The lines that end in a newline, without it. */
  function Lines(s: string): seq<string> {
    var i := FirstNewline(s);
    if i < |s| then [s[..i]] + Lines(s[i + 1..]) else []
  }

  lemma {:induction false} FirstLine(s: string)
    requires Lines(s) != []
    ensures var k := FirstNewline(s);
            k < |s| && Lines(s) == [s[..k]] + Lines(s[k + 1..])
  {}

  /** How many of the given lines have the given length. */
  function CountLength(lines: seq<string>, length: nat): (n: nat)
    ensures n <= |lines|
  {
    if lines == [] then 0 else (if |lines[0]| == length then 1 else 0) + CountLength(lines[1..], length)
  }

  datatype Reading = Reading(line: Option<string>, rest: string)

  /** What reading one line does: it gives up when the buffer is full before a newline. */
  function ReadOne(s: string): Reading {
    var i := FirstNewline(s);
    if i < |s| && i < LINE_BUFFER then Reading(Some(s[..i]), s[i + 1..])
    else Reading(None, s[if |s| < LINE_BUFFER then |s| else LINE_BUFFER..])
  }

  /** What reading n lines one after the other gives. */
  function Readings(s: string, n: nat): (lines: seq<Option<string>>)
    ensures |lines| == n
  {
    if n == 0 then [] else [ReadOne(s).line] + Readings(ReadOne(s).rest, n - 1)
  }

  /** rests[i] is what is left of the file before the i-th reading, which gives lines[i]. */
  ghost predicate Trace(rests: seq<string>, lines: seq<Option<string>>) {
    |rests| == |lines| + 1 && forall i :: 0 <= i < |lines| ==> TraceStep(rests, lines, i)
  }

  ghost predicate TraceStep(rests: seq<string>, lines: seq<Option<string>>, i: nat)
    requires i < |lines| < |rests|
  {
    ReadOne(rests[i]) == Reading(lines[i], rests[i + 1])
  }

  lemma {:induction false} ReadingsTrace(s: string, n: nat) returns (rests: seq<string>)
    ensures Trace(rests, Readings(s, n)) && rests[0] == s
  {
    if n == 0 {
      rests := [s];
    } else {
      var tail := ReadingsTrace(ReadOne(s).rest, n - 1);
      rests := [s] + tail;
      var lines, rest := Readings(s, n), Readings(ReadOne(s).rest, n - 1);
      forall i | 0 <= i < n ensures TraceStep(rests, lines, i) {
        if i > 0 {
          assert TraceStep(tail, rest, i - 1);
        }
      }
    }
  }

  /** A line that has exactly the wanted length. An entry of no bytes is never read. */
  predicate Fits(line: Option<string>, entryBytes: nat) {
    entryBytes > 0 && line.Some? && |line.value| == 2 * entryBytes
  }

  function Pick(line: Option<string>, entryBytes: nat): seq<string> {
    if Fits(line, entryBytes) then [line.value] else []
  }

  /** The lines of exactly the wanted length among the first n readings. */
  function Accepted(lines: seq<Option<string>>, n: nat, entryBytes: nat): (accepted: seq<string>)
    requires n <= |lines|
  {
    if n == 0 then [] else Accepted(lines, n - 1, entryBytes) + Pick(lines[n - 1], entryBytes)
  }

  lemma AcceptedStep(lines: seq<Option<string>>, i: nat, entryBytes: nat)
    requires i < |lines|
    ensures Accepted(lines, i + 1, entryBytes) == Accepted(lines, i, entryBytes) + Pick(lines[i], entryBytes)
  {}

  lemma {:induction false} AcceptedMember(lines: seq<Option<string>>, i: nat, n: nat, entryBytes: nat)
    requires i < n <= |lines|
    ensures forall l :: l in Pick(lines[i], entryBytes) ==> l in Accepted(lines, n, entryBytes)
  {
    if i < n - 1 {
      AcceptedMember(lines, i, n - 1, entryBytes);
    }
  }

  // ---------- reading the file ----------

  // The first line of s, of k characters, is counted if it has the right length.
  lemma CountFirst(s: string, k: nat, length: nat)
    requires k < |s| && s[k] == '\n' && forall j :: 0 <= j < k ==> s[j] != '\n'
    ensures CountLength(Lines(s), length)
            == (if k == length then 1 else 0) + CountLength(Lines(s[k + 1..]), length)
  {
    FirstNewlineIs(s);
    assert FirstNewline(s) == k;
    var first, rest := s[..k], Lines(s[k + 1..]);
    assert Lines(s) == [first] + rest && ([first] + rest)[1..] == rest;
  }

  lemma CountNone(s: string, length: nat)
    requires forall j :: 0 <= j < |s| ==> s[j] != '\n'
    ensures CountLength(Lines(s), length) == 0
  {
    FirstNewlineIs(s);
    assert FirstNewline(s) == |s|;
  }

  /** countlines: how many lines that end in a newline have exactly maxLength characters. */
  method CountLines(file: TextFile, maxLength: nat) returns (result: nat)
    requires file.Valid()
    modifies file
    ensures file.Valid() && file.position == 0
    ensures result == CountLength(Lines(file.content), maxLength)
  {
    file.Rewind();
    result := 0;
    var thisLine: nat := 0;
    ghost var total := CountLength(Lines(file.content), maxLength);
    ghost var s := file.content;   // the text from the start of the current line
    var more := true;
    while more
      invariant file.Valid() && thisLine <= |s| && file.Rest() == s[thisLine..]
      invariant forall j :: 0 <= j < thisLine ==> s[j] != '\n'
      invariant total == result + CountLength(Lines(s), maxLength)
      invariant !more ==> thisLine == |s|
      decreases |file.content| - file.position, more
    {
      ghost var before := file.Rest();
      var r, c := file.Read();
      assert r == 1 ==> before[0] == c && before[1..] == file.Rest();
      if r == 1 && c == '\n' {
        CountFirst(s, thisLine, maxLength);
        if thisLine == maxLength {
          result := result + 1;
        }
        s := s[thisLine + 1..];
        thisLine := 0;
      } else if r == 1 {
        thisLine := thisLine + 1;
      }
      more := r == 1;
    }
    CountNone(s, maxLength);
    file.Rewind();
  }

  /** The reading loop of readline_bytes: the characters before the newline, or LINE_BUFFER of
      them. At the end of the file the count still goes up. */
  method FillLine(file: TextFile, line: array<char>) returns (chars: nat)
    requires file.Valid() && line.Length == LINE_BUFFER
    modifies file, line
    ensures file.Valid() && chars <= LINE_BUFFER
    ensures var r := ReadOne(old(file.Rest()));
            && file.Rest() == r.rest
            && (chars < LINE_BUFFER <==> r.line.Some?)
            && (r.line.Some? ==> line[..chars] == r.line.value)
  {
    ghost var start, s := file.position, file.Rest();
    FirstNewlineIs(s);
    chars := 0;
    while chars < LINE_BUFFER
      invariant file.Valid() && chars <= LINE_BUFFER
      invariant file.position == start + if chars < |s| then chars else |s|
      invariant chars <= FirstNewline(s) || FirstNewline(s) == |s|
      invariant chars <= |s| ==> line[..chars] == s[..chars]
    {
      var r, c := file.Read();
      if r == 1 {
        line[chars] := c;
        if c == '\n' {
          break;
        }
      }
      chars := chars + 1;
    }
  }

  // A character that is not a hexadecimal digit ends the program; no data means that the line
  // was not usable.
  datatype LineResult = Exit | Entry(data: seq<Byte>)

  /** readline_bytes */
  method ReadLineBytes(file: TextFile, dsize: nat) returns (result: LineResult)
    requires file.Valid() && dsize <= MAX_ENTRY
    modifies file
    ensures file.Valid()
    ensures if dsize == 0 then
              file.Rest() == old(file.Rest()) && result == Entry([])
            else
              var r := ReadOne(old(file.Rest()));
              && file.Rest() == r.rest
              && if r.line.Some? && |r.line.value| == 2 * dsize then
                   if AllHex(r.line.value) then result == Entry(Decode(r.line.value, dsize)) else result == Exit
                 else result == Entry([])
  {
    if dsize == 0 {
      return Entry([]);
    }
    var line := new char[LINE_BUFFER];
    var chars := FillLine(file, line);
    if chars >= LINE_BUFFER {
      return Entry([]);
    }
    if chars != 2 * dsize {
      return Entry([]);
    }
    result := DecodeLine(line[..chars], dsize);
  }

  // The decoding loop of readline_bytes.
  method DecodeLine(text: string, dsize: nat) returns (result: LineResult)
    requires |text| == 2 * dsize
    ensures if AllHex(text) then result == Entry(Decode(text, dsize)) else result == Exit
  {
    var data: seq<Byte> := [];
    for index := 0 to dsize
      invariant AllHex(text[..2 * index]) && data == Decode(text[..2 * index], index)
    {
      if !IsHex(text[index * 2]) || !IsHex(text[index * 2 + 1]) {
        return Exit;
      }
      DecodeTwoMore(text, index);
      data := data + [HexByte(text[index * 2], text[index * 2 + 1])];
    }
    assert text[..2 * dsize] == text;
    return Entry(data);
  }

  lemma DecodeTwoMore(text: string, i: nat)
    requires 2 * i + 2 <= |text| && AllHex(text[..2 * i]) && IsHex(text[2 * i]) && IsHex(text[2 * i + 1])
    ensures AllHex(text[..2 * (i + 1)])
    ensures Decode(text[..2 * (i + 1)], i + 1) == Decode(text[..2 * i], i) + [HexByte(text[2 * i], text[2 * i + 1])]
  {
    var before, after := text[..2 * i], text[..2 * (i + 1)];
    forall k | 0 <= k < |after| ensures IsHex(after[k]) {
      assert k < 2 * i ==> after[k] == before[k];
    }
  }

  // ---------- loading ----------

  ghost predicate AllLinesHex(lines: seq<string>) {
    forall l :: l in lines ==> AllHex(l)
  }

  /** No line stands for a key whose absolute value is not an int. */
  ghost predicate KeysDefined(lines: seq<string>, entryBytes: nat) {
    forall l :: l in lines ==> LineKeyDefined(l, entryBytes)
  }

  predicate LineKeyDefined(line: string, entryBytes: nat) {
    |line| == 2 * entryBytes && AllHex(line) ==> KeyDefined(Decode(line, entryBytes), 8 * entryBytes)
  }

  // Lines of hexadecimal digits for entries of the given size.
  ghost predicate Usable(lines: seq<string>, entryBytes: nat) {
    forall i :: 0 <= i < |lines| ==> |lines[i]| == 2 * entryBytes && AllHex(lines[i])
  }

  function ItemOf(line: string, entryBytes: nat, n: nat): Item
    requires |line| == 2 * entryBytes && AllHex(line) && n > 0
  {
    Item(Bucket(Get32Bits(Decode(line, entryBytes), 8 * entryBytes), n), Decode(line, entryBytes))
  }

  /** The items that the given lines become in a table of n entries: the first n of them. */
  ghost function ItemsOf(lines: seq<string>, entryBytes: nat, n: nat): (items: seq<Item>)
    requires n > 0 && Usable(lines, entryBytes)
    ensures |items| == if |lines| < n then |lines| else n
  {
    seq(if |lines| < n then |lines| else n, i requires 0 <= i < |lines| => ItemOf(lines[i], entryBytes, n))
  }

  lemma ItemsOfAt(lines: seq<string>, entryBytes: nat, n: nat, i: nat)
    requires n > 0 && Usable(lines, entryBytes) && i < |lines| && i < n
    ensures ItemsOf(lines, entryBytes, n)[i] == ItemOf(lines[i], entryBytes, n)
  {}

  lemma ItemsOfData(lines: seq<string>, entryBytes: nat, n: nat, i: nat)
    requires n > 0 && Usable(lines, entryBytes) && i < |lines| && i < n
    ensures ItemsOf(lines, entryBytes, n)[i].data == Decode(lines[i], entryBytes)
  {
    ItemsOfAt(lines, entryBytes, n, i);
  }

  datatype LoadResult = Exited | Loaded(bytes: nat)

  /** How many lines of the right length the file has: the number of entries asked for, and of
      lines read. */
  function WantedLines(content: string, entryBytes: nat): nat {
    CountLength(Lines(content), 2 * entryBytes)
  }

  /** hash_from_file; address is what malloc returns. As many lines are read as there are lines of
      the right length; those of them that have the right length become the items, as far as
      there is room. */
  method HashFromFile(table: HashTable, file: TextFile, entryBytes: nat, freeBytes: nat, address: nat)
    returns (result: LoadResult)
    requires table.Valid() && file.Valid()
    requires entryBytes <= MAX_ENTRY ==>
               var wanted := WantedLines(file.content, entryBytes);
               && TotalPerEntry(entryBytes) * wanted < 0x1_0000_0000 && freeBytes < 0x8000_0000
               && (address != NULL ==> Allocated(address, wanted, entryBytes, freeBytes))
               && (Capacity(wanted, entryBytes, freeBytes) > 0 && address != NULL ==>
                     KeysDefined(Accepted(Readings(file.content, wanted), wanted, entryBytes), entryBytes))
    modifies table, file
    ensures var wanted := WantedLines(file.content, entryBytes);
            var accepted := Accepted(Readings(file.content, wanted), wanted, entryBytes);
            var n := Capacity(wanted, entryBytes, freeBytes);
            if entryBytes > MAX_ENTRY || n == 0 || address == NULL then
              result == Loaded(0) && unchanged(table)
            else if AllLinesHex(accepted) then
              && result == Loaded(TotalPerEntry(entryBytes) * n)
              && table.Valid() && table.memory != null
              && table.numEntries == n && table.userBytes == entryBytes
              && table.storageSize == TotalPerEntry(entryBytes) * n <= freeBytes
              && Usable(accepted, entryBytes) && table.items == ItemsOf(accepted, entryBytes, n)
            else result == Exited
  {
    if entryBytes > MAX_ENTRY {
      return Loaded(0);
    }
    var numLines := CountLines(file, entryBytes * 2);
    var bytesUsed := table.InitSize(numLines, entryBytes, freeBytes, address);
    if bytesUsed == 0 {
      return Loaded(0);
    }
    assert file.Rest() == file.content;
    ghost var plan := MakePlan(file.content, numLines, entryBytes);
    var exited, bad := ReadEntries(table, file, numLines, entryBytes, plan);
    if exited {
      BadIfAccepted(plan.lines, bad, entryBytes);
    }
    UsableIsHex(plan.done[numLines], entryBytes);
    return if exited then Exited else Loaded(bytesUsed);
  }

  /** What loading goes through: the rest of the file, the reading, and the lines accepted so
      far, before and after each reading. */
  datatype Plan = Plan(rests: seq<string>, lines: seq<Option<string>>, done: seq<seq<string>>)

  ghost predicate PlanStep(plan: Plan, i: nat, entryBytes: nat)
    requires i < |plan.lines| && |plan.rests| == |plan.done| == |plan.lines| + 1
  {
    var line := plan.lines[i];
    && ReadOne(plan.rests[i]) == Reading(line, plan.rests[i + 1])
    && (Fits(line, entryBytes) ==> LineKeyDefined(line.value, entryBytes))
    && plan.done[i + 1] == if Fits(line, entryBytes) then plan.done[i] + [line.value] else plan.done[i]
  }

  ghost predicate ValidPlan(plan: Plan, entryBytes: nat) {
    && |plan.rests| == |plan.done| == |plan.lines| + 1
    && plan.done[0] == []
    && forall i :: 0 <= i < |plan.lines| ==> PlanStep(plan, i, entryBytes)
  }

  lemma MakePlan(s: string, n: nat, entryBytes: nat) returns (plan: Plan)
    requires KeysDefined(Accepted(Readings(s, n), n, entryBytes), entryBytes)
    ensures ValidPlan(plan, entryBytes) && plan.lines == Readings(s, n) && plan.rests[0] == s
    ensures plan.done[n] == Accepted(Readings(s, n), n, entryBytes)
  {
    var lines := Readings(s, n);
    var rests := ReadingsTrace(s, n);
    plan := Plan(rests, lines, seq(n + 1, i requires 0 <= i <= n => Accepted(lines, i, entryBytes)));
    forall i | 0 <= i < n ensures PlanStep(plan, i, entryBytes) {
      assert TraceStep(rests, lines, i);
      AcceptedMember(lines, i, n, entryBytes);
      if Fits(lines[i], entryBytes) {
        assert lines[i].value in Pick(lines[i], entryBytes);
      }
    }
  }

  lemma BadIfAccepted(lines: seq<Option<string>>, bad: nat, entryBytes: nat)
    requires bad < |lines| && BadReading(lines[bad], entryBytes)
    ensures !AllLinesHex(Accepted(lines, |lines|, entryBytes))
  {
    AcceptedMember(lines, bad, |lines|, entryBytes);
    assert lines[bad].value in Pick(lines[bad], entryBytes);
  }

  // A reading that makes the program exit.
  predicate BadReading(line: Option<string>, entryBytes: nat) {
    Fits(line, entryBytes) && !AllHex(line.value)
  }

  /** The items are those that the lines become. */
  ghost predicate ItemsFrom(items: seq<Item>, lines: seq<string>, entryBytes: nat, n: nat) {
    n > 0 && Usable(lines, entryBytes) && items == ItemsOf(lines, entryBytes, n)
  }

  // Adding the data of one more usable line.
  method AddLine(table: HashTable, data: seq<Byte>, ghost line: string, ghost done: seq<string>)
    requires table.Valid() && table.memory != null
    requires |line| == 2 * table.userBytes && AllHex(line) && data == Decode(line, table.userBytes)
    requires LineKeyDefined(line, table.userBytes)
    requires Usable(done, table.userBytes) && table.items == ItemsOf(done, table.userBytes, table.numEntries)
    modifies table, table.memory
    ensures table.Valid()
    ensures table.memory == old(table.memory)
    ensures table.numEntries == old(table.numEntries) && table.userBytes == old(table.userBytes)
    ensures table.storageSize == old(table.storageSize)
    ensures Usable(done + [line], table.userBytes)
    ensures table.items == ItemsOf(done + [line], table.userBytes, table.numEntries)
  {
    ghost var before := table.items;
    ItemOfLine(line, data, table.userBytes, table.numEntries);
    table.HashAdd(data);
    ItemsAppend(before, table.items, done, line, table.userBytes, table.numEntries);
  }

  lemma ItemOfLine(line: string, data: seq<Byte>, entryBytes: nat, n: nat)
    requires |line| == 2 * entryBytes && AllHex(line) && data == Decode(line, entryBytes) && n > 0
    ensures |data| == entryBytes
    ensures ItemOf(line, entryBytes, n) == Item(Bucket(Get32Bits(data, 8 * |data|), n), data)
    ensures LineKeyDefined(line, entryBytes) ==> KeyDefined(data, 8 * |data|)
  {}

  // The item that hash_add adds is the one that the line becomes, if there is room.
  lemma ItemsAppend(before: seq<Item>, after: seq<Item>, done: seq<string>, line: string, entryBytes: nat, n: nat)
    requires ItemsFrom(before, done, entryBytes, n) && |line| == 2 * entryBytes && AllHex(line)
    requires if |before| == n then after == before
             else
               && |after| == |before| + 1 && after[..|before|] == before
               && Holds(after[|before|], ItemOf(line, entryBytes, n).bucket, Decode(line, entryBytes), entryBytes)
    ensures ItemsFrom(after, done + [line], entryBytes, n)
  {
    var longer := done + [line];
    assert Usable(longer, entryBytes);
    forall i | 0 <= i < |after| ensures after[i] == ItemsOf(longer, entryBytes, n)[i] {
      ItemsOfAt(longer, entryBytes, n, i);
      if i < |before| {
        ItemsOfAt(done, entryBytes, n, i);
        assert after[i] == before[i] && longer[i] == done[i];
      } else {
        assert longer[i] == line;
        assert after[i].data == after[i].data[..entryBytes] == Decode(line, entryBytes);
      }
    }
    assert after == ItemsOf(longer, entryBytes, n);
  }

  // One turn of the loop in hash_from_file: the i-th step of the plan.
  method ReadEntry(table: HashTable, file: TextFile, entryBytes: nat, ghost plan: Plan, ghost i: nat)
    returns (exited: bool)
    requires table.Valid() && table.memory != null && table.userBytes == entryBytes
    requires file.Valid() && entryBytes <= MAX_ENTRY
    requires ValidPlan(plan, entryBytes) && i < |plan.lines|
    requires entryBytes > 0 ==> file.Rest() == plan.rests[i]
    requires ItemsFrom(table.items, plan.done[i], entryBytes, table.numEntries)
    modifies table, table.memory, file
    ensures file.Valid() && table.Valid()
    ensures table.memory == old(table.memory)
    ensures table.numEntries == old(table.numEntries) && table.userBytes == entryBytes
    ensures table.storageSize == old(table.storageSize)
    ensures exited == BadReading(plan.lines[i], entryBytes)
    ensures entryBytes > 0 ==> file.Rest() == plan.rests[i + 1]
    ensures !exited ==> ItemsFrom(table.items, plan.done[i + 1], entryBytes, table.numEntries)
  {
    assert PlanStep(plan, i, entryBytes);
    var r := ReadLineBytes(file, entryBytes);
    if r.Exit? {
      return true;
    }
    if |r.data| > 0 {
      AddLine(table, r.data, plan.lines[i].value, plan.done[i]);
    }
    return false;
  }

  method ReadEntries(table: HashTable, file: TextFile, numLines: nat, entryBytes: nat, ghost plan: Plan)
    returns (exited: bool, ghost bad: nat)
    requires table.Valid() && table.memory != null && table.items == [] && table.userBytes == entryBytes
    requires file.Valid() && entryBytes <= MAX_ENTRY
    requires ValidPlan(plan, entryBytes) && |plan.lines| == numLines && plan.rests[0] == file.Rest()
    modifies table, table.memory, file
    ensures table.Valid() && table.memory != null
    ensures table.numEntries == old(table.numEntries) && table.userBytes == entryBytes
    ensures table.storageSize == old(table.storageSize)
    ensures exited ==> bad < numLines && BadReading(plan.lines[bad], entryBytes)
    ensures !exited ==> ItemsFrom(table.items, plan.done[numLines], entryBytes, table.numEntries)
  {
    var left: nat := numLines;
    ghost var i: nat := 0;
    exited, bad := false, 0;
    while left > 0 && !exited
      invariant i + left == numLines
      invariant table.Valid() && file.Valid()
      invariant table.memory == old(table.memory)
      invariant table.numEntries == old(table.numEntries) && table.userBytes == entryBytes
      invariant table.storageSize == old(table.storageSize)
      invariant entryBytes > 0 ==> file.Rest() == plan.rests[i]
      invariant exited ==> bad < numLines && BadReading(plan.lines[bad], entryBytes)
      invariant !exited ==> ItemsFrom(table.items, plan.done[i], entryBytes, table.numEntries)
    {
      exited := ReadEntry(table, file, entryBytes, plan, i);
      bad := i;
      left := left - 1;
      i := i + 1;
    }
  }

  lemma UsableIsHex(lines: seq<string>, entryBytes: nat)
    ensures Usable(lines, entryBytes) ==> AllLinesHex(lines)
  {}
}
