/** astart.c: the file of process ids, as it is written and as it is read back. */
module PidFile {
  import opened Files

  const MAX_STOP_PROCS: nat := 1000
  const LARGEST_PID: nat := 0xffff

  // ---------- decimal numbers ----------

  predicate IsDigit(c: char) {
    '0' <= c <= '9'
  }

  predicate AllDigits(s: string) {
    forall i :: 0 <= i < |s| ==> IsDigit(s[i])
  }

  function DigitValue(c: char): nat
    requires IsDigit(c)
  {
    c as int - '0' as int
  }

  /** The number that a run of digits stands for. */
  function Value(s: string): nat
    requires AllDigits(s)
  {
    if s == [] then 0 else 10 * Value(s[..|s| - 1]) + DigitValue(s[|s| - 1])
  }

  /** The digits of a number, as "%d" prints them. */
  function Decimal(n: nat): (s: string)
    ensures |s| > 0 && AllDigits(s)
  {
    if n < 10 then [(n + '0' as int) as char] else Decimal(n / 10) + [(n % 10 + '0' as int) as char]
  }

  lemma {:induction false} ValueOfDecimal(n: nat)
    ensures Value(Decimal(n)) == n
  {
    var s := Decimal(n);
    if n < 10 {
      assert s[..0] == [];
    } else {
      ValueOfDecimal(n / 10);
      assert s[..|s| - 1] == Decimal(n / 10);
    }
  }

  /** The last digit is the remainder by ten, the digits before it are those of the quotient. */
  lemma DecimalIs(n: nat, d: nat)
    requires d < 10
    ensures Decimal(d) == ["0123456789"[d]]
    ensures n > 0 ==> Decimal(10 * n + d) == Decimal(n) + ["0123456789"[d]]
  {
    assert (10 * n + d) / 10 == n && (10 * n + d) % 10 == d;
    assert "0123456789"[d] == ('0' as int + d) as char;
  }

  // ---------- writing ----------

  /** print_pid; any other pid crashes the program on purpose. */
  function PidLine(pid: nat): string
    requires 0 < pid <= LARGEST_PID
  {
    Decimal(pid) + "\n"
  }

  predicate ValidPids(pids: seq<nat>) {
    forall i :: 0 <= i < |pids| ==> 0 < pids[i] <= LARGEST_PID
  }

  /** The file after printing the pids one after the other. */
  function Written(pids: seq<nat>): string
    requires ValidPids(pids)
  {
    if pids == [] then "" else PidLine(pids[0]) + Written(pids[1..])
  }

  // ---------- reading ----------

  function LeadingNonDigits(s: string): (k: nat)
    ensures k <= |s|
    ensures k < |s| ==> IsDigit(s[k])
    ensures forall i :: 0 <= i < k ==> !IsDigit(s[i])
  {
    if s == [] || IsDigit(s[0]) then 0 else 1 + LeadingNonDigits(s[1..])
  }

  function LeadingDigits(s: string): (k: nat)
    ensures k <= |s|
    ensures k < |s| ==> !IsDigit(s[k])
    ensures forall i :: 0 <= i < k ==> IsDigit(s[i])
  {
    if s == [] || !IsDigit(s[0]) then 0 else 1 + LeadingDigits(s[1..])
  }

  datatype PidResult = PidResult(pid: int, rest: string)

  /** The result of read_pid on the text s when the number so far is result (-1 for none), and
      the text that is left. */
  function Scan(result: int, s: string): PidResult
    decreases |s|
  {
    if s == [] then PidResult(-1, "")
    else if IsDigit(s[0]) then
      Scan(if result == -1 then DigitValue(s[0]) else result * 10 + DigitValue(s[0]), s[1..])
    else if result > 1 then PidResult(result, s[1..])
    else Scan(-1, s[1..])
  }

  /** read_pid: one character at a time, with the number so far in result. */
  method ReadPid(file: TextFile) returns (pid: int)
    requires file.Valid()
    modifies file
    ensures file.Valid() && file.position >= old(file.position)
    ensures PidResult(pid, file.Rest()) == Scan(-1, old(file.Rest()))
    ensures pid > 0 ==> file.position > old(file.position)
  {
    ghost var s := file.Rest();
    var result := -1;
    var more := true;
    while more
      invariant file.Valid() && file.position >= old(file.position)
      invariant result >= -1
      invariant Scan(-1, s) == if more then Scan(result, file.Rest()) else PidResult(-1, "")
      invariant !more ==> file.Rest() == ""
      decreases |file.content| - file.position, more
    {
      ghost var before := file.Rest();
      var r, c := file.Read();
      more := r == 1;
      if more {
        assert before[0] == c && before[1..] == file.Rest();
        if '0' <= c <= '9' {
          if result == -1 {
            result := c as int - '0' as int;
          } else {
            result := result * 10 + (c as int - '0' as int);
          }
        } else if result == -1 {
        } else {
          if result > 1 {
            return result;
          }
          result := -1;
        }
      }
    }
    return -1;
  }

  // ---------- what read_pid finds ----------

  lemma {:induction false} ScanDigits(result: int, d: string, rest: string)
    requires AllDigits(d) && d != [] && result >= -1
    ensures Scan(result, d + rest) == Scan(ValueFrom(result, d), rest) && ValueFrom(result, d) >= 0
    decreases |d|
  {
    var next := if result == -1 then DigitValue(d[0]) else result * 10 + DigitValue(d[0]);
    assert (d + rest)[1..] == d[1..] + rest;
    assert AllDigits(d[1..]);
    if |d| > 1 {
      ScanDigits(next, d[1..], rest);
    } else {
      assert d[1..] + rest == rest;
    }
  }

  // The number after reading the digits d behind result.
  function ValueFrom(result: int, d: string): int
    requires AllDigits(d)
    decreases |d|
  {
    if d == [] then result
    else ValueFrom(if result == -1 then DigitValue(d[0]) else result * 10 + DigitValue(d[0]), d[1..])
  }

  lemma {:induction false} ValueFromAppend(result: int, d: string, c: char)
    requires AllDigits(d) && IsDigit(c) && result >= -1
    ensures AllDigits(d + [c])
    ensures var v := ValueFrom(result, d);
            v >= -1 && ValueFrom(result, d + [c]) == if v == -1 then DigitValue(c) else v * 10 + DigitValue(c)
    decreases |d|
  {
    if d == [] {
      assert (d + [c])[1..] == [];
    } else {
      assert (d + [c])[1..] == d[1..] + [c];
      ValueFromAppend(if result == -1 then DigitValue(d[0]) else result * 10 + DigitValue(d[0]), d[1..], c);
    }
  }

  lemma {:induction false} ValueFromIsValue(d: string)
    requires AllDigits(d)
    ensures ValueFrom(-1, d) == if d == [] then -1 else Value(d)
  {
    if d != [] {
      var n := |d| - 1;
      ValueFromIsValue(d[..n]);
      assert d == d[..n] + [d[n]];
      ValueFromAppend(-1, d[..n], d[n]);
    }
  }

  lemma {:induction false} ScanNonDigits(k: nat, s: string)
    requires k <= |s| && forall i :: 0 <= i < k ==> !IsDigit(s[i])
    ensures Scan(-1, s) == Scan(-1, s[k..])
  {
    if k > 0 {
      ScanNonDigits(k - 1, s[1..]);
      assert s[1..][k - 1..] == s[k..];
    }
  }

  lemma ScanRun(d: string, rest: string)
    requires AllDigits(d) && d != []
    ensures Scan(-1, d + rest) == Scan(Value(d), rest)
  {
    ScanDigits(-1, d, rest);
    ValueFromIsValue(d);
  }

  // One run of digits at a time.
  lemma FindsFirstRun(s: string)
    ensures var t := s[LeadingNonDigits(s)..];
            var k := LeadingDigits(t);
            Scan(-1, s) == if k == |t| then PidResult(-1, "")
                           else if Value(t[..k]) > 1 then PidResult(Value(t[..k]), t[k + 1..])
                           else Scan(-1, t[k + 1..])
  {
    ScanNonDigits(LeadingNonDigits(s), s);
    var t := s[LeadingNonDigits(s)..];
    var k := LeadingDigits(t);
    if t != [] {
      var d, rest := t[..k], t[k..];
      assert t == d + rest;
      ScanRun(d, rest);
      if rest != [] {
        assert rest[1..] == t[k + 1..];
      }
    }
  }

  /** A maximal run of digits, from i to j, that another character follows. */
  ghost predicate TerminatedRun(s: string, i: nat, j: nat) {
    && i < j < |s| && AllDigits(s[i..j]) && !IsDigit(s[j])
    && (i > 0 ==> !IsDigit(s[i - 1]))
  }

  // No terminated run that starts before position upto has a value above 1.
  ghost predicate OnlySmallRuns(s: string, upto: nat) {
    forall i: nat, j: nat :: i < upto && TerminatedRun(s, i, j) ==> Value(s[i..j]) <= 1
  }

  // The first digits of the text are those from i to j.
  ghost predicate FirstDigits(s: string, i: nat, j: nat) {
    && i <= j <= |s| && AllDigits(s[i..j])
    && (forall k :: 0 <= k < i ==> !IsDigit(s[k]))
    && (j < |s| ==> i < j && !IsDigit(s[j]))
  }

  lemma {:induction false} FirstDigitsOf(s: string) returns (i: nat, j: nat)
    ensures FirstDigits(s, i, j)
    ensures Scan(-1, s) == if j == |s| then PidResult(-1, "")
                           else if Value(s[i..j]) > 1 then PidResult(Value(s[i..j]), s[j + 1..])
                           else Scan(-1, s[j + 1..])
  {
    FindsFirstRun(s);
    i := LeadingNonDigits(s);
    var t := s[i..];
    j := i + LeadingDigits(t);
    assert s[i..j] == t[..j - i];
    assert j < |s| ==> s[j] == t[j - i] && s[i] == t[0] && s[j + 1..] == t[j - i + 1..];
  }

  lemma DigitOfRun(s: string, a: nat, b: nat, k: nat)
    requires a <= k < b <= |s| && AllDigits(s[a..b])
    ensures IsDigit(s[k])
  {
    assert s[a..b][k - a] == s[k];
  }

  lemma OneRunHere(s: string, i: nat, j: nat, a: nat, b: nat)
    requires FirstDigits(s, i, j) && TerminatedRun(s, a, b) && a <= j
    ensures a == i && b == j < |s|
  {
    DigitOfRun(s, a, b, a);
    if i < a {
      DigitOfRun(s, i, j, a - 1);
    } else if b < j {
      DigitOfRun(s, i, j, b);
    } else if j < b {
      DigitOfRun(s, a, b, j);
    }
  }

  lemma RunBehind(s: string, p: nat, a: nat, b: nat)
    requires 0 < p <= |s| && !IsDigit(s[p - 1])
    ensures TerminatedRun(s[p..], a, b) <==> TerminatedRun(s, p + a, p + b)
    ensures TerminatedRun(s[p..], a, b) ==> s[p..][a..b] == s[p + a..p + b]
  {
    if p + b <= |s| && a <= b {
      assert s[p..][a..b] == s[p + a..p + b];
    }
  }

  lemma SmallRunsBefore(s: string, i: nat, j: nat)
    requires FirstDigits(s, i, j)
    ensures OnlySmallRuns(s, i)
    ensures j == |s| ==> OnlySmallRuns(s, |s|)
  {
    forall a: nat, b: nat | a <= j && TerminatedRun(s, a, b) ensures a == i && b == j < |s| {
      OneRunHere(s, i, j, a, b);
    }
  }

  lemma SmallRunsBehind(s: string, i: nat, j: nat, upto: nat)
    requires FirstDigits(s, i, j) && j < |s| && Value(s[i..j]) <= 1
    requires OnlySmallRuns(s[j + 1..], upto)
    ensures OnlySmallRuns(s, j + 1 + upto)
  {
    forall a: nat, b: nat | a < j + 1 + upto && TerminatedRun(s, a, b) ensures Value(s[a..b]) <= 1 {
      if a <= j {
        OneRunHere(s, i, j, a, b);
      } else {
        RunBehind(s, j + 1, a - (j + 1), b - (j + 1));
      }
    }
  }

  /** The run from i to j is the first terminated one with a value above 1, and r is its value
      and the text behind the character that ends it; or there is none, r is -1 and all text has
      been read. */
  ghost predicate FirstRun(s: string, r: PidResult, i: nat, j: nat) {
    if r.pid == -1 then r.rest == "" && OnlySmallRuns(s, |s|)
    else
      && TerminatedRun(s, i, j) && OnlySmallRuns(s, i)
      && r == PidResult(Value(s[i..j]), s[j + 1..]) && r.pid > 1
  }

  lemma FirstRunHere(s: string, r: PidResult, i: nat, j: nat)
    requires FirstDigits(s, i, j)
    requires if j == |s| then r == PidResult(-1, "")
             else Value(s[i..j]) > 1 && r == PidResult(Value(s[i..j]), s[j + 1..])
    ensures FirstRun(s, r, i, j)
  {
    SmallRunsBefore(s, i, j);
  }

  lemma FirstRunBehind(s: string, r: PidResult, i: nat, j: nat, a: nat, b: nat)
    requires FirstDigits(s, i, j) && j < |s| && Value(s[i..j]) <= 1
    requires FirstRun(s[j + 1..], r, a, b)
    ensures FirstRun(s, r, j + 1 + a, j + 1 + b)
  {
    SmallRunsBehind(s, i, j, if r.pid == -1 then |s[j + 1..]| else a);
    RunBehind(s, j + 1, a, b);
    if r.pid != -1 {
      assert s[j + 1..][b + 1..] == s[j + 1 + b + 1..];
    }
  }

  /** read_pid finds the first terminated run of digits with a value above 1. */
  lemma {:induction false} ReadsFirstRun(s: string) returns (i: nat, j: nat)
    ensures FirstRun(s, Scan(-1, s), i, j)
    decreases |s|
  {
    i, j := FirstDigitsOf(s);
    if j < |s| && Value(s[i..j]) <= 1 {
      var a, b := ReadsFirstRun(s[j + 1..]);
      FirstRunBehind(s, Scan(-1, s), i, j, a, b);
      i, j := j + 1 + a, j + 1 + b;
    } else {
      FirstRunHere(s, Scan(-1, s), i, j);
    }
  }

  /** The pids found from here on, without the reader's own, at most room of them. */
  function Collected(s: string, me: nat, room: nat): seq<int>
    decreases |s|
  {
    var r := Scan(-1, s);
    if room == 0 || r.pid <= 0 || |r.rest| >= |s| then []
    else if r.pid == me then Collected(r.rest, me, room)
    else [r.pid] + Collected(r.rest, me, room - 1)
  }

  /** The loop of stop_all_on_signal. */
  method ReadPids(file: TextFile, me: nat) returns (pids: seq<int>)
    requires file.Valid()
    modifies file
    ensures pids == Collected(old(file.Rest()), me, MAX_STOP_PROCS)
  {
    ghost var all := Collected(file.Rest(), me, MAX_STOP_PROCS);
    ghost var left := all;
    assert [] + left == all;
    pids := [];
    var done := false;
    while |pids| < MAX_STOP_PROCS && !done
      invariant file.Valid() && |pids| <= MAX_STOP_PROCS
      invariant all == pids + left
      invariant left == if done then [] else Collected(file.Rest(), me, MAX_STOP_PROCS - |pids|)
      decreases |file.content| - file.position, !done
    {
      ghost var room := MAX_STOP_PROCS - |pids|;
      CollectedStep(file.Rest(), me, room);
      var pid := ReadPid(file);
      if pid > 0 {
        ghost var next := Collected(file.Rest(), me, if pid == me then room else room - 1);
        if pid != me {
          Regroup(pids, pid, next);
          pids := pids + [pid];
        }
        left := next;
      } else {
        done := true;
        left := [];
      }
    }
  }

  /** No more than 1000 pids are collected. */
  lemma CollectedFit(s: string, me: nat)
    ensures |Collected(s, me, MAX_STOP_PROCS)| <= 1000
  {
    CollectedAtMost(s, me, MAX_STOP_PROCS);
  }

  lemma {:induction false} CollectedAtMost(s: string, me: nat, room: nat)
    ensures |Collected(s, me, room)| <= room
    decreases |s|
  {
    var r := Scan(-1, s);
    if !(room == 0 || r.pid <= 0 || |r.rest| >= |s|) {
      CollectedAtMost(r.rest, me, if r.pid == me then room else room - 1);
    }
  }

  lemma Regroup(xs: seq<int>, x: int, ys: seq<int>)
    ensures xs + ([x] + ys) == (xs + [x]) + ys
  {}

  lemma CollectedStep(s: string, me: nat, room: nat)
    requires room > 0
    ensures var r := Scan(-1, s);
            Collected(s, me, room)
            == if r.pid <= 0 then []
               else (if r.pid == me then [] else [r.pid])
                    + Collected(r.rest, me, if r.pid == me then room else room - 1)
  {
    ScanShorter(-1, s);
  }

  lemma {:induction false} ScanShorter(result: int, s: string)
    ensures Scan(result, s).pid > 0 ==> |Scan(result, s).rest| < |s|
    decreases |s|
  {
    if s != [] {
      ScanShorter(if !IsDigit(s[0]) then -1 else
                    if result == -1 then DigitValue(s[0]) else result * 10 + DigitValue(s[0]), s[1..]);
    }
  }

  // ---------- round trip ----------

  lemma ScanLine(pid: nat, rest: string)
    requires 0 < pid <= LARGEST_PID
    ensures Scan(-1, PidLine(pid) + rest) == if pid > 1 then PidResult(pid, rest) else Scan(-1, rest)
  {
    var tail := "\n" + rest;
    assert PidLine(pid) + rest == Decimal(pid) + tail && tail[1..] == rest;
    ScanRun(Decimal(pid), tail);
    ValueOfDecimal(pid);
  }

  /** The pids above 1 other than me, in order. */
  function Others(pids: seq<nat>, me: nat): seq<int> {
    if pids == [] then [] else
      (if pids[0] > 1 && pids[0] != me then [pids[0]] else []) + Others(pids[1..], me)
  }

  function First(xs: seq<int>, n: nat): seq<int> {
    if |xs| <= n then xs else xs[..n]
  }

  lemma {:induction false} FirstStep(x: int, xs: seq<int>, n: nat)
    requires n > 0
    ensures First([x] + xs, n) == [x] + First(xs, n - 1)
  {}

  /** Reading back what was written gives the pids in order, without the reader's own and
      without pid 1, as far as there is room. */
  lemma {:induction false} ReadBack(pids: seq<nat>, me: nat, room: nat)
    requires ValidPids(pids)
    ensures Collected(Written(pids), me, room) == First(Others(pids, me), room)
    decreases |pids|
  {
    if pids != [] {
      var pid, others := pids[0], pids[1..];
      LineStep(pid, Written(others), me, room);
      if pid == 1 || pid == me || room == 0 {
        ReadBack(others, me, room);
        OthersSkip(pids, me, room);
      } else {
        ReadBack(others, me, room - 1);
        FirstStep(pid, Others(others, me), room);
      }
    }
  }

  lemma {:induction false} OthersSkip(pids: seq<nat>, me: nat, room: nat)
    requires pids != [] && (pids[0] <= 1 || pids[0] == me || room == 0)
    ensures First(Others(pids, me), room) == First(Others(pids[1..], me), room)
  {}

  // Reading on over one line.
  lemma {:induction false} LineStep(pid: nat, rest: string, me: nat, room: nat)
    requires 0 < pid <= LARGEST_PID
    ensures Collected(PidLine(pid) + rest, me, room)
            == if pid == 1 || pid == me || room == 0 then Collected(rest, me, room)
               else [pid] + Collected(rest, me, room - 1)
  {
    ScanLine(pid, rest);
    if pid == 1 {
      SkippedLine(PidLine(pid) + rest, rest, me, room);
    } else if room > 0 {
      CollectedStep(PidLine(pid) + rest, me, room);
    }
  }

  lemma SkippedLine(s: string, rest: string, me: nat, room: nat)
    requires Scan(-1, s) == Scan(-1, rest) && |rest| < |s|
    ensures Collected(s, me, room) == Collected(rest, me, room)
  {
    ScanShorter(-1, rest);
  }

  /** A list of at most 1000 pids above 1 is read back whole and in order, minus the reader. */
  lemma RoundTrip(pids: seq<nat>, me: nat)
    requires |pids| <= 1000 && forall i :: 0 <= i < |pids| ==> 1 < pids[i] <= 0xffff
    ensures Collected(Written(pids), me, MAX_STOP_PROCS) == Without(pids, me)
    ensures me !in pids ==> Collected(Written(pids), me, MAX_STOP_PROCS) == pids
  {
    ReadBack(pids, me, MAX_STOP_PROCS);
    OthersAre(pids, me);
  }

  function Without(pids: seq<nat>, me: nat): seq<nat> {
    if pids == [] then [] else (if pids[0] == me then [] else [pids[0]]) + Without(pids[1..], me)
  }

  /** Without takes out me, wherever it is, and nothing else. */
  lemma {:induction false} WithoutIs(pids: seq<nat>, me: nat)
    ensures me !in Without(pids, me)
    ensures forall x :: x != me ==> multiset(Without(pids, me))[x] == multiset(pids)[x]
  {
    if pids != [] {
      WithoutIs(pids[1..], me);
      assert pids == [pids[0]] + pids[1..];
    }
  }

  lemma {:induction false} OthersAre(pids: seq<nat>, me: nat)
    requires forall i :: 0 <= i < |pids| ==> pids[i] > 1
    ensures |Others(pids, me)| <= |pids| && Others(pids, me) == Without(pids, me)
    ensures me !in pids ==> Others(pids, me) == pids
  {
    if pids != [] {
      OthersAre(pids[1..], me);
      assert me !in pids ==> me !in pids[1..];
    }
  }
}
