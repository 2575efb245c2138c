/** astart.c: default_interfaces, which packs "name/extra" strings into one allocation whose size
    a first pass computes. */
module Interfaces {

  datatype Family = Inet | Inet6 | OtherFamily

  datatype Interface = Interface(name: string, isLoopback: bool, isBroadcast: bool, families: seq<Family>)

  predicate HasPrefix(s: string, prefix: string) {
    |prefix| <= |s| && s[..|prefix|] == prefix
  }

  /** interface_extra */
  function Extra(i: Interface, isRoot: bool): string {
    if Inet in i.families then "ip"
    else if HasPrefix(i.name, "wlan") || HasPrefix(i.name, "wlo")
            || HasPrefix(i.name, "wlp") || HasPrefix(i.name, "wlx") then
      if isRoot then "wifi" else ""
    else ""
  }

  /** Not loopback, broadcast, and there is a way to use it. */
  predicate Eligible(i: Interface, isRoot: bool) {
    !i.isLoopback && i.isBroadcast && Extra(i, isRoot) != ""
  }

  /** "ip" for an interface with an IPv4 address; otherwise "wifi" for root when the name begins
      like that of a wireless device. */
  lemma ExtraIs(i: Interface, isRoot: bool)
    ensures Extra(i, isRoot) == "ip" <==> Inet in i.families
    ensures Extra(i, isRoot) == "wifi"
            <==> Inet !in i.families && isRoot && |i.name| >= 3 && i.name[0] == 'w' && i.name[1] == 'l'
                 && (i.name[2] in "opx" || (|i.name| >= 4 && i.name[2] == 'a' && i.name[3] == 'n'))
    ensures Extra(i, isRoot) in ["ip", "wifi", ""]
  {
    PrefixIs(i.name, "wlan");
    PrefixIs(i.name, "wlo");
    PrefixIs(i.name, "wlp");
    PrefixIs(i.name, "wlx");
  }

  lemma PrefixIs(s: string, prefix: string)
    ensures HasPrefix(s, prefix) <==> |prefix| <= |s| && forall k :: 0 <= k < |prefix| ==> s[k] == prefix[k]
  {}

  function Text(i: Interface, isRoot: bool): string {
    i.name + "/" + Extra(i, isRoot)
  }

  /** The strings to be returned: those of the eligible interfaces, in order. */
  function Texts(ifs: seq<Interface>, isRoot: bool): (texts: seq<string>)
    ensures |texts| <= |ifs|
  {
    if ifs == [] then [] else
      var last := ifs[|ifs| - 1];
      var before := Texts(ifs[..|ifs| - 1], isRoot);
      if Eligible(last, isRoot) then before + [Text(last, isRoot)] else before
  }

  ghost predicate Gives(i: Interface, isRoot: bool, text: string) {
    && !i.isLoopback && i.isBroadcast
    && ((Extra(i, isRoot) == "ip" && text == i.name + "/ip")
        || (Extra(i, isRoot) == "wifi" && text == i.name + "/wifi"))
  }

  /** The strings are exactly the names of the broadcast interfaces that are not loopback, with
      "/ip" or "/wifi" behind them. */
  lemma {:induction false} TextsAre(ifs: seq<Interface>, isRoot: bool, text: string)
    ensures text in Texts(ifs, isRoot)
            <==> exists k :: 0 <= k < |ifs| && Gives(ifs[k], isRoot, text)
  {
    if ifs != [] {
      var n := |ifs| - 1;
      TextsAre(ifs[..n], isRoot, text);
      ExtraIs(ifs[n], isRoot);
      GivesText(ifs[n], isRoot, text);
      assert forall k :: 0 <= k < n ==> ifs[..n][k] == ifs[k];
    }
  }

  lemma GivesText(i: Interface, isRoot: bool, text: string)
    ensures Gives(i, isRoot, text) <==> Eligible(i, isRoot) && text == Text(i, isRoot)
  {
    assert i.name + "/" + "ip" == i.name + "/ip" && i.name + "/" + "wifi" == i.name + "/wifi";
  }

  lemma {:induction false} TextsStep(ifs: seq<Interface>, k: nat, isRoot: bool)
    requires k < |ifs|
    ensures Texts(ifs[..k + 1], isRoot)
            == if Eligible(ifs[k], isRoot) then Texts(ifs[..k], isRoot) + [Text(ifs[k], isRoot)]
               else Texts(ifs[..k], isRoot)
  {
    assert ifs[..k + 1][..k] == ifs[..k];
  }

  lemma {:induction false} TextsPrefix(ifs: seq<Interface>, k: nat, isRoot: bool)
    requires k <= |ifs|
    ensures Texts(ifs[..k], isRoot) <= Texts(ifs, isRoot)
  {
    if k < |ifs| {
      TextsPrefix(ifs[..|ifs| - 1], k, isRoot);
      assert ifs[..|ifs| - 1][..k] == ifs[..k];
    } else {
      assert ifs[..k] == ifs;
    }
  }

  /** The strings one after the other, each with its terminator. */
  function Packed(texts: seq<string>): string {
    if texts == [] then "" else Packed(texts[..|texts| - 1]) + texts[|texts| - 1] + "\0"
  }

  lemma {:induction false} PackedStep(texts: seq<string>, text: string)
    ensures Packed(texts + [text]) == Packed(texts) + text + "\0"
  {
    assert (texts + [text])[..|texts|] == texts;
  }

  lemma {:induction false} PackedPrefix(texts: seq<string>, more: seq<string>)
    requires texts <= more
    ensures Packed(texts) <= Packed(more)
    decreases |more|
  {
    if |texts| < |more| {
      assert texts <= more[..|more| - 1];
      PackedPrefix(texts, more[..|more| - 1]);
    } else {
      assert texts == more;
    }
  }

  /** Where string k starts. */
  function Start(texts: seq<string>, k: nat): nat
    requires k <= |texts|
  {
    |Packed(texts[..k])|
  }

  ghost predicate Counted(ifs: seq<Interface>, i: nat, isRoot: bool, count: nat, length: nat)
    requires i <= |ifs|
  {
    count == |Texts(ifs[..i], isRoot)| && length == |Packed(Texts(ifs[..i], isRoot))|
  }

  // What one more interface adds.
  lemma {:induction false} CountStep(ifs: seq<Interface>, i: nat, isRoot: bool, count: nat, length: nat)
    requires i < |ifs|
    requires Counted(ifs, i, isRoot, count, length)
    ensures if Eligible(ifs[i], isRoot) then
              Counted(ifs, i + 1, isRoot, count + 1, length + |ifs[i].name| + 1 + |Extra(ifs[i], isRoot)| + 1)
            else Counted(ifs, i + 1, isRoot, count, length)
  {
    TextsStep(ifs, i, isRoot);
    PackedStep(Texts(ifs[..i], isRoot), Text(ifs[i], isRoot));
  }

  // ---------- the code ----------

  /** The first pass: how many strings there will be, and how many characters they take. */
  method CountInterfaces(ifs: seq<Interface>, isRoot: bool) returns (count: nat, length: nat)
    ensures count == |Texts(ifs, isRoot)| && length == |Packed(Texts(ifs, isRoot))|
  {
    count, length := 0, 0;
    for i := 0 to |ifs|
      invariant Counted(ifs, i, isRoot, count, length)
    {
      count, length := CountOne(ifs, i, isRoot, count, length);
    }
    assert ifs[..|ifs|] == ifs;
  }

  method CountOne(ifs: seq<Interface>, i: nat, isRoot: bool, count: nat, length: nat)
    returns (count': nat, length': nat)
    requires i < |ifs| && Counted(ifs, i, isRoot, count, length)
    ensures Counted(ifs, i + 1, isRoot, count', length')
  {
    CountStep(ifs, i, isRoot, count, length);
    count', length' := count, length;
    if !ifs[i].isLoopback && ifs[i].isBroadcast {
      var extraLen := |Extra(ifs[i], isRoot)|;
      if extraLen != 0 {
        count' := count + 1;
        length' := length + |ifs[i].name| + 1 + extraLen + 1;
      }
    }
  }

  /** snprintf (to, room, "%s", text): as much as there is room for, and a terminator. */
  method Snprintf(buffer: array<char>, to: nat, room: nat, text: string) returns (wanted: nat)
    requires room > 0 && to + room <= buffer.Length
    modifies buffer
    ensures wanted == |text|
    ensures var kept := if |text| < room then text else text[..room - 1];
            buffer[..] == old(buffer[..to]) + kept + "\0" + old(buffer[to + |kept| + 1..])
  {
    var kept := if |text| < room then text else text[..room - 1];
    ghost var before := buffer[..];
    forall k | 0 <= k < |kept| {
      buffer[to + k] := kept[k];
    }
    buffer[to + |kept|] := '\0';
    assert buffer[..] == before[..to] + kept + "\0" + before[to + |kept| + 1..];
    return |text|;
  }

  // Writing one string where there is room for all of it: nothing is cut off.
  method WriteText(buffer: array<char>, to: nat, room: nat, text: string, ghost done: seq<string>)
    returns (slen: nat)
    requires to + room <= buffer.Length && |text| < room
    requires buffer[..to] == Packed(done)
    modifies buffer
    ensures slen == |text| + 1
    ensures buffer[..to + slen] == Packed(done + [text])
  {
    PackedStep(done, text);
    slen := Snprintf(buffer, to, room, text);
    slen := slen + 1;
  }

  // The pointers so far are where the strings so far start.
  ghost predicate PointersTo(pointers: seq<nat>, texts: seq<string>, n: nat)
    requires n <= |pointers| && n <= |texts|
  {
    forall k :: 0 <= k < n ==> pointers[k] == Start(texts, k)
  }

  method SetPointer(pointers: array<nat>, k: nat, to: nat, ghost done: seq<string>, ghost texts: seq<string>)
    requires k < pointers.Length && k < |texts| && done == texts[..k] && to == |Packed(done)|
    requires PointersTo(pointers[..], texts, k)
    modifies pointers
    ensures PointersTo(pointers[..], texts, k + 1)
  {
    pointers[k] := to;
  }

  /** default_interfaces: the pointers are offsets into the characters behind them. */
  method DefaultInterfaces(ifs: seq<Interface>, isRoot: bool)
    returns (result: nat, buffer: array<char>, pointers: array<nat>)
    ensures var texts := Texts(ifs, isRoot);
            && result == |texts| == pointers.Length
            && buffer[..] == Packed(texts)
            && PointersTo(pointers[..], texts, result)
    ensures (forall i :: 0 <= i < |ifs| ==> '\0' !in ifs[i].name) ==>
              forall k :: 0 <= k < result ==> ReadsAs(buffer[..], pointers[k], Texts(ifs, isRoot)[k])
    ensures fresh(buffer) && fresh(pointers)
  {
    var count, length := CountInterfaces(ifs, isRoot);
    buffer := new char[length];
    pointers := new nat[count];
    result := 0;
    if count > 0 {
      result := WriteInterfaces(ifs, isRoot, buffer, pointers);
    }
    if forall i :: 0 <= i < |ifs| ==> '\0' !in ifs[i].name {
      PointersReadBack(ifs, isRoot, pointers[..]);
    }
  }

  /** The C string at the given place. */
  ghost predicate ReadsAs(buffer: string, at: nat, text: string) {
    at < |buffer| && CString(buffer[at..]) == text
  }

  lemma {:induction false} PointersReadBack(ifs: seq<Interface>, isRoot: bool, pointers: seq<nat>)
    requires forall i :: 0 <= i < |ifs| ==> '\0' !in ifs[i].name
    requires |pointers| == |Texts(ifs, isRoot)| && PointersTo(pointers, Texts(ifs, isRoot), |pointers|)
    ensures forall k :: 0 <= k < |pointers| ==>
              ReadsAs(Packed(Texts(ifs, isRoot)), pointers[k], Texts(ifs, isRoot)[k])
  {
    var texts := Texts(ifs, isRoot);
    forall i | 0 <= i < |texts| ensures '\0' !in texts[i] {
      assert texts[i] in texts;
      TextsAre(ifs, isRoot, texts[i]);
    }
    forall k | 0 <= k < |pointers| ensures ReadsAs(Packed(texts), pointers[k], texts[k]) {
      StringsReadBack(texts, k);
    }
  }

  /** The second pass. */
  method WriteInterfaces(ifs: seq<Interface>, isRoot: bool, buffer: array<char>, pointers: array<nat>)
    returns (result: nat)
    requires pointers.Length == |Texts(ifs, isRoot)| && buffer.Length == |Packed(Texts(ifs, isRoot))|
    requires buffer as object != pointers
    modifies buffer, pointers
    ensures result == |Texts(ifs, isRoot)|
    ensures buffer[..] == Packed(Texts(ifs, isRoot))
    ensures PointersTo(pointers[..], Texts(ifs, isRoot), result)
  {
    var writeTo: nat, writeLen: nat := 0, buffer.Length;
    var i := 0;
    result := 0;
    NothingWritten(ifs, isRoot, buffer[..], pointers[..]);
    while writeLen > 0 && i < |ifs|
      invariant i <= |ifs| && writeTo + writeLen == buffer.Length
      invariant WrittenUpTo(buffer[..], pointers[..], ifs, isRoot, i, writeTo, result)
      decreases |ifs| - i
    {
      writeTo, writeLen, result := WriteOne(ifs, i, isRoot, buffer, pointers, writeTo, writeLen, result);
      i := i + 1;
    }
    AllWritten(buffer[..], pointers[..], ifs, isRoot, i, writeTo, result);
  }

  /** The strings of the first i interfaces are written, up to writeTo, and so are the n pointers
      to them. */
  ghost predicate WrittenUpTo(buffer: seq<char>, pointers: seq<nat>, ifs: seq<Interface>, isRoot: bool,
                              i: nat, writeTo: nat, n: nat)
    requires i <= |ifs|
  {
    var done, texts := Texts(ifs[..i], isRoot), Texts(ifs, isRoot);
    && n == |done| <= |texts| == |pointers|
    && writeTo == |Packed(done)| <= |buffer| == |Packed(texts)|
    && buffer[..writeTo] == Packed(done)
    && PointersTo(pointers, texts, n)
  }

  lemma {:induction false} NothingWritten(ifs: seq<Interface>, isRoot: bool, buffer: seq<char>, pointers: seq<nat>)
    requires |pointers| == |Texts(ifs, isRoot)| && |buffer| == |Packed(Texts(ifs, isRoot))|
    ensures WrittenUpTo(buffer, pointers, ifs, isRoot, 0, 0, 0)
  {}

  lemma {:induction false} AllWritten(buffer: seq<char>, pointers: seq<nat>, ifs: seq<Interface>, isRoot: bool,
                                      i: nat, writeTo: nat, n: nat)
    requires i <= |ifs| && WrittenUpTo(buffer, pointers, ifs, isRoot, i, writeTo, n)
    requires writeTo == |buffer| || i == |ifs|
    ensures n == |Texts(ifs, isRoot)| && buffer == Packed(Texts(ifs, isRoot))
    ensures PointersTo(pointers, Texts(ifs, isRoot), n)
  {
    NothingAfterFull(ifs, i, isRoot);
    assert buffer[..|buffer|] == buffer;
  }

  lemma {:induction false} NoneWritten(ifs: seq<Interface>, i: nat, isRoot: bool,
                                       buffer: seq<char>, pointers: seq<nat>, writeTo: nat, n: nat)
    requires i < |ifs| && !Eligible(ifs[i], isRoot)
    requires WrittenUpTo(buffer, pointers, ifs, isRoot, i, writeTo, n)
    ensures WrittenUpTo(buffer, pointers, ifs, isRoot, i + 1, writeTo, n)
  {
    TextsStep(ifs, i, isRoot);
  }

  // One turn of the second pass.
  method WriteOne(ifs: seq<Interface>, i: nat, isRoot: bool, buffer: array<char>, pointers: array<nat>,
                  writeTo: nat, writeLen: nat, n: nat) returns (writeTo': nat, writeLen': nat, n': nat)
    requires i < |ifs| && buffer as object != pointers && writeTo + writeLen == buffer.Length
    requires WrittenUpTo(buffer[..], pointers[..], ifs, isRoot, i, writeTo, n)
    modifies buffer, pointers
    ensures writeTo' + writeLen' == buffer.Length
    ensures WrittenUpTo(buffer[..], pointers[..], ifs, isRoot, i + 1, writeTo', n')
  {
    writeTo', writeLen', n' := writeTo, writeLen, n;
    if !ifs[i].isLoopback && ifs[i].isBroadcast {
      var extra := Extra(ifs[i], isRoot);
      if |extra| > 0 {
        n' := n' + 1;
        var text := ifs[i].name + "/" + extra;
        var slen := WriteEligible(ifs, i, isRoot, buffer, pointers, writeTo, writeLen, n, text);
        writeLen' := writeLen' - slen;
        writeTo' := writeTo' + slen;
        return;
      }
    }
    NoneWritten(ifs, i, isRoot, buffer[..], pointers[..], writeTo, n);
  }

  // For an eligible interface: the pointer and the string.
  method WriteEligible(ifs: seq<Interface>, i: nat, isRoot: bool, buffer: array<char>, pointers: array<nat>,
                       writeTo: nat, writeLen: nat, n: nat, text: string) returns (slen: nat)
    requires i < |ifs| && Eligible(ifs[i], isRoot) && text == Text(ifs[i], isRoot)
    requires buffer as object != pointers && writeTo + writeLen == buffer.Length
    requires WrittenUpTo(buffer[..], pointers[..], ifs, isRoot, i, writeTo, n)
    modifies buffer, pointers
    ensures slen <= writeLen
    ensures WrittenUpTo(buffer[..], pointers[..], ifs, isRoot, i + 1, writeTo + slen, n + 1)
  {
    ghost var done := Texts(ifs[..i], isRoot);
    TextsStep(ifs, i, isRoot);
    RoomForText(ifs, i, isRoot);
    SetPointer(pointers, n, writeTo, done, Texts(ifs, isRoot));
    slen := WriteText(buffer, writeTo, writeLen, text, done);
  }

  // There is room for a string that is to be written.
  lemma {:induction false} RoomForText(ifs: seq<Interface>, i: nat, isRoot: bool)
    requires i < |ifs| && Eligible(ifs[i], isRoot)
    ensures Packed(Texts(ifs[..i + 1], isRoot)) == Packed(Texts(ifs[..i], isRoot)) + Text(ifs[i], isRoot) + "\0"
    ensures |Packed(Texts(ifs[..i + 1], isRoot))| <= |Packed(Texts(ifs, isRoot))|
    ensures |Texts(ifs[..i], isRoot)| < |Texts(ifs, isRoot)|
    ensures Texts(ifs[..i], isRoot) == Texts(ifs, isRoot)[..|Texts(ifs[..i], isRoot)|]
  {
    var before, after, all := Texts(ifs[..i], isRoot), Texts(ifs[..i + 1], isRoot), Texts(ifs, isRoot);
    TextsStep(ifs, i, isRoot);
    assert after == before + [Text(ifs[i], isRoot)];
    PackedStep(before, Text(ifs[i], isRoot));
    TextsPrefix(ifs, i + 1, isRoot);
    PackedPrefix(after, all);
    OneShorter(before, Text(ifs[i], isRoot), all);
  }

  lemma OneShorter(before: seq<string>, text: string, all: seq<string>)
    requires before + [text] <= all
    ensures |before| < |all| && before == all[..|before|]
  {
    assert all[..|before|] == (before + [text])[..|before|];
  }

  // When all characters are used up, no eligible interface is left.
  lemma {:induction false} NothingAfterFull(ifs: seq<Interface>, i: nat, isRoot: bool)
    requires i <= |ifs|
    requires |Packed(Texts(ifs[..i], isRoot))| == |Packed(Texts(ifs, isRoot))| || i == |ifs|
    ensures Texts(ifs[..i], isRoot) == Texts(ifs, isRoot)
    decreases |ifs| - i
  {
    if i == |ifs| {
      assert ifs[..i] == ifs;
    } else {
      TextsStep(ifs, i, isRoot);
      if Eligible(ifs[i], isRoot) {
        RoomForText(ifs, i, isRoot);
      } else {
        assert ifs[..i + 1][..i] == ifs[..i];
        NothingAfterFull(ifs, i + 1, isRoot);
      }
    }
  }

  // ---------- reading the strings back ----------

  /** The C string that starts at the given place. */
  function CString(s: string): string {
    if s == [] || s[0] == '\0' then "" else [s[0]] + CString(s[1..])
  }

  lemma {:induction false} CStringOf(text: string, rest: string)
    requires '\0' !in text
    ensures CString(text + "\0" + rest) == text
  {
    if text != [] {
      assert (text + "\0" + rest)[1..] == text[1..] + "\0" + rest;
      assert forall c :: c in text[1..] ==> c in text;
      CStringOf(text[1..], rest);
    }
  }

  /** Each pointer, read as a C string, gives its string; the strings follow each other without
      overlap and end exactly at the end of the allocation. */
  lemma {:induction false} StringsReadBack(texts: seq<string>, k: nat)
    requires k < |texts| && forall i :: 0 <= i < |texts| ==> '\0' !in texts[i]
    ensures Start(texts, k) + |texts[k]| + 1 == Start(texts, k + 1) <= |Packed(texts)|
    ensures CString(Packed(texts)[Start(texts, k)..]) == texts[k]
    ensures Start(texts, 0) == 0 && Start(texts, |texts|) == |Packed(texts)|
  {
    var before, upTo := texts[..k], texts[..k + 1];
    assert upTo == before + [texts[k]] && texts[..|texts|] == texts;
    PackedStep(before, texts[k]);
    PackedPrefix(upTo, texts);
    TailAt(Packed(texts), Packed(before), texts[k]);
  }

  // What is found where before ends in a text that goes on with one string.
  lemma {:induction false} TailAt(all: string, before: string, text: string)
    requires before + text + "\0" <= all && '\0' !in text
    ensures CString(all[|before|..]) == text
  {
    var rest := all[|before + text + "\0"|..];
    assert all[|before|..] == text + "\0" + rest;
    CStringOf(text, rest);
  }
}
