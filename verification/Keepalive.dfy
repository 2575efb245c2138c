/** ad.c: the table of keepalive authentications for addresses in the routing table. */
module Keepalive {

  const ADDRS_MAX: nat := 32

  /** A socket address; Blank is the content of an entry that was never used. */
  datatype Address =
    | Blank
    | V4(port: nat, ip: nat, zero: nat)
    | V6(port6: nat, flow: nat, first12: nat, last4: nat, scope: nat)   // the bytes of the address
  {
    // An IPv6 address that embeds an IPv4 address.
    predicate Mapped() {
      V6? && first12 == 0xffff
    }
  }

  /** same_sockaddr, in ai.c: equal bytes, or an IPv4 address and an IPv6 address that embeds it. */
  predicate Same(a: Address, b: Address) {
    if a.V4? && b.V6? then b.Mapped() && a.port == b.port6 && a.ip == b.last4
    else if a.V6? && b.V4? then a.Mapped() && a.port6 == b.port && a.last4 == b.ip
    else a == b
  }

  /** Two IPv4 addresses are the same when all their parts are, and two IPv6 addresses likewise; an
      IPv4 address is the same as an IPv6 address of the same port that embeds it. */
  lemma SameMeans(port: nat, ip: nat, zero: nat, port': nat, ip': nat, zero': nat,
                  flow: nat, first12: nat, scope: nat, flow': nat, first12': nat, scope': nat)
    ensures Same(V4(port, ip, zero), V4(port', ip', zero')) <==> port == port' && ip == ip' && zero == zero'
    ensures Same(V6(port, flow, first12, ip, scope), V6(port', flow', first12', ip', scope'))
            <==> port == port' && flow == flow' && first12 == first12' && ip == ip' && scope == scope'
    ensures Same(V4(port, ip, zero), V6(port', flow, first12, ip', scope))
            <==> port == port' && ip == ip' && first12 == 0xffff
    ensures Same(V6(port, flow, first12, ip, scope), V4(port', ip', zero))
            <==> port == port' && ip == ip' && first12 == 0xffff
  {}

  type Auth = seq<bv8>

  datatype Entry = Entry(addr: Address, auth: Auth)

  /** routing_keepalive_index: the first entry with the same address, or -1. */
  function IndexOf(live: seq<Entry>, addr: Address): (k: int)
    ensures -1 <= k < |live|
    ensures k >= 0 ==> Same(live[k].addr, addr)
    ensures forall j :: 0 <= j < (if k >= 0 then k else |live|) ==> !Same(live[j].addr, addr)
  {
    if live == [] then -1
    else
      var n := |live| - 1;
      var k := IndexOf(live[..n], addr);
      if k >= 0 then k else if Same(live[n].addr, addr) then n else -1
  }

  /** What add_routing_keepalive makes of the live entries; pick is the random choice. */
  function Added(live: seq<Entry>, addr: Address, auth: Auth, pick: nat): seq<Entry>
    requires |live| <= ADDRS_MAX && pick < ADDRS_MAX
  {
    var k := IndexOf(live, addr);
    if k >= 0 then (if live[k].auth == auth then live else live[k := Entry(addr, auth)])
    else if |live| < ADDRS_MAX then live + [Entry(addr, auth)]
    else live[pick := Entry(addr, auth)]
  }

  class KeepaliveTable {
    const entries: array<Entry>
    var num: nat

    ghost predicate Valid()
      reads this, entries
    {
      && entries.Length == ADDRS_MAX && num <= ADDRS_MAX
      && (forall i :: 0 <= i < num ==> !entries[i].addr.Blank?)
      && (forall i :: num <= i < ADDRS_MAX ==> entries[i].addr.Blank?)
    }

    ghost function Live(): seq<Entry>
      requires Valid()
      reads this, entries
    {
      entries[..num]
    }

    constructor ()
      ensures Valid() && Live() == [] && fresh(entries)
    {
      entries := new Entry[ADDRS_MAX](_ => Entry(Blank, []));
      num := 0;
    }

    method RoutingKeepaliveIndex(addr: Address) returns (k: int)
      requires Valid()
      ensures k == IndexOf(Live(), addr)
    {
      for i := 0 to num
        invariant forall j :: 0 <= j < i ==> !Same(entries[j].addr, addr)
      {
        if Same(entries[i].addr, addr) {
          assert Same(Live()[i].addr, addr);
          assert forall j :: 0 <= j < i ==> !Same(Live()[j].addr, addr);
          return i;
        }
      }
      assert forall j :: 0 <= j < num ==> !Same(Live()[j].addr, addr);
      return -1;
    }

    /** add_routing_keepalive; pick is the result of random_int. */
    method AddRoutingKeepalive(addr: Address, auth: Auth, pick: nat) returns (isNew: int)
      requires Valid() && !addr.Blank? && pick < ADDRS_MAX
      modifies this, entries
      ensures Valid()
      ensures Live() == Added(old(Live()), addr, auth, pick)
      ensures isNew == if Live() == old(Live()) then 0 else 1
    {
      ghost var before := Live();
      AddedIsFound(before, addr, auth, pick);
      var index := RoutingKeepaliveIndex(addr);
      if index == -1 || index >= num {
        if num < ADDRS_MAX {
          index := num;
          assert entries[index].addr.Blank?;
        } else {
          index := pick;
        }
      }
      assert index < |before| ==> entries[index] == before[index];
      if Same(entries[index].addr, addr) && entries[index].auth == auth {
        return 0;
      }
      Put(index, addr, auth);
      return 1;
    }

    // The end of add_routing_keepalive, which also counts an entry that was not in use.
    method Put(index: nat, addr: Address, auth: Auth)
      requires Valid() && !addr.Blank? && index <= num && index < ADDRS_MAX
      modifies this, entries
      ensures Valid()
      ensures Live() == if index < old(num) then old(Live())[index := Entry(addr, auth)]
                        else old(Live()) + [Entry(addr, auth)]
    {
      if index == num {
        num := num + 1;
      }
      entries[index] := Entry(addr, auth);
    }
  }

  // ---------- the table as a partial map ----------

  /** After an add the address is found with the new authentication; no other entry changes, and
      an entry is lost only when the table is full. */
  lemma AddedIsFound(live: seq<Entry>, addr: Address, auth: Auth, pick: nat)
    requires |live| <= ADDRS_MAX && pick < ADDRS_MAX
    ensures var after := Added(live, addr, auth, pick);
            var k := IndexOf(after, addr);
            && |live| <= |after| <= 32
            && k >= 0 && after[k].auth == auth
            && (forall j :: 0 <= j < |live| && j != k ==> after[j] == live[j])
            && (k < |live| && !Same(live[k].addr, addr) ==> |live| == 32 && k == pick)
            && (after == live <==> (IndexOf(live, addr) >= 0 && live[IndexOf(live, addr)].auth == auth))
  {
    var after := Added(live, addr, auth, pick);
    var first, k := IndexOf(live, addr), IndexOf(after, addr);
    var at := if first >= 0 then first else if |live| < ADDRS_MAX then |live| else pick;
    assert Same(after[at].addr, addr) && after[at].auth == auth;
    assert forall j :: 0 <= j < at ==> after[j] == live[j];
    assert k == at;
  }

  ghost predicate Distinct(live: seq<Entry>) {
    forall i, j :: 0 <= i < j < |live| ==> !Same(live[i].addr, live[j].addr) && !Same(live[j].addr, live[i].addr)
  }

  /** A table without two entries for the same address gets none by an add, except exactly when
      two of its entries both match the added address and the first of them is replaced. */
  lemma AddedStaysDistinct(live: seq<Entry>, addr: Address, auth: Auth, pick: nat)
    requires |live| <= ADDRS_MAX && pick < ADDRS_MAX && Distinct(live)
    ensures Distinct(Added(live, addr, auth, pick)) <==>
            !(&& IndexOf(live, addr) >= 0 && live[IndexOf(live, addr)].auth != auth
              && exists j :: IndexOf(live, addr) < j < |live| && Same(live[j].addr, addr))
  {
    var after, k := Added(live, addr, auth, pick), IndexOf(live, addr);
    if k >= 0 && live[k].auth != auth {
      assert after[k].addr == addr;
      if j :| k < j < |live| && Same(live[j].addr, addr) {
        assert Same(after[j].addr, after[k].addr);
      } else {
        OneMoreDistinct(live, k, Entry(addr, auth));
      }
    } else if k < 0 {
      if |live| == ADDRS_MAX {
        OneMoreDistinct(live, pick, Entry(addr, auth));
      }
    }
  }

  lemma SameSymmetric(a: Address, b: Address)
    ensures Same(a, b) == Same(b, a)
  {}

  // Replacing entry k by one that matches no other entry.
  lemma OneMoreDistinct(live: seq<Entry>, k: nat, e: Entry)
    requires Distinct(live) && k < |live|
    requires forall j :: 0 <= j < |live| && j != k ==> !Same(live[j].addr, e.addr)
    ensures Distinct(live[k := e])
  {
    forall j | 0 <= j < |live| && j != k ensures !Same(e.addr, live[j].addr) {
      SameSymmetric(live[j].addr, e.addr);
    }
  }

  // ---------- runs ----------

  datatype Add = Add(addr: Address, auth: Auth, pick: nat)

  ghost predicate ValidAdds(adds: seq<Add>) {
    forall i :: 0 <= i < |adds| ==> adds[i].pick < ADDRS_MAX && !adds[i].addr.Blank?
  }

  function AfterAdds(adds: seq<Add>): (live: seq<Entry>)
    requires ValidAdds(adds)
    ensures |live| <= ADDRS_MAX
    decreases |adds|
  {
    if adds == [] then [] else
      var last := adds[|adds| - 1];
      Added(AfterAdds(adds[..|adds| - 1]), last.addr, last.auth, last.pick)
  }

  /** With embedded addresses three adds are enough: two that differ in scope both match the IPv4
      address, which replaces the first of them. */
  lemma DistinctCanBreak(auth: Auth, other: Auth)
    requires auth != other
    ensures var x, y := V6(1, 0, 0xffff, 5, 1), V6(1, 0, 0xffff, 5, 2);
            var adds := [Add(x, other, 0), Add(y, other, 0), Add(V4(1, 5, 0), auth, 0)];
            ValidAdds(adds) && Distinct(AfterAdds(adds[..2])) && !Distinct(AfterAdds(adds))
  {
    var x, y, z := V6(1, 0, 0xffff, 5, 1), V6(1, 0, 0xffff, 5, 2), V4(1, 5, 0);
    var adds := [Add(x, other, 0), Add(y, other, 0), Add(z, auth, 0)];
    AfterThree(adds[0], adds[1], adds[2]);
    var one := Added([], x, other, 0);
    assert one == [Entry(x, other)];
    var live := Added(one, y, other, 0);
    assert live == [Entry(x, other), Entry(y, other)];
    assert Same(live[0].addr, z) && Same(live[1].addr, z);
    assert IndexOf(live, z) == 0;
    AddedStaysDistinct(live, z, auth, 0);
  }

  lemma AfterThree(a: Add, b: Add, c: Add)
    requires a.pick < ADDRS_MAX && b.pick < ADDRS_MAX && c.pick < ADDRS_MAX
    requires !a.addr.Blank? && !b.addr.Blank? && !c.addr.Blank?
    ensures ValidAdds([a, b, c]) && ValidAdds([a, b, c][..2])
    ensures var one := Added([], a.addr, a.auth, a.pick);
            && |one| <= ADDRS_MAX
            && AfterAdds([a, b, c][..2]) == Added(one, b.addr, b.auth, b.pick)
    ensures AfterAdds([a, b, c]) == Added(AfterAdds([a, b, c][..2]), c.addr, c.auth, c.pick)
  {
    assert [a, b, c][..2] == [a, b] && [a, b][..1] == [a] && [a][..0] == [];
    assert ValidAdds([a]) && ValidAdds([a, b]) && ValidAdds([a, b, c]);
    assert AfterAdds([a]) == Added([], a.addr, a.auth, a.pick);
  }

  /** Over any run without embedded addresses, the table is a partial map of at most 32 entries:
      no two of them for the same address. */
  lemma {:induction false} TableStaysDistinct(adds: seq<Add>)
    requires ValidAdds(adds) && forall i :: 0 <= i < |adds| ==> !adds[i].addr.Mapped()
    ensures Distinct(AfterAdds(adds)) && |AfterAdds(adds)| <= 32
    ensures forall k :: 0 <= k < |AfterAdds(adds)| ==> !AfterAdds(adds)[k].addr.Mapped()
    decreases |adds|
  {
    if adds != [] {
      var last, before := adds[|adds| - 1], AfterAdds(adds[..|adds| - 1]);
      TableStaysDistinct(adds[..|adds| - 1]);
      AddedStaysDistinct(before, last.addr, last.auth, last.pick);
      assert forall k :: 0 <= k < |before| && Same(before[k].addr, last.addr) ==> before[k].addr == last.addr;
    }
  }
}
