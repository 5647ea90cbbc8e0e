/**
_checkHosts: bringing the list of replica-set members in line with the host
list a member reports. Addresses are compared in their canonical form.
*/
module Reconcile {
  type Address = string

  /** A member: its address, whether it is up, and the rest of what is known about it. */
  datatype Member = Member(addr: Address, ok: bool, known: nat)

  /** A member that was just added; it is up when the connection could be made. */
  function NewMember(addr: Address, connected: bool): Member { Member(addr, connected, 0) }

  predicate Distinct(nodes: seq<Member>) {
    forall i, j :: 0 <= i < j < |nodes| ==> nodes[i].addr != nodes[j].addr
  }

  predicate DistinctHosts(hosts: seq<Address>) {
    forall i, j :: 0 <= i < j < |hosts| ==> hosts[i] != hosts[j]
  }

  function Addresses(nodes: seq<Member>): set<Address> { set i | 0 <= i < |nodes| :: nodes[i].addr }

  function Hosts(hosts: seq<Address>): set<Address> { set h | h in hosts }

  /** The members that stay: those whose address is in the list, in their old order. */
  function Survivors(nodes: seq<Member>, hosts: set<Address>): seq<Member> {
    if nodes == [] then []
    else (if nodes[0].addr in hosts then [nodes[0]] else []) + Survivors(nodes[1..], hosts)
  }

  /** Every host is known and there are as many hosts as members, or there are no hosts at all. */
  predicate LooksUnchanged(nodes: seq<Member>, hosts: seq<Address>) {
    hosts == [] || (Hosts(hosts) <= Addresses(nodes) && |hosts| == |nodes|)
  }

  /** What connecting to a host comes to: a failure is caught, but not every exception is. */
  datatype Connecting = Connected | Failed | Throws

  /** Threw: an exception out of connecting to a new host leaves the change half done. */
  datatype Outcome = Unchanged | Changed | VerifyFailed | Threw

  /** The nodes are what is left of the old ones, in order, and then new ones that were not there before. */
  predicate Extends(nodes: seq<Member>, before: seq<Member>, listed: set<Address>, connects: Address -> Connecting) {
    && Survivors(before, listed) <= nodes
    && forall i :: |Survivors(before, listed)| <= i < |nodes| ==>
         && (nodes[i].ok <==> connects(nodes[i].addr) == Connected) && nodes[i].known == 0
         && connects(nodes[i].addr) != Throws && nodes[i].addr !in Addresses(before)
  }

  /** Some host that has to be added makes connecting throw. */
  ghost predicate SomeThrows(added: set<Address>, connects: Address -> Connecting) {
    exists h :: h in added && connects(h) == Throws
  }

  // ----- counting -----

  lemma {:induction false} CountAddresses(nodes: seq<Member>)
    requires Distinct(nodes)
    ensures |Addresses(nodes)| == |nodes|
  {
    if nodes != [] {
      var front, last := nodes[..|nodes| - 1], nodes[|nodes| - 1];
      CountAddresses(front);
      AddressesSnoc(front, last);
      assert nodes == front + [last];
      NotAmong(front, last);
    }
  }

  lemma NotAmong(front: seq<Member>, last: Member)
    requires Distinct(front + [last])
    ensures last.addr !in Addresses(front)
  {
    var nodes := front + [last];
    assert forall i :: 0 <= i < |front| ==> front[i].addr == nodes[i].addr != nodes[|front|].addr;
  }

  lemma {:induction false} CountHosts(hosts: seq<Address>)
    requires DistinctHosts(hosts)
    ensures |Hosts(hosts)| == |hosts|
  {
    if hosts != [] {
      var front := hosts[..|hosts| - 1];
      CountHosts(front);
      assert Hosts(hosts) == Hosts(front) + {hosts[|hosts| - 1]};
    }
  }

  lemma SubsetOfSameSize<T>(a: set<T>, b: set<T>)
    requires a <= b && |a| == |b|
    ensures a == b
  {
    assert |b - a| == |b| - |a|;
  }

  /** For duplicate-free lists the quick test is exact: nothing changes iff the list is empty or the addresses agree. */
  lemma UnchangedIffSameAddresses(nodes: seq<Member>, hosts: seq<Address>)
    requires Distinct(nodes) && DistinctHosts(hosts)
    ensures LooksUnchanged(nodes, hosts) <==> hosts == [] || Hosts(hosts) == Addresses(nodes)
  {
    CountAddresses(nodes);
    CountHosts(hosts);
    if Hosts(hosts) <= Addresses(nodes) && |hosts| == |nodes| {
      SubsetOfSameSize(Hosts(hosts), Addresses(nodes));
    }
  }

  // ----- erasing -----

  /** The members from place lo on whose index is not removed. */
  function Kept(nodes: seq<Member>, removed: set<int>, lo: nat): seq<Member>
    requires lo <= |nodes|
    decreases |nodes| - lo
  {
    if lo == |nodes| then []
    else (if lo in removed then [] else [nodes[lo]]) + Kept(nodes, removed, lo + 1)
  }

  lemma {:induction false} KeptIsSurvivors(nodes: seq<Member>, removed: set<int>, hosts: set<Address>, lo: nat)
    requires lo <= |nodes| && forall i :: 0 <= i < |nodes| ==> (i in removed <==> nodes[i].addr !in hosts)
    ensures Kept(nodes, removed, lo) == Survivors(nodes[lo..], hosts)
    decreases |nodes| - lo
  {
    if lo < |nodes| {
      KeptIsSurvivors(nodes, removed, hosts, lo + 1);
      assert nodes[lo..][1..] == nodes[lo + 1..];
    }
  }

  /** Deleting from the end keeps the indices of what is still to be deleted. */
  method EraseFromEnd(nodes: seq<Member>, removed: set<int>) returns (left: seq<Member>)
    ensures left == Kept(nodes, removed, 0)
  {
    left := nodes;
    for i := |nodes| downto 0
      invariant left == nodes[..i] + Kept(nodes, removed, i)
    {
      assert nodes[..i + 1] == nodes[..i] + [nodes[i]];
      if i in removed {
        assert left[i] == nodes[i];
        left := left[..i] + left[i + 1..];
      }
    }
  }

  lemma {:induction false} SurvivorsMembers(nodes: seq<Member>, hosts: set<Address>)
    ensures Addresses(Survivors(nodes, hosts)) == Addresses(nodes) * hosts
    ensures forall i :: 0 <= i < |Survivors(nodes, hosts)| ==> Survivors(nodes, hosts)[i] in nodes
    ensures Distinct(nodes) ==> Distinct(Survivors(nodes, hosts))
  {
    if nodes != [] {
      var n, rest := nodes[0], nodes[1..];
      SurvivorsMembers(rest, hosts);
      var tail := Survivors(rest, hosts);
      var all := Survivors(nodes, hosts);
      AddressesCons(n, rest);
      assert nodes == [n] + rest;
      if n.addr in hosts {
        AddressesCons(n, tail);
        assert all == [n] + tail;
        if Distinct(nodes) {
          forall i | 0 <= i < |tail| ensures tail[i].addr != n.addr {
            assert tail[i] in rest;
          }
        }
      } else {
        assert all == tail;
      }
    }
  }

  lemma AddressesCons(n: Member, rest: seq<Member>)
    ensures Addresses([n] + rest) == {n.addr} + Addresses(rest)
  {
    var all := [n] + rest;
    forall a | a in Addresses(rest) ensures a in Addresses(all) {
      var i :| 0 <= i < |rest| && rest[i].addr == a;
      assert all[i + 1].addr == a;
    }
    assert all[0].addr in Addresses(all);
  }

  lemma AddressesSnoc(nodes: seq<Member>, n: Member)
    ensures Addresses(nodes + [n]) == Addresses(nodes) + {n.addr}
  {
    var all := nodes + [n];
    forall a | a in Addresses(nodes) ensures a in Addresses(all) {
      var i :| 0 <= i < |nodes| && nodes[i].addr == a;
      assert all[i].addr == a;
    }
    assert all[|nodes|].addr in Addresses(all);
  }

  // ----- the monitor -----

  class ReplicaSetMonitor {
    var nodes: seq<Member>
    var master: int

    method FindInlock(server: Address) returns (x: int)
      ensures x == -1 ==> server !in Addresses(nodes)
      ensures x != -1 ==> 0 <= x < |nodes| && nodes[x].addr == server
    {
      for i := 0 to |nodes|
        invariant forall j :: 0 <= j < i ==> nodes[j].addr != server
      {
        if nodes[i].addr == server {
          return i;
        }
      }
      return -1;
    }

    method ShouldChangeHosts(hostList: seq<Address>) returns (change: bool)
      ensures change <==> !LooksUnchanged(nodes, hostList)
    {
      var origHosts, numHosts, changed := |nodes|, 0, false;
      for i := 0 to |hostList|
        invariant numHosts == i && !changed
        invariant forall j :: 0 <= j < i ==> hostList[j] in Addresses(nodes)
      {
        numHosts := numHosts + 1;
        var index := FindInlock(hostList[i]);
        if index >= 0 {
          assert nodes[index].addr in Addresses(nodes);
          continue;
        }
        changed := true;
        assert hostList[i] in Hosts(hostList);
        break;
      }
      return (changed || origHosts != numHosts) && numHosts > 0;
    }

    /** The hosts that are no members yet, and the indices of the members that are not listed. */
    method GetHostDiffInlock(hostList: seq<Address>) returns (added: set<Address>, removed: set<int>)
      requires Distinct(nodes)
      ensures added == Hosts(hostList) - Addresses(nodes)
      ensures removed == set i | 0 <= i < |nodes| && nodes[i].addr !in Hosts(hostList)
    {
      added := {};
      var nodesFound: set<int> := {};
      for k := 0 to |hostList|
        invariant added == Hosts(hostList[..k]) - Addresses(nodes)
        invariant nodesFound == set i | 0 <= i < |nodes| && nodes[i].addr in Hosts(hostList[..k])
      {
        assert Hosts(hostList[..k + 1]) == Hosts(hostList[..k]) + {hostList[k]};
        var nodeIndex := FindInlock(hostList[k]);
        if nodeIndex < 0 {
          assert forall i :: 0 <= i < |nodes| ==> nodes[i].addr in Addresses(nodes);
          added := added + {hostList[k]};
        } else {
          assert nodes[nodeIndex].addr in Addresses(nodes);
          nodesFound := nodesFound + {nodeIndex};
        }
      }
      assert hostList[..|hostList|] == hostList;
      removed := {};
      for i := 0 to |nodes|
        invariant removed == set j | 0 <= j < i && nodes[j].addr !in Hosts(hostList)
      {
        if i !in nodesFound {
          removed := removed + {i};
        }
      }
    }

    /**
     Unchanged exactly when the quick test says so. Otherwise the listed hosts
     become the members: survivors keep record and order, new ones follow, and
     the master is forgotten. The `verify` in between fails exactly when the
     test was misled by a repeated host. When connecting to a new host throws,
     the members not listed are gone, that host is not there, and the old
     master index stays.
     */
    method CheckHosts(hostList: seq<Address>, connects: Address -> Connecting) returns (outcome: Outcome)
      requires Distinct(nodes)
      modifies this
      ensures Distinct(nodes)
      ensures outcome == Unchanged <==> LooksUnchanged(old(nodes), hostList)
      ensures outcome == VerifyFailed <==>
        !LooksUnchanged(old(nodes), hostList) && Hosts(hostList) == Addresses(old(nodes))
      ensures outcome == Threw <==>
        !LooksUnchanged(old(nodes), hostList) && SomeThrows(Hosts(hostList) - Addresses(old(nodes)), connects)
      ensures outcome in {Unchanged, VerifyFailed} ==> nodes == old(nodes) && master == old(master)
      ensures outcome in {Changed, Threw} ==> Extends(nodes, old(nodes), Hosts(hostList), connects)
      ensures outcome == Changed ==> master == -1 && Addresses(nodes) == Hosts(hostList)
      ensures outcome == Threw ==> master == old(master) && Addresses(nodes) < Hosts(hostList)
      ensures outcome != Threw && old(master) < |old(nodes)| ==> master < |nodes|
    {
      hide Survivors, Addresses, Kept, Extends;
      var should := ShouldChangeHosts(hostList);
      if !should {
        return Unchanged;
      }
      // the lock is taken, and the test repeated
      should := ShouldChangeHosts(hostList);
      if !should {
        return Unchanged;
      }
      ghost var listed := Hosts(hostList);
      var added, removed := GetHostDiffInlock(hostList);
      NothingToDo(nodes, listed, removed);
      if !(|added| > 0 || |removed| > 0) {
        return VerifyFailed;
      }
      var threw := ChangeHosts(hostList, added, removed, connects);
      return if threw then Threw else Changed;
    }

    /** The change itself, under the lock. */
    method ChangeHosts(ghost hostList: seq<Address>, added: set<Address>, removed: set<int>, connects: Address -> Connecting)
      returns (threw: bool)
      requires Distinct(nodes)
      requires added == Hosts(hostList) - Addresses(nodes)
      requires removed == set i | 0 <= i < |nodes| && nodes[i].addr !in Hosts(hostList)
      modifies this
      ensures Distinct(nodes) && Extends(nodes, old(nodes), Hosts(hostList), connects)
      ensures threw <==> SomeThrows(added, connects)
      ensures !threw ==> master == -1 && Addresses(nodes) == Hosts(hostList)
      ensures threw ==> master == old(master) && Addresses(nodes) < Hosts(hostList)
    {
      hide Survivors, Addresses, Kept, Hosts;
      ghost var before, listed := nodes, Hosts(hostList);
      nodes := EraseFromEnd(nodes, removed);
      KeptIsSurvivors(before, removed, listed, 0);
      assert before[0..] == before;
      SurvivorsMembers(before, listed);
      ghost var kept := nodes;
      var todo := added;
      while todo != {}
        invariant Distinct(nodes) && todo <= added && master == old(master)
        invariant Addresses(nodes) == Addresses(kept) + (added - todo)
        invariant Extends(nodes, before, listed, connects)
        invariant forall h :: h in added - todo ==> connects(h) != Throws
        decreases todo
      {
        var host :| host in todo;
        if connects(host) == Throws {
          assert host in listed && host !in Addresses(nodes);
          return true;
        }
        var member := NewMember(host, connects(host) == Connected);
        AddressesSnoc(nodes, member);
        NotThere(nodes, host);
        nodes := nodes + [member];
        todo := todo - {host};
      }
      master := -1;
      return false;
    }
  }

  /** Where the i-th survivor stood before. */
  function Origin(nodes: seq<Member>, hosts: set<Address>, i: nat): (k: nat)
    requires i < |Survivors(nodes, hosts)|
    ensures k < |nodes| && Survivors(nodes, hosts)[i] == nodes[k]
  {
    if nodes[0].addr !in hosts then 1 + Origin(nodes[1..], hosts, i)
    else if i == 0 then 0
    else 1 + Origin(nodes[1..], hosts, i - 1)
  }

  /** The survivors are in the order they had. */
  lemma {:induction false} SurvivorsInOrder(nodes: seq<Member>, hosts: set<Address>, i: nat, j: nat)
    requires i < j < |Survivors(nodes, hosts)|
    ensures Origin(nodes, hosts, i) < Origin(nodes, hosts, j)
  {
    if nodes[0].addr !in hosts {
      SurvivorsInOrder(nodes[1..], hosts, i, j);
    } else if i > 0 {
      SurvivorsInOrder(nodes[1..], hosts, i - 1, j - 1);
    }
  }

  /** The master at the end of the list, a listed host in front, and a new host that throws: the index is left over. */
  lemma MasterLeftBehind(a: Member, b: Member, c: Member, d: Address)
    requires Distinct([a, b, c]) && d !in {a.addr, b.addr, c.addr}
    ensures var nodes, hosts := [a, b, c], [a.addr, d];
      && !LooksUnchanged(nodes, hosts) && Survivors(nodes, Hosts(hosts)) == [a]
      && Hosts(hosts) - Addresses(nodes) == {d}
  {
    var nodes, hosts := [a, b, c], [a.addr, d];
    assert a == nodes[0] && b == nodes[1] && c == nodes[2];
    assert Hosts(hosts) == {a.addr, d} by { assert hosts[0] in hosts && hosts[1] in hosts; }
    AddressesCons(c, []);
    AddressesCons(b, [c]);
    AddressesCons(a, [b, c]);
    assert [c] + [] == [c] && [b] + [c] == [b, c] && [a] + [b, c] == nodes;
    assert nodes[1..] == [b, c] && [b, c][1..] == [c] && [c][1..] == [];
    assert Survivors([c], Hosts(hosts)) == [] && Survivors([b, c], Hosts(hosts)) == [];
  }

  lemma NotThere(nodes: seq<Member>, a: Address)
    requires a !in Addresses(nodes)
    ensures forall i :: 0 <= i < |nodes| ==> nodes[i].addr != a
  {
    forall i | 0 <= i < |nodes| ensures nodes[i].addr != a {
      assert nodes[i].addr in Addresses(nodes);
    }
  }

  /** Nothing to add and nothing to remove means that the addresses agree. */
  lemma NothingToDo(nodes: seq<Member>, listed: set<Address>, removed: set<int>)
    requires removed == set i | 0 <= i < |nodes| && nodes[i].addr !in listed
    ensures listed - Addresses(nodes) == {} && removed == {} <==> listed == Addresses(nodes)
  {
    if removed == {} {
      forall a | a in Addresses(nodes) ensures a in listed {
        var i :| 0 <= i < |nodes| && nodes[i].addr == a;
        assert i !in removed;
      }
      if listed - Addresses(nodes) == {} {
        forall a | a in listed ensures a in Addresses(nodes) {
          assert a !in listed - Addresses(nodes);
        }
      }
    }
    if listed == Addresses(nodes) {
      forall i | 0 <= i < |nodes| ensures i !in removed {
        assert nodes[i].addr in Addresses(nodes);
      }
    }
  }

  /** With duplicate-free lists the `verify` cannot fail. */
  lemma VerifyHolds(nodes: seq<Member>, hosts: seq<Address>)
    requires Distinct(nodes) && DistinctHosts(hosts)
    ensures LooksUnchanged(nodes, hosts) || Hosts(hosts) != Addresses(nodes)
  {
    UnchangedIffSameAddresses(nodes, hosts);
  }

  /** A repeated host: the addresses agree, the counts do not. */
  lemma RepeatedHostMisleads(n: Member)
    ensures var nodes, hosts := [n], [n.addr, n.addr];
      Distinct(nodes) && !LooksUnchanged(nodes, hosts) && Hosts(hosts) == Addresses(nodes)
  {
    assert [n][0].addr in Addresses([n]);
  }
}
