/**
Choosing a replica-set member for a read: the round robin of _selectNode over
the nodes that match a tag.
*/
module Selection {
  const DEFAULT_DB_PORT: int := 27017

  /** A host and port; port -1 stands for the default one. */
  datatype HostAndPort = HostAndPort(host: string, port: int) {
    predicate Empty() { host == "" && port < 0 }

    function Port(): int { if port >= 0 then port else DEFAULT_DB_PORT }

    predicate Same(other: HostAndPort) { host == other.host && Port() == other.Port() }
  }

  const NO_HOST: HostAndPort := HostAndPort("", -1)

  /** A tag document: names with values, compared by value. */
  type Tag = seq<(string, int)>

  datatype Option<T> = None | Some(value: T)

  /** What the monitor knows about a member; tags is what the node last reported, if it was an object. */
  datatype Node = Node(
    addr: HostAndPort, ok: bool, ismaster: bool, secondary: bool, hidden: bool,
    pingTimeMillis: int, tags: Option<Tag>)
  {
    predicate OkForSecondaryQueries() { ok && secondary && !hidden }

    predicate IsLocalSecondary(threshold: int) { pingTimeMillis < threshold }

    predicate MatchesTag(tag: Tag) {
      tag == [] ||
      (tags.Some? && forall i :: 0 <= i < |tag| ==> FieldOf(tags.value, tag[i].0) == Some(tag[i].1))
    }

    predicate IsCompatible(preference: ReadPreference, list: seq<Tag>) {
      && ok
      && (preference in {SecondaryOnly, SecondaryPreferred} ==> OkForSecondaryQueries())
      && (preference in {PrimaryOnly, PrimaryPreferred} ==> !secondary)
      && (list == [] || exists i :: 0 <= i < |list| && MatchesTag(list[i]))
    }

    /** Passes the tests of _selectNode up to the tag. */
    predicate Candidate(tag: Tag, secOnly: bool) {
      ok && (secOnly ==> OkForSecondaryQueries()) && MatchesTag(tag)
    }
  }

  function FieldOf(tag: Tag, name: string): Option<int> {
    if tag == [] then None else if tag[0].0 == name then Some(tag[0].1) else FieldOf(tag[1..], name)
  }

  datatype ReadPreference = PrimaryOnly | PrimaryPreferred | SecondaryOnly | SecondaryPreferred | Nearest

  /** Nodes have addresses. */
  predicate Addressed(nodes: seq<Node>) { forall i :: 0 <= i < |nodes| ==> !nodes[i].addr.Empty() }

  predicate DistinctAddresses(nodes: seq<Node>) {
    forall i, j :: 0 <= i < j < |nodes| ==> !nodes[i].addr.Same(nodes[j].addr)
  }

  /** What one call of _selectNode looks for. */
  datatype Query = Query(tag: Tag, secOnly: bool, threshold: int)

  predicate Candidate(nodes: seq<Node>, q: Query, i: int) {
    0 <= i < |nodes| && nodes[i].Candidate(q.tag, q.secOnly)
  }

  /** A candidate under the ping threshold ends the search. */
  predicate Eligible(nodes: seq<Node>, q: Query, i: int) {
    Candidate(nodes, q, i) && nodes[i].IsLocalSecondary(q.threshold)
  }

  // ----- the search of _selectNode -----

  /** The k-th node looked at when the last one chosen was start. */
  function Turn(start: nat, k: nat, n: nat): nat
    requires start < n && k < n
  {
    if start + 1 + k < n then start + 1 + k else start + 1 + k - n
  }

  /** Where the search starts: the last host's place, or 0 when it is gone. */
  function StartIndex(nodes: seq<Node>, lastHost: HostAndPort, x: nat): nat
    requires x <= |nodes|
    decreases |nodes| - x
  {
    if lastHost.Empty() || x == |nodes| then 0
    else if lastHost.Same(nodes[x].addr) then x
    else StartIndex(nodes, lastHost, x + 1)
  }

  /** The outcome of the turns from k on, with the fallback found so far; -1 stands for none. */
  function Choose(nodes: seq<Node>, q: Query, start: nat, k: nat, fallback: int): (c: int)
    requires k <= |nodes| && (nodes != [] ==> start < |nodes|)
    requires fallback == -1 || Candidate(nodes, q, fallback)
    ensures c == -1 || Candidate(nodes, q, c)
    decreases |nodes| - k
  {
    if k == |nodes| then fallback
    else
      var j := Turn(start, k, |nodes|);
      if !Candidate(nodes, q, j) then Choose(nodes, q, start, k + 1, fallback)
      else if Eligible(nodes, q, j) then j
      else Choose(nodes, q, start, k + 1, j)
  }

  function HostOf(nodes: seq<Node>, c: int): HostAndPort
    requires -1 <= c < |nodes|
  {
    if c == -1 then NO_HOST else nodes[c].addr
  }

  lemma StartIndexBound(nodes: seq<Node>, lastHost: HostAndPort, x: nat)
    requires x <= |nodes|
    ensures nodes != [] ==> StartIndex(nodes, lastHost, x) < |nodes|
    decreases |nodes| - x
  {
  }

  method FindStart(nodes: seq<Node>, lastHost: HostAndPort) returns (nextNodeIndex: nat)
    ensures nextNodeIndex == StartIndex(nodes, lastHost, 0)
  {
    hide HostAndPort.Same, HostAndPort.Empty;
    nextNodeIndex := 0;
    if !lastHost.Empty() {
      for x := 0 to |nodes|
        invariant StartIndex(nodes, lastHost, x) == StartIndex(nodes, lastHost, 0)
      {
        if lastHost.Same(nodes[x].addr) {
          return x;
        }
      }
    }
  }

  method SelectOne(nodes: seq<Node>, q: Query, lastHost: HostAndPort, isPrimarySelected: bool)
    returns (host: HostAndPort, newLastHost: HostAndPort, isPrimary: bool)
    requires Addressed(nodes)
    ensures nodes != [] ==> StartIndex(nodes, lastHost, 0) < |nodes|
    ensures var c := Choose(nodes, q, StartIndex(nodes, lastHost, 0), 0, -1);
      && host == HostOf(nodes, c)
      && newLastHost == (if c == -1 then lastHost else host)
      && isPrimary == (if c == -1 then isPrimarySelected else nodes[c].ismaster)
  {
    hide StartIndex, Node.MatchesTag, Node.OkForSecondaryQueries, Node.IsLocalSecondary;
    StartIndexBound(nodes, lastHost, 0);
    var fallbackHost := NO_HOST;
    newLastHost, isPrimary := lastHost, isPrimarySelected;
    var nextNodeIndex := FindStart(nodes, lastHost);
    ghost var start := nextNodeIndex;
    ghost var fallback := -1;
    for itNode := 0 to |nodes|
      invariant nextNodeIndex == if itNode == 0 then start else Turn(start, itNode - 1, |nodes|)
      invariant fallback == -1 || Candidate(nodes, q, fallback)
      invariant fallbackHost == HostOf(nodes, fallback)
      invariant isPrimary == if fallback == -1 then isPrimarySelected else nodes[fallback].ismaster
      invariant newLastHost == lastHost
      invariant Choose(nodes, q, start, itNode, fallback) == Choose(nodes, q, start, 0, -1)
    {
      NextTurn(nextNodeIndex, |nodes|);
      nextNodeIndex := (nextNodeIndex + 1) % |nodes|;
      assert nextNodeIndex == Turn(start, itNode, |nodes|);
      var node := nodes[nextNodeIndex];
      if !node.ok {
        continue;
      }
      if q.secOnly && !node.OkForSecondaryQueries() {
        continue;
      }
      if node.MatchesTag(q.tag) {
        assert Candidate(nodes, q, nextNodeIndex);
        fallback := nextNodeIndex;
        fallbackHost := node.addr;
        isPrimary := node.ismaster;
        if node.IsLocalSecondary(q.threshold) {
          newLastHost := fallbackHost;
          return fallbackHost, newLastHost, isPrimary;
        }
      }
    }
    if !fallbackHost.Empty() {
      newLastHost := fallbackHost;
    }
    host := fallbackHost;
  }

  lemma NextTurn(i: nat, n: nat)
    requires i < n
    ensures (i + 1) % n == if i + 1 < n then i + 1 else 0
  {
    if i + 1 == n {
      assert n % n == 0;
    }
  }

  // ----- who is chosen -----

  /** Some candidate among the turns from k on, or a fallback: then someone is chosen, and only then. */
  lemma {:induction false} ChoosesSomeone(nodes: seq<Node>, q: Query, start: nat, k: nat, fallback: int)
    requires k <= |nodes| && start < |nodes| && (fallback == -1 || Candidate(nodes, q, fallback))
    ensures Choose(nodes, q, start, k, fallback) != -1 <==>
      fallback != -1 || exists t :: k <= t < |nodes| && Candidate(nodes, q, Turn(start, t, |nodes|))
    decreases |nodes| - k
  {
    if k < |nodes| {
      var j := Turn(start, k, |nodes|);
      if !Candidate(nodes, q, j) {
        ChoosesSomeone(nodes, q, start, k + 1, fallback);
      } else if !Eligible(nodes, q, j) {
        ChoosesSomeone(nodes, q, start, k + 1, j);
      }
    }
  }

  /** Every node has its turn. */
  function TurnOf(start: nat, i: nat, n: nat): (k: nat)
    requires start < n && i < n
    ensures k < n && Turn(start, k, n) == i
  {
    if i > start then i - start - 1 else i + n - start - 1
  }

  /** _selectNode returns a host exactly when some node is a candidate. */
  lemma SelectedIffCandidate(nodes: seq<Node>, q: Query, start: nat)
    requires nodes != [] ==> start < |nodes|
    ensures Choose(nodes, q, start, 0, -1) != -1 <==> exists i :: Candidate(nodes, q, i)
  {
    if nodes != [] {
      ChoosesSomeone(nodes, q, start, 0, -1);
      forall i | Candidate(nodes, q, i)
        ensures exists t :: 0 <= t < |nodes| && Candidate(nodes, q, Turn(start, t, |nodes|))
      {
        assert Candidate(nodes, q, Turn(start, TurnOf(start, i, |nodes|), |nodes|));
      }
    }
  }

  /** When some node is eligible, the first eligible one in turn is chosen, whatever else matches. */
  lemma {:induction false} FirstEligible(nodes: seq<Node>, q: Query, start: nat, k: nat, fallback: int, t: nat)
    requires k <= t < |nodes| && start < |nodes| && (fallback == -1 || Candidate(nodes, q, fallback))
    requires Eligible(nodes, q, Turn(start, t, |nodes|))
    requires forall s :: k <= s < t ==> !Eligible(nodes, q, Turn(start, s, |nodes|))
    ensures Choose(nodes, q, start, k, fallback) == Turn(start, t, |nodes|)
    decreases t - k
  {
    if k < t {
      var j := Turn(start, k, |nodes|);
      FirstEligible(nodes, q, start, k + 1, if Candidate(nodes, q, j) then j else fallback, t);
    }
  }

  // ----- round robin -----

  /** The eligible nodes below m, in ascending order. */
  function EligibleBelow(nodes: seq<Node>, q: Query, m: nat): (e: seq<nat>)
    requires m <= |nodes|
    ensures forall i :: 0 <= i < |e| ==> e[i] < m && Eligible(nodes, q, e[i])
    ensures forall i, j :: 0 <= i < j < |e| ==> e[i] < e[j]
    ensures forall x :: 0 <= x < m && Eligible(nodes, q, x) ==> x in e
  {
    if m == 0 then []
    else if Eligible(nodes, q, m - 1) then EligibleBelow(nodes, q, m - 1) + [m - 1]
    else EligibleBelow(nodes, q, m - 1)
  }

  /** Place i of the ascending list is the first one behind start: all before it are not behind. */
  predicate FirstBehind(e: seq<nat>, start: nat, i: nat) {
    && i <= |e|
    && (forall j :: 0 <= j < i ==> e[j] <= start)
    && (forall j :: i <= j < |e| ==> e[j] > start)
  }

  /** The choice is the next eligible node behind start, or the first of all when there is none. */
  lemma ChooseIsNext(nodes: seq<Node>, q: Query, start: nat, e: seq<nat>, i: nat)
    requires start < |nodes| && e == EligibleBelow(nodes, q, |nodes|) && e != []
    requires FirstBehind(e, start, i)
    ensures Choose(nodes, q, start, 0, -1) == if i < |e| then e[i] else e[0]
  {
    var n := |nodes|;
    var target := if i < |e| then e[i] else e[0];
    var t := TurnOf(start, target, n);
    forall s | 0 <= s < t ensures !Eligible(nodes, q, Turn(start, s, n)) {
      var x := Turn(start, s, n);
      if Eligible(nodes, q, x) {
        var j :| 0 <= j < |e| && e[j] == x;
        Earlier(e, start, i, j, s, n);
      }
    }
    FirstEligible(nodes, q, start, 0, -1, t);
  }

  lemma Earlier(e: seq<nat>, start: nat, i: nat, j: nat, s: nat, n: nat)
    requires start < n && s < n && j < |e| && forall k :: 0 <= k < |e| ==> e[k] < n
    requires forall a, b :: 0 <= a < b < |e| ==> e[a] < e[b]
    requires FirstBehind(e, start, i) && e[j] == Turn(start, s, n)
    ensures TurnOf(start, if i < |e| then e[i] else e[0], n) <= s
  {
    if i < |e| {
      assert e[j] > start ==> i <= j;
      assert e[i] <= e[j] || e[j] <= start;
    } else {
      assert e[j] <= start;
      assert e[0] <= e[j];
    }
  }

  /** The nodes count calls in a row choose, each starting where the last one ended. */
  function Picks(nodes: seq<Node>, q: Query, start: nat, count: nat): (p: seq<int>)
    requires start < |nodes|
    ensures |p| == count
    decreases count
  {
    if count == 0 then []
    else
      var c := Choose(nodes, q, start, 0, -1);
      if c == -1 then seq(count, _ => -1) else [c] + Picks(nodes, q, c, count - 1)
  }

  /** Place s + t of the ascending list, going round. */
  function Round(s: nat, t: nat, k: nat): nat
    requires s < k && t < k
  {
    if s + t < k then s + t else s + t - k
  }

  /** From the eligible node at place s on, the calls go through the list in order and round. */
  lemma {:induction false} PicksGoRound(nodes: seq<Node>, q: Query, e: seq<nat>, start: nat, s: nat, count: nat)
    requires start < |nodes| && e == EligibleBelow(nodes, q, |nodes|) && s < |e| && count <= |e|
    requires Choose(nodes, q, start, 0, -1) == e[s]
    ensures forall t :: 0 <= t < count ==> Picks(nodes, q, start, count)[t] == e[Round(s, t, |e|)]
    decreases count
  {
    hide Choose, Eligible, EligibleBelow, FirstBehind;
    if count > 0 {
      var s' := if s + 1 < |e| then s + 1 else 0;
      FirstBehindSelf(e, s);
      ChooseIsNext(nodes, q, e[s], e, s + 1);
      PicksGoRound(nodes, q, e, e[s], s', count - 1);
      var p := Picks(nodes, q, start, count);
      forall t | 0 <= t < count ensures p[t] == e[Round(s, t, |e|)] {
        if t > 0 {
          assert p[t] == Picks(nodes, q, e[s], count - 1)[t - 1];
          assert Round(s', t - 1, |e|) == Round(s, t, |e|);
        }
      }
    }
  }

  lemma FirstBehindSelf(e: seq<nat>, s: nat)
    requires s < |e| && forall i, j :: 0 <= i < j < |e| ==> e[i] < e[j]
    ensures FirstBehind(e, e[s], s + 1)
  {
  }

  lemma {:induction false} FindBehind(e: seq<nat>, start: nat) returns (i: nat)
    requires forall i, j :: 0 <= i < j < |e| ==> e[i] < e[j]
    ensures FirstBehind(e, start, i)
  {
    if e == [] || e[|e| - 1] <= start {
      i := |e|;
    } else {
      i := FindBehind(e[..|e| - 1], start);
    }
  }

  /** With k eligible nodes, any k calls in a row choose each of them exactly once. */
  lemma RoundRobinFair(nodes: seq<Node>, q: Query, start: nat, i: nat)
    requires start < |nodes| && Eligible(nodes, q, i)
    ensures var k := |EligibleBelow(nodes, q, |nodes|)|;
      exists t :: 0 <= t < k && Picks(nodes, q, start, k)[t] == i
        && forall u :: 0 <= u < k && u != t ==> Picks(nodes, q, start, k)[u] != i
  {
    hide Choose, EligibleBelow, Picks, Node.Candidate, Node.IsLocalSecondary;
    var e := EligibleBelow(nodes, q, |nodes|);
    var k := |e|;
    assert i in e;
    var b := FindBehind(e, start);
    ChooseIsNext(nodes, q, start, e, b);
    var s := if b < k then b else 0;
    PicksGoRound(nodes, q, e, start, s, k);
    var x :| 0 <= x < k && e[x] == i;
    var t := if x >= s then x - s else x + k - s;
    assert Round(s, t, k) == x;
    forall u | 0 <= u < k && u != t ensures Picks(nodes, q, start, k)[u] != i {
      assert Round(s, u, k) != x;
    }
    assert Picks(nodes, q, start, k)[t] == i;
  }

  /** Distinct addresses: the last host is found again where it was. */
  lemma {:induction false} StartAtLast(nodes: seq<Node>, c: nat, x: nat)
    requires Addressed(nodes) && DistinctAddresses(nodes) && x <= c < |nodes|
    ensures StartIndex(nodes, nodes[c].addr, x) == c
    decreases c - x
  {
    if x < c {
      StartAtLast(nodes, c, x + 1);
    }
  }

  /** Calls in a row, each handing the last host to the next one, choose what Picks says. */
  method SelectRepeatedly(nodes: seq<Node>, q: Query, lastHost: HostAndPort, count: nat)
    returns (hosts: seq<HostAndPort>)
    requires Addressed(nodes) && DistinctAddresses(nodes) && exists i :: Eligible(nodes, q, i)
    ensures StartIndex(nodes, lastHost, 0) < |nodes| && |hosts| == count
    ensures forall t :: 0 <= t < count ==>
      var p := Picks(nodes, q, StartIndex(nodes, lastHost, 0), count)[t];
      0 <= p < |nodes| && hosts[t] == nodes[p].addr
    decreases count
  {
    hide Eligible, StartIndex, Node.Candidate;
    EligibleIsCandidate(nodes, q);
    StartIndexBound(nodes, lastHost, 0);
    hosts := [];
    if count > 0 {
      ghost var start := StartIndex(nodes, lastHost, 0);
      SelectedIffCandidate(nodes, q, start);
      ghost var c := Choose(nodes, q, start, 0, -1);
      var host, last, isPrimary := SelectOne(nodes, q, lastHost, false);
      StartAtLast(nodes, c, 0);
      var more := SelectRepeatedly(nodes, q, last, count - 1);
      hosts := [host] + more;
    }
  }

  predicate OnceIn(hosts: seq<HostAndPort>, host: HostAndPort) {
    exists t :: 0 <= t < |hosts| && hosts[t] == host && forall u :: 0 <= u < |hosts| && u != t ==> hosts[u] != host
  }

  /** As many calls in a row as there are eligible nodes return each one's address exactly once. */
  method SelectRound(nodes: seq<Node>, q: Query, lastHost: HostAndPort) returns (hosts: seq<HostAndPort>)
    requires Addressed(nodes) && DistinctAddresses(nodes) && exists i :: Eligible(nodes, q, i)
    ensures |hosts| == |EligibleBelow(nodes, q, |nodes|)|
    ensures forall i :: 0 <= i < |nodes| && Eligible(nodes, q, i) ==> OnceIn(hosts, nodes[i].addr)
  {
    hide Eligible, EligibleBelow, Picks, StartIndex, OnceIn, Addressed, DistinctAddresses;
    hosts := SelectRepeatedly(nodes, q, lastHost, |EligibleBelow(nodes, q, |nodes|)|);
    ghost var start := StartIndex(nodes, lastHost, 0);
    forall i | 0 <= i < |nodes| && Eligible(nodes, q, i) ensures OnceIn(hosts, nodes[i].addr) {
      EachOnce(nodes, q, start, hosts, i);
    }
  }

  lemma EachOnce(nodes: seq<Node>, q: Query, start: nat, hosts: seq<HostAndPort>, i: nat)
    requires DistinctAddresses(nodes) && start < |nodes| && i < |nodes| && Eligible(nodes, q, i)
    requires |hosts| == |EligibleBelow(nodes, q, |nodes|)|
    requires forall t :: 0 <= t < |hosts| ==>
      var p := Picks(nodes, q, start, |hosts|)[t]; 0 <= p < |nodes| && hosts[t] == nodes[p].addr
    ensures OnceIn(hosts, nodes[i].addr)
  {
    hide Eligible, EligibleBelow, Picks;
    RoundRobinFair(nodes, q, start, i);
    var picks := Picks(nodes, q, start, |hosts|);
    var t :| 0 <= t < |hosts| && picks[t] == i && forall u :: 0 <= u < |hosts| && u != t ==> picks[u] != i;
    forall u | 0 <= u < |hosts| && u != t ensures hosts[u] != nodes[i].addr {
      assert picks[u] < i || i < picks[u];
    }
  }

  // ----- who is chosen when none is near, and from where the turns count -----

  /** When no candidate is under the threshold, the last one in turn is chosen. */
  lemma {:induction false} LastCandidate(nodes: seq<Node>, q: Query, start: nat, k: nat, fallback: int, t: nat)
    requires k <= t < |nodes| && start < |nodes| && (fallback == -1 || Candidate(nodes, q, fallback))
    requires Candidate(nodes, q, Turn(start, t, |nodes|))
    requires forall s :: t < s < |nodes| ==> !Candidate(nodes, q, Turn(start, s, |nodes|))
    requires forall i :: 0 <= i < |nodes| && Candidate(nodes, q, i) ==> nodes[i].pingTimeMillis >= q.threshold
    ensures Choose(nodes, q, start, k, fallback) == Turn(start, t, |nodes|)
    decreases t - k
  {
    hide Node.Candidate;
    if k < t {
      var j := Turn(start, k, |nodes|);
      LastCandidate(nodes, q, start, k + 1, if Candidate(nodes, q, j) then j else fallback, t);
    } else {
      NoMore(nodes, q, start, k + 1, Turn(start, t, |nodes|));
    }
  }

  lemma {:induction false} NoMore(nodes: seq<Node>, q: Query, start: nat, k: nat, fallback: int)
    requires k <= |nodes| && start < |nodes| && (fallback == -1 || Candidate(nodes, q, fallback))
    requires forall s :: k <= s < |nodes| ==> !Candidate(nodes, q, Turn(start, s, |nodes|))
    ensures Choose(nodes, q, start, k, fallback) == fallback
    decreases |nodes| - k
  {
    if k < |nodes| {
      NoMore(nodes, q, start, k + 1, fallback);
    }
  }

  /** A node under the threshold is chosen whenever some candidate is under it. */
  lemma NearOneChosen(nodes: seq<Node>, q: Query, start: nat, i: nat)
    requires start < |nodes| && Candidate(nodes, q, i) && nodes[i].pingTimeMillis < q.threshold
    ensures var c := Choose(nodes, q, start, 0, -1);
      0 <= c < |nodes| && nodes[c].pingTimeMillis < q.threshold
  {
    hide Node.Candidate;
    var e := EligibleBelow(nodes, q, |nodes|);
    assert i in e;
    var b := FindBehind(e, start);
    ChooseIsNext(nodes, q, start, e, b);
  }

  /** The turns go up from the start, around the end. */
  lemma TurnIs(start: nat, k: nat, n: nat)
    requires start < n && k < n
    ensures Turn(start, k, n) == (start + 1 + k) % n
  {
    if start + 1 + k >= n {
      assert (start + 1 + k) % n == (start + 1 + k - n) % n;
    }
  }

  /** A host with its port, where none means 27017. */
  function Endpoint(h: HostAndPort): (string, int) { (h.host, if h.port < 0 then 27017 else h.port) }

  /** The turns start behind the first node with the last host's endpoint, or behind the first node of all. */
  lemma {:induction false} StartIs(nodes: seq<Node>, last: HostAndPort, x: nat)
    requires x <= |nodes|
    ensures var s := StartIndex(nodes, last, x);
      if (last.host == "" && last.port < 0) || forall i :: x <= i < |nodes| ==> Endpoint(nodes[i].addr) != Endpoint(last)
      then s == 0
      else
        && x <= s < |nodes| && Endpoint(nodes[s].addr) == Endpoint(last)
        && forall i :: x <= i < s ==> Endpoint(nodes[i].addr) != Endpoint(last)
    decreases |nodes| - x
  {
    if x < |nodes| {
      StartIs(nodes, last, x + 1);
    }
  }

  lemma EligibleIsCandidate(nodes: seq<Node>, q: Query)
    requires exists i :: Eligible(nodes, q, i)
    ensures exists i :: Candidate(nodes, q, i)
  {
    var i :| Eligible(nodes, q, i);
    assert Candidate(nodes, q, i);
  }
}
