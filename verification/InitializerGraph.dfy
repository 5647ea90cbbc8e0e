/**
The graph of initializers: registration with forward references, the
depth-first topological sort with its in-progress stack, and the executor.
*/
module InitializerGraph {
  type Name = string

  /** A registered function, or the false-ish value of a node that was only named by others. */
  datatype InitializerFunction = Null | Fn(id: nat)

  datatype NodeData = NodeData(fn: InitializerFunction, prerequisites: set<Name>)

  type NodeMap = map<Name, NodeData>

  datatype Status =
    | OK
    | BadValue(name: Name)
    | NullFunction
    | DuplicateKey(name: Name)
    | GraphContainsCycle
    | InternalError
    | Failed(name: Name)

  // ----- what a legal order is -----

  /** Every name is followed by one of its prerequisites. */
  predicate IsPath(nodes: NodeMap, p: seq<Name>) {
    forall i :: 0 <= i < |p| - 1 ==> p[i] in nodes && p[i + 1] in nodes[p[i]].prerequisites
  }

  predicate IsCycle(nodes: NodeMap, p: seq<Name>) {
    |p| >= 2 && p[0] == p[|p| - 1] && IsPath(nodes, p)
  }

  ghost predicate Acyclic(nodes: NodeMap) {
    forall p: seq<Name> :: !IsCycle(nodes, p)
  }

  predicate Registered(nodes: NodeMap, n: Name) {
    n in nodes && nodes[n].fn != Null
  }

  /** n is a node, or some node names it as a prerequisite. */
  predicate Named(nodes: NodeMap, n: Name) {
    n in nodes || exists a :: a in nodes && n in nodes[a].prerequisites
  }

  ghost predicate AllRegistered(nodes: NodeMap) {
    forall n :: Named(nodes, n) ==> Registered(nodes, n)
  }

  predicate Distinct(s: seq<Name>) {
    forall i, j :: 0 <= i < j < |s| ==> s[i] != s[j]
  }

  /** Duplicate-free, registered, and every prerequisite stands earlier. */
  predicate Ordered(nodes: NodeMap, s: seq<Name>) {
    && Distinct(s)
    && (forall i :: 0 <= i < |s| ==> Registered(nodes, s[i]))
    && (forall i, q :: 0 <= i < |s| && q in nodes[s[i]].prerequisites ==> q in s[..i])
  }

  lemma IndexIn(s: seq<Name>, n: Name, i: nat) returns (j: nat)
    requires i <= |s| && n in s[..i]
    ensures j < i && s[j] == n
  {
    j :| 0 <= j < i && s[..i][j] == n;
  }

  /** From a place in a legal order, every path of prerequisites leads to an earlier place. */
  lemma {:induction false} PathDescends(nodes: NodeMap, s: seq<Name>, i: nat, p: seq<Name>)
    requires Ordered(nodes, s) && i < |s|
    requires |p| >= 2 && IsPath(nodes, p) && p[0] == s[i]
    ensures p[|p| - 1] in s[..i]
    decreases |p|
  {
    assert p[0 + 1] in nodes[p[0]].prerequisites;
    var j := IndexIn(s, p[1], i);
    if |p| > 2 {
      var t := p[1..];
      forall k | 0 <= k < |t| - 1 ensures t[k] in nodes && t[k + 1] in nodes[t[k]].prerequisites {
        assert t[k] == p[k + 1] && t[k + 1] == p[k + 1 + 1];
      }
      PathDescends(nodes, s, j, t);
      assert s[..j] <= s[..i];
    }
  }

  /** A graph that has a legal order of all its nodes has no cycle. */
  lemma OrderedAcyclic(nodes: NodeMap, s: seq<Name>)
    requires Ordered(nodes, s) && forall n :: n in nodes ==> n in s
    ensures Acyclic(nodes) && AllRegistered(nodes)
  {
    forall p: seq<Name> ensures !IsCycle(nodes, p) {
      if IsCycle(nodes, p) {
        assert p[0] in nodes;
        var i := IndexIn(s, p[0], |s|);
        PathDescends(nodes, s, i, p);
        var j := IndexIn(s, p[0], i);
      }
    }
    forall n | Named(nodes, n) ensures Registered(nodes, n) {
      if a :| a in nodes && n in nodes[a].prerequisites {
        var i := IndexIn(s, a, |s|);
        var j := IndexIn(s, n, i);
      } else {
        var j := IndexIn(s, n, |s|);
      }
    }
  }

  // ----- the sort -----

  class SortState {
    var inProgress: seq<Name>
    var visited: set<Name>
    var sorted: seq<Name>

    constructor ()
      ensures inProgress == [] && visited == {} && sorted == []
    {
      inProgress, visited, sorted := [], {}, [];
    }

    /** What holds whenever the exploration chain is the given one. */
    ghost predicate Valid(nodes: NodeMap)
      reads this
    {
      && Ordered(nodes, sorted)
      && visited == (set n | n in sorted)
      && Distinct(inProgress) && IsPath(nodes, inProgress)
      && (forall n :: n in inProgress ==> Registered(nodes, n) && n !in visited)
    }
  }

  ghost function Unexplored(nodes: NodeMap, inProgress: seq<Name>): set<Name> {
    nodes.Keys - (set n | n in inProgress)
  }

  /** current is the start of the chain or a prerequisite of its last node. */
  predicate Continues(nodes: NodeMap, inProgress: seq<Name>, current: Name) {
    inProgress != [] ==>
      inProgress[|inProgress| - 1] in nodes && current in nodes[inProgress[|inProgress| - 1]].prerequisites
  }

  /** What an error return means. */
  predicate ErrorExplained(nodes: NodeMap, status: Status, sorted: seq<Name>) {
    match status
    case BadValue(n) => Named(nodes, n) && !Registered(nodes, n)
    case GraphContainsCycle => IsCycle(nodes, sorted)
    case _ => false
  }

  lemma PathExtends(nodes: NodeMap, p: seq<Name>, n: Name)
    requires IsPath(nodes, p) && Continues(nodes, p, n)
    ensures IsPath(nodes, p + [n])
  {
  }

  lemma ChainShrinks(nodes: NodeMap, p: seq<Name>, n: Name)
    requires n in nodes && n !in p
    ensures Unexplored(nodes, p + [n]) < Unexplored(nodes, p)
  {
    assert n in Unexplored(nodes, p) && n !in Unexplored(nodes, p + [n]);
  }

  /** The first place of n; std::find. */
  function FirstOccurrence(s: seq<Name>, n: Name): (k: nat)
    requires n in s
    ensures k < |s| && s[k] == n && n !in s[..k]
  {
    if s[0] == n then 0 else 1 + FirstOccurrence(s[1..], n)
  }

  lemma CycleFound(nodes: NodeMap, p: seq<Name>, k: nat)
    requires IsPath(nodes, p) && k + 1 < |p| && p[k] == p[|p| - 1]
    ensures IsCycle(nodes, p[k..])
  {
    var t := p[k..];
    forall i | 0 <= i < |t| - 1 ensures t[i] in nodes && t[i + 1] in nodes[t[i]].prerequisites {
      assert t[i] == p[i + k] && t[i + 1] == p[i + k + 1];
    }
  }

  lemma OrderExtends(nodes: NodeMap, s: seq<Name>, n: Name)
    requires Ordered(nodes, s) && Registered(nodes, n) && n !in s
    requires forall q :: q in nodes[n].prerequisites ==> q in s
    ensures Ordered(nodes, s + [n])
  {
    var t := s + [n];
    forall i, q | 0 <= i < |t| && q in nodes[t[i]].prerequisites ensures q in t[..i] {
      if i < |s| {
        assert t[..i] == s[..i];
      } else {
        assert t[..i] == s;
      }
    }
  }

  method RecursiveTopSort(nodes: NodeMap, current: Name, st: SortState) returns (status: Status)
    requires current in nodes && st.Valid(nodes) && Continues(nodes, st.inProgress, current)
    modifies st
    ensures status == OK ==>
      && st.Valid(nodes) && st.inProgress == old(st.inProgress)
      && old(st.visited) <= st.visited && current in st.visited
    ensures status != OK ==> ErrorExplained(nodes, status, st.sorted)
    decreases Unexplored(nodes, st.inProgress), 0
  {
    hide Ordered, IsPath, Distinct;
    if current in st.visited {
      return OK;
    }
    if nodes[current].fn == Null {
      return BadValue(current);
    }
    ghost var chain := st.inProgress;
    PathExtends(nodes, chain, current);
    st.inProgress := st.inProgress + [current];
    var first := FirstOccurrence(st.inProgress, current);
    if first + 1 != |st.inProgress| {
      CycleFound(nodes, st.inProgress, first);
      st.sorted := st.inProgress[first..];
      return GraphContainsCycle;
    }
    assert current !in chain by {
      assert st.inProgress[..first] == chain;
    }
    DistinctExtends(chain, current);
    ChainShrinks(nodes, chain, current);

    status := VisitPrerequisites(nodes, current, st, chain);
    if status != OK {
      return;
    }
    OrderExtends(nodes, st.sorted, current);
    st.sorted := st.sorted + [current];
    if st.inProgress[|st.inProgress| - 1] != current {
      return InternalError;
    }
    st.inProgress := st.inProgress[..|st.inProgress| - 1];
    assert st.inProgress == chain;
    st.visited := st.visited + {current};
    return OK;
  }

  lemma DistinctExtends(s: seq<Name>, n: Name)
    requires Distinct(s) && n !in s
    ensures Distinct(s + [n])
  {
  }

  /** The loop over the prerequisites of current, in whatever order the hash set gives them. */
  method VisitPrerequisites(nodes: NodeMap, current: Name, st: SortState, ghost chain: seq<Name>)
    returns (status: Status)
    requires current in nodes && st.Valid(nodes) && st.inProgress == chain + [current]
    modifies st
    ensures status == OK ==>
      && st.Valid(nodes) && st.inProgress == chain + [current]
      && old(st.visited) <= st.visited && nodes[current].prerequisites <= st.visited
    ensures status != OK ==> ErrorExplained(nodes, status, st.sorted)
    decreases Unexplored(nodes, st.inProgress), 1
  {
    hide Ordered, IsPath, Distinct;
    var remaining := nodes[current].prerequisites;
    while remaining != {}
      invariant st.Valid(nodes) && st.inProgress == chain + [current]
      invariant old(st.visited) <= st.visited
      invariant remaining <= nodes[current].prerequisites <= remaining + st.visited
      decreases remaining
    {
      var next :| next in remaining;
      if next !in nodes {
        return BadValue(next);
      }
      status := RecursiveTopSort(nodes, next, st);
      if status != OK {
        return;
      }
      remaining := remaining - {next};
    }
    return OK;
  }

  class InitializerDependencyGraph {
    var nodes: NodeMap

    constructor ()
      ensures nodes == map[]
    {
      nodes := map[];
    }

    /** The error cases leave the existing nodes alone; a duplicate is reported, not replaced. */
    method AddInitializer(name: Name, fn: InitializerFunction, prerequisites: seq<Name>, dependents: seq<Name>)
      returns (status: Status)
      modifies this
      ensures status == if fn == Null then NullFunction
                        else if Registered(old(nodes), name) then DuplicateKey(name) else OK
      ensures status != OK ==> nodes == old(nodes)
      ensures status == OK ==> nodes == Register(old(nodes), Reg(name, fn, prerequisites, dependents))
    {
      if fn == Null {
        return NullFunction;
      }
      if name in nodes && nodes[name].fn != Null {
        return DuplicateKey(name);
      }
      var own := Prerequisites(nodes, name);
      for i := 0 to |prerequisites|
        invariant own == Prerequisites(nodes, name) + (set q | q in prerequisites[..i])
      {
        own := own + {prerequisites[i]};
      }
      assert prerequisites[..|prerequisites|] == prerequisites;
      nodes := nodes[name := NodeData(fn, own)];
      ghost var placed := nodes;
      for i := 0 to |dependents|
        invariant nodes == Depend(placed, name, dependents[..i])
      {
        assert dependents[..i + 1][..i] == dependents[..i];
        var d := dependents[i];
        var data := if d in nodes then nodes[d] else NodeData(Null, {});
        nodes := nodes[d := data.(prerequisites := data.prerequisites + {name})];
      }
      assert dependents[..|dependents|] == dependents;
      return OK;
    }

    method GetInitializerFunction(name: Name) returns (fn: InitializerFunction)
      ensures fn != Null <==> Registered(nodes, name)
      ensures fn != Null ==> fn == nodes[name].fn
    {
      if name !in nodes {
        return Null;
      }
      return nodes[name].fn;
    }

    /** OK exactly when every named node is registered and the graph has no cycle. */
    method TopSort() returns (status: Status, sortedNames: seq<Name>)
      ensures status == OK <==> AllRegistered(nodes) && Acyclic(nodes)
      ensures status == OK ==> Ordered(nodes, sortedNames) && forall n :: n in nodes <==> n in sortedNames
      ensures status != OK ==> ErrorExplained(nodes, status, sortedNames)
    {
      hide Ordered, IsPath, Distinct, IsCycle;
      var st := new SortState();
      EmptyOrder(nodes);
      var remaining := nodes.Keys;
      while remaining != {}
        invariant fresh(st) && st.Valid(nodes) && st.inProgress == []
        invariant remaining <= nodes.Keys <= remaining + st.visited
        decreases remaining
      {
        var next :| next in remaining;
        status := RecursiveTopSort(nodes, next, st);
        if status != OK {
          return status, st.sorted;
        }
        remaining := remaining - {next};
      }
      OrderedNodes(nodes, st.sorted);
      OrderedAcyclic(nodes, st.sorted);
      return OK, st.sorted;
    }

    /** Runs the initializers in order; the i-th call succeeds or fails as `succeeds` says. */
    method Execute(succeeds: nat -> bool) returns (status: Status, log: seq<Name>)
      ensures Distinct(log)
      ensures forall i, p: seq<Name> :: 0 <= i < |log| && |p| >= 2 && p[0] == log[i] && IsPath(nodes, p) ==>
                p[|p| - 1] in log[..i]
      ensures status == OK <==>
        && AllRegistered(nodes) && Acyclic(nodes)
        && forall i :: 0 <= i < |nodes.Keys| ==> succeeds(i)
      ensures status == OK ==> forall n :: n in nodes <==> n in log
      ensures status.Failed? ==>
        && log != [] && log[|log| - 1] == status.name && !succeeds(|log| - 1)
        && forall i :: 0 <= i < |log| - 1 ==> succeeds(i)
      ensures status != OK && !status.Failed? ==> log == [] && (status.BadValue? || status.GraphContainsCycle?)
    {
      hide Ordered, IsPath, Distinct, IsCycle, Acyclic, AllRegistered;
      log := [];
      var sortedNodes;
      status, sortedNodes := TopSort();
      if status != OK {
        PrefixOrdered([], nodes, 0);
        return;
      }
      CountDistinct(nodes, sortedNodes);
      for i := 0 to |sortedNodes|
        invariant log == sortedNodes[..i]
        invariant forall j :: 0 <= j < i ==> succeeds(j)
      {
        OrderedNodes(nodes, sortedNodes);
        var fn := GetInitializerFunction(sortedNodes[i]);
        if fn == Null {
          return InternalError, log;
        }
        log := log + [sortedNodes[i]];
        if !succeeds(i) {
          assert log == sortedNodes[..i + 1];
          PrefixOrdered(sortedNodes, nodes, i + 1);
          return Failed(sortedNodes[i]), log;
        }
      }
      PrefixOrdered(sortedNodes, nodes, |sortedNodes|);
      return OK, log;
    }
  }

  lemma EmptyOrder(nodes: NodeMap)
    ensures Ordered(nodes, []) && Distinct([]) && IsPath(nodes, [])
  {
  }

  lemma OrderedNodes(nodes: NodeMap, s: seq<Name>)
    requires Ordered(nodes, s)
    ensures forall n :: n in s ==> Registered(nodes, n)
  {
  }

  lemma CountDistinct(nodes: NodeMap, s: seq<Name>)
    requires Ordered(nodes, s) && forall n :: n in nodes <==> n in s
    ensures |s| == |nodes.Keys|
  {
    CountSeq(s);
    assert nodes.Keys == set n | n in s;
  }

  lemma {:induction false} CountSeq(s: seq<Name>)
    requires Distinct(s)
    ensures |set n | n in s| == |s|
  {
    if s != [] {
      var t := s[..|s| - 1];
      CountSeq(t);
      assert (set n | n in s) == (set n | n in t) + {s[|s| - 1]};
    }
  }

  /** A prefix of a legal order contains the transitive prerequisites of its members, each before its member. */
  lemma PrefixOrdered(s: seq<Name>, nodes: NodeMap, k: nat)
    requires k <= |s| && (s == [] || Ordered(nodes, s))
    ensures Distinct(s[..k])
    ensures forall i, p: seq<Name> :: 0 <= i < k && |p| >= 2 && p[0] == s[..k][i] && IsPath(nodes, p) ==>
              p[|p| - 1] in s[..k][..i]
  {
    forall i, p: seq<Name> | 0 <= i < k && |p| >= 2 && p[0] == s[..k][i] && IsPath(nodes, p)
      ensures p[|p| - 1] in s[..k][..i]
    {
      PathDescends(nodes, s, i, p);
      assert s[..k][..i] == s[..i];
    }
  }

  // ----- registration -----

  datatype Reg = Reg(name: Name, fn: InitializerFunction, prerequisites: seq<Name>, dependents: seq<Name>)

  function Prerequisites(nodes: NodeMap, n: Name): set<Name> {
    if n in nodes then nodes[n].prerequisites else {}
  }

  function FnOf(nodes: NodeMap, n: Name): InitializerFunction {
    if n in nodes then nodes[n].fn else Null
  }

  /** name becomes a prerequisite of each dependent, which is created when it is not there yet. */
  function Depend(nodes: NodeMap, name: Name, dependents: seq<Name>): NodeMap {
    if dependents == [] then nodes
    else
      var before := Depend(nodes, name, dependents[..|dependents| - 1]);
      var d := dependents[|dependents| - 1];
      before[d := NodeData(FnOf(before, d), Prerequisites(before, d) + {name})]
  }

  function Register(nodes: NodeMap, r: Reg): NodeMap {
    Depend(nodes[r.name := NodeData(r.fn, Prerequisites(nodes, r.name) + (set q | q in r.prerequisites))],
      r.name, r.dependents)
  }

  function RegisterAll(regs: seq<Reg>): NodeMap {
    if regs == [] then map[] else Register(RegisterAll(regs[..|regs| - 1]), regs[|regs| - 1])
  }

  function Elements(regs: seq<Reg>): set<Reg> { set r | r in regs }

  predicate DistinctNames(regs: seq<Reg>) {
    forall i, j :: 0 <= i < j < |regs| ==> regs[i].name != regs[j].name
  }

  lemma {:induction false} DependAt(nodes: NodeMap, name: Name, dependents: seq<Name>, n: Name)
    ensures n in Depend(nodes, name, dependents) <==> n in nodes || n in dependents
    ensures FnOf(Depend(nodes, name, dependents), n) == FnOf(nodes, n)
    ensures Prerequisites(Depend(nodes, name, dependents), n) ==
            Prerequisites(nodes, n) + (if n in dependents then {name} else {})
  {
    if dependents != [] {
      var before := dependents[..|dependents| - 1];
      DependAt(nodes, name, before, n);
      assert n in dependents <==> n in before || n == dependents[|dependents| - 1];
    }
  }

  /** What the registrations say about n, whatever their order: the closed form of the graph. */
  ghost predicate Says(regs: set<Reg>, nodes: NodeMap, n: Name) {
    && (n in nodes <==> Mentions(regs, n))
    && (forall r :: r in regs && r.name == n ==> FnOf(nodes, n) == r.fn)
    && ((forall r :: r in regs ==> r.name != n) ==> FnOf(nodes, n) == Null)
    && (forall q :: q in Prerequisites(nodes, n) <==> Requires(regs, n, q))
  }

  ghost predicate Mentions(regs: set<Reg>, n: Name) {
    exists r :: r in regs && (r.name == n || n in r.dependents)
  }

  /** Some registration makes q a prerequisite of n: n's own, or one that names n as its dependent. */
  ghost predicate Requires(regs: set<Reg>, n: Name, q: Name) {
    exists r :: r in regs && ((r.name == n && q in r.prerequisites) || (n in r.dependents && q == r.name))
  }

  lemma RegisterSays(regs: set<Reg>, nodes: NodeMap, r: Reg, n: Name)
    requires Says(regs, nodes, n) && forall s :: s in regs ==> s.name != r.name
    ensures Says(regs + {r}, Register(nodes, r), n)
  {
    var own := Prerequisites(nodes, r.name) + (set q | q in r.prerequisites);
    var placed := nodes[r.name := NodeData(r.fn, own)];
    DependAt(placed, r.name, r.dependents, n);
    var after := Register(nodes, r);
    assert r in regs + {r};
    forall q ensures q in Prerequisites(after, n) <==> Requires(regs + {r}, n, q) {
      assert q in Prerequisites(after, n) <==>
        q in Prerequisites(nodes, n) || (n == r.name && q in r.prerequisites) || (n in r.dependents && q == r.name);
    }
  }

  lemma {:induction false} RegisterAllSays(regs: seq<Reg>, n: Name)
    requires DistinctNames(regs)
    ensures Says(Elements(regs), RegisterAll(regs), n)
  {
    hide Says, Register;
    if regs == [] {
      assert Elements(regs) == {};
      EmptySays(n);
    } else {
      var before, r := regs[..|regs| - 1], regs[|regs| - 1];
      RegisterAllSays(before, n);
      assert Elements(regs) == Elements(before) + {r};
      RegisterSays(Elements(before), RegisterAll(before), r, n);
    }
  }

  lemma EmptySays(n: Name)
    ensures Says({}, map[], n)
  {
  }

  lemma SaysUnique(regs: set<Reg>, a: NodeMap, b: NodeMap, n: Name)
    requires Says(regs, a, n) && Says(regs, b, n)
    ensures n in a <==> n in b
    ensures n in a ==> a[n] == b[n]
  {
    if n in a {
      forall q ensures q in Prerequisites(a, n) <==> q in Prerequisites(b, n) {
        assert q in Prerequisites(a, n) <==> Requires(regs, n, q);
      }
      assert Prerequisites(a, n) == Prerequisites(b, n);
      assert FnOf(a, n) == FnOf(b, n);
    }
  }

  /** Distinctly named initializers give the same graph in every order of registration. */
  lemma RegistrationOrderIrrelevant(regs: seq<Reg>, others: seq<Reg>)
    requires DistinctNames(regs) && DistinctNames(others)
    requires forall r :: r in regs <==> r in others
    ensures RegisterAll(regs) == RegisterAll(others)
  {
    hide Says, RegisterAll;
    assert Elements(regs) == Elements(others);
    forall n: Name
      ensures n in RegisterAll(regs) <==> n in RegisterAll(others)
      ensures n in RegisterAll(regs) ==> RegisterAll(regs)[n] == RegisterAll(others)[n]
    {
      RegisterAllSays(regs, n);
      RegisterAllSays(others, n);
      SaysUnique(Elements(regs), RegisterAll(regs), RegisterAll(others), n);
    }
  }

  // ----- a series of registrations -----

  predicate NamedIn(regs: seq<Reg>, name: Name) { exists i :: 0 <= i < |regs| && regs[i].name == name }

  /** The registrations that go through: those with a function, the first of each name. */
  function Accepted(regs: seq<Reg>): (a: seq<Reg>)
    ensures DistinctNames(a) && forall i :: 0 <= i < |a| ==> a[i].fn != Null
  {
    if regs == [] then []
    else
      var before, r := Accepted(regs[..|regs| - 1]), regs[|regs| - 1];
      if r.fn == Null || NamedIn(before, r.name) then before else before + [r]
  }

  /** A name is registered exactly when a registration of it went through. */
  lemma RegisteredIffAccepted(a: seq<Reg>, n: Name)
    requires DistinctNames(a) && forall i :: 0 <= i < |a| ==> a[i].fn != Null
    ensures Registered(RegisterAll(a), n) <==> NamedIn(a, n)
  {
    hide RegisterAll;
    RegisterAllSays(a, n);
    if i :| 0 <= i < |a| && a[i].name == n {
      assert a[i] in Elements(a) && a[i].fn == FnOf(RegisterAll(a), n);
    }
  }

  lemma {:induction false} AllAccepted(regs: seq<Reg>)
    ensures Accepted(regs) == regs <==> DistinctNames(regs) && forall i :: 0 <= i < |regs| ==> regs[i].fn != Null
    ensures |Accepted(regs)| <= |regs|
  {
    if regs != [] {
      var front, r := regs[..|regs| - 1], regs[|regs| - 1];
      AllAccepted(front);
      assert regs == front + [r];
      if DistinctNames(regs) && forall i :: 0 <= i < |regs| ==> regs[i].fn != Null {
        assert Accepted(front) == front;
        assert !NamedIn(front, r.name);
      }
    }
  }

  lemma NothingAccepted()
    ensures Accepted([]) == [] && RegisterAll([]) == map[]
  {
  }

  /** What one more registration adds, by the cases of AddInitializer. */
  lemma AcceptedStep(regs: seq<Reg>, i: nat)
    requires i < |regs|
    ensures var before, after, r := Accepted(regs[..i]), Accepted(regs[..i + 1]), regs[i];
      if r.fn == Null || Registered(RegisterAll(before), r.name)
      then after == before && after != regs[..i + 1]
      else RegisterAll(after) == Register(RegisterAll(before), r) && (after == regs[..i + 1] <==> before == regs[..i])
  {
    hide Register, Registered, DistinctNames;
    var r := regs[i];
    assert regs[..i + 1][..i] == regs[..i] && regs[..i + 1] == regs[..i] + [r];
    var before := Accepted(regs[..i]);
    RegisteredIffAccepted(before, r.name);
    AllAccepted(regs[..i]);
    assert (before + [r])[..|before|] == before;
  }

  /**
   Registers a series of initializers in a new graph. The graph is that of the
   registrations that go through; all of them do exactly when each has a
   function and a name of its own.
   */
  method AddAll(regs: seq<Reg>) returns (graph: InitializerDependencyGraph, allOk: bool)
    ensures fresh(graph) && graph.nodes == RegisterAll(Accepted(regs))
    ensures allOk <==> DistinctNames(regs) && forall i :: 0 <= i < |regs| ==> regs[i].fn != Null
    ensures allOk ==> graph.nodes == RegisterAll(regs)
  {
    hide Register, Registered, RegisterAll, Accepted, DistinctNames;
    NothingAccepted();
    graph := new InitializerDependencyGraph();
    allOk := true;
    for i := 0 to |regs|
      invariant fresh(graph) && graph.nodes == RegisterAll(Accepted(regs[..i]))
      invariant allOk <==> Accepted(regs[..i]) == regs[..i]
    {
      var r := regs[i];
      AcceptedStep(regs, i);
      var status := graph.AddInitializer(r.name, r.fn, r.prerequisites, r.dependents);
      if status != OK {
        allOk := false;
      }
    }
    assert regs[..|regs|] == regs;
    AllAccepted(regs);
  }
}
