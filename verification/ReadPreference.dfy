/**
selectNode: the five read preferences, with the list of tags tried in order
until some node matches.
*/
module ReadPreference {
  import opened Selection

  /** The list of tags with its one-way iterator. */
  class TagSet {
    const tags: seq<Tag>
    var next: nat
    var currentTag: Tag
    var isExhausted: bool

    ghost predicate Valid()
      reads this
    {
      next <= |tags| && if isExhausted then next == |tags| else 0 < next && currentTag == tags[next - 1]
    }

    /** The tags still to be tried, the current one first. */
    ghost function Rest(): seq<Tag>
      requires Valid()
      reads this
    {
      if isExhausted then [] else tags[next - 1..]
    }

    constructor (tags: seq<Tag>)
      ensures Valid() && Rest() == tags && this.tags == tags
    {
      this.tags := tags;
      next := if tags == [] then 0 else 1;
      currentTag := if tags == [] then [] else tags[0];
      isExhausted := tags == [];
    }

    method Next()
      requires Valid()
      modifies this
      ensures Valid() && Rest() == if old(Rest()) == [] then [] else old(Rest())[1..]
    {
      if next < |tags| {
        currentTag := tags[next];
        next := next + 1;
      } else {
        isExhausted := true;
      }
    }
  }

  // ----- the choice, as a function -----

  /** The index of the first tag of the list that some node is a candidate for; the length when there is none. */
  function FirstMatched(nodes: seq<Node>, list: seq<Tag>, secOnly: bool, threshold: int): (k: nat)
    ensures k <= |list|
    ensures forall j, i :: 0 <= j < k ==> !Candidate(nodes, Query(list[j], secOnly, threshold), i)
    ensures k < |list| ==> exists i :: Candidate(nodes, Query(list[k], secOnly, threshold), i)
  {
    if list == [] then 0
    else if exists i :: 0 <= i < |nodes| && Candidate(nodes, Query(list[0], secOnly, threshold), i) then 0
    else
      var k := FirstMatched(nodes, list[1..], secOnly, threshold);
      assert forall j :: 0 < j < |list| ==> list[j] == list[1..][j - 1];
      1 + k
  }

  function ByTags(nodes: seq<Node>, list: seq<Tag>, secOnly: bool, threshold: int, start: nat): (c: int)
    requires nodes != [] ==> start < |nodes|
    ensures -1 <= c < |nodes|
  {
    var k := FirstMatched(nodes, list, secOnly, threshold);
    if k == |list| then -1 else Choose(nodes, Query(list[k], secOnly, threshold), start, 0, -1)
  }

  function FirstPrimary(nodes: seq<Node>, x: nat): (c: int)
    requires x <= |nodes|
    ensures c == -1 || (x <= c < |nodes| && nodes[c].ismaster && nodes[c].ok)
    ensures forall i :: x <= i < (if c == -1 then |nodes| else c) ==> !(nodes[i].ismaster && nodes[i].ok)
    decreases |nodes| - x
  {
    if x == |nodes| then -1
    else if nodes[x].ismaster && nodes[x].ok then x
    else FirstPrimary(nodes, x + 1)
  }

  /** The node selectNode chooses. */
  function Selected(nodes: seq<Node>, preference: ReadPreference, list: seq<Tag>, threshold: int, start: nat): (c: int)
    requires nodes != [] ==> start < |nodes|
    ensures -1 <= c < |nodes|
  {
    var primary := FirstPrimary(nodes, 0);
    match preference
    case PrimaryOnly => primary
    case PrimaryPreferred => if primary != -1 then primary else ByTags(nodes, list, true, threshold, start)
    case SecondaryOnly => ByTags(nodes, list, true, threshold, start)
    case SecondaryPreferred =>
      var c := ByTags(nodes, list, true, threshold, start);
      if c != -1 then c else primary
    case Nearest => ByTags(nodes, list, false, threshold, start)
  }

  /** The round robin moves on exactly when the choice came from the tags, not from the primary. */
  predicate Remembers(nodes: seq<Node>, preference: ReadPreference, list: seq<Tag>, threshold: int, start: nat)
    requires nodes != [] ==> start < |nodes|
  {
    match preference
    case PrimaryOnly => false
    case PrimaryPreferred => FirstPrimary(nodes, 0) == -1 && ByTags(nodes, list, true, threshold, start) != -1
    case Nearest => ByTags(nodes, list, false, threshold, start) != -1
    case _ => ByTags(nodes, list, true, threshold, start) != -1
  }

  // ----- the methods -----

  method SelectPrimary(nodes: seq<Node>) returns (host: HostAndPort, isPrimary: bool)
    ensures host == HostOf(nodes, FirstPrimary(nodes, 0)) && (isPrimary <==> FirstPrimary(nodes, 0) != -1)
  {
    for i := 0 to |nodes|
      invariant FirstPrimary(nodes, i) == FirstPrimary(nodes, 0)
    {
      if nodes[i].ismaster && nodes[i].ok {
        return nodes[i].addr, true;
      }
    }
    return NO_HOST, false;
  }

  /** Tries the tags one by one; stops at the first one that gives a host. */
  method SelectByTags(nodes: seq<Node>, tags: TagSet, secOnly: bool, threshold: int, lastHost: HostAndPort)
    returns (host: HostAndPort, newLastHost: HostAndPort, isPrimary: bool)
    requires Addressed(nodes) && tags.Valid()
    modifies tags
    ensures tags.Valid()
    ensures nodes != [] ==> StartIndex(nodes, lastHost, 0) < |nodes|
    ensures var c := ByTags(nodes, old(tags.Rest()), secOnly, threshold, StartIndex(nodes, lastHost, 0));
      && host == HostOf(nodes, c)
      && newLastHost == (if c == -1 then lastHost else host)
      && isPrimary == (c != -1 && nodes[c].ismaster)
    ensures var k := FirstMatched(nodes, old(tags.Rest()), secOnly, threshold);
      tags.Rest() == old(tags.Rest())[k..]
  {
    hide Choose, StartIndex, FirstMatched, Node.Candidate;
    StartIndexBound(nodes, lastHost, 0);
    ghost var start := StartIndex(nodes, lastHost, 0);
    ghost var list := tags.Rest();
    ghost var tried := 0;
    newLastHost, isPrimary, host := lastHost, false, NO_HOST;
    while !tags.isExhausted
      invariant tags.Valid() && tried <= |list| && tags.Rest() == list[tried..]
      invariant newLastHost == lastHost && !isPrimary && host == NO_HOST
      invariant forall j, i :: 0 <= j < tried ==> !Candidate(nodes, Query(list[j], secOnly, threshold), i)
      decreases |tags.Rest()|
    {
      var q := Query(tags.currentTag, secOnly, threshold);
      assert tags.currentTag == list[tried];
      SelectedIffCandidate(nodes, q, start);
      host, newLastHost, isPrimary := SelectOne(nodes, q, lastHost, isPrimary);
      if host.Empty() {
        tags.Next();
        tried := tried + 1;
      } else {
        FirstMatchedIs(nodes, list, secOnly, threshold, tried);
        return;
      }
    }
    FirstMatchedIs(nodes, list, secOnly, threshold, tried);
  }

  /** The first matched tag is determined by its two properties. */
  lemma FirstMatchedIs(nodes: seq<Node>, list: seq<Tag>, secOnly: bool, threshold: int, k: nat)
    requires k <= |list|
    requires forall j, i :: 0 <= j < k ==> !Candidate(nodes, Query(list[j], secOnly, threshold), i)
    requires k < |list| ==> exists i :: Candidate(nodes, Query(list[k], secOnly, threshold), i)
    ensures FirstMatched(nodes, list, secOnly, threshold) == k
  {
    hide FirstMatched, Candidate;
    var m := FirstMatched(nodes, list, secOnly, threshold);
  }

  method SelectNode(nodes: seq<Node>, preference: ReadPreference, tags: TagSet, threshold: int, lastHost: HostAndPort)
    returns (host: HostAndPort, newLastHost: HostAndPort, isPrimary: bool)
    requires Addressed(nodes) && tags.Valid()
    modifies tags
    ensures nodes != [] ==> StartIndex(nodes, lastHost, 0) < |nodes|
    ensures var c := Selected(nodes, preference, old(tags.Rest()), threshold, StartIndex(nodes, lastHost, 0));
      && host == HostOf(nodes, c)
      && isPrimary == (c != -1 && nodes[c].ismaster)
      && Honours(nodes, preference, old(tags.Rest()), c)
    ensures newLastHost ==
      if Remembers(nodes, preference, old(tags.Rest()), threshold, StartIndex(nodes, lastHost, 0)) then host else lastHost
  {
    hide ByTags, FirstPrimary, StartIndex, Honours;
    StartIndexBound(nodes, lastHost, 0);
    SelectedHonours(nodes, preference, tags.Rest(), threshold, StartIndex(nodes, lastHost, 0));
    newLastHost := lastHost;
    match preference
    case PrimaryOnly =>
      host, isPrimary := SelectPrimary(nodes);
    case PrimaryPreferred =>
      host, isPrimary := SelectPrimary(nodes);
      if host.Empty() {
        host, newLastHost, isPrimary := SelectByTags(nodes, tags, true, threshold, lastHost);
      }
    case SecondaryOnly =>
      host, newLastHost, isPrimary := SelectByTags(nodes, tags, true, threshold, lastHost);
    case SecondaryPreferred =>
      host, newLastHost, isPrimary := SelectByTags(nodes, tags, true, threshold, lastHost);
      if host.Empty() {
        host, isPrimary := SelectPrimary(nodes);
      }
    case Nearest =>
      host, newLastHost, isPrimary := SelectByTags(nodes, tags, false, threshold, lastHost);
  }

  // ----- what the choice means -----

  predicate SecOnly(preference: ReadPreference) { preference == SecondaryOnly }

  /** A candidate for some tag of the list is a compatible node, and conversely. */
  lemma CompatibleIsCandidate(node: Node, preference: ReadPreference, list: seq<Tag>)
    requires preference in {SecondaryOnly, Nearest} && list != []
    ensures node.IsCompatible(preference, list) <==>
      exists j :: 0 <= j < |list| && node.Candidate(list[j], SecOnly(preference))
  {
    hide Node.MatchesTag, Node.OkForSecondaryQueries;
    forall j | 0 <= j < |list| ensures node.MatchesTag(list[j]) && node.ok && (SecOnly(preference) ==> node.OkForSecondaryQueries())
      <==> node.Candidate(list[j], SecOnly(preference))
    {
    }
  }

  /** A host comes back exactly when some node is compatible and there is a tag to try. */
  lemma SelectedIffCompatible(nodes: seq<Node>, preference: ReadPreference, list: seq<Tag>, threshold: int, start: nat)
    requires preference in {SecondaryOnly, Nearest} && (nodes != [] ==> start < |nodes|)
    ensures Selected(nodes, preference, list, threshold, start) != -1 <==>
      list != [] && exists i :: 0 <= i < |nodes| && nodes[i].IsCompatible(preference, list)
  {
    hide FirstMatched, Choose, Node.Candidate, Node.IsCompatible;
    var secOnly := SecOnly(preference);
    var k := FirstMatched(nodes, list, secOnly, threshold);
    if k < |list| {
      var i :| Candidate(nodes, Query(list[k], secOnly, threshold), i);
      SelectedIffCandidate(nodes, Query(list[k], secOnly, threshold), start);
      CompatibleIsCandidate(nodes[i], preference, list);
    } else if list != [] {
      forall i | 0 <= i < |nodes| ensures !nodes[i].IsCompatible(preference, list) {
        CompatibleIsCandidate(nodes[i], preference, list);
        forall j | 0 <= j < |list| ensures !nodes[i].Candidate(list[j], secOnly) {
          assert !Candidate(nodes, Query(list[j], secOnly, threshold), i);
        }
      }
    }
  }

  /** The chosen node matches the first tag that any acceptable node matches. */
  lemma FirstTagWins(nodes: seq<Node>, preference: ReadPreference, list: seq<Tag>, threshold: int, start: nat, j: nat, i: nat)
    requires preference in {SecondaryOnly, Nearest} && start < |nodes|
    requires j < |list| && i < |nodes| && nodes[i].Candidate(list[j], SecOnly(preference))
    ensures var c := Selected(nodes, preference, list, threshold, start);
      var k := FirstMatched(nodes, list, SecOnly(preference), threshold);
      && k <= j && 0 <= c && nodes[c].Candidate(list[k], SecOnly(preference))
  {
    hide FirstMatched, Choose, Node.Candidate;
    var secOnly := SecOnly(preference);
    var k := FirstMatched(nodes, list, secOnly, threshold);
    assert Candidate(nodes, Query(list[j], secOnly, threshold), i);
    SelectedIffCandidate(nodes, Query(list[k], secOnly, threshold), start);
  }

  // ----- the five preferences, field by field -----

  predicate LivePrimary(n: Node) { n.ismaster && n.ok }

  /** The first entry of that name has that value. */
  predicate Says(tags: Tag, name: string, value: int) {
    exists m :: 0 <= m < |tags| && tags[m] == (name, value) && forall l :: 0 <= l < m ==> tags[l].0 != name
  }

  /** The node reported all that the tag asks for. */
  predicate Wears(n: Node, tag: Tag) {
    tag == [] || (n.tags.Some? && forall i :: 0 <= i < |tag| ==> Says(n.tags.value, tag[i].0, tag[i].1))
  }

  predicate WearsOne(n: Node, list: seq<Tag>) { exists j :: 0 <= j < |list| && Wears(n, list[j]) }

  predicate TaggedSecondary(n: Node, list: seq<Tag>) { n.ok && n.secondary && !n.hidden && WearsOne(n, list) }

  predicate TaggedNode(n: Node, list: seq<Tag>) { n.ok && WearsOne(n, list) }

  /** c is the first primary that is up, or -1 when there is none. */
  predicate IsFirstPrimary(nodes: seq<Node>, c: int) {
    && (c == -1 || (0 <= c < |nodes| && LivePrimary(nodes[c])))
    && forall i :: 0 <= i < (if c == -1 then |nodes| else c) ==> !LivePrimary(nodes[i])
  }

  /** c is a tagged secondary, or -1 when there is none. */
  predicate IsTaggedSecondary(nodes: seq<Node>, list: seq<Tag>, c: int) {
    if exists i :: 0 <= i < |nodes| && TaggedSecondary(nodes[i], list)
    then 0 <= c < |nodes| && TaggedSecondary(nodes[c], list) else c == -1
  }

  predicate IsTaggedNode(nodes: seq<Node>, list: seq<Tag>, c: int) {
    if exists i :: 0 <= i < |nodes| && TaggedNode(nodes[i], list)
    then 0 <= c < |nodes| && TaggedNode(nodes[c], list) else c == -1
  }

  /** What each preference promises of the node chosen. */
  predicate Honours(nodes: seq<Node>, preference: ReadPreference, list: seq<Tag>, c: int) {
    match preference
    case PrimaryOnly => IsFirstPrimary(nodes, c)
    case PrimaryPreferred =>
      if exists i :: 0 <= i < |nodes| && LivePrimary(nodes[i]) then IsFirstPrimary(nodes, c)
      else IsTaggedSecondary(nodes, list, c)
    case SecondaryOnly => IsTaggedSecondary(nodes, list, c)
    case SecondaryPreferred =>
      if exists i :: 0 <= i < |nodes| && TaggedSecondary(nodes[i], list) then IsTaggedSecondary(nodes, list, c)
      else IsFirstPrimary(nodes, c)
    case Nearest => IsTaggedNode(nodes, list, c)
  }

  lemma {:induction false} FieldOfIs(tags: Tag, name: string, value: int)
    ensures FieldOf(tags, name) == Some(value) <==> Says(tags, name, value)
  {
    if tags != [] {
      FieldOfIs(tags[1..], name, value);
      if tags[0].0 != name && Says(tags[1..], name, value) {
        var m :| 0 <= m < |tags[1..]| && tags[1..][m] == (name, value) && forall l :: 0 <= l < m ==> tags[1..][l].0 != name;
        assert tags[m + 1] == (name, value);
      }
      if Says(tags, name, value) && tags[0].0 != name {
        var m :| 0 <= m < |tags| && tags[m] == (name, value) && forall l :: 0 <= l < m ==> tags[l].0 != name;
        assert tags[1..][m - 1] == (name, value);
        assert forall l :: 0 <= l < m - 1 ==> tags[1..][l] == tags[l + 1];
      }
    }
  }

  lemma MatchesIsWears(n: Node, tag: Tag)
    ensures n.MatchesTag(tag) <==> Wears(n, tag)
  {
    hide FieldOf, Says;
    if n.tags.Some? {
      forall i | 0 <= i < |tag| ensures FieldOf(n.tags.value, tag[i].0) == Some(tag[i].1) <==> Says(n.tags.value, tag[i].0, tag[i].1) {
        FieldOfIs(n.tags.value, tag[i].0, tag[i].1);
      }
    }
  }

  /** The search by tags finds a node that wears a tag of the list, among secondaries or among all, if there is one. */
  lemma ByTagsFinds(nodes: seq<Node>, list: seq<Tag>, secOnly: bool, threshold: int, start: nat)
    requires nodes != [] ==> start < |nodes|
    ensures var c := ByTags(nodes, list, secOnly, threshold, start);
      if secOnly then IsTaggedSecondary(nodes, list, c) else IsTaggedNode(nodes, list, c)
  {
    hide FirstMatched, Choose, Wears, Node.MatchesTag;
    var k := FirstMatched(nodes, list, secOnly, threshold);
    forall n: Node, j | 0 <= j < |list| ensures n.MatchesTag(list[j]) <==> Wears(n, list[j]) {
      MatchesIsWears(n, list[j]);
    }
    if k < |list| {
      var q := Query(list[k], secOnly, threshold);
      SelectedIffCandidate(nodes, q, start);
      var c := Choose(nodes, q, start, 0, -1);
      assert Candidate(nodes, q, c) && Wears(nodes[c], list[k]);
    } else {
      forall i, j | 0 <= i < |nodes| && 0 <= j < |list| && Wears(nodes[i], list[j])
        ensures !nodes[i].ok || (secOnly && !(nodes[i].secondary && !nodes[i].hidden))
      {
        assert !Candidate(nodes, Query(list[j], secOnly, threshold), i);
      }
    }
  }

  /** Every preference gets what it promises. */
  lemma SelectedHonours(nodes: seq<Node>, preference: ReadPreference, list: seq<Tag>, threshold: int, start: nat)
    requires nodes != [] ==> start < |nodes|
    ensures Honours(nodes, preference, list, Selected(nodes, preference, list, threshold, start))
  {
    hide ByTags, FirstPrimary, TaggedSecondary, TaggedNode;
    ByTagsFinds(nodes, list, true, threshold, start);
    ByTagsFinds(nodes, list, false, threshold, start);
    assert IsFirstPrimary(nodes, FirstPrimary(nodes, 0));
  }

  /** The host is remembered when it was chosen by its tags: never a primary chosen as such. */
  lemma RemembersTagged(nodes: seq<Node>, preference: ReadPreference, list: seq<Tag>, threshold: int, start: nat)
    requires nodes != [] ==> start < |nodes|
    ensures Remembers(nodes, preference, list, threshold, start) <==>
      && preference != PrimaryOnly
      && (preference == PrimaryPreferred ==> forall i :: 0 <= i < |nodes| ==> !LivePrimary(nodes[i]))
      && exists i :: 0 <= i < |nodes| && if preference == Nearest then TaggedNode(nodes[i], list) else TaggedSecondary(nodes[i], list)
  {
    hide ByTags, FirstPrimary, TaggedSecondary, TaggedNode;
    ByTagsFinds(nodes, list, true, threshold, start);
    ByTagsFinds(nodes, list, false, threshold, start);
    assert IsFirstPrimary(nodes, FirstPrimary(nodes, 0));
  }
}
