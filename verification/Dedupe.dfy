/** Aggregation of several sources' nodes: one node per identity, the most recently updated one. */
module Dedupe {
  import opened Text

  /** A proxy node as aggregation sees it; `details` stands for every field it never looks at. */
  datatype Node = Node(name: string, sourceId: string, updatedAt: int, details: string)

  datatype SourceNodes = SourceNodes(sourceId: string, alias: Option<string>, nodes: seq<Node>)

  /** The identity of a node; its text is built from fields and a hash that are not modelled. */
  type KeyOf = Node -> string

  function Keys(key: KeyOf, nodes: seq<Node>): (keys: seq<string>)
    ensures |keys| == |nodes| && forall i :: 0 <= i < |nodes| ==> keys[i] == key(nodes[i])
  {
    seq(|nodes|, i requires 0 <= i < |nodes| => key(nodes[i]))
  }

  function Flatten(sources: seq<SourceNodes>): seq<Node> {
    if sources == [] then [] else Flatten(sources[..|sources| - 1]) + sources[|sources| - 1].nodes
  }

  // ---------------------------------------------------------------- the algorithm on values

  predicate ShouldReplace(candidate: Node, current: Node) {
    candidate.updatedAt >= current.updatedAt
  }

  /** The position of a key; there is at most one in a deduplicated list. */
  function IndexOf(keys: seq<string>, k: string): (i: nat)
    ensures i <= |keys|
    ensures i < |keys| ==> keys[i] == k
    ensures i == |keys| <==> k !in keys
    ensures forall j :: 0 <= j < i ==> keys[j] != k
  {
    if keys == [] then 0
    else if keys[0] == k then 0
    else
      assert forall j :: 0 < j < |keys| ==> keys[j] == keys[1..][j - 1];
      1 + IndexOf(keys[1..], k)
  }

  function Insert(key: KeyOf, nodes: seq<Node>, node: Node): seq<Node> {
    var i := IndexOf(Keys(key, nodes), key(node));
    if i == |nodes| then nodes + [node]
    else if ShouldReplace(node, nodes[i]) then nodes[i := node]
    else nodes
  }

  function Deduped(key: KeyOf, nodes: seq<Node>): seq<Node> {
    if nodes == [] then [] else Insert(key, Deduped(key, nodes[..|nodes| - 1]), nodes[|nodes| - 1])
  }

  lemma DedupedSnoc(key: KeyOf, nodes: seq<Node>, node: Node)
    ensures Deduped(key, nodes + [node]) == Insert(key, Deduped(key, nodes), node)
  {
    assert (nodes + [node])[..|nodes|] == nodes;
  }

  // ---------------------------------------------------------------- the loops, with their index map

  ghost predicate Indexes(index: map<string, nat>, keys: seq<string>) {
    && (forall k :: k in index <==> k in keys)
    && (forall k :: k in index ==> index[k] == IndexOf(keys, k))
  }

  /** One iteration of the inner loop of `dedupe_nodes` */
  method PushNode(key: KeyOf, deduped: seq<Node>, index: map<string, nat>, node: Node)
    returns (deduped': seq<Node>, index': map<string, nat>)
    requires Indexes(index, Keys(key, deduped))
    ensures deduped' == Insert(key, deduped, node)
    ensures Indexes(index', Keys(key, deduped'))
  {
    deduped', index' := deduped, index;
    var k := key(node);
    if k in index {
      var existing := index[k];
      if ShouldReplace(node, deduped[existing]) {
        deduped' := deduped[existing := node];
        assert Keys(key, deduped') == Keys(key, deduped);
      }
      return;
    }
    index' := index[k := |deduped|];
    deduped' := deduped + [node];
    assert Keys(key, deduped') == Keys(key, deduped) + [k];
    forall other ensures other in index' <==> other in Keys(key, deduped') {
    }
    forall other | other in index' ensures index'[other] == IndexOf(Keys(key, deduped'), other) {
      IndexOfAppend(Keys(key, deduped), k, other);
    }
  }

  lemma {:induction false} IndexOfAppend(keys: seq<string>, last: string, k: string)
    ensures IndexOf(keys + [last], k) == if k in keys then IndexOf(keys, k) else if k == last then |keys| else |keys| + 1
    decreases |keys|
  {
    var all := keys + [last];
    assert forall j :: 0 <= j < |keys| ==> all[j] == keys[j];
    assert all[|keys|] == last;
  }

  /** The inner loop of `dedupe_nodes`, over one source */
  method PushSource(key: KeyOf, ghost before: seq<Node>, deduped: seq<Node>, index: map<string, nat>, nodes: seq<Node>)
    returns (deduped': seq<Node>, index': map<string, nat>)
    requires deduped == Deduped(key, before)
    requires Indexes(index, Keys(key, deduped))
    ensures deduped' == Deduped(key, before + nodes)
    ensures Indexes(index', Keys(key, deduped'))
  {
    hide Insert, Indexes, Deduped, Keys;
    deduped', index' := deduped, index;
    assert before + nodes[..0] == before;
    for j := 0 to |nodes|
      invariant deduped' == Deduped(key, before + nodes[..j])
      invariant Indexes(index', Keys(key, deduped'))
    {
      DedupedSnoc(key, before + nodes[..j], nodes[j]);
      assert before + nodes[..j + 1] == before + nodes[..j] + [nodes[j]];
      deduped', index' := PushNode(key, deduped', index', nodes[j]);
    }
    assert nodes[..|nodes|] == nodes;
  }

  /** `dedupe_nodes` */
  method DedupeNodes(key: KeyOf, sources: seq<SourceNodes>) returns (deduped: seq<Node>)
    ensures deduped == Deduped(key, Flatten(sources))
  {
    hide Insert, Indexes;
    deduped := [];
    var index: map<string, nat> := map[];
    assert Indexes(index, Keys(key, deduped)) by { EmptyIndexes(key); }
    for i := 0 to |sources|
      invariant deduped == Deduped(key, Flatten(sources[..i]))
      invariant Indexes(index, Keys(key, deduped))
    {
      assert sources[..i + 1][..i] == sources[..i];
      assert Flatten(sources[..i + 1]) == Flatten(sources[..i]) + sources[i].nodes;
      deduped, index := PushSource(key, Flatten(sources[..i]), deduped, index, sources[i].nodes);
    }
    assert sources[..|sources|] == sources;
  }

  lemma EmptyIndexes(key: KeyOf)
    ensures Indexes(map[], Keys(key, []))
  {
  }

  // ---------------------------------------------------------------- the specification

  /** Each key once, where it first appears. */
  function FirstKeys(key: KeyOf, nodes: seq<Node>): seq<string> {
    if nodes == [] then []
    else
      var (init, k) := (nodes[..|nodes| - 1], key(nodes[|nodes| - 1]));
      FirstKeys(key, init) + (if k in Keys(key, init) then [] else [k])
  }

  /** `i` is the last position among those with the latest update of their key. */
  predicate IsLatest(key: KeyOf, nodes: seq<Node>, i: nat)
    requires i < |nodes|
  {
    forall j :: 0 <= j < |nodes| && key(nodes[j]) == key(nodes[i]) ==>
      nodes[j].updatedAt <= nodes[i].updatedAt && (i < j ==> nodes[j].updatedAt < nodes[i].updatedAt)
  }

  ghost predicate Represents(key: KeyOf, nodes: seq<Node>, node: Node) {
    exists i :: 0 <= i < |nodes| && nodes[i] == node && IsLatest(key, nodes, i)
  }

  lemma RepresentativeUnique(key: KeyOf, nodes: seq<Node>, a: Node, b: Node)
    requires Represents(key, nodes, a) && Represents(key, nodes, b) && key(a) == key(b)
    ensures a == b
  {
    var i :| 0 <= i < |nodes| && nodes[i] == a && IsLatest(key, nodes, i);
    var j :| 0 <= j < |nodes| && nodes[j] == b && IsLatest(key, nodes, j);
    assert i == j;
  }

  lemma RepresentsAfter(key: KeyOf, nodes: seq<Node>, last: Node, node: Node)
    requires Represents(key, nodes, node)
    requires key(last) == key(node) ==> last.updatedAt < node.updatedAt
    ensures Represents(key, nodes + [last], node)
  {
    var i :| 0 <= i < |nodes| && nodes[i] == node && IsLatest(key, nodes, i);
    assert (nodes + [last])[i] == node && IsLatest(key, nodes + [last], i);
  }

  lemma LastRepresents(key: KeyOf, nodes: seq<Node>, last: Node)
    requires forall j :: 0 <= j < |nodes| && key(nodes[j]) == key(last) ==> nodes[j].updatedAt <= last.updatedAt
    ensures Represents(key, nodes + [last], last)
  {
    assert IsLatest(key, nodes + [last], |nodes|);
  }

  lemma {:induction false} FirstKeysMembers(key: KeyOf, nodes: seq<Node>)
    ensures Distinct(FirstKeys(key, nodes))
    ensures forall k :: k in FirstKeys(key, nodes) <==> k in Keys(key, nodes)
    decreases |nodes|
  {
    if nodes != [] {
      var init := nodes[..|nodes| - 1];
      FirstKeysMembers(key, init);
      assert Keys(key, nodes) == Keys(key, init) + [key(nodes[|nodes| - 1])];
    }
  }

  /**
   Deduplication refines its specification: each key once, in order of first appearance,
   represented by the last node among those with its latest update.
   */
  lemma {:induction false} DedupeMeetsSpecification(key: KeyOf, nodes: seq<Node>)
    ensures Keys(key, Deduped(key, nodes)) == FirstKeys(key, nodes)
    ensures forall i :: 0 <= i < |Deduped(key, nodes)| ==> Represents(key, nodes, Deduped(key, nodes)[i])
    decreases |nodes|
  {
    hide Represents;
    if nodes != [] {
      var (init, last) := (nodes[..|nodes| - 1], nodes[|nodes| - 1]);
      var before := Deduped(key, init);
      assert nodes == init + [last];
      DedupeMeetsSpecification(key, init);
      FirstKeysMembers(key, init);
      InsertKeys(key, before, last);
      forall i | 0 <= i < |Insert(key, before, last)| ensures Represents(key, nodes, Insert(key, before, last)[i]) {
        InsertRepresents(key, init, before, last, i);
      }
    }
  }

  lemma InsertKeys(key: KeyOf, before: seq<Node>, last: Node)
    ensures Keys(key, Insert(key, before, last))
         == Keys(key, before) + (if key(last) in Keys(key, before) then [] else [key(last)])
  {
    assert Keys(key, before + [last]) == Keys(key, before) + [key(last)];
    var i := IndexOf(Keys(key, before), key(last));
    assert i < |before| ==> Keys(key, before[i := last]) == Keys(key, before);
  }

  lemma InsertRepresents(key: KeyOf, init: seq<Node>, before: seq<Node>, last: Node, i: nat)
    requires forall j :: 0 <= j < |before| ==> Represents(key, init, before[j])
    requires Distinct(Keys(key, before)) && forall k :: k in Keys(key, before) <==> k in Keys(key, init)
    requires i < |Insert(key, before, last)|
    ensures Represents(key, init + [last], Insert(key, before, last)[i])
  {
    var p := IndexOf(Keys(key, before), key(last));
    if i < |before| && (i != p || !ShouldReplace(last, before[p])) {
      assert key(last) == key(before[i]) ==> Keys(key, before)[i] == Keys(key, before)[p];
      RepresentsAfter(key, init, last, before[i]);
    } else {
      if p < |before| {
        var l :| 0 <= l < |init| && init[l] == before[p] && IsLatest(key, init, l);
      } else {
        forall j | 0 <= j < |init| ensures key(init[j]) != key(last) {
          assert Keys(key, init)[j] in Keys(key, init);
        }
      }
      LastRepresents(key, init, last);
    }
  }

  lemma DistinctInit(key: KeyOf, init: seq<Node>, last: Node)
    requires Distinct(Keys(key, init + [last]))
    ensures Distinct(Keys(key, init)) && key(last) !in Keys(key, init)
  {
    var keys := Keys(key, init + [last]);
    assert keys[|init|] == key(last);
    assert forall i :: 0 <= i < |init| ==> Keys(key, init)[i] == keys[i];
  }

  /** A list with distinct keys is left alone. */
  lemma {:induction false} DistinctUnchanged(key: KeyOf, nodes: seq<Node>)
    requires Distinct(Keys(key, nodes))
    ensures Deduped(key, nodes) == nodes
    decreases |nodes|
  {
    hide Keys, Distinct;
    if nodes != [] {
      var (init, last) := (nodes[..|nodes| - 1], nodes[|nodes| - 1]);
      assert nodes == init + [last];
      DistinctInit(key, init, last);
      DistinctUnchanged(key, init);
      DedupedSnoc(key, init, last);
    }
  }

  lemma DedupeIdempotent(key: KeyOf, nodes: seq<Node>)
    ensures Deduped(key, Deduped(key, nodes)) == Deduped(key, nodes)
    ensures forall k :: k in Keys(key, Deduped(key, nodes)) <==> k in Keys(key, nodes)
  {
    DedupeMeetsSpecification(key, nodes);
    FirstKeysMembers(key, nodes);
    DistinctUnchanged(key, Deduped(key, nodes));
  }

  lemma FlattenSnoc(sources: seq<SourceNodes>, last: SourceNodes)
    ensures Flatten(sources + [last]) == Flatten(sources) + last.nodes
  {
    assert (sources + [last])[..|sources|] == sources;
  }

  lemma FlattenOne(source: SourceNodes)
    ensures Flatten([]) == [] && Flatten([source]) == source.nodes
  {
    FlattenSnoc([], source);
    assert [] + [source] == [source];
  }

  /** The nodes of the sources one after the other. */
  lemma {:induction false} FlattenExactly(a: seq<SourceNodes>, b: seq<SourceNodes>, source: SourceNodes)
    ensures Flatten([source]) == source.nodes
    ensures Flatten(a + b) == Flatten(a) + Flatten(b)
    decreases |b|
  {
    hide *;
    FlattenOne(source);
    if b == [] {
      assert a + b == a;
      assert Flatten(a) + [] == Flatten(a);
    } else {
      var (init, last) := (b[..|b| - 1], b[|b| - 1]);
      FlattenExactly(a, init, source);
      FlattenSnoc(a + init, last);
      FlattenSnoc(init, last);
      assert a + b == a + init + [last] && b == init + [last];
      assert Flatten(a) + (Flatten(init) + last.nodes) == Flatten(a) + Flatten(init) + last.nodes;
    }
  }

  lemma IndexOfPrefix(keys: seq<string>, last: string, k: string)
    requires k in keys || k == last
    ensures IndexOf(keys + [last], k) == if k in keys then IndexOf(keys, k) else |keys|
  {
    IndexOfAppend(keys, last, k);
  }

  /** The keys stand in the order of their first appearances. */
  lemma {:induction false} FirstKeysOrdered(key: KeyOf, nodes: seq<Node>, i: nat, j: nat)
    requires i < j < |FirstKeys(key, nodes)|
    ensures IndexOf(Keys(key, nodes), FirstKeys(key, nodes)[i]) < IndexOf(Keys(key, nodes), FirstKeys(key, nodes)[j]) < |nodes|
    decreases |nodes|
  {
    hide IndexOf, Keys;
    var (init, last) := (nodes[..|nodes| - 1], nodes[|nodes| - 1]);
    var (before, first) := (Keys(key, init), FirstKeys(key, nodes));
    assert Keys(key, nodes) == before + [key(last)];
    FirstKeysMembers(key, init);
    assert FirstKeys(key, init)[i] == first[i];
    IndexOfPrefix(before, key(last), first[i]);
    IndexOfPrefix(before, key(last), first[j]);
    if j < |FirstKeys(key, init)| {
      FirstKeysOrdered(key, init, i, j);
    }
  }
}
