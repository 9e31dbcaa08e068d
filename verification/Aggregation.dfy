/** Aggregation of several sources: one node per identity, then names resolved with the sources' aliases. */
module Aggregation {
  import opened Text
  import opened Dedupe
  import opened NameConflicts

  /** A source's alias, or its id when the alias is missing or blank. */
  function Label(source: SourceNodes): string {
    if source.alias.Some? && Trim(source.alias.value) != "" then Trim(source.alias.value) else source.sourceId
  }

  function Aliases(sources: seq<SourceNodes>): map<string, string> {
    if sources == [] then map[]
    else Aliases(sources[..|sources| - 1])[sources[|sources| - 1].sourceId := Label(sources[|sources| - 1])]
  }

  /** `build_source_aliases` */
  method BuildSourceAliases(sources: seq<SourceNodes>) returns (aliases: map<string, string>)
    ensures aliases == Aliases(sources)
  {
    aliases := map[];
    for i := 0 to |sources|
      invariant aliases == Aliases(sources[..i])
    {
      assert sources[..i + 1][..i] == sources[..i];
      aliases := aliases[sources[i].sourceId := Label(sources[i])];
    }
    assert sources[..|sources|] == sources;
  }

  /** Every source has a label, and of several sources with one id the last decides it. */
  lemma {:induction false} LastSourceLabels(sources: seq<SourceNodes>, id: string)
    ensures id in Aliases(sources) <==> exists i :: 0 <= i < |sources| && sources[i].sourceId == id
    ensures forall i :: 0 <= i < |sources| && sources[i].sourceId == id && (forall j :: i < j < |sources| ==> sources[j].sourceId != id) ==>
      Aliases(sources)[id] == Label(sources[i])
    decreases |sources|
  {
    hide Label;
    if sources == [] {
    } else {
      var last := |sources| - 1;
      LastSourceLabels(sources[..last], id);
      if sources[last].sourceId != id {
        assert forall i :: 0 <= i < last ==> sources[..last][i] == sources[i];
      }
    }
  }

  /** `Aggregator::aggregate`, without the region groups */
  method Aggregate(key: KeyOf, sources: seq<SourceNodes>) returns (nodes: seq<Node>)
    ensures nodes == Resolved(Deduped(key, Flatten(sources)), Aliases(sources))
  {
    var aliases := BuildSourceAliases(sources);
    var deduped := DedupeNodes(key, sources);
    var buffer := new Node[|deduped|](i requires 0 <= i < |deduped| => deduped[i]);
    assert buffer[..] == deduped;
    ResolveNameConflicts(buffer, aliases);
    nodes := buffer[..];
  }

  /** The identity of a node does not depend on its name. */
  ghost predicate NameBlind(key: KeyOf) {
    forall node: Node, name :: key(node.(name := name)) == key(node)
  }

  /**
   What aggregation delivers: every identity of the sources once, in order of first appearance,
   by its representative under a possibly new name; and pairwise distinct names exactly when no
   suffixed name looks like a numbered one.
   */
  lemma AggregateMeetsSpecification(key: KeyOf, sources: seq<SourceNodes>)
    requires NameBlind(key)
    ensures var (flat, deduped) := (Flatten(sources), Deduped(key, Flatten(sources)));
      var nodes := Resolved(deduped, Aliases(sources));
      && Keys(key, nodes) == FirstKeys(key, flat)
      && (forall i :: 0 <= i < |nodes| ==> Represents(key, flat, deduped[i]) && nodes[i] == deduped[i].(name := nodes[i].name))
      && (Distinct(Names(nodes)) <==> NoNumberClash(Names(SuffixPass(deduped, Aliases(sources)))))
  {
    var deduped := Deduped(key, Flatten(sources));
    hide Deduped, Resolved, SuffixPass, NoNumberClash, Represents, FirstKeys, Aliases, Flatten;
    DedupeMeetsSpecification(key, Flatten(sources));
    ResolvedKeepsNodes(deduped, Aliases(sources));
    ResolvedDistinctExactly(deduped, Aliases(sources));
    var nodes := Resolved(deduped, Aliases(sources));
    forall i | 0 <= i < |nodes| ensures Keys(key, nodes)[i] == Keys(key, deduped)[i] {
      assert key(deduped[i].(name := nodes[i].name)) == key(deduped[i]);
    }
    assert Keys(key, nodes) == Keys(key, deduped);
  }

  /** The name of an aggregated node, by the last source that has the node's source id. */
  lemma AggregatedName(key: KeyOf, sources: seq<SourceNodes>, i: nat, s: nat)
    requires i < |Deduped(key, Flatten(sources))| && s < |sources|
    requires sources[s].sourceId == Deduped(key, Flatten(sources))[i].sourceId
    requires forall j :: s < j < |sources| ==> sources[j].sourceId != sources[s].sourceId
    ensures var deduped := Deduped(key, Flatten(sources));
      var (node, alias) := (deduped[i], sources[s].alias);
      var tag := if alias.None? || Trim(alias.value) == "" then sources[s].sourceId else Trim(alias.value);
      var shared := exists j :: 0 <= j < |deduped| && j != i && deduped[j].name == node.name;
      var base := if shared then node.name + " (" + tag + ")" else node.name;
      var k := |SameBase(deduped, Aliases(sources), i)|;
      && BaseName(deduped, Aliases(sources), i) == base
      && Resolved(deduped, Aliases(sources))[i].name == if k == 1 then base else base + " #" + Decimal(k)
  {
    hide Deduped, Flatten, Aliases, Resolved, SameBase, Decimal, Trim;
    LastSourceLabels(sources, sources[s].sourceId);
    ResolvedName(Deduped(key, Flatten(sources)), Aliases(sources), i);
  }
}
