/** Node names after aggregation: source suffixes for shared names, then numbers for what still collides. */
module NameConflicts {
  import opened Text
  import opened Dedupe

  function Names(nodes: seq<Node>): (names: seq<string>)
    ensures |names| == |nodes| && forall i :: 0 <= i < |nodes| ==> names[i] == nodes[i].name
  {
    seq(|nodes|, i requires 0 <= i < |nodes| => nodes[i].name)
  }

  /** How often a name occurs among the names. */
  function Count(names: seq<string>, name: string): nat {
    if names == [] then 0
    else Count(names[..|names| - 1], name) + (if names[|names| - 1] == name then 1 else 0)
  }

  lemma CountSnoc(names: seq<string>, last: string, name: string)
    ensures Count(names + [last], name) == Count(names, name) + (if last == name then 1 else 0)
  {
    assert (names + [last])[..|names|] == names;
  }

  // ---------------------------------------------------------------- the specification

  function SourceLabel(aliases: map<string, string>, node: Node): string {
    if node.sourceId in aliases then aliases[node.sourceId] else node.sourceId
  }

  function Suffixed(aliases: map<string, string>, node: Node): Node {
    node.(name := node.name + " (" + SourceLabel(aliases, node) + ")")
  }

  /** The first pass: nodes that share a name get their source as a suffix. */
  function SuffixPass(nodes: seq<Node>, aliases: map<string, string>): (r: seq<Node>)
    ensures |r| == |nodes|
  {
    seq(|nodes|, i requires 0 <= i < |nodes| =>
      if Count(Names(nodes), nodes[i].name) > 1 then Suffixed(aliases, nodes[i]) else nodes[i])
  }

  function Numbered(name: string, k: nat): string {
    if k <= 1 then name else name + " #" + Decimal(k)
  }

  /** The second pass: the k-th node of a name gets the number k, the first keeps the name. */
  function NumberPass(nodes: seq<Node>): (r: seq<Node>)
    ensures |r| == |nodes|
  {
    seq(|nodes|, i requires 0 <= i < |nodes| =>
      nodes[i].(name := Numbered(nodes[i].name, Count(Names(nodes)[..i + 1], nodes[i].name))))
  }

  function Resolved(nodes: seq<Node>, aliases: map<string, string>): (r: seq<Node>)
    ensures |r| == |nodes|
  {
    NumberPass(SuffixPass(nodes, aliases))
  }

  // ---------------------------------------------------------------- the algorithm, in place

  /** The positions of a name, in order. */
  function PositionsOf(names: seq<string>, name: string): seq<nat> {
    if names == [] then []
    else
      var last := |names| - 1;
      PositionsOf(names[..last], name) + (if names[last] == name then [last] else [])
  }

  lemma {:induction false} PositionsFacts(names: seq<string>, name: string)
    ensures |PositionsOf(names, name)| == Count(names, name)
    ensures forall p: nat :: p in PositionsOf(names, name) <==> p < |names| && names[p] == name
    decreases |names|
  {
    if names != [] {
      PositionsFacts(names[..|names| - 1], name);
    }
  }

  lemma PositionsSnoc(names: seq<string>, last: string, name: string)
    ensures PositionsOf(names + [last], name) == PositionsOf(names, name) + (if last == name then [|names|] else [])
  {
    assert (names + [last])[..|names|] == names;
  }

  /** `name_to_indices` holds the positions of every name that occurs. */
  ghost predicate IndexedBy(index: map<string, seq<nat>>, names: seq<string>) {
    forall name :: (if name in index then index[name] else []) == PositionsOf(names, name)
  }

  method CollectPositions(nodes: array<Node>) returns (index: map<string, seq<nat>>)
    ensures IndexedBy(index, Names(nodes[..]))
  {
    hide PositionsOf;
    index := map[];
    NothingIndexed();
    for i := 0 to nodes.Length
      invariant IndexedBy(index, Names(nodes[..i]))
    {
      var name := nodes[i].name;
      forall other ensures PositionsOf(Names(nodes[..i]) + [name], other)
        == PositionsOf(Names(nodes[..i]), other) + (if name == other then [i] else []) {
        PositionsSnoc(Names(nodes[..i]), name, other);
      }
      assert Names(nodes[..i + 1]) == Names(nodes[..i]) + [name];
      index := index[name := (if name in index then index[name] else []) + [i]];
    }
    assert nodes[..nodes.Length] == nodes[..];
  }

  lemma NothingIndexed()
    ensures IndexedBy(map[], [])
  {
  }

  /** What the first pass has reached once the names in `done` are treated. */
  function Partial(nodes: seq<Node>, aliases: map<string, string>, done: set<string>, i: nat): Node
    requires i < |nodes|
  {
    if nodes[i].name in done && Count(Names(nodes), nodes[i].name) > 1 then Suffixed(aliases, nodes[i]) else nodes[i]
  }

  /** Renames the nodes of one shared name. */
  method SuffixName(nodes: array<Node>, ghost original: seq<Node>, name: string, indices: seq<nat>, aliases: map<string, string>)
    requires nodes.Length == |original|
    requires forall p: nat :: p in indices <==> p < |original| && original[p].name == name
    requires forall p :: 0 <= p < |original| && original[p].name == name ==> nodes[p] == original[p]
    modifies nodes
    ensures forall p :: 0 <= p < |original| ==>
      nodes[p] == if original[p].name == name then Suffixed(aliases, original[p]) else old(nodes[p])
  {
    for k := 0 to |indices|
      invariant forall p :: 0 <= p < |original| ==>
        nodes[p] == if p in indices[..k] then Suffixed(aliases, original[p]) else old(nodes[p])
    {
      var i := indices[k];
      assert i in indices;
      assert indices[..k + 1] == indices[..k] + [i];
      var node := nodes[i];
      nodes[i] := node.(name := name + " (" + SourceLabel(aliases, node) + ")");
    }
    assert indices[..|indices|] == indices;
  }

  lemma AllTreated(nodes: seq<Node>, aliases: map<string, string>, done: set<string>)
    requires forall p :: 0 <= p < |nodes| ==> nodes[p].name in done || Count(Names(nodes), nodes[p].name) <= 1
    ensures forall p :: 0 <= p < |nodes| ==> Partial(nodes, aliases, done, p) == SuffixPass(nodes, aliases)[p]
  {
    hide Suffixed, Count, Names;
  }

  /** The first pass of `resolve_name_conflicts`; the order in which names are taken does not matter. */
  method SuffixInPlace(nodes: array<Node>, aliases: map<string, string>)
    modifies nodes
    ensures nodes[..] == SuffixPass(old(nodes[..]), aliases)
  {
    hide Suffixed, Count, PositionsOf, SuffixPass, Names;
    ghost var original := nodes[..];
    var index := CollectPositions(nodes);
    var rest := index.Keys;
    ghost var done: set<string> := {};
    while rest != {}
      invariant rest <= index.Keys && done == index.Keys - rest
      invariant forall p :: 0 <= p < |original| ==> nodes[p] == Partial(original, aliases, done, p)
      decreases |rest|
    {
      var name :| name in rest;
      rest := rest - {name};
      done := done + {name};
      PositionsFacts(Names(original), name);
      if |index[name]| <= 1 {
        continue;
      }
      SuffixName(nodes, original, name, index[name], aliases);
    }
    forall p | 0 <= p < |original| ensures original[p].name in done || Count(Names(original), original[p].name) <= 1 {
      PositionsFacts(Names(original), original[p].name);
    }
    AllTreated(original, aliases, done);
    assert nodes[..] == SuffixPass(original, aliases);
  }

  /** How often each name has been seen. */
  ghost predicate Counts(counter: map<string, nat>, names: seq<string>) {
    forall name :: (if name in counter then counter[name] else 0) == Count(names, name)
  }

  lemma CountsSnoc(counter: map<string, nat>, names: seq<string>, last: string)
    requires Counts(counter, names)
    ensures var k := (if last in counter then counter[last] else 0) + 1;
            k == Count(names + [last], last) && Counts(counter[last := k], names + [last])
  {
    forall name ensures Count(names + [last], name) == Count(names, name) + (if last == name then 1 else 0) {
      CountSnoc(names, last, name);
    }
  }

  /** The second pass of `resolve_name_conflicts` */
  method NumberInPlace(nodes: array<Node>)
    modifies nodes
    ensures nodes[..] == NumberPass(old(nodes[..]))
  {
    hide Counts, Count, Numbered, NumberPass, Names, Decimal;
    ghost var original := nodes[..];
    var counter: map<string, nat> := map[];
    NothingCounted();
    assert Names(original)[..0] == [];
    for i := 0 to nodes.Length
      invariant Counts(counter, Names(original)[..i])
      invariant forall p :: 0 <= p < i ==> nodes[p] == NumberPass(original)[p]
      invariant forall p :: i <= p < nodes.Length ==> nodes[p] == original[p]
    {
      var name := nodes[i].name;
      CountsSnoc(counter, Names(original)[..i], name);
      assert Names(original)[..i + 1] == Names(original)[..i] + [name];
      var entry := (if name in counter then counter[name] else 0) + 1;
      counter := counter[name := entry];
      NumberPassAt(original, i);
      NumberedCases(name, entry);
      if entry > 1 {
        nodes[i] := nodes[i].(name := name + " #" + Decimal(entry));
      }
    }
    assert nodes[..] == NumberPass(original);
  }

  lemma NumberPassAt(nodes: seq<Node>, i: nat)
    requires i < |nodes|
    ensures NumberPass(nodes)[i] == nodes[i].(name := Numbered(nodes[i].name, Count(Names(nodes)[..i + 1], nodes[i].name)))
  {
    hide Names, Numbered, Count;
  }

  lemma NothingCounted()
    ensures Counts(map[], [])
  {
  }

  lemma NumberedCases(name: string, k: nat)
    ensures Numbered(name, k) == if k > 1 then name + " #" + Decimal(k) else name
  {
  }

  /** `resolve_name_conflicts` */
  method ResolveNameConflicts(nodes: array<Node>, aliases: map<string, string>)
    modifies nodes
    ensures nodes[..] == Resolved(old(nodes[..]), aliases)
  {
    SuffixInPlace(nodes, aliases);
    NumberInPlace(nodes);
  }

  // ---------------------------------------------------------------- when the names are distinct

  function NumberedNames(names: seq<string>): (r: seq<string>)
    ensures |r| == |names|
  {
    seq(|names|, i requires 0 <= i < |names| => Numbered(names[i], Count(names[..i + 1], names[i])))
  }

  lemma NamesOfNumberPass(nodes: seq<Node>)
    ensures Names(NumberPass(nodes)) == NumberedNames(Names(nodes))
  {
    hide Numbered, Count;
  }

  /** No name equals another name that occurs at least k times, followed by " #k". */
  ghost predicate NoNumberClash(names: seq<string>) {
    forall i, j, k: nat :: 0 <= i < |names| && 0 <= j < |names| && 2 <= k <= Count(names, names[j]) ==> names[i] != Numbered(names[j], k)
  }

  lemma NumberedInjective(a: string, k: nat, b: string, l: nat)
    requires k >= 2 && l >= 2 && Numbered(a, k) == Numbered(b, l)
    ensures a == b && k == l
  {
    assert '#' !in Decimal(k) && '#' !in Decimal(l);
    hide Decimal;
    assert Numbered(a, k) == (a + " ") + ['#'] + Decimal(k) && Numbered(b, l) == (b + " ") + ['#'] + Decimal(l);
    RSplitOnceAt(a + " ", '#', Decimal(k));
    RSplitOnceAt(b + " ", '#', Decimal(l));
    DecimalInjective(k, l);
    assert a == (a + " ")[..|a + " "| - 1] && b == (b + " ")[..|b + " "| - 1];
  }

  lemma {:induction false} CountGrows(names: seq<string>, i: nat, j: nat, name: string)
    requires i <= j <= |names|
    ensures Count(names[..i], name) <= Count(names[..j], name)
    decreases j - i
  {
    if i < j {
      CountGrows(names, i, j - 1, name);
      assert names[..j] == names[..j - 1] + [names[j - 1]];
      CountSnoc(names[..j - 1], names[j - 1], name);
    }
  }

  lemma CountAt(names: seq<string>, i: nat)
    requires i < |names|
    ensures Count(names[..i + 1], names[i]) == Count(names[..i], names[i]) + 1
  {
    assert names[..i + 1] == names[..i] + [names[i]];
    CountSnoc(names[..i], names[i], names[i]);
  }

  /** The k-th occurrence of a name. */
  lemma {:induction false} Occurrence(names: seq<string>, name: string, k: nat) returns (i: nat)
    requires 1 <= k <= Count(names, name)
    ensures i < |names| && names[i] == name && Count(names[..i + 1], name) == k
    decreases |names|
  {
    var init := names[..|names| - 1];
    if k <= Count(init, name) {
      i := Occurrence(init, name, k);
      assert names[..i + 1] == init[..i + 1];
    } else {
      i := |init|;
      assert names[..i + 1] == names;
    }
  }

  lemma DifferentNumbers(names: seq<string>, i: nat, j: nat)
    requires i < j < |names| && NoNumberClash(names)
    ensures NumberedNames(names)[i] != NumberedNames(names)[j]
  {
    hide NoNumberClash, Count, Numbered, NumberedNames, Decimal;
    NumberedNamesAt(names, i);
    NumberedNamesAt(names, j);
    var (k, l) := (Count(names[..i + 1], names[i]), Count(names[..j + 1], names[j]));
    CountAt(names, i);
    CountAt(names, j);
    CountGrows(names, i + 1, |names|, names[i]);
    CountGrows(names, j + 1, |names|, names[j]);
    assert names[..|names|] == names;
    NumberedCases(names[i], k);
    NumberedCases(names[j], l);
    if k >= 2 && l >= 2 && Numbered(names[i], k) == Numbered(names[j], l) {
      NumberedInjective(names[i], k, names[j], l);
    }
    if names[i] == names[j] {
      CountGrows(names, i + 1, j, names[i]);
    } else {
      ClashExcludes(names, i, j, l);
      ClashExcludes(names, j, i, k);
    }
  }

  lemma ClashExcludes(names: seq<string>, i: nat, j: nat, k: nat)
    requires NoNumberClash(names) && i < |names| && j < |names| && k <= Count(names, names[j])
    ensures k >= 2 ==> names[i] != Numbered(names[j], k)
  {
  }

  lemma NumberedNamesAt(names: seq<string>, i: nat)
    requires i < |names|
    ensures NumberedNames(names)[i] == Numbered(names[i], Count(names[..i + 1], names[i]))
  {
    hide Numbered, Count;
  }

  lemma NumberedIsLonger(name: string, k: nat)
    requires k >= 2
    ensures |Numbered(name, k)| > |name|
  {
    hide Decimal;
  }

  /** The first occurrence of a name keeps it. */
  lemma FirstIsUnnumbered(names: seq<string>, i: nat) returns (q: nat)
    requires i < |names|
    ensures q < |names| && names[q] == names[i] && NumberedNames(names)[q] == names[i]
  {
    hide Count, Numbered, NumberedNames;
    CountAt(names, i);
    CountGrows(names, i + 1, |names|, names[i]);
    assert names[..|names|] == names;
    q := Occurrence(names, names[i], 1);
    NumberedNamesAt(names, q);
    NumberedCases(names[i], 1);
  }

  /** A name that looks like the k-th occurrence of another one is produced twice. */
  lemma ClashDuplicates(names: seq<string>, i: nat, j: nat, k: nat)
    requires i < |names| && j < |names| && 2 <= k <= Count(names, names[j]) && names[i] == Numbered(names[j], k)
    ensures !Distinct(NumberedNames(names))
  {
    hide Count, Numbered, NumberedNames;
    var p := Occurrence(names, names[j], k);
    NumberedNamesAt(names, p);
    var q := FirstIsUnnumbered(names, i);
    NumberedIsLonger(names[j], k);
    assert |names[p]| < |names[q]|;
    assert NumberedNames(names)[p] == NumberedNames(names)[q];
    assert p < q || q < p;
  }

  /** The numbered names are distinct exactly when no name looks like a numbered one. */
  lemma NumberingDistinctExactly(names: seq<string>)
    ensures Distinct(NumberedNames(names)) <==> NoNumberClash(names)
  {
    hide Count, Numbered, NumberedNames;
    if NoNumberClash(names) {
      forall i, j | 0 <= i < j < |names| ensures NumberedNames(names)[i] != NumberedNames(names)[j] {
        DifferentNumbers(names, i, j);
      }
    } else {
      var i, j, k: nat :| 0 <= i < |names| && 0 <= j < |names| && 2 <= k <= Count(names, names[j]) && names[i] == Numbered(names[j], k);
      ClashDuplicates(names, i, j, k);
    }
  }

  /**
   After name resolution all names are pairwise distinct exactly when no source-suffixed name
   equals another one followed by " #k", where that other name occurs at least k times.
   */
  lemma ResolvedDistinctExactly(nodes: seq<Node>, aliases: map<string, string>)
    ensures Distinct(Names(Resolved(nodes, aliases))) <==> NoNumberClash(Names(SuffixPass(nodes, aliases)))
  {
    hide NoNumberClash, NumberPass, NumberedNames, SuffixPass;
    NamesOfNumberPass(SuffixPass(nodes, aliases));
    NumberingDistinctExactly(Names(SuffixPass(nodes, aliases)));
  }

  /** Count, order and every field but the name are kept. */
  lemma ResolvedKeepsNodes(nodes: seq<Node>, aliases: map<string, string>)
    ensures |Resolved(nodes, aliases)| == |nodes|
    ensures forall i :: 0 <= i < |nodes| ==> Resolved(nodes, aliases)[i] == nodes[i].(name := Resolved(nodes, aliases)[i].name)
  {
    hide Count, Numbered;
  }

  lemma {:induction false} DistinctCounts(names: seq<string>, name: string)
    requires Distinct(names)
    ensures Count(names, name) <= 1
    decreases |names|
  {
    if names != [] {
      var init := names[..|names| - 1];
      DistinctCounts(init, name);
      CountAbsent(init, name);
    }
  }

  lemma {:induction false} CountAbsent(names: seq<string>, name: string)
    ensures Count(names, name) == 0 <==> name !in names
    decreases |names|
  {
    if names != [] {
      CountAbsent(names[..|names| - 1], name);
      assert names == names[..|names| - 1] + [names[|names| - 1]];
    }
  }

  /** Names that are already distinct are left alone. */
  lemma DistinctUntouched(nodes: seq<Node>, aliases: map<string, string>)
    requires Distinct(Names(nodes))
    ensures Resolved(nodes, aliases) == nodes
  {
    var names := Names(nodes);
    forall i | 0 <= i < |nodes| ensures Count(names, names[i]) <= 1 && Count(names[..i + 1], names[i]) <= 1 {
      DistinctCounts(names, names[i]);
      CountGrows(names, i + 1, |names|, names[i]);
      assert names[..|names|] == names;
    }
    hide Count;
    assert SuffixPass(nodes, aliases) == nodes;
    assert NumberPass(nodes) == nodes;
  }

  const EXAMPLE := [Node("A", "s", 0, ""), Node("A", "s", 0, ""), Node("A (s) #2", "s", 0, "")]
  const EXAMPLE_SUFFIXED := [Node("A (s)", "s", 0, ""), Node("A (s)", "s", 0, ""), Node("A (s) #2", "s", 0, "")]

  lemma ExampleSuffixes()
    ensures SuffixPass(EXAMPLE, map[]) == EXAMPLE_SUFFIXED
  {
    var names := Names(EXAMPLE);
    assert names == ["A", "A"] + ["A (s) #2"] && ["A", "A"] == ["A"] + ["A"];
    CountSnoc(["A", "A"], "A (s) #2", "A");
    CountSnoc(["A", "A"], "A (s) #2", "A (s) #2");
    CountSnoc(["A"], "A", "A");
    CountSnoc(["A"], "A", "A (s) #2");
    assert Count(names, "A") == 2 && Count(names, "A (s) #2") == 1;
    assert "A" + " (" + "s" + ")" == "A (s)";
    assert Suffixed(map[], EXAMPLE[0]) == EXAMPLE_SUFFIXED[0] == Suffixed(map[], EXAMPLE[1]);
  }

  lemma ExampleNumbers()
    ensures Names(NumberPass(EXAMPLE_SUFFIXED)) == ["A (s)", "A (s) #2", "A (s) #2"]
  {
    var texts := Names(EXAMPLE_SUFFIXED);
    assert texts[..1] == ["A (s)"] && texts[..2] == ["A (s)"] + ["A (s)"] && texts[..3] == ["A (s)", "A (s)"] + ["A (s) #2"];
    CountSnoc(["A (s)"], "A (s)", "A (s)");
    CountSnoc(["A (s)", "A (s)"], "A (s) #2", "A (s) #2");
    CountSnoc(["A (s)"], "A (s)", "A (s) #2");
    assert Decimal(2) == "2" && "A (s)" + " #" + "2" == "A (s) #2";
  }

  /** The promised uniqueness fails in general: "A", "A" and "A (s) #2" from source "s" end with a duplicate. */
  lemma UniquenessFails()
    ensures Names(Resolved(EXAMPLE, map[])) == ["A (s)", "A (s) #2", "A (s) #2"]
    ensures !Distinct(Names(Resolved(EXAMPLE, map[])))
  {
    ExampleSuffixes();
    ExampleNumbers();
    hide SuffixPass, NumberPass;
    var names := Names(Resolved(EXAMPLE, map[]));
    assert names[1] == names[2];
  }

  // ---------------------------------------------------------------- what the names look like

  /** A name that another node has too is followed by the alias of the node's source in parentheses, or its id without an alias. */
  ghost function BaseName(nodes: seq<Node>, aliases: map<string, string>, i: nat): string
    requires i < |nodes|
  {
    if exists j :: 0 <= j < |nodes| && j != i && nodes[j].name == nodes[i].name then
      nodes[i].name + " (" + (if nodes[i].sourceId in aliases then aliases[nodes[i].sourceId] else nodes[i].sourceId) + ")"
    else nodes[i].name
  }

  /** The nodes up to the i-th whose base name is that of the i-th. */
  ghost function SameBase(nodes: seq<Node>, aliases: map<string, string>, i: nat): set<nat>
    requires i < |nodes|
  {
    set j: nat | j <= i && BaseName(nodes, aliases, j) == BaseName(nodes, aliases, i)
  }

  ghost function Occurrences(names: seq<string>, name: string): set<nat> {
    set j: nat | j < |names| && names[j] == name
  }

  lemma {:induction false} CountIsCardinality(names: seq<string>, name: string)
    ensures Count(names, name) == |Occurrences(names, name)|
    decreases |names|
  {
    if names == [] {
      assert Occurrences(names, name) == {};
    } else {
      var last := |names| - 1;
      CountIsCardinality(names[..last], name);
      assert Occurrences(names, name) == Occurrences(names[..last], name) + (if names[last] == name then {last} else {});
    }
  }

  lemma SharedExactly(names: seq<string>, i: nat)
    requires i < |names|
    ensures Count(names, names[i]) > 1 <==> exists j :: 0 <= j < |names| && j != i && names[j] == names[i]
  {
    var all := Occurrences(names, names[i]);
    CountIsCardinality(names, names[i]);
    assert all == {i} + (all - {i});
    if all - {i} == {} {
      assert forall j: nat :: j < |names| && names[j] == names[i] ==> j in all;
    } else {
      var j :| j in all - {i};
    }
  }

  lemma BaseNames(nodes: seq<Node>, aliases: map<string, string>, i: nat)
    requires i < |nodes|
    ensures SuffixPass(nodes, aliases)[i].name == BaseName(nodes, aliases, i)
  {
    SharedExactly(Names(nodes), i);
    assert forall j :: 0 <= j < |nodes| ==> Names(nodes)[j] == nodes[j].name;
    hide Count;
  }

  lemma SameBaseCounted(nodes: seq<Node>, aliases: map<string, string>, i: nat)
    requires i < |nodes|
    ensures |SameBase(nodes, aliases, i)| == Count(Names(SuffixPass(nodes, aliases))[..i + 1], BaseName(nodes, aliases, i))
  {
    hide BaseName, SuffixPass, Count;
    var names := Names(SuffixPass(nodes, aliases));
    forall j | 0 <= j < |nodes| ensures names[j] == BaseName(nodes, aliases, j) {
      BaseNames(nodes, aliases, j);
    }
    var (upTo, base) := (names[..i + 1], BaseName(nodes, aliases, i));
    CountIsCardinality(upTo, base);
    assert Occurrences(upTo, base) == SameBase(nodes, aliases, i);
  }

  /** The first node of a base name is the one without another before it. */
  lemma FirstOfBase(nodes: seq<Node>, aliases: map<string, string>, i: nat)
    requires i < |nodes|
    ensures |SameBase(nodes, aliases, i)| >= 1
    ensures |SameBase(nodes, aliases, i)| == 1 <==> forall j :: 0 <= j < i ==> BaseName(nodes, aliases, j) != BaseName(nodes, aliases, i)
  {
    hide BaseName;
    var same := SameBase(nodes, aliases, i);
    assert same == {i} + (same - {i});
    if same - {i} != {} {
      var j :| j in same - {i};
      assert j < i;
    } else {
      forall j: nat | j < i ensures BaseName(nodes, aliases, j) != BaseName(nodes, aliases, i) {
        assert BaseName(nodes, aliases, j) == BaseName(nodes, aliases, i) ==> j in same && j in same - {i};
      }
    }
  }

  /**
   The name of every node: its base name for the first node with that base name, and for the
   k-th one the base name followed by " #k".
   */
  lemma ResolvedName(nodes: seq<Node>, aliases: map<string, string>, i: nat)
    requires i < |nodes|
    ensures var k := |SameBase(nodes, aliases, i)|;
      Resolved(nodes, aliases)[i].name ==
        if k == 1 then BaseName(nodes, aliases, i) else BaseName(nodes, aliases, i) + " #" + Decimal(k)
  {
    hide *;
    BaseNames(nodes, aliases, i);
    SameBaseCounted(nodes, aliases, i);
    FirstOfBase(nodes, aliases, i);
    ResolvedAt(nodes, aliases, i);
    var name := BaseName(nodes, aliases, i);
    NumberedCases(name, |SameBase(nodes, aliases, i)|);
  }

  lemma ResolvedAt(nodes: seq<Node>, aliases: map<string, string>, i: nat)
    requires i < |nodes|
    ensures var name := SuffixPass(nodes, aliases)[i].name;
      Resolved(nodes, aliases)[i].name == Numbered(name, Count(Names(SuffixPass(nodes, aliases))[..i + 1], name))
  {
    hide SuffixPass, Names, Numbered, Count, NumberPass;
    NumberPassAt(SuffixPass(nodes, aliases), i);
  }
}
