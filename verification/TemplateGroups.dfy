/** Routing templates: the group builders of the Clash and the sing-box transformers. */
module TemplateGroups {
  import opened Text

  datatype Group = Group(
    name: string,
    proxies: seq<string>,
    includeAll: bool,
    filter: Option<string>,
    excludeFilter: Option<string>)

  datatype Template = Template(groups: seq<Group>, preserveNames: bool)

  /** A template with the names of the nodes it is filled from; `nodes` are the final nodes. */
  datatype Context = Context(template: Template, nodes: seq<string>, appended: seq<string>)

  /** Does the pattern (a regular expression, or else a plain substring) match the value? */
  type Matcher = (string, string) -> bool

  // ---------------------------------------------------------------- policies and filters

  predicate IsBuiltinPolicy(name: string) {
    var policy := ToUpper(Trim(name));
    policy == "DIRECT" || policy == "REJECT" || policy == "REJECT-DROP" || policy == "PASS" || policy == "COMPATIBLE"
  }

  /** `normalize_policy_reference`: sing-box only knows "direct" and "block". */
  function Normalize(name: string): string {
    var policy := ToUpper(Trim(name));
    if policy == "DIRECT" || policy == "PASS" || policy == "COMPATIBLE" then "direct"
    else if policy == "REJECT" || policy == "REJECT-DROP" then "block"
    else name
  }

  predicate MatchesFilter(matcher: Matcher, value: string, pattern: Option<string>, including: bool) {
    pattern.None? || Trim(pattern.value) == "" || matcher(Trim(pattern.value), value) == including
  }

  function FilterNames(matcher: Matcher, names: seq<string>, group: Group): (r: seq<string>)
    ensures forall n :: n in r <==>
      n in names && MatchesFilter(matcher, n, group.filter, true) && MatchesFilter(matcher, n, group.excludeFilter, false)
  {
    if names == [] then []
    else
      (if MatchesFilter(matcher, names[0], group.filter, true) && MatchesFilter(matcher, names[0], group.excludeFilter, false)
       then [names[0]] else [])
      + FilterNames(matcher, names[1..], group)
  }

  // ---------------------------------------------------------------- unique pushing

  /** `push_unique_proxy_name` */
  function PushUnique(target: seq<string>, name: string): seq<string> {
    if name in target then target else target + [name]
  }

  function PushAll(target: seq<string>, names: seq<string>): seq<string>
    decreases |names|
  {
    if names == [] then target else PushAll(PushUnique(target, names[0]), names[1..])
  }

  /** Each name once, in order of first appearance. */
  function Dedupe(names: seq<string>): seq<string> {
    PushAll([], names)
  }

  lemma {:induction false} PushAllConcat(target: seq<string>, a: seq<string>, b: seq<string>)
    ensures PushAll(target, a + b) == PushAll(PushAll(target, a), b)
    decreases |a|
  {
    if a == [] {
      assert a + b == b;
    } else {
      assert (a + b)[0] == a[0] && (a + b)[1..] == a[1..] + b;
      PushAllConcat(PushUnique(target, a[0]), a[1..], b);
    }
  }

  lemma PushAllSnoc(target: seq<string>, names: seq<string>, name: string)
    ensures PushAll(target, names + [name]) == PushUnique(PushAll(target, names), name)
  {
    PushAllConcat(target, names, [name]);
    assert [name][1..] == [];
  }

  lemma {:induction false} PushAllMembers(target: seq<string>, names: seq<string>, name: string)
    ensures name in PushAll(target, names) <==> name in target || name in names
    decreases |names|
  {
    if names != [] {
      PushAllMembers(PushUnique(target, names[0]), names[1..], name);
      assert name in names <==> name == names[0] || name in names[1..];
    }
  }

  lemma {:induction false} PushAllDistinct(target: seq<string>, names: seq<string>)
    requires Distinct(target)
    ensures Distinct(PushAll(target, names))
    decreases |names|
  {
    if names != [] {
      PushAllDistinct(PushUnique(target, names[0]), names[1..]);
    }
  }

  // ---------------------------------------------------------------- one group

  function GroupNames(template: Template): set<string> {
    set g | g in template.groups :: g.name
  }

  /** Neither a group of the template nor a builtin policy: a slot for nodes. */
  predicate IsPlain(template: Template, item: string) {
    item !in GroupNames(template) && !IsBuiltinPolicy(item)
  }

  predicate HasPlainSlot(template: Template, group: Group) {
    exists i :: 0 <= i < |group.proxies| && IsPlain(template, group.proxies[i])
  }

  predicate PopulatesAll(group: Group) {
    group.proxies == [] && group.includeAll
  }

  predicate ShouldAppend(template: Template, group: Group) {
    HasPlainSlot(template, group) || PopulatesAll(group)
  }

  function Candidates(matcher: Matcher, context: Context, group: Group): seq<string> {
    if HasPlainSlot(context.template, group) then FilterNames(matcher, context.appended, group)
    else if PopulatesAll(group) then FilterNames(matcher, context.nodes, group)
    else []
  }

  function NormalizeAll(names: seq<string>): seq<string> {
    if names == [] then [] else [Normalize(names[0])] + NormalizeAll(names[1..])
  }

  // ---------------------------------------------------------------- the Clash builder

  /** In the replacing mode the first plain item stands for all candidates, later ones for nothing. */
  function ClashReplaced(template: Template, items: seq<string>, candidates: seq<string>, inserted: bool, append: bool): seq<string>
    decreases |items|
  {
    if items == [] then
      if !inserted && append then candidates else []
    else if items[0] in GroupNames(template) || IsBuiltinPolicy(items[0]) then
      [items[0]] + ClashReplaced(template, items[1..], candidates, inserted, append)
    else
      (if inserted then [] else candidates) + ClashReplaced(template, items[1..], candidates, true, append)
  }

  /** What Clash pushes for a group, before duplicates are dropped. */
  function ClashPushed(matcher: Matcher, context: Context, group: Group): seq<string> {
    var (template, candidates) := (context.template, Candidates(matcher, context, group));
    if template.preserveNames then group.proxies + (if ShouldAppend(template, group) then candidates else [])
    else ClashReplaced(template, group.proxies, candidates, false, ShouldAppend(template, group))
  }

  function ClashProxies(matcher: Matcher, context: Context, group: Group): seq<string> {
    Dedupe(ClashPushed(matcher, context, group))
  }

  /** A loop of `push_unique_proxy_name` calls */
  method PushEach(target: seq<string>, names: seq<string>) returns (r: seq<string>)
    ensures r == PushAll(target, names)
  {
    r := target;
    for i := 0 to |names|
      invariant r == PushAll(target, names[..i])
    {
      PushAllSnoc(target, names[..i], names[i]);
      assert names[..i + 1] == names[..i] + [names[i]];
      if names[i] !in r {
        r := r + [names[i]];
      }
    }
    assert names[..|names|] == names;
  }

  /** Clash's replacing branch, with its `inserted_aggregated_nodes` flag */
  method ReplaceProxies(template: Template, items: seq<string>, candidates: seq<string>, append: bool) returns (proxies: seq<string>)
    ensures proxies == Dedupe(ClashReplaced(template, items, candidates, false, append))
  {
    hide IsBuiltinPolicy, GroupNames;
    proxies := [];
    var inserted := false;
    ghost var all := ClashReplaced(template, items, candidates, false, append);
    for i := 0 to |items|
      invariant PushAll(proxies, ClashReplaced(template, items[i..], candidates, inserted, append)) == PushAll([], all)
    {
      ghost var rest := ClashReplaced(template, items[i + 1..], candidates, true, append);
      assert items[i..][0] == items[i] && items[i..][1..] == items[i + 1..];
      if items[i] in GroupNames(template) || IsBuiltinPolicy(items[i]) {
        PushAllConcat(proxies, [items[i]], ClashReplaced(template, items[i + 1..], candidates, inserted, append));
        assert [items[i]][1..] == [];
        proxies := PushUnique(proxies, items[i]);
        continue;
      }
      assert [] + rest == rest;
      if !inserted {
        PushAllConcat(proxies, candidates, rest);
        proxies := PushEach(proxies, candidates);
        inserted := true;
      }
    }
    if !inserted && append {
      proxies := PushEach(proxies, candidates);
    }
  }

  /** The group loop body of `build_proxy_groups_from_template` */
  method BuildProxies(matcher: Matcher, context: Context, group: Group) returns (proxies: seq<string>)
    ensures proxies == ClashProxies(matcher, context, group)
  {
    var candidates := Candidates(matcher, context, group);
    var append := ShouldAppend(context.template, group);
    hide ShouldAppend, Candidates;
    if context.template.preserveNames {
      proxies := PushEach([], group.proxies);
      if append {
        PushAllConcat([], group.proxies, candidates);
        proxies := PushEach(proxies, candidates);
      } else {
        assert group.proxies + [] == group.proxies;
      }
    } else {
      proxies := ReplaceProxies(context.template, group.proxies, candidates, append);
    }
  }

  // ---------------------------------------------------------------- the sing-box builder

  /** The same for sing-box, which normalizes what it keeps of the template. */
  function SingboxReplaced(template: Template, items: seq<string>, candidates: seq<string>, inserted: bool, append: bool): seq<string>
    decreases |items|
  {
    if items == [] then
      if !inserted && append then candidates else []
    else if items[0] in GroupNames(template) || IsBuiltinPolicy(items[0]) then
      [Normalize(items[0])] + SingboxReplaced(template, items[1..], candidates, inserted, append)
    else
      (if inserted then [] else candidates) + SingboxReplaced(template, items[1..], candidates, true, append)
  }

  function SingboxPushed(matcher: Matcher, context: Context, group: Group): seq<string> {
    var (template, candidates) := (context.template, Candidates(matcher, context, group));
    if template.preserveNames then NormalizeAll(group.proxies) + (if ShouldAppend(template, group) then candidates else [])
    else SingboxReplaced(template, group.proxies, candidates, false, ShouldAppend(template, group))
  }

  function SingboxTargets(matcher: Matcher, context: Context, group: Group): seq<string> {
    Dedupe(SingboxPushed(matcher, context, group))
  }

  /** The preserving branch's loop over the template items */
  method PushNormalized(items: seq<string>) returns (targets: seq<string>)
    ensures targets == PushAll([], NormalizeAll(items))
  {
    hide Normalize, PushUnique, NormalizeAll, PushAll;
    targets := [];
    NothingNormalized();
    for i := 0 to |items|
      invariant targets == PushAll([], NormalizeAll(items[..i]))
    {
      NormalizeAllSnoc(items[..i], items[i]);
      PushAllSnoc([], NormalizeAll(items[..i]), Normalize(items[i]));
      assert items[..i + 1] == items[..i] + [items[i]];
      targets := PushUnique(targets, Normalize(items[i]));
    }
    assert items[..|items|] == items;
  }

  lemma NothingNormalized()
    ensures NormalizeAll([]) == [] && PushAll([], []) == []
  {
  }

  lemma {:induction false} NormalizeAllSnoc(items: seq<string>, item: string)
    ensures NormalizeAll(items + [item]) == NormalizeAll(items) + [Normalize(item)]
    decreases |items|
  {
    if items == [] {
      assert [item][1..] == [];
    } else {
      assert (items + [item])[0] == items[0] && (items + [item])[1..] == items[1..] + [item];
      NormalizeAllSnoc(items[1..], item);
    }
  }

  /** The sing-box replacing branch, with its `inserted_aggregated` flag */
  method ReplaceTargets(template: Template, items: seq<string>, candidates: seq<string>, append: bool) returns (targets: seq<string>)
    ensures targets == Dedupe(SingboxReplaced(template, items, candidates, false, append))
  {
    hide IsBuiltinPolicy, GroupNames, Normalize;
    targets := [];
    var inserted := false;
    ghost var all := SingboxReplaced(template, items, candidates, false, append);
    for i := 0 to |items|
      invariant PushAll(targets, SingboxReplaced(template, items[i..], candidates, inserted, append)) == PushAll([], all)
    {
      ghost var rest := SingboxReplaced(template, items[i + 1..], candidates, true, append);
      assert items[i..][0] == items[i] && items[i..][1..] == items[i + 1..];
      if items[i] in GroupNames(template) || IsBuiltinPolicy(items[i]) {
        PushAllConcat(targets, [Normalize(items[i])], SingboxReplaced(template, items[i + 1..], candidates, inserted, append));
        assert [Normalize(items[i])][1..] == [];
        targets := PushUnique(targets, Normalize(items[i]));
        continue;
      }
      assert [] + rest == rest;
      if !inserted {
        PushAllConcat(targets, candidates, rest);
        targets := PushEach(targets, candidates);
        inserted := true;
      }
    }
    if !inserted && append {
      targets := PushEach(targets, candidates);
    }
  }

  /** The group loop body of `build_template_groups` */
  method BuildTargets(matcher: Matcher, context: Context, group: Group) returns (targets: seq<string>)
    ensures targets == SingboxTargets(matcher, context, group)
  {
    var candidates := Candidates(matcher, context, group);
    var append := ShouldAppend(context.template, group);
    hide ShouldAppend, Candidates;
    if context.template.preserveNames {
      targets := PushNormalized(group.proxies);
      if append {
        PushAllConcat([], NormalizeAll(group.proxies), candidates);
        targets := PushEach(targets, candidates);
      } else {
        assert NormalizeAll(group.proxies) + [] == NormalizeAll(group.proxies);
      }
    } else {
      targets := ReplaceTargets(context.template, group.proxies, candidates, append);
    }
  }

  // ---------------------------------------------------------------- what a group ends up with

  /** A name passes a group's filters: the include pattern matches it, the exclude pattern does not, and blank patterns say nothing. */
  predicate Passes(matcher: Matcher, group: Group, name: string) {
    && (group.filter.Some? && Trim(group.filter.value) != "" ==> matcher(Trim(group.filter.value), name))
    && (group.excludeFilter.Some? && Trim(group.excludeFilter.value) != "" ==> !matcher(Trim(group.excludeFilter.value), name))
  }

  lemma FilterOne(matcher: Matcher, group: Group, name: string)
    ensures FilterNames(matcher, [name], group) == if Passes(matcher, group, name) then [name] else []
  {
    hide Trim;
    assert [name][1..] == [];
    assert FilterNames(matcher, [], group) == [];
  }

  lemma {:induction false} FilterConcat(matcher: Matcher, group: Group, a: seq<string>, b: seq<string>)
    ensures FilterNames(matcher, a + b, group) == FilterNames(matcher, a, group) + FilterNames(matcher, b, group)
    decreases |a|
  {
    hide MatchesFilter;
    if a == [] {
      assert a + b == b;
    } else {
      assert (a + b)[0] == a[0] && (a + b)[1..] == a[1..] + b;
      FilterConcat(matcher, group, a[1..], b);
    }
  }

  /** A name is kept exactly if it passes, where it stands and as often as it stands there. */
  lemma FilterExactly(matcher: Matcher, group: Group, names: seq<string>, last: string)
    ensures FilterNames(matcher, [], group) == []
    ensures FilterNames(matcher, names + [last], group) ==
      FilterNames(matcher, names, group) + (if Passes(matcher, group, last) then [last] else [])
  {
    FilterOne(matcher, group, last);
    FilterConcat(matcher, group, names, [last]);
    hide Passes, MatchesFilter;
  }

  /** The candidates of a group come from the appended nodes if it has a plain item, from the final nodes if it is empty and includes all, and else from nowhere. */
  lemma CandidatesExactly(matcher: Matcher, context: Context, group: Group, name: string)
    ensures var plain := exists i :: 0 <= i < |group.proxies| && IsPlain(context.template, group.proxies[i]);
      && (name in Candidates(matcher, context, group) <==>
            && Passes(matcher, group, name)
            && if plain then name in context.appended else group.proxies == [] && group.includeAll && name in context.nodes)
      && (plain && group.filter == None && group.excludeFilter == None ==> Candidates(matcher, context, group) == context.appended)
  {
    hide Trim, IsPlain;
    if group.filter == None && group.excludeFilter == None {
      NoFilterKeepsAll(matcher, group, context.appended);
    }
  }

  lemma {:induction false} NoFilterKeepsAll(matcher: Matcher, group: Group, names: seq<string>)
    requires group.filter == None && group.excludeFilter == None
    ensures FilterNames(matcher, names, group) == names
    decreases |names|
  {
    if names != [] {
      NoFilterKeepsAll(matcher, group, names[1..]);
    }
  }

  /** Each name stays where it first appears. */
  lemma DedupeExactly(init: seq<string>, last: string)
    ensures Dedupe([]) == []
    ensures Dedupe(init + [last]) == Dedupe(init) + (if last in init then [] else [last])
  {
    PushAllSnoc([], init, last);
    PushAllMembers([], init, last);
  }

  /** The items that are groups or policies, in order. */
  function NonPlain(template: Template, items: seq<string>): seq<string> {
    if items == [] then []
    else (if IsPlain(template, items[0]) then [] else [items[0]]) + NonPlain(template, items[1..])
  }

  predicate IsFirstPlain(template: Template, items: seq<string>, i: nat) {
    i < |items| && IsPlain(template, items[i]) && forall j :: 0 <= j < i ==> !IsPlain(template, items[j])
  }

  lemma {:induction false} NothingPlain(template: Template, items: seq<string>, candidates: seq<string>, inserted: bool, append: bool)
    requires inserted || forall i :: 0 <= i < |items| ==> !IsPlain(template, items[i])
    ensures inserted ==> ClashReplaced(template, items, candidates, inserted, append) == NonPlain(template, items)
    ensures !inserted ==> ClashReplaced(template, items, candidates, inserted, append) == items + (if append then candidates else [])
    decreases |items|
  {
    hide IsBuiltinPolicy, GroupNames;
    if items != [] {
      assert forall i :: 0 <= i < |items| - 1 ==> items[1..][i] == items[i + 1];
      NothingPlain(template, items[1..], candidates, inserted, append);
      var end := if append then candidates else [];
      assert [items[0]] + (items[1..] + end) == items + end;
    }
  }

  lemma {:induction false} FirstPlain(template: Template, items: seq<string>, candidates: seq<string>, append: bool, i: nat)
    requires IsFirstPlain(template, items, i)
    ensures ClashReplaced(template, items, candidates, false, append) == items[..i] + candidates + NonPlain(template, items[i + 1..])
    decreases i
  {
    hide IsBuiltinPolicy, GroupNames;
    if i == 0 {
      NothingPlain(template, items[1..], candidates, true, append);
      assert items[..0] + candidates == candidates;
    } else {
      assert forall j :: 0 <= j < i ==> items[1..][j] == items[j + 1];
      FirstPlain(template, items[1..], candidates, append, i - 1);
      assert [items[0]] + items[1..][..i - 1] == items[..i] && items[1..][i..] == items[i + 1..];
    }
  }

  /** What Clash pushes when names are kept: the template's items as written, then the candidates. */
  lemma ClashKeeps(matcher: Matcher, context: Context, group: Group)
    requires context.template.preserveNames
    ensures ClashPushed(matcher, context, group) == group.proxies + Candidates(matcher, context, group)
  {
  }

  /** When names are replaced, the candidates stand where the first plain item stood, and at the end if there is none. */
  lemma ClashReplaces(matcher: Matcher, context: Context, group: Group)
    requires !context.template.preserveNames
    ensures (forall i :: 0 <= i < |group.proxies| ==> !IsPlain(context.template, group.proxies[i])) ==>
      ClashPushed(matcher, context, group) == group.proxies + Candidates(matcher, context, group)
    ensures forall i: nat :: IsFirstPlain(context.template, group.proxies, i) ==>
      ClashPushed(matcher, context, group) ==
        group.proxies[..i] + Candidates(matcher, context, group) + NonPlain(context.template, group.proxies[i + 1..])
  {
    hide IsPlain, FilterNames;
    var (template, candidates, append) := (context.template, Candidates(matcher, context, group), ShouldAppend(context.template, group));
    assert !append ==> candidates == [];
    if forall i :: 0 <= i < |group.proxies| ==> !IsPlain(template, group.proxies[i]) {
      NothingPlain(template, group.proxies, candidates, false, append);
    }
    forall i: nat | IsFirstPlain(template, group.proxies, i)
      ensures ClashReplaced(template, group.proxies, candidates, false, append) ==
        group.proxies[..i] + candidates + NonPlain(template, group.proxies[i + 1..])
    {
      FirstPlain(template, group.proxies, candidates, append, i);
    }
  }

  lemma {:induction false} NothingPlainNormalized(template: Template, items: seq<string>, candidates: seq<string>, inserted: bool, append: bool)
    requires inserted || forall i :: 0 <= i < |items| ==> !IsPlain(template, items[i])
    ensures inserted ==> SingboxReplaced(template, items, candidates, inserted, append) == NormalizeAll(NonPlain(template, items))
    ensures !inserted ==> SingboxReplaced(template, items, candidates, inserted, append) == NormalizeAll(items) + (if append then candidates else [])
    decreases |items|
  {
    hide IsBuiltinPolicy, GroupNames, Normalize;
    if items != [] {
      assert forall i :: 0 <= i < |items| - 1 ==> items[1..][i] == items[i + 1];
      NothingPlainNormalized(template, items[1..], candidates, inserted, append);
      var rest := NonPlain(template, items[1..]);
      assert ([items[0]] + rest)[1..] == rest && [] + rest == rest;
    }
  }

  lemma {:induction false} FirstPlainNormalized(template: Template, items: seq<string>, candidates: seq<string>, append: bool, i: nat)
    requires IsFirstPlain(template, items, i)
    ensures SingboxReplaced(template, items, candidates, false, append)
         == NormalizeAll(items[..i]) + candidates + NormalizeAll(NonPlain(template, items[i + 1..]))
    decreases i
  {
    hide IsBuiltinPolicy, GroupNames, Normalize;
    if i == 0 {
      NothingPlainNormalized(template, items[1..], candidates, true, append);
      assert NormalizeAll(items[..0]) + candidates == candidates;
    } else {
      assert forall j :: 0 <= j < i ==> items[1..][j] == items[j + 1];
      FirstPlainNormalized(template, items[1..], candidates, append, i - 1);
      assert items[..i][0] == items[0] && items[..i][1..] == items[1..][..i - 1] && items[1..][i..] == items[i + 1..];
    }
  }

  lemma {:induction false} NormalizedOneByOne(names: seq<string>)
    ensures |NormalizeAll(names)| == |names| && forall i :: 0 <= i < |names| ==> NormalizeAll(names)[i] == Normalize(names[i])
    decreases |names|
  {
    hide Normalize;
    if names != [] {
      NormalizedOneByOne(names[1..]);
    }
  }

  /** What sing-box pushes when names are kept: the template's items normalized, then the candidates as they are. */
  lemma SingboxKeeps(matcher: Matcher, context: Context, group: Group)
    requires context.template.preserveNames
    ensures SingboxPushed(matcher, context, group) == NormalizeAll(group.proxies) + Candidates(matcher, context, group)
  {
  }

  /** When names are replaced, the same places as for Clash. */
  lemma SingboxReplaces(matcher: Matcher, context: Context, group: Group)
    requires !context.template.preserveNames
    ensures (forall i :: 0 <= i < |group.proxies| ==> !IsPlain(context.template, group.proxies[i])) ==>
      SingboxPushed(matcher, context, group) == NormalizeAll(group.proxies) + Candidates(matcher, context, group)
    ensures forall i: nat :: IsFirstPlain(context.template, group.proxies, i) ==>
      SingboxPushed(matcher, context, group) == NormalizeAll(group.proxies[..i]) + Candidates(matcher, context, group)
                                              + NormalizeAll(NonPlain(context.template, group.proxies[i + 1..]))
  {
    hide IsPlain, FilterNames;
    var (template, candidates, append) := (context.template, Candidates(matcher, context, group), ShouldAppend(context.template, group));
    assert !append ==> candidates == [];
    if forall i :: 0 <= i < |group.proxies| ==> !IsPlain(template, group.proxies[i]) {
      NothingPlainNormalized(template, group.proxies, candidates, false, append);
    }
    forall i: nat | IsFirstPlain(template, group.proxies, i)
      ensures SingboxReplaced(template, group.proxies, candidates, false, append) ==
        NormalizeAll(group.proxies[..i]) + candidates + NormalizeAll(NonPlain(template, group.proxies[i + 1..]))
    {
      FirstPlainNormalized(template, group.proxies, candidates, append, i);
    }
  }

  /** sing-box's names for the policies, in any case and with surrounding white space; nothing else is renamed. */
  lemma PolicyTable(name: string)
    ensures var policy := ToUpper(Trim(name));
      && (policy in ["DIRECT", "PASS", "COMPATIBLE"] ==> Normalize(name) == "direct")
      && (policy in ["REJECT", "REJECT-DROP"] ==> Normalize(name) == "block")
      && (policy !in ["DIRECT", "PASS", "COMPATIBLE", "REJECT", "REJECT-DROP"] ==> Normalize(name) == name)
      && (IsBuiltinPolicy(name) <==> policy in ["DIRECT", "PASS", "COMPATIBLE", "REJECT", "REJECT-DROP"])
  {
    hide Trim, ToUpper;
  }

  // ---------------------------------------------------------------- both expansions agree

  lemma UpperCaseTargets()
    ensures ToUpper("direct") == "DIRECT" && ToUpper("block") == "BLOCK"
  {
  }

  lemma TrimmedTargets()
    ensures Trim("direct") == "direct" && Trim("block") == "block"
  {
    TrimVisible("direct");
    TrimVisible("block");
    hide Trim;
  }

  lemma BuiltinNames()
    ensures Normalize("direct") == "direct" && Normalize("block") == "block"
    ensures IsBuiltinPolicy("direct") && !IsBuiltinPolicy("block")
  {
    hide *;
    TrimmedTargets();
    UpperCaseTargets();
    PolicyTable("direct");
    PolicyTable("block");
  }

  lemma NormalizeCases(name: string)
    ensures IsBuiltinPolicy(name) ==> Normalize(name) == "direct" || Normalize(name) == "block"
    ensures !IsBuiltinPolicy(name) ==> Normalize(name) == name
  {
    hide Trim, ToUpper;
  }

  lemma NormalizeIdempotent(name: string)
    ensures Normalize(Normalize(name)) == Normalize(name)
  {
    hide Normalize, IsBuiltinPolicy;
    NormalizeCases(name);
    BuiltinNames();
  }

  lemma {:induction false} NormalizeAllMembers(names: seq<string>, name: string)
    ensures name in NormalizeAll(names) <==> exists n :: n in names && Normalize(n) == name
    decreases |names|
  {
    hide Normalize;
    if names != [] {
      NormalizeAllMembers(names[1..], name);
    }
  }

  lemma {:induction false} NormalizeAllConcat(a: seq<string>, b: seq<string>)
    ensures NormalizeAll(a + b) == NormalizeAll(a) + NormalizeAll(b)
    decreases |a|
  {
    if a == [] {
      assert a + b == b;
    } else {
      assert (a + b)[0] == a[0] && (a + b)[1..] == a[1..] + b;
      NormalizeAllConcat(a[1..], b);
    }
  }

  predicate FixedPoints(names: seq<string>) {
    forall i :: 0 <= i < |names| ==> Normalize(names[i]) == names[i]
  }

  lemma {:induction false} NormalizeFixed(names: seq<string>)
    requires FixedPoints(names)
    ensures NormalizeAll(names) == names
    decreases |names|
  {
    hide Normalize;
    if names != [] {
      assert forall i :: 0 <= i < |names| - 1 ==> names[1..][i] == names[i + 1];
      NormalizeFixed(names[1..]);
    }
  }

  /** Dropping duplicates before or after normalizing gives the same list. */
  lemma {:induction false} DedupeNormalized(names: seq<string>)
    ensures Dedupe(NormalizeAll(Dedupe(names))) == Dedupe(NormalizeAll(names))
    decreases |names|
  {
    hide Normalize;
    if names != [] {
      var (init, x) := (names[..|names| - 1], names[|names| - 1]);
      assert names == init + [x];
      DedupeNormalized(init);
      PushAllSnoc([], init, x);
      NormalizeAllSnoc(init, x);
      PushAllSnoc([], NormalizeAll(init), Normalize(x));
      PushAllMembers([], init, x);
      if x in init {
        NormalizeAllMembers(init, Normalize(x));
        PushAllMembers([], NormalizeAll(init), Normalize(x));
      } else {
        NormalizeAllSnoc(Dedupe(init), x);
        PushAllSnoc([], NormalizeAll(Dedupe(init)), Normalize(x));
      }
    }
  }

  lemma {:induction false} ReplacedNormalized(template: Template, items: seq<string>, candidates: seq<string>, inserted: bool, append: bool)
    requires FixedPoints(candidates)
    ensures SingboxReplaced(template, items, candidates, inserted, append)
         == NormalizeAll(ClashReplaced(template, items, candidates, inserted, append))
    decreases |items|
  {
    hide Normalize, IsBuiltinPolicy, GroupNames, FixedPoints;
    NormalizeFixed(candidates);
    if items != [] {
      var plain := !(items[0] in GroupNames(template) || IsBuiltinPolicy(items[0]));
      var rest := ClashReplaced(template, items[1..], candidates, inserted || plain, append);
      ReplacedNormalized(template, items[1..], candidates, inserted || plain, append);
      if !plain {
        NormalizeAllConcat([items[0]], rest);
      } else {
        NormalizeAllConcat(candidates, rest);
        assert [] + rest == rest;
      }
    }
  }

  lemma PushedNormalized(matcher: Matcher, context: Context, group: Group)
    requires FixedPoints(Candidates(matcher, context, group))
    ensures SingboxPushed(matcher, context, group) == NormalizeAll(ClashPushed(matcher, context, group))
  {
    hide Normalize, Candidates, ShouldAppend, FixedPoints;
    var candidates := Candidates(matcher, context, group);
    if context.template.preserveNames {
      NormalizeFixed(candidates);
      NormalizeAllConcat(group.proxies, if ShouldAppend(context.template, group) then candidates else []);
    } else {
      ReplacedNormalized(context.template, group.proxies, candidates, false, ShouldAppend(context.template, group));
    }
  }

  lemma {:induction false} ReplacedHoldsCandidates(template: Template, items: seq<string>, candidates: seq<string>, append: bool, c: string)
    requires c in candidates
    requires append || exists i :: 0 <= i < |items| && IsPlain(template, items[i])
    ensures c in SingboxReplaced(template, items, candidates, false, append)
    decreases |items|
  {
    hide IsBuiltinPolicy, GroupNames, Normalize;
    if items != [] && !IsPlain(template, items[0]) {
      if !append {
        var i :| 0 <= i < |items| && IsPlain(template, items[i]);
        assert items[1..][i - 1] == items[i];
      }
      ReplacedHoldsCandidates(template, items[1..], candidates, append, c);
    }
  }

  /** Every candidate becomes a target, in either mode. */
  lemma CandidatesPushed(matcher: Matcher, context: Context, group: Group, c: string)
    requires c in Candidates(matcher, context, group)
    ensures c in SingboxPushed(matcher, context, group)
  {
    hide IsPlain;
    assert ShouldAppend(context.template, group);
    if !context.template.preserveNames {
      ReplacedHoldsCandidates(context.template, group.proxies, Candidates(matcher, context, group),
                              ShouldAppend(context.template, group), c);
    }
  }

  /**
   The two expansions of a template group agree (the sing-box targets are the Clash proxies,
   normalized and without duplicates) exactly when every candidate node name is a fixed point
   of policy normalization.
   */
  lemma ExpansionsAgreeExactly(matcher: Matcher, context: Context, group: Group)
    ensures SingboxTargets(matcher, context, group) == Dedupe(NormalizeAll(ClashProxies(matcher, context, group)))
       <==> FixedPoints(Candidates(matcher, context, group))
  {
    hide Normalize, Candidates, ClashPushed, SingboxPushed;
    var candidates := Candidates(matcher, context, group);
    var (clash, singbox) := (ClashPushed(matcher, context, group), SingboxPushed(matcher, context, group));
    DedupeNormalized(clash);
    if FixedPoints(candidates) {
      PushedNormalized(matcher, context, group);
    } else {
      var i :| 0 <= i < |candidates| && Normalize(candidates[i]) != candidates[i];
      var c := candidates[i];
      CandidatesPushed(matcher, context, group, c);
      PushAllMembers([], singbox, c);
      PushAllMembers([], NormalizeAll(clash), c);
      NormalizeAllMembers(clash, c);
      forall n | Normalize(n) == c ensures false {
        NormalizeIdempotent(n);
      }
    }
  }

  const REJECT_GROUP := Group("Proxy", ["old node"], false, None, None)

  /** A node named "reject" is such a node: Clash's proxy normalizes to "block", sing-box's target does not. */
  lemma RejectNodeDisagrees(matcher: Matcher)
    ensures var context := Context(Template([REJECT_GROUP], true), ["reject"], ["reject"]);
      SingboxTargets(matcher, context, REJECT_GROUP) != Dedupe(NormalizeAll(ClashProxies(matcher, context, REJECT_GROUP)))
  {
    var context := Context(Template([REJECT_GROUP], true), ["reject"], ["reject"]);
    OldNodeIsPlain();
    assert REJECT_GROUP.proxies[0] == "old node" && HasPlainSlot(context.template, REJECT_GROUP);
    assert FilterNames(matcher, ["reject"], REJECT_GROUP) == ["reject"] by {
      assert ["reject"][1..] == [];
      assert FilterNames(matcher, [], REJECT_GROUP) == [];
    }
    RejectIsNormalized();
    hide Normalize, HasPlainSlot, FilterNames;
    assert !FixedPoints(Candidates(matcher, context, REJECT_GROUP));
    ExpansionsAgreeExactly(matcher, context, REJECT_GROUP);
  }

  lemma RejectIsNormalized()
    ensures Normalize("reject") == "block"
  {
    TrimVisible("reject");
    hide Trim;
    assert ToUpper("reject") == "REJECT";
  }

  lemma OldNodeIsPlain()
    ensures IsPlain(Template([REJECT_GROUP], true), "old node")
  {
    TrimVisible("old node");
    hide Trim;
    assert ToUpper("old node") == "OLD NODE";
    assert forall g :: g in [REJECT_GROUP] ==> g.name == "Proxy";
  }
}
