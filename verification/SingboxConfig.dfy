/** The sing-box configuration: builtin outbounds, groups and nodes, and whether every reference is defined. */
module SingboxConfig {
  import opened Text
  import opened TemplateGroups

  datatype Outbound = GroupOutbound(tag: string, targets: seq<string>) | PlainOutbound(tag: string)

  predicate Mentions(groups: seq<Outbound>, name: string) {
    exists i :: 0 <= i < |groups| && groups[i].GroupOutbound? && name in groups[i].targets
  }

  /** The builtins that some group refers to. */
  function Builtins(groups: seq<Outbound>): seq<Outbound> {
    (if Mentions(groups, "direct") then [PlainOutbound("direct")] else [])
    + (if Mentions(groups, "block") then [PlainOutbound("block")] else [])
  }

  /** `build_builtin_outbounds` */
  method BuildBuiltins(groups: seq<Outbound>) returns (builtins: seq<Outbound>)
    ensures builtins == Builtins(groups)
  {
    var needDirect, needBlock := false, false;
    for i := 0 to |groups|
      invariant needDirect <==> Mentions(groups[..i], "direct")
      invariant needBlock <==> Mentions(groups[..i], "block")
    {
      MentionsSnoc(groups[..i], groups[i], "direct");
      MentionsSnoc(groups[..i], groups[i], "block");
      assert groups[..i + 1] == groups[..i] + [groups[i]];
      if groups[i].PlainOutbound? {
        continue;
      }
      var targets := groups[i].targets;
      ghost var (direct, block) := (needDirect, needBlock);
      for j := 0 to |targets|
        invariant needDirect <==> direct || "direct" in targets[..j]
        invariant needBlock <==> block || "block" in targets[..j]
      {
        assert targets[..j + 1] == targets[..j] + [targets[j]];
        if targets[j] == "direct" {
          needDirect := true;
        } else if targets[j] == "block" {
          needBlock := true;
        }
      }
      assert targets[..|targets|] == targets;
    }
    assert groups[..|groups|] == groups;
    builtins := [];
    if needDirect {
      builtins := builtins + [PlainOutbound("direct")];
    }
    if needBlock {
      builtins := builtins + [PlainOutbound("block")];
    }
  }

  lemma MentionsSnoc(groups: seq<Outbound>, last: Outbound, name: string)
    ensures Mentions(groups + [last], name) <==> Mentions(groups, name) || (last.GroupOutbound? && name in last.targets)
  {
    var all := groups + [last];
    if Mentions(groups, name) {
      var i :| 0 <= i < |groups| && groups[i].GroupOutbound? && name in groups[i].targets;
      assert all[i] == groups[i];
    }
    assert all[|groups|] == last;
  }

  function DefaultGroups(tags: seq<string>): seq<Outbound> {
    [GroupOutbound("select", PushAll(["auto"], tags)), GroupOutbound("auto", tags)]
  }

  function GroupOutbounds(matcher: Matcher, context: Context, groups: seq<Group>): seq<Outbound> {
    if groups == [] then []
    else [GroupOutbound(groups[0].name, SingboxTargets(matcher, context, groups[0]))] + GroupOutbounds(matcher, context, groups[1..])
  }

  /** `build_template_groups`: a template without groups falls back to the default ones. */
  function TemplateOutbounds(matcher: Matcher, context: Context): seq<Outbound> {
    if context.template.groups == [] then DefaultGroups(context.nodes)
    else GroupOutbounds(matcher, context, context.template.groups)
  }

  function NodeOutbounds(tags: seq<string>): seq<Outbound> {
    seq(|tags|, i requires 0 <= i < |tags| => PlainOutbound(tags[i]))
  }

  function Assemble(groups: seq<Outbound>, tags: seq<string>): seq<Outbound> {
    Builtins(groups) + groups + NodeOutbounds(tags)
  }

  /** A node of the profile: its name, and whether an outbound can be built from it. */
  datatype ProfileNode = ProfileNode(name: string, convertible: bool)

  function NodeNames(nodes: seq<ProfileNode>): (tags: seq<string>)
    ensures |tags| == |nodes| && forall i :: 0 <= i < |nodes| ==> tags[i] == nodes[i].name
  {
    seq(|nodes|, i requires 0 <= i < |nodes| => nodes[i].name)
  }

  /**
   `transform_with_template_context`, up to serialization: an error exactly when some node cannot
   be converted. `template` is None for the configuration without a template.
   */
  method Transform(matcher: Matcher, nodes: seq<ProfileNode>, template: Option<(Template, seq<string>)>) returns (r: Option<seq<Outbound>>)
    ensures r.None? <==> exists i :: 0 <= i < |nodes| && !nodes[i].convertible
    ensures r.Some? ==> r.value == Assemble(
      if template.Some? then TemplateOutbounds(matcher, Context(template.value.0, NodeNames(nodes), template.value.1))
      else DefaultGroups(NodeNames(nodes)), NodeNames(nodes))
  {
    hide Builtins, SingboxTargets;
    var tags: seq<string> := [];
    for i := 0 to |nodes|
      invariant tags == NodeNames(nodes)[..i]
      invariant forall j :: 0 <= j < i ==> nodes[j].convertible
    {
      tags := tags + [nodes[i].name];
      if !nodes[i].convertible {
        return None;
      }
    }
    assert tags == NodeNames(nodes);
    var groups := DefaultGroups(tags);
    if template.Some? && template.value.0.groups != [] {
      groups := BuildTemplateGroups(matcher, Context(template.value.0, tags, template.value.1));
    }
    var builtins := BuildBuiltins(groups);
    r := Some(builtins + groups + NodeOutbounds(tags));
  }

  /** The loop of `build_template_groups` */
  method BuildTemplateGroups(matcher: Matcher, context: Context) returns (groups: seq<Outbound>)
    ensures groups == GroupOutbounds(matcher, context, context.template.groups)
  {
    hide SingboxTargets;
    var templateGroups := context.template.groups;
    groups := [];
    for i := 0 to |templateGroups|
      invariant groups + GroupOutbounds(matcher, context, templateGroups[i..]) == GroupOutbounds(matcher, context, templateGroups)
    {
      var targets := BuildTargets(matcher, context, templateGroups[i]);
      assert templateGroups[i..][0] == templateGroups[i] && templateGroups[i..][1..] == templateGroups[i + 1..];
      groups := groups + [GroupOutbound(templateGroups[i].name, targets)];
    }
    assert groups + [] == groups;
  }

  // ---------------------------------------------------------------- every reference is defined

  predicate IsTag(outbounds: seq<Outbound>, tag: string) {
    exists i :: 0 <= i < |outbounds| && outbounds[i].tag == tag
  }

  predicate Closed(outbounds: seq<Outbound>) {
    forall i, t :: 0 <= i < |outbounds| && outbounds[i].GroupOutbound? && t in outbounds[i].targets ==> IsTag(outbounds, t)
  }

  lemma IsTagConcat(a: seq<Outbound>, b: seq<Outbound>, tag: string)
    ensures IsTag(a + b, tag) <==> IsTag(a, tag) || IsTag(b, tag)
  {
    var all := a + b;
    if IsTag(a, tag) {
      var i :| 0 <= i < |a| && a[i].tag == tag;
      assert all[i] == a[i];
    }
    if IsTag(b, tag) {
      var i :| 0 <= i < |b| && b[i].tag == tag;
      assert all[|a| + i] == b[i];
    }
  }

  lemma NodeTags(tags: seq<string>, tag: string)
    ensures IsTag(NodeOutbounds(tags), tag) <==> tag in tags
  {
    var nodes := NodeOutbounds(tags);
    if tag in tags {
      var i :| 0 <= i < |tags| && tags[i] == tag;
      assert nodes[i].tag == tag;
    }
  }

  lemma BuiltinTags(groups: seq<Outbound>, tag: string)
    ensures IsTag(Builtins(groups), tag) <==> (tag == "direct" || tag == "block") && Mentions(groups, tag)
  {
    var (d, b) := (if Mentions(groups, "direct") then [PlainOutbound("direct")] else [],
                   if Mentions(groups, "block") then [PlainOutbound("block")] else []);
    IsTagConcat(d, b, tag);
    assert Mentions(groups, "direct") ==> d[0].tag == "direct";
    assert Mentions(groups, "block") ==> b[0].tag == "block";
  }

  /** A builtin target, a group or a node. */
  predicate IsDefined(groups: seq<Outbound>, tags: seq<string>, tag: string) {
    tag == "direct" || tag == "block" || IsTag(groups, tag) || tag in tags
  }

  /** In an assembled configuration a mentioned name is defined if it is a builtin target, a group or a node. */
  lemma DefinedExactly(groups: seq<Outbound>, tags: seq<string>, tag: string)
    requires Mentions(groups, tag)
    ensures IsTag(Assemble(groups, tags), tag) <==> IsDefined(groups, tags, tag)
  {
    hide IsTag, Mentions;
    IsTagConcat(Builtins(groups) + groups, NodeOutbounds(tags), tag);
    IsTagConcat(Builtins(groups), groups, tag);
    NodeTags(tags, tag);
    BuiltinTags(groups, tag);
  }

  predicate AllGroups(groups: seq<Outbound>) {
    forall i :: 0 <= i < |groups| ==> groups[i].GroupOutbound?
  }

  ghost predicate AllDefined(groups: seq<Outbound>, tags: seq<string>) {
    forall t :: Mentions(groups, t) ==> IsDefined(groups, tags, t)
  }

  lemma ClosedMeansDefined(groups: seq<Outbound>, tags: seq<string>)
    requires AllGroups(groups)
    ensures Closed(Assemble(groups, tags)) <==> AllDefined(groups, tags)
  {
    hide IsTag;
    var all := Assemble(groups, tags);
    var offset := |Builtins(groups)|;
    assert forall i :: 0 <= i < |groups| ==> all[offset + i] == groups[i];
    assert forall i :: 0 <= i < |all| && all[i].GroupOutbound? ==> offset <= i < offset + |groups| && all[i] == groups[i - offset];
    forall t | Mentions(groups, t) ensures IsTag(all, t) <==> IsDefined(groups, tags, t) {
      DefinedExactly(groups, tags, t);
    }
    if Closed(all) {
      forall t | Mentions(groups, t) ensures IsDefined(groups, tags, t) {
        var i :| 0 <= i < |groups| && t in groups[i].targets;
        assert t in all[offset + i].targets;
      }
    }
    if AllDefined(groups, tags) {
      forall i, t | 0 <= i < |all| && all[i].GroupOutbound? && t in all[i].targets ensures IsTag(all, t) {
        assert t in groups[i - offset].targets;
      }
    }
  }

  /** Without a template the configuration is always closed. */
  lemma DefaultIsClosed(tags: seq<string>)
    ensures Closed(Assemble(DefaultGroups(tags), tags))
  {
    hide Closed, Assemble;
    var groups := DefaultGroups(tags);
    ClosedMeansDefined(groups, tags);
    assert groups[1].tag == "auto";
    forall t | Mentions(groups, t) ensures IsDefined(groups, tags, t) {
      PushAllMembers(["auto"], tags, t);
    }
  }

  // ---------------------------------------------------------------- templates

  lemma {:induction false} NormalizedMembers(items: seq<string>, t: string)
    ensures t in NormalizeAll(items) <==> exists i :: 0 <= i < |items| && Normalize(items[i]) == t
    decreases |items|
  {
    hide Normalize;
    if items != [] {
      var rest := items[1..];
      NormalizedMembers(rest, t);
      assert forall i :: 0 <= i < |rest| ==> rest[i] == items[i + 1];
      if exists i :: 0 <= i < |items| && Normalize(items[i]) == t {
        var i :| 0 <= i < |items| && Normalize(items[i]) == t;
        assert i > 0 ==> rest[i - 1] == items[i];
      }
    }
  }

  lemma {:induction false} ReplacedMembers(template: Template, items: seq<string>, candidates: seq<string>, inserted: bool, append: bool, t: string)
    requires t in SingboxReplaced(template, items, candidates, inserted, append)
    ensures t in candidates || exists i :: 0 <= i < |items| && !IsPlain(template, items[i]) && Normalize(items[i]) == t
    decreases |items|
  {
    hide Normalize, IsBuiltinPolicy, GroupNames;
    if items != [] {
      var plain := IsPlain(template, items[0]);
      var rest := SingboxReplaced(template, items[1..], candidates, inserted || plain, append);
      if t in rest {
        ReplacedMembers(template, items[1..], candidates, inserted || plain, append, t);
        if t !in candidates {
          var i :| 0 <= i < |items| - 1 && !IsPlain(template, items[1..][i]) && Normalize(items[1..][i]) == t;
          assert items[i + 1] == items[1..][i];
        }
      }
    }
  }

  /** Where a target comes from: a candidate, or a written item (a non-plain one when replacing). */
  lemma TargetOrigin(matcher: Matcher, context: Context, group: Group, t: string)
    requires t in SingboxTargets(matcher, context, group)
    ensures t in Candidates(matcher, context, group)
         || exists i :: 0 <= i < |group.proxies| && Normalize(group.proxies[i]) == t
              && (context.template.preserveNames || !IsPlain(context.template, group.proxies[i]))
  {
    hide Normalize, IsPlain, Candidates, ShouldAppend;
    PushAllMembers([], SingboxPushed(matcher, context, group), t);
    if context.template.preserveNames {
      NormalizedMembers(group.proxies, t);
    } else {
      ReplacedMembers(context.template, group.proxies, Candidates(matcher, context, group), false,
                      ShouldAppend(context.template, group), t);
    }
  }

  lemma {:induction false} GroupOutboundAt(matcher: Matcher, context: Context, groups: seq<Group>, i: nat)
    requires i < |groups|
    ensures |GroupOutbounds(matcher, context, groups)| == |groups|
    ensures GroupOutbounds(matcher, context, groups)[i] == GroupOutbound(groups[i].name, SingboxTargets(matcher, context, groups[i]))
    decreases |groups|
  {
    hide SingboxTargets;
    if i > 0 {
      GroupOutboundAt(matcher, context, groups[1..], i - 1);
    } else if |groups| > 1 {
      GroupOutboundAt(matcher, context, groups[1..], 0);
    }
  }

  /** Names that the nodes a template is filled from share with the final nodes. */
  predicate AppendedAreFinal(context: Context) {
    forall i :: 0 <= i < |context.appended| ==> context.appended[i] in context.nodes
  }

  /** Every plain item of the template names a final node, or is the literal "block". */
  predicate PlainItemsResolve(context: Context) {
    forall g, i :: 0 <= g < |context.template.groups| && 0 <= i < |context.template.groups[g].proxies|
      && IsPlain(context.template, context.template.groups[g].proxies[i])
      ==> context.template.groups[g].proxies[i] in context.nodes || context.template.groups[g].proxies[i] == "block"
  }

  lemma GroupNameIsTag(matcher: Matcher, context: Context, name: string)
    ensures IsTag(GroupOutbounds(matcher, context, context.template.groups), name) <==> name in GroupNames(context.template)
  {
    hide SingboxTargets;
    var groups := context.template.groups;
    var outbounds := GroupOutbounds(matcher, context, groups);
    forall i | 0 <= i < |groups| ensures |outbounds| == |groups| && outbounds[i].tag == groups[i].name {
      GroupOutboundAt(matcher, context, groups, i);
    }
    if name in GroupNames(context.template) {
      var i :| 0 <= i < |groups| && groups[i].name == name;
      assert outbounds[i].tag == name;
    }
  }

  lemma NonPlainDefined(matcher: Matcher, context: Context, item: string)
    requires !IsPlain(context.template, item)
    ensures IsDefined(GroupOutbounds(matcher, context, context.template.groups), context.nodes, Normalize(item))
  {
    hide Normalize, IsTag, IsBuiltinPolicy;
    NormalizeCases(item);
    GroupNameIsTag(matcher, context, item);
  }

  lemma TargetDefined(matcher: Matcher, context: Context, group: Group, t: string)
    requires AppendedAreFinal(context) && group in context.template.groups
    requires !context.template.preserveNames || PlainItemsResolve(context)
    requires t in SingboxTargets(matcher, context, group)
    ensures IsDefined(GroupOutbounds(matcher, context, context.template.groups), context.nodes, t)
  {
    hide Normalize, IsPlain, IsTag, SingboxTargets, HasPlainSlot, PopulatesAll, FilterNames;
    TargetOrigin(matcher, context, group, t);
    if t in Candidates(matcher, context, group) {
      assert t in context.nodes;
    } else {
      var i :| 0 <= i < |group.proxies| && Normalize(group.proxies[i]) == t
        && (context.template.preserveNames || !IsPlain(context.template, group.proxies[i]));
      if IsPlain(context.template, group.proxies[i]) {
        PlainKeepsName(context.template, group.proxies[i]);
        var g :| 0 <= g < |context.template.groups| && context.template.groups[g] == group;
      } else {
        NonPlainDefined(matcher, context, group.proxies[i]);
      }
    }
  }

  lemma PlainKeepsName(template: Template, item: string)
    requires IsPlain(template, item)
    ensures Normalize(item) == item && item != "direct" && item !in GroupNames(template)
  {
    NormalizeCases(item);
    BuiltinNames();
  }

  lemma PlainItemMentioned(matcher: Matcher, context: Context, g: nat, i: nat)
    requires g < |context.template.groups| && i < |context.template.groups[g].proxies| && context.template.preserveNames
    requires IsPlain(context.template, context.template.groups[g].proxies[i])
    ensures Mentions(GroupOutbounds(matcher, context, context.template.groups), context.template.groups[g].proxies[i])
  {
    hide Normalize, IsPlain, Candidates, ShouldAppend;
    var group := context.template.groups[g];
    var item := group.proxies[i];
    PlainKeepsName(context.template, item);
    NormalizedMembers(group.proxies, item);
    PushAllMembers([], SingboxPushed(matcher, context, group), item);
    GroupOutboundAt(matcher, context, context.template.groups, g);
    assert item in GroupOutbounds(matcher, context, context.template.groups)[g].targets;
  }

  lemma AllDefinedExactly(matcher: Matcher, context: Context)
    requires AppendedAreFinal(context)
    ensures AllDefined(GroupOutbounds(matcher, context, context.template.groups), context.nodes)
       <==> !context.template.preserveNames || PlainItemsResolve(context)
  {
    hide Normalize, IsPlain, SingboxTargets, IsTag;
    var groups := context.template.groups;
    var outbounds := GroupOutbounds(matcher, context, groups);
    if !context.template.preserveNames || PlainItemsResolve(context) {
      forall t | Mentions(outbounds, t) ensures IsDefined(outbounds, context.nodes, t) {
        var k :| 0 <= k < |outbounds| && outbounds[k].GroupOutbound? && t in outbounds[k].targets;
        if groups != [] {
          GroupOutboundAt(matcher, context, groups, 0);
          GroupOutboundAt(matcher, context, groups, k);
          TargetDefined(matcher, context, groups[k], t);
        }
      }
    } else {
      var g, i :| 0 <= g < |groups| && 0 <= i < |groups[g].proxies| && IsPlain(context.template, groups[g].proxies[i])
        && groups[g].proxies[i] !in context.nodes && groups[g].proxies[i] != "block";
      PlainItemMentioned(matcher, context, g, i);
      PlainKeepsName(context.template, groups[g].proxies[i]);
      GroupNameIsTag(matcher, context, groups[g].proxies[i]);
    }
  }

  /**
   Reference closure: when the appended nodes are among the final ones, every target of every
   group is defined exactly when names are replaced, or every plain template item is a final
   node (or the literal "block").
   */
  lemma TemplateIsClosedExactly(matcher: Matcher, context: Context)
    requires AppendedAreFinal(context) && context.template.groups != []
    ensures Closed(Assemble(TemplateOutbounds(matcher, context), context.nodes))
       <==> !context.template.preserveNames || PlainItemsResolve(context)
  {
    hide Closed, Assemble, AllDefined, SingboxTargets, PlainItemsResolve, AppendedAreFinal;
    var outbounds := GroupOutbounds(matcher, context, context.template.groups);
    forall i | 0 <= i < |context.template.groups| ensures |outbounds| == |context.template.groups| && outbounds[i].GroupOutbound? {
      GroupOutboundAt(matcher, context, context.template.groups, i);
    }
    assert |outbounds| == |context.template.groups| by {
      GroupOutboundAt(matcher, context, context.template.groups, 0);
    }
    ClosedMeansDefined(outbounds, context.nodes);
    AllDefinedExactly(matcher, context);
  }

  // ---------------------------------------------------------------- what the configuration holds

  /** Two default groups: one to select from, with the other and every node once, and one with the nodes as they are. */
  lemma DefaultGroupsExactly(tags: seq<string>)
    ensures DefaultGroups(tags) == [GroupOutbound("select", Dedupe(["auto"] + tags)), GroupOutbound("auto", tags)]
    ensures forall t :: t in Dedupe(["auto"] + tags) <==> t == "auto" || t in tags
    ensures Distinct(Dedupe(["auto"] + tags))
  {
    PushAllConcat([], ["auto"], tags);
    PushAllSnoc([], [], "auto");
    assert [] + ["auto"] == ["auto"];
    forall t ensures t in Dedupe(["auto"] + tags) <==> t == "auto" || t in tags {
      PushAllMembers([], ["auto"] + tags, t);
    }
    PushAllDistinct([], ["auto"] + tags);
    hide PushAll, Distinct;
  }

  lemma BuiltinsExactly(groups: seq<Outbound>)
    ensures var (builtins, first) := (Builtins(groups), if Mentions(groups, "direct") then 1 else 0);
      && |builtins| == first + (if Mentions(groups, "block") then 1 else 0)
      && (Mentions(groups, "direct") ==> builtins[0] == PlainOutbound("direct"))
      && (Mentions(groups, "block") ==> builtins[first] == PlainOutbound("block"))
  {
    hide Mentions;
  }

  /** The groups and nodes end the list, in order; before them stand the mentioned ones of "direct" and "block". */
  lemma AssembledExactly(groups: seq<Outbound>, tags: seq<string>)
    ensures var all := Assemble(groups, tags);
      var start := |all| - |groups| - |tags|;
      && start == (if Mentions(groups, "direct") then 1 else 0) + (if Mentions(groups, "block") then 1 else 0)
      && (Mentions(groups, "direct") ==> all[0] == PlainOutbound("direct"))
      && (Mentions(groups, "block") ==> all[start - 1] == PlainOutbound("block"))
      && all[start..start + |groups|] == groups
      && forall i :: 0 <= i < |tags| ==> all[start + |groups| + i] == PlainOutbound(tags[i])
  {
    BuiltinsExactly(groups);
    hide Mentions, Builtins;
    var (builtins, nodes) := (Builtins(groups), NodeOutbounds(tags));
    var all := builtins + groups + nodes;
    assert all[|builtins|..|builtins| + |groups|] == groups;
    assert forall i :: 0 <= i < |tags| ==> all[|builtins| + |groups| + i] == nodes[i];
  }

  /** Each template group makes one outbound of its name, with the pushed names once each; without groups there are the default ones. */
  lemma TemplateOutboundsExactly(matcher: Matcher, context: Context)
    ensures var (groups, outbounds) := (context.template.groups, TemplateOutbounds(matcher, context));
      && (groups == [] ==> outbounds == DefaultGroups(context.nodes))
      && (groups != [] ==> |outbounds| == |groups| && forall i :: 0 <= i < |groups| ==>
           outbounds[i] == GroupOutbound(groups[i].name, Dedupe(SingboxPushed(matcher, context, groups[i]))))
  {
    hide DefaultGroups, Dedupe, SingboxPushed;
    var groups := context.template.groups;
    forall i | 0 <= i < |groups| ensures |GroupOutbounds(matcher, context, groups)| == |groups|
        && GroupOutbounds(matcher, context, groups)[i] == GroupOutbound(groups[i].name, Dedupe(SingboxPushed(matcher, context, groups[i])))
    {
      GroupOutboundAt(matcher, context, groups, i);
    }
  }
}
