/**
 The loops around the publish protocol: reading a node's copies of a template, picking the
 stale ones, and the read side that groups every node's copies into built templates.
 */
module TemplateHolders {
  import opened Common
  import opened TemplatePublish
  import opened Ordering

  /** One promoted template as a node reports it; a missing stamp reads as Go's zero time. */
  datatype PromotedTemplate = PromotedTemplate(
    key: PoolKey, tenant: string, digest: string, createdAt: Option<int>, labels: map<string, string>)

  datatype NodeListing = NodeListing(node: string, templates: seq<PromotedTemplate>)

  /** A copy as the read surfaces keep it, with the labels that are the template's tags. */
  datatype TaggedHolder = TaggedHolder(holder: Holder, labels: map<string, string>)

  datatype BuiltTemplate = BuiltTemplate(holders: seq<TaggedHolder>, digests: multiset<string>, created: int)

  function CreatedOf(t: PromotedTemplate): (r: int)
    ensures t.createdAt == Some(r) || (t.createdAt.None? && r == 0)
  {
    if t.createdAt.Some? then t.createdAt.value else 0
  }

  function HolderAt(node: string, t: PromotedTemplate): Holder {
    Holder(node, t.key, t.digest, CreatedOf(t))
  }

  /** `n` is a true and complete listing of what its node holds. */
  ghost predicate Lists(held: map<Slot, Generation>, n: NodeListing) {
    && (forall t <- n.templates :: Slot(n.node, t.tenant, t.key) in held &&
          held[Slot(n.node, t.tenant, t.key)] == Generation(t.digest, CreatedOf(t), t.labels))
    && (forall slot <- held :: slot.node == n.node ==>
        exists t :: t in n.templates && t.tenant == slot.tenant && t.key == slot.key)
  }

  /** liveHolders appends one node's operator-owned copies: exactly an answer the protocol's read step takes. */
  method AppendHolders(holders: seq<Holder>, n: NodeListing, template: string) returns (out: seq<Holder>)
    ensures |holders| <= |out| && out[..|holders|] == holders
    ensures forall held :: Lists(held, n) ==> Reports(held, n.node, template, out[|holders|..])
  {
    out := holders;
    for i := 0 to |n.templates|
      invariant |holders| <= |out| && out[..|holders|] == holders
      invariant forall h <- out[|holders|..] :: exists t ::
                t in n.templates[..i] && t.tenant == "" && t.key.template == template && h == HolderAt(n.node, t)
      invariant forall t <- n.templates[..i] :: t.tenant == "" && t.key.template == template ==>
                HolderAt(n.node, t) in out[|holders|..]
    {
      var t := n.templates[i];
      if t.key.template == template && t.tenant == "" {
        assert (out + [HolderAt(n.node, t)])[|holders|..] == out[|holders|..] + [HolderAt(n.node, t)];
        out := out + [HolderAt(n.node, t)];
      }
      assert n.templates[..i + 1] == n.templates[..i] + [t];
    }
    assert n.templates[..|n.templates|] == n.templates;
    forall held | Lists(held, n)
      ensures Reports(held, n.node, template, out[|holders|..])
    {
      AnswerReports(held, n, template, out[|holders|..]);
    }
  }

  lemma AnswerReports(held: map<Slot, Generation>, n: NodeListing, template: string, answer: seq<Holder>)
    requires Lists(held, n)
    requires forall h <- answer :: exists t ::
             t in n.templates && t.tenant == "" && t.key.template == template && h == HolderAt(n.node, t)
    requires forall t <- n.templates :: t.tenant == "" && t.key.template == template ==> HolderAt(n.node, t) in answer
    ensures Reports(held, n.node, template, answer)
  {
  }

  /** publishBuild's choice: find its own copy, check it is still its own, keep only the older holders. */
  method StaleHolders(holders: seq<Holder>, own: Stamp) returns (stale: Option<seq<Holder>>)
    ensures stale.Some? <==> DecidePhase(holders, own).Deleting?
    ensures stale.Some? ==> (set h | h in stale.value) == DecidePhase(holders, own).todo
  {
    var i := 0;
    while i < |holders| && !(holders[i].node == own.slot.node && holders[i].key == own.slot.key)
      invariant 0 <= i <= |holders|
      invariant forall k :: 0 <= k < i ==> !(holders[k].node == own.slot.node && holders[k].key == own.slot.key)
    {
      i := i + 1;
    }
    FirstOwn(holders, own.slot.node, own.slot.key, i);
    if i == |holders| || holders[i].digest != own.digest {
      return None;
    }
    var kept := [];
    for j := 0 to |holders|
      invariant forall h :: h in kept <==> h in holders[..j] && h.created < holders[i].created
    {
      assert holders[..j + 1] == holders[..j] + [holders[j]];
      if holders[j].created < holders[i].created {
        kept := kept + [holders[j]];
      }
    }
    assert holders[..|holders|] == holders;
    return Some(kept);
  }

  lemma {:induction false} FirstOwn(holders: seq<Holder>, node: string, key: PoolKey, i: nat)
    requires i <= |holders|
    requires forall k :: 0 <= k < i ==> !(holders[k].node == node && holders[k].key == key)
    requires i < |holders| ==> holders[i].node == node && holders[i].key == key
    ensures IndexOfOwn(holders, node, key) == if i < |holders| then Some(i) else None
  {
    if i > 0 {
      FirstOwn(holders[1..], node, key, i - 1);
    }
  }

  // ---------------------------------------------------------------- the read side

  predicate Wanted(t: PromotedTemplate, scope: string, only: string) {
    scope <= t.key.template && t.tenant == "" && (only == "" || t.key.template[|scope|..] == only)
  }

  /** The copies of the template named `scope + name` in one node's list, then in all of them, in order. */
  function CopiesOn(node: string, templates: seq<PromotedTemplate>, template: string): (r: seq<TaggedHolder>)
    ensures forall h <- r :: h.holder.key.template == template
  {
    if templates == [] then []
    else
      var t := templates[|templates| - 1];
      CopiesOn(node, templates[..|templates| - 1], template) +
      (if t.tenant == "" && t.key.template == template then [TaggedHolder(HolderAt(node, t), t.labels)] else [])
  }

  function Copies(nodes: seq<NodeListing>, template: string): (r: seq<TaggedHolder>)
    ensures forall h <- r :: h.holder.key.template == template
  {
    if nodes == [] then []
    else
      var n := nodes[|nodes| - 1];
      Copies(nodes[..|nodes| - 1], template) + CopiesOn(n.node, n.templates, template)
  }

  function Stamps(holders: seq<TaggedHolder>): (r: seq<int>)
    ensures |r| == |holders| && forall i :: 0 <= i < |r| ==> r[i] == holders[i].holder.created
  {
    seq(|holders|, i requires 0 <= i < |holders| => holders[i].holder.created)
  }

  function Digests(holders: seq<TaggedHolder>): multiset<string> {
    if holders == [] then multiset{}
    else Digests(holders[..|holders| - 1]) + multiset{holders[|holders| - 1].holder.digest}
  }

  /** Every digest is counted as often as a copy has it. */
  lemma {:induction false} DigestsCount(holders: seq<TaggedHolder>, digests: seq<string>)
    requires |digests| == |holders| && forall i :: 0 <= i < |holders| ==> digests[i] == holders[i].holder.digest
    ensures Digests(holders) == multiset(digests)
  {
    if holders != [] {
      var k := |holders| - 1;
      DigestsCount(holders[..k], digests[..k]);
      assert digests == digests[..k] + [digests[k]];
    }
  }

  /** The record of a template with these copies. */
  function Grouped(holders: seq<TaggedHolder>): BuiltTemplate {
    BuiltTemplate(holders, Digests(holders), Newest(Stamps(holders)))
  }

  lemma GroupedSnoc(holders: seq<TaggedHolder>, h: TaggedHolder)
    ensures Grouped(holders + [h]) == BuiltTemplate(
              holders + [h], Grouped(holders).digests + multiset{h.holder.digest},
              if h.holder.created > Grouped(holders).created then h.holder.created else Grouped(holders).created)
  {
    assert (holders + [h])[..|holders|] == holders;
    assert Stamps(holders + [h]) == Stamps(holders) + [h.holder.created];
    NewestSnoc(Stamps(holders), h.holder.created);
  }

  /** One more copy in the record of `name`, opening the record if this is its first. */
  function AddCopy(out: map<string, BuiltTemplate>, name: string, h: TaggedHolder): map<string, BuiltTemplate> {
    var b := if name in out then out[name] else BuiltTemplate([], multiset{}, 0);
    out[name := BuiltTemplate(b.holders + [h], b.digests + multiset{h.holder.digest},
                              if h.holder.created > b.created then h.holder.created else b.created)]
  }

  /** The copies met after the nodes `seen` and the first templates of one more node. */
  function SoFar(seen: seq<NodeListing>, node: string, templates: seq<PromotedTemplate>,
          template: string): seq<TaggedHolder>
  {
    Copies(seen, template) + CopiesOn(node, templates, template)
  }

  predicate NameOk(out: map<string, BuiltTemplate>, only: string, name: string, copies: seq<TaggedHolder>) {
    && (name in out <==> copies != [] && (only == "" || name == only))
    && (name in out ==> out[name] == Grouped(copies))
  }

  ghost predicate GroupsSoFar(out: map<string, BuiltTemplate>, scope: string, only: string, seen: seq<NodeListing>,
          node: string, templates: seq<PromotedTemplate>)
  {
    forall name: string :: NameOk(out, only, name, SoFar(seen, node, templates, scope + name))
  }

  lemma SoFarStep(seen: seq<NodeListing>, node: string, templates: seq<PromotedTemplate>, t: PromotedTemplate,
          template: string)
    ensures SoFar(seen, node, templates + [t], template) ==
            SoFar(seen, node, templates, template) +
            (if t.tenant == "" && t.key.template == template then [TaggedHolder(HolderAt(node, t), t.labels)] else [])
  {
  }

  lemma AddCopyOk(out: map<string, BuiltTemplate>, only: string, name: string, copies: seq<TaggedHolder>,
          h: TaggedHolder)
    requires NameOk(out, only, name, copies) && (only == "" || name == only)
    ensures NameOk(AddCopy(out, name, h), only, name, copies + [h])
  {
    GroupedSnoc(copies, h);
  }

  lemma GroupStep(out: map<string, BuiltTemplate>, scope: string, only: string, seen: seq<NodeListing>, node: string,
          templates: seq<PromotedTemplate>, t: PromotedTemplate)
    requires GroupsSoFar(out, scope, only, seen, node, templates)
    ensures GroupsSoFar(
              if Wanted(t, scope, only)
              then AddCopy(out, t.key.template[|scope|..], TaggedHolder(HolderAt(node, t), t.labels))
              else out,
              scope, only, seen, node, templates + [t])
  {
    var h := TaggedHolder(HolderAt(node, t), t.labels);
    var out' := if Wanted(t, scope, only) then AddCopy(out, t.key.template[|scope|..], h) else out;
    forall name: string
      ensures NameOk(out', only, name, SoFar(seen, node, templates + [t], scope + name))
    {
      var copies := SoFar(seen, node, templates, scope + name);
      assert NameOk(out, only, name, copies);
      SoFarStep(seen, node, templates, t, scope + name);
      assert copies + [] == copies;
      assert t.key.template == scope + name ==> t.key.template[|scope|..] == name;
      if Wanted(t, scope, only) && t.key.template[|scope|..] == name {
        AddCopyOk(out, only, name, copies, h);
      }
    }
  }

  lemma NodeDone(out: map<string, BuiltTemplate>, scope: string, only: string, seen: seq<NodeListing>, n: NodeListing)
    requires GroupsSoFar(out, scope, only, seen, n.node, n.templates)
    ensures forall node :: GroupsSoFar(out, scope, only, seen + [n], node, [])
  {
    forall node: string, name: string
      ensures NameOk(out, only, name, SoFar(seen + [n], node, [], scope + name))
    {
      assert (seen + [n])[..|seen|] == seen;
      assert NameOk(out, only, name, SoFar(seen, n.node, n.templates, scope + name));
      assert SoFar(seen + [n], node, [], scope + name) == SoFar(seen, n.node, n.templates, scope + name);
    }
  }

  /**
   builtTemplates: every bare name under `scope` with an operator-owned copy, its copies in
   listing order, their digests, and the newest of their stamps and zero.
   */
  method BuiltTemplates(nodes: seq<NodeListing>, scope: string, only: string) returns (out: map<string, BuiltTemplate>)
    ensures forall name: string :: NameOk(out, only, name, Copies(nodes, scope + name))
  {
    out := map[];
    for j := 0 to |nodes|
      invariant forall node :: GroupsSoFar(out, scope, only, nodes[..j], node, [])
    {
      var n := nodes[j];
      assert GroupsSoFar(out, scope, only, nodes[..j], n.node, []);
      assert n.templates[..0] == [];
      for i := 0 to |n.templates|
        invariant GroupsSoFar(out, scope, only, nodes[..j], n.node, n.templates[..i])
      {
        var t := n.templates[i];
        GroupStep(out, scope, only, nodes[..j], n.node, n.templates[..i], t);
        if Wanted(t, scope, only) {
          out := AddCopy(out, t.key.template[|scope|..], TaggedHolder(HolderAt(n.node, t), t.labels));
        }
        assert n.templates[..i + 1] == n.templates[..i] + [t];
      }
      assert n.templates[..|n.templates|] == n.templates;
      NodeDone(out, scope, only, nodes[..j], n);
      assert nodes[..j + 1] == nodes[..j] + [n];
    }
    assert nodes[..|nodes|] == nodes;
    forall name: string
      ensures NameOk(out, only, name, Copies(nodes, scope + name))
    {
      assert GroupsSoFar(out, scope, only, nodes, "", []);
      assert SoFar(nodes, "", [], scope + name) == Copies(nodes, scope + name);
    }
  }

  /** `current` is the first copy whose stamp is the record's; the source indexes with -1 when there is none. */
  function Current(b: BuiltTemplate): (i: Option<nat>)
    ensures i.Some? ==> i.value < |b.holders| && b.holders[i.value].holder.created == b.created
    ensures i.None? ==> forall h <- b.holders :: h.holder.created != b.created
  {
    FirstAt(b.holders, b.created)
  }

  function FirstAt(holders: seq<TaggedHolder>, created: int): (i: Option<nat>)
    ensures i.Some? ==> i.value < |holders| && holders[i.value].holder.created == created
    ensures i.None? ==> forall h <- holders :: h.holder.created != created
  {
    if holders == [] then None
    else if holders[0].holder.created == created then Some(0)
    else match FirstAt(holders[1..], created)
      case None => None
      case Some(i) => Some(i + 1)
  }

  /** `current` is defined exactly when some copy is stamped at or after Go's zero time, and then none is newer. */
  lemma CurrentIsNewest(holders: seq<TaggedHolder>)
    ensures Current(Grouped(holders)).Some? <==> exists h :: h in holders && h.holder.created >= 0
    ensures Current(Grouped(holders)).Some? ==>
              forall h <- holders :: h.holder.created <= holders[Current(Grouped(holders)).value].holder.created
  {
    var b, stamps := Grouped(holders), Stamps(holders);
    forall h <- holders
      ensures h.holder.created in stamps
    {
      var k :| 0 <= k < |holders| && holders[k] == h;
      assert stamps[k] == h.holder.created;
    }
    assert Current(b).Some? ==> holders[Current(b).value] in holders;
    if b.created in stamps {
      var k :| 0 <= k < |stamps| && stamps[k] == b.created;
      assert holders[k] in holders;
    }
  }

  /** Membership of CopiesOn and Copies, element by element. */
  lemma {:induction false} CopiesOnHas(node: string, templates: seq<PromotedTemplate>, template: string,
          h: TaggedHolder)
    ensures h in CopiesOn(node, templates, template) <==>
            exists t ::
                t in templates && t.tenant == "" && t.key.template == template &&
                h == TaggedHolder(HolderAt(node, t), t.labels)
  {
    if templates != [] {
      var k := |templates| - 1;
      assert templates == templates[..k] + [templates[k]];
      CopiesOnHas(node, templates[..k], template, h);
    }
  }

  lemma {:induction false} CopiesHas(nodes: seq<NodeListing>, template: string, h: TaggedHolder)
    ensures h in Copies(nodes, template) <==> exists n :: n in nodes && h in CopiesOn(n.node, n.templates, template)
  {
    if nodes != [] {
      var k := |nodes| - 1;
      assert nodes == nodes[..k] + [nodes[k]];
      CopiesHas(nodes[..k], template, h);
    }
  }

  /**
   Whatever the interleaving of publishes whose deletes carry digests, a listing of the fleet as it then stands shows
   every template ever promoted, and `current` is one of its copies that is held and at least
   as new as every promote so far (stamps before Go's zero time aside).
   */
  lemma CurrentSurvivesPublishing(env: Env, s: State, steps: seq<Step>, nodes: seq<NodeListing>, p: Stamp)
    requires Init(env, s) && Legal(env, s, steps) && AllCarry(steps)
    requires env.unrepeated && (env.monotone || env.increasing)
    requires p in Exec(env, s, steps).promoted && p.created >= 0
    requires forall n <- nodes :: Lists(Exec(env, s, steps).held, n)
    requires forall slot <- Exec(env, s, steps).held :: exists n :: n in nodes && n.node == slot.node
    ensures var b := Grouped(Copies(nodes, p.slot.key.template));
            && Current(b).Some?
            && b.holders[Current(b).value].holder.created >= p.created
            && Holds(Exec(env, s, steps).held, StampOf(b.holders[Current(b).value].holder))
  {
    InitInv(env, s);
    RunInv(env, s, steps);
    assert Covered(Exec(env, s, steps).held, p);
    CoveredIsCurrent(Exec(env, s, steps).held, nodes, p);
  }

  /** A held copy is among those a complete listing shows of its template. */
  lemma HeldIsListed(held: map<Slot, Generation>, nodes: seq<NodeListing>, slot: Slot) returns (h: TaggedHolder)
    requires (forall n <- nodes :: Lists(held, n)) && slot in held && slot.tenant == ""
    requires exists n :: n in nodes && n.node == slot.node
    ensures h in Copies(nodes, slot.key.template) && h.holder.created == held[slot].created
  {
    var n :| n in nodes && n.node == slot.node;
    var t :| t in n.templates && t.tenant == slot.tenant && t.key == slot.key;
    assert slot == Slot(n.node, t.tenant, t.key);
    h := TaggedHolder(HolderAt(n.node, t), t.labels);
    CopiesOnHas(n.node, n.templates, slot.key.template, h);
    CopiesHas(nodes, slot.key.template, h);
  }

  /** And what a listing shows is held. */
  lemma ListedIsHeld(held: map<Slot, Generation>, nodes: seq<NodeListing>, template: string, h: TaggedHolder)
    requires (forall n <- nodes :: Lists(held, n)) && h in Copies(nodes, template)
    ensures Holds(held, StampOf(h.holder))
  {
    CopiesHas(nodes, template, h);
    var n :| n in nodes && h in CopiesOn(n.node, n.templates, template);
    CopiesOnHas(n.node, n.templates, template, h);
  }

  lemma CoveredIsCurrent(held: map<Slot, Generation>, nodes: seq<NodeListing>, p: Stamp)
    requires Covered(held, p) && p.created >= 0
    requires forall n <- nodes :: Lists(held, n)
    requires forall slot <- held :: exists n :: n in nodes && n.node == slot.node
    ensures var b := Grouped(Copies(nodes, p.slot.key.template));
            && Current(b).Some?
            && b.holders[Current(b).value].holder.created >= p.created
            && Holds(held, StampOf(b.holders[Current(b).value].holder))
  {
    var template := p.slot.key.template;
    var slot :| slot in held && Owned(slot, template) && held[slot].created >= p.created;
    var h := HeldIsListed(held, nodes, slot);
    var copies := Copies(nodes, template);
    CurrentIsNewest(copies);
    var c := copies[Current(Grouped(copies)).value];
    assert c in copies;
    ListedIsHeld(held, nodes, template, c);
  }
}
