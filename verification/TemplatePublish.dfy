/**
 The publish protocol of template builds. Any number of builds of any number of template
 names run at once. Each promotes its sandbox on a node, reads every listed node, deletes
 the holders it saw that are older than its own promote, and writes its tags. Every remote
 call is one step here and steps of different builds interleave freely; a call that fails
 may have taken effect, may take effect later, or never.
 */
module TemplatePublish {
  import opened Common

  /** One place a node keeps a template: a tenant's copy of a key. The operator is tenant "". */
  datatype Slot = Slot(node: string, tenant: string, key: PoolKey)

  /** What a slot holds. `created` counts from Go's zero time, which an absent stamp reads as. */
  datatype Generation = Generation(digest: string, created: int, labels: map<string, string>)

  /** One operator-owned copy as liveHolders reads it off a node. */
  datatype Holder = Holder(node: string, key: PoolKey, digest: string, created: int)

  /** A promote that took effect. */
  datatype Stamp = Stamp(slot: Slot, digest: string, created: int)

  /** A delete whose reply was lost; the node may still act on it. `sender` is the copy its build took for its own. */
  datatype Request = Request(target: Stamp, sender: Stamp)

  /** A label write whose reply was lost, for the promote `own`; the node may still act on it. */
  datatype TagRequest = TagRequest(own: Stamp, tags: seq<string>)

  datatype Phase =
    | Building
    | Promoted
    | Reading(unread: set<string>, holders: seq<Holder>)
    | Deleting(todo: set<Holder>, broken: bool, seen: Stamp)
    | Tagging
    | Done
    | Failed

  /** A build; `own` is what its promote produced and means nothing while it is still Building. */
  datatype Build = Build(template: string, tags: seq<string>, phase: Phase, own: Stamp)

  datatype State = State(
    held: map<Slot, Generation>,
    builds: map<int, Build>,
    promoted: set<Stamp>,
    lost: set<Request>,
    lostTags: set<TagRequest>)

  /** How a remote write ends: answered, or failed with its effect applied or not, now or later. */
  datatype Outcome = Answered | Broken(applied: bool, late: bool)

  datatype Step =
    | Begin(b: int, template: string, tags: seq<string>)
    | Abandon(b: int)
    | Promote(b: int, slot: Slot, gen: Generation, answered: bool)
    | ListNodes(b: int, nodes: set<string>)
    | ReadNode(b: int, node: string, answer: seq<Holder>)
    | Decide(b: int)
    | Delete(b: int, h: Holder, outcome: Outcome)
    | LateDelete(req: Request)
    | DeletesReturn(b: int)
    | Tag(b: int, outcome: Outcome)
    | LateTag(write: TagRequest)
    | Foreign(slot: Slot, now: Option<Generation>)

  /**
   What a run may rely on: `reported`, every generation reports a digest; `unrepeated`, a slot
   never sees the same digest again; `monotone`, a slot's stamps never go back; `increasing`,
   promotes of a template are stamped in the order they take effect; `listed`, every node that
   holds the template is listed when a publish begins.
   */
  datatype Env = Env(reported: bool, unrepeated: bool, monotone: bool, increasing: bool, listed: bool)

  function SlotOf(h: Holder): Slot {
    Slot(h.node, "", h.key)
  }

  function StampOf(h: Holder): Stamp {
    Stamp(SlotOf(h), h.digest, h.created)
  }

  function HolderOf(p: Stamp): Holder {
    Holder(p.slot.node, p.slot.key, p.digest, p.created)
  }

  predicate Owned(slot: Slot, template: string) {
    slot.tenant == "" && slot.key.template == template
  }

  /** `slot` holds exactly the generation `p` names. */
  predicate Holds(held: map<Slot, Generation>, p: Stamp) {
    p.slot in held && held[p.slot].digest == p.digest && held[p.slot].created == p.created
  }

  /** A node's answer to liveHolders: its operator-owned copies of `template`, in some order. */
  predicate Reports(held: map<Slot, Generation>, node: string, template: string, answer: seq<Holder>) {
    && (forall h <- answer :: h.node == node && Owned(SlotOf(h), template) && Holds(held, StampOf(h)))
    && (forall slot <- held :: slot.node == node && Owned(slot, template) ==>
          Holder(node, slot.key, held[slot].digest, held[slot].created) in answer)
  }

  /** A node's delete: an empty digest is unconditional, another digest answers 412 and removes nothing. */
  function DeleteAt(held: map<Slot, Generation>, slot: Slot, digest: string): map<Slot, Generation> {
    if slot in held && (digest == "" || held[slot].digest == digest) then held - {slot} else held
  }

  predicate LabelsAccepted(held: map<Slot, Generation>, own: Stamp) {
    own.slot in held && (own.digest == "" || held[own.slot].digest == own.digest)
  }

  function LabelsFor(tags: seq<string>, digest: string): map<string, string> {
    map t | t in tags :: digest
  }

  function LabelAt(held: map<Slot, Generation>, own: Stamp, tags: seq<string>): map<Slot, Generation> {
    if LabelsAccepted(held, own)
    then held[own.slot := held[own.slot].(labels := LabelsFor(tags, own.digest))]
    else held
  }

  /** The position of the build's own copy among the holders it read, or none. */
  function IndexOfOwn(holders: seq<Holder>, node: string, key: PoolKey): (i: Option<nat>)
    ensures i.Some? ==> i.value < |holders| && holders[i.value].node == node && holders[i.value].key == key
    ensures i.None? ==> forall h <- holders :: !(h.node == node && h.key == key)
  {
    if holders == [] then None
    else if holders[0].node == node && holders[0].key == key then Some(0)
    else match IndexOfOwn(holders[1..], node, key)
      case None => None
      case Some(i) => Some(i + 1)
  }

  function OlderThan(holders: seq<Holder>, created: int): set<Holder> {
    set h | h in holders && h.created < created
  }

  /** What publishBuild does once every node has answered: give up, or delete the older holders. */
  function DecidePhase(holders: seq<Holder>, own: Stamp): Phase {
    match IndexOfOwn(holders, own.slot.node, own.slot.key)
    case None => Failed
    case Some(i) =>
      if holders[i].digest != own.digest then Failed
      else Deleting(OlderThan(holders, holders[i].created), false, StampOf(holders[i]))
  }

  /** A build takes the step; otherwise a lost request or another tenant does. */
  predicate Acts(step: Step) {
    !step.LateDelete? && !step.LateTag? && !step.Foreign?
  }

  predicate Enabled(s: State, step: Step) {
    match step
    case Begin(b, _, _) => b !in s.builds
    case Abandon(b) => b in s.builds &&
        (s.builds[b].phase.Building? || s.builds[b].phase.Promoted? || s.builds[b].phase.Reading?)
    case Promote(b, slot, _, _) => b in s.builds && s.builds[b].phase.Building? && Owned(slot, s.builds[b].template)
    case ListNodes(b, _) => b in s.builds && s.builds[b].phase.Promoted?
    case ReadNode(b, node, answer) =>
      && b in s.builds && s.builds[b].phase.Reading? && node in s.builds[b].phase.unread
      && Reports(s.held, node, s.builds[b].template, answer)
    case Decide(b) => b in s.builds && s.builds[b].phase.Reading? && s.builds[b].phase.unread == {}
    case Delete(b, h, _) => b in s.builds && s.builds[b].phase.Deleting? && h in s.builds[b].phase.todo
    case LateDelete(req) => req in s.lost
    case DeletesReturn(b) => b in s.builds && s.builds[b].phase.Deleting? && s.builds[b].phase.todo == {}
    case Tag(b, _) => b in s.builds && s.builds[b].phase.Tagging?
    case LateTag(write) => write in s.lostTags
    case Foreign(slot, _) => slot.tenant != ""
  }

  function SetPhase(s: State, b: int, phase: Phase): State
    requires b in s.builds
  {
    s.(builds := s.builds[b := s.builds[b].(phase := phase)])
  }

  function Apply(s: State, step: Step): State
    requires Enabled(s, step)
  {
    match step
    case Begin(b, template, tags) =>
      s.(builds := s.builds[b :=
          Build(template, tags, Building, Stamp(Slot("", "", PoolKey(template, "", "")), "", 0))])
    case Abandon(b) => SetPhase(s, b, Failed)
    case Promote(b, slot, gen, answered) =>
      var own := Stamp(slot, gen.digest, gen.created);
      s.(held := s.held[slot := gen],
         promoted := s.promoted + {own},
         builds := s.builds[b := s.builds[b].(phase := if answered then Promoted else Failed, own := own)])
    case ListNodes(b, nodes) => SetPhase(s, b, Reading(nodes, []))
    case ReadNode(b, node, answer) =>
      var p := s.builds[b].phase;
      SetPhase(s, b, Reading(p.unread - {node}, p.holders + answer))
    case Decide(b) => SetPhase(s, b, DecidePhase(s.builds[b].phase.holders, s.builds[b].own))
    case Delete(b, h, outcome) =>
      var p := s.builds[b].phase;
      var s1 := SetPhase(s, b, p.(todo := p.todo - {h}, broken := p.broken || outcome.Broken?));
      s1.(held := if outcome.Answered? || outcome.applied then DeleteAt(s.held, SlotOf(h), h.digest) else s.held,
          lost := if outcome.Broken? && outcome.late then s.lost + {Request(StampOf(h), p.seen)} else s.lost)
    case LateDelete(req) => s.(held := DeleteAt(s.held, req.target.slot, req.target.digest))
    case DeletesReturn(b) =>
      SetPhase(s, b, if s.builds[b].phase.broken then Failed else if s.builds[b].tags == [] then Done else Tagging)
    case Tag(b, outcome) =>
      var own, tags := s.builds[b].own, s.builds[b].tags;
      var s1 := SetPhase(s, b, if outcome.Answered? && LabelsAccepted(s.held, own) then Done else Failed);
      s1.(held := if outcome.Answered? || outcome.applied then LabelAt(s.held, own, tags) else s.held,
          lostTags := if outcome.Broken? && outcome.late then s.lostTags + {TagRequest(own, tags)} else s.lostTags)
    case LateTag(write) => s.(held := LabelAt(s.held, write.own, write.tags))
    case Foreign(slot, now) =>
      s.(held := if now.Some? then s.held[slot := now.value] else s.held - {slot})
  }

  /** A stamp later than every promote of the template so far. */
  predicate Newer(promoted: set<Stamp>, template: string, created: int) {
    forall p <- promoted :: p.slot.key.template == template ==> p.created < created
  }

  /** What the fleet guarantees about a step under `env`. */
  ghost predicate Guaranteed(env: Env, s: State, step: Step) {
    match step
    case Promote(b, slot, gen, _) =>
      && (env.reported ==> gen.digest != "")
      && (env.unrepeated && gen.digest != "" ==> forall p <- s.promoted :: p.slot == slot ==> p.digest != gen.digest)
      && (env.monotone && slot in s.held ==> s.held[slot].created <= gen.created)
      && (env.increasing ==> Newer(s.promoted, slot.key.template, gen.created))
    case ListNodes(b, nodes) =>
      env.listed ==> forall slot <- s.held :: b in s.builds && Owned(slot, s.builds[b].template) ==> slot.node in nodes
    case _ => true
  }

  /** Every step of `steps` can be taken in turn from `s` under `env`. */
  ghost predicate Legal(env: Env, s: State, steps: seq<Step>)
    decreases |steps|
  {
    steps == [] ||
    (Enabled(s, steps[0]) && Guaranteed(env, s, steps[0]) && Legal(env, Apply(s, steps[0]), steps[1..]))
  }

  ghost function Exec(env: Env, s: State, steps: seq<Step>): State
    requires Legal(env, s, steps)
    decreases |steps|
  {
    if steps == [] then s else Exec(env, Apply(s, steps[0]), steps[1..])
  }

  /** Every operator-owned copy is a promote that took effect. */
  ghost predicate Recorded(s: State) {
    forall slot <- s.held :: slot.tenant == "" ==>
      Stamp(slot, s.held[slot].digest, s.held[slot].created) in s.promoted
  }

  /** No build yet; nodes may already hold templates, each a promote of the past. */
  ghost predicate Init(env: Env, s: State) {
    && s.builds == map[] && s.lost == {} && s.lostTags == {}
    && (forall p <- s.promoted :: Holds(s.held, p) && p.slot.tenant == "" && (env.reported ==> p.digest != ""))
    && Recorded(s)
  }

  // ---------------------------------------------------------------- the invariant

  ghost predicate HeldInv(s: State) {
    Recorded(s) && forall p <- s.promoted :: p.slot.tenant == ""
  }

  /** `target` may be deleted on behalf of `sender`: both are promotes of one template and `sender` is newer. */
  predicate Supersedes(promoted: set<Stamp>, sender: Stamp, target: Stamp) {
    && sender in promoted && target in promoted
    && sender.slot.key.template == target.slot.key.template && target.created < sender.created
  }

  ghost predicate BuildInv(s: State, bd: Build) {
    && ((bd.phase.Promoted? || bd.phase.Reading? || bd.phase.Deleting? || bd.phase.Tagging? || bd.phase.Done?) ==>
          bd.own in s.promoted && Owned(bd.own.slot, bd.template))
    && (bd.phase.Reading? ==>
          forall h <- bd.phase.holders :: StampOf(h) in s.promoted && h.key.template == bd.template)
    && (bd.phase.Deleting? ==>
          && bd.phase.seen.slot == bd.own.slot && bd.phase.seen.digest == bd.own.digest
          && forall h <- bd.phase.todo :: Supersedes(s.promoted, bd.phase.seen, StampOf(h)))
  }

  /** What every run of every fleet keeps. */
  ghost predicate Sound(s: State) {
    && HeldInv(s)
    && (forall b <- s.builds :: BuildInv(s, s.builds[b]))
    && (forall r <- s.lost :: Supersedes(s.promoted, r.sender, r.target))
    && (forall w <- s.lostTags :: w.own in s.promoted)
  }

  /** No slot has seen a digest twice. */
  ghost predicate Unrepeated(promoted: set<Stamp>) {
    forall p, q :: p in promoted && q in promoted && p.slot == q.slot && p.digest == q.digest && p.digest != "" ==>
        p == q
  }

  /** Some operator-owned copy of `p`'s template is at least as new as `p`. */
  ghost predicate Covered(held: map<Slot, Generation>, p: Stamp) {
    exists slot :: slot in held && Owned(slot, p.slot.key.template) && held[slot].created >= p.created
  }

  /** The newest promote of every template is covered by what nodes hold. */
  ghost predicate NewestHeld(s: State) {
    forall p {:trigger Covered(s.held, p)} :: p in s.promoted ==> Covered(s.held, p)
  }

  ghost predicate Inv(s: State) {
    Sound(s) && Unrepeated(s.promoted) && NewestHeld(s)
  }

  lemma InitInv(env: Env, s: State)
    requires Init(env, s)
    ensures Inv(s)
  {
    forall p <- s.promoted
      ensures Covered(s.held, p)
    {
      assert p.slot in s.held;
    }
  }

  lemma DecideInv(s: State, bd: Build)
    requires HeldInv(s) && BuildInv(s, bd) && bd.phase.Reading?
    ensures BuildInv(s, bd.(phase := DecidePhase(bd.phase.holders, bd.own)))
  {
    var i := IndexOfOwn(bd.phase.holders, bd.own.slot.node, bd.own.slot.key);
    if i.Some? {
      assert bd.phase.holders[i.value] in bd.phase.holders;
    }
  }

  /** More promotes on record never spoil what a build already knows. */
  lemma BuildInvGrows(s: State, s': State, bd: Build)
    requires BuildInv(s, bd) && s.promoted <= s'.promoted
    ensures BuildInv(s', bd)
  {
  }

  lemma ActorInv(s: State, step: Step)
    requires Sound(s) && Enabled(s, step) && Acts(step)
    ensures BuildInv(Apply(s, step), Apply(s, step).builds[step.b])
  {
    if step.b in s.builds {
      assert BuildInv(s, s.builds[step.b]);
      if step.Decide? {
        DecideInv(s, s.builds[step.b]);
      }
    }
  }

  lemma StepHeldInv(s: State, step: Step)
    requires HeldInv(s) && Enabled(s, step)
    ensures HeldInv(Apply(s, step)) && s.promoted <= Apply(s, step).promoted
  {
  }

  lemma StepUnrepeated(env: Env, s: State, step: Step)
    requires Unrepeated(s.promoted) && Enabled(s, step) && env.unrepeated && Guaranteed(env, s, step)
    ensures Unrepeated(Apply(s, step).promoted)
  {
  }

  lemma StepLost(s: State, step: Step)
    requires Sound(s) && Enabled(s, step)
    ensures forall r <- Apply(s, step).lost :: Supersedes(Apply(s, step).promoted, r.sender, r.target)
    ensures forall w <- Apply(s, step).lostTags :: w.own in Apply(s, step).promoted
  {
    if step.Delete? || step.Tag? {
      assert BuildInv(s, s.builds[step.b]);
    }
  }

  lemma StepSound(s: State, step: Step)
    requires Sound(s) && Enabled(s, step)
    ensures Sound(Apply(s, step))
  {
    var s' := Apply(s, step);
    StepHeldInv(s, step);
    StepLost(s, step);
    forall b <- s'.builds
      ensures BuildInv(s', s'.builds[b])
    {
      if Acts(step) && b == step.b {
        ActorInv(s, step);
      } else {
        BuildInvGrows(s, s', s.builds[b]);
      }
    }
  }

  // ---------------------------------------------------------------- the newest stays held

  /** A delete by digest on behalf of a newer promote leaves a generation as new as any. */
  lemma DeleteKeepsNewest(s: State, sender: Stamp, target: Stamp, s': State)
    requires HeldInv(s) && Unrepeated(s.promoted) && NewestHeld(s)
    requires Supersedes(s.promoted, sender, target) && target.digest != ""
    requires s'.promoted == s.promoted && s'.held == DeleteAt(s.held, target.slot, target.digest)
    ensures NewestHeld(s')
  {
    forall p <- s'.promoted
      ensures Covered(s'.held, p)
    {
      assert Covered(s.held, p);
      var slot :| slot in s.held && Owned(slot, p.slot.key.template) && s.held[slot].created >= p.created;
      if slot !in s'.held {
        assert Covered(s.held, sender);
        var kept :| kept in s.held && Owned(kept, sender.slot.key.template) && s.held[kept].created >= sender.created;
        assert kept in s'.held;
      } else {
        assert s'.held[slot] == s.held[slot];
      }
    }
  }

  lemma PromoteKeepsNewest(env: Env, s: State, step: Step)
    requires Recorded(s) && NewestHeld(s) && Enabled(s, step) && Guaranteed(env, s, step) && step.Promote?
    requires env.monotone || env.increasing
    ensures NewestHeld(Apply(s, step))
  {
    var s' := Apply(s, step);
    assert step.slot in s.held ==> s.held[step.slot].created <= step.gen.created;
    forall p <- s'.promoted
      ensures Covered(s'.held, p)
    {
      if p in s.promoted {
        assert Covered(s.held, p);
        var slot :| slot in s.held && Owned(slot, p.slot.key.template) && s.held[slot].created >= p.created;
        assert slot in s'.held;
      } else {
        assert step.slot in s'.held;
      }
    }
  }

  lemma SameHeldKeepsNewest(s: State, s': State)
    requires NewestHeld(s) && s'.promoted == s.promoted
    requires forall slot <- s.held :: slot.tenant == "" ==>
               slot in s'.held && s'.held[slot].created == s.held[slot].created
    ensures NewestHeld(s')
  {
    forall p <- s'.promoted
      ensures Covered(s'.held, p)
    {
      assert Covered(s.held, p);
      var slot :| slot in s.held && Owned(slot, p.slot.key.template) && s.held[slot].created >= p.created;
      assert slot in s'.held;
    }
  }

  /** A delete, sent now or late, says which generation it means. */
  predicate Carries(step: Step) {
    match step
    case Delete(_, h, _) => h.digest != ""
    case LateDelete(req) => req.target.digest != ""
    case _ => true
  }

  ghost predicate AllCarry(steps: seq<Step>) {
    forall step <- steps :: Carries(step)
  }

  lemma StepKeepsNewest(env: Env, s: State, step: Step)
    requires Inv(s) && Enabled(s, step) && Guaranteed(env, s, step) && Carries(step)
    requires env.unrepeated && (env.monotone || env.increasing)
    ensures NewestHeld(Apply(s, step))
  {
    var s' := Apply(s, step);
    match step
    case Promote(_, _, _, _) => PromoteKeepsNewest(env, s, step);
    case Delete(b, h, outcome) =>
      assert BuildInv(s, s.builds[b]);
      if outcome.Answered? || outcome.applied {
        DeleteKeepsNewest(s, s.builds[b].phase.seen, StampOf(h), s');
      } else {
        SameHeldKeepsNewest(s, s');
      }
    case LateDelete(req) => DeleteKeepsNewest(s, req.sender, req.target, s');
    case _ => SameHeldKeepsNewest(s, s');
  }

  lemma StepInv(env: Env, s: State, step: Step)
    requires Inv(s) && Enabled(s, step) && Guaranteed(env, s, step) && Carries(step)
    requires env.unrepeated && (env.monotone || env.increasing)
    ensures Inv(Apply(s, step))
  {
    StepSound(s, step);
    StepUnrepeated(env, s, step);
    StepKeepsNewest(env, s, step);
  }

  lemma {:induction false} RunSound(env: Env, s: State, steps: seq<Step>)
    requires Sound(s) && Legal(env, s, steps)
    ensures Sound(Exec(env, s, steps))
    ensures env.unrepeated && Unrepeated(s.promoted) ==> Unrepeated(Exec(env, s, steps).promoted)
    decreases |steps|
  {
    if steps != [] {
      StepSound(s, steps[0]);
      if env.unrepeated && Unrepeated(s.promoted) {
        StepUnrepeated(env, s, steps[0]);
      }
      RunSound(env, Apply(s, steps[0]), steps[1..]);
    }
  }

  lemma {:induction false} RunInv(env: Env, s: State, steps: seq<Step>)
    requires Inv(s) && Legal(env, s, steps) && AllCarry(steps)
    requires env.unrepeated && (env.monotone || env.increasing)
    ensures Inv(Exec(env, s, steps))
    decreases |steps|
  {
    if steps != [] {
      StepInv(env, s, steps[0]);
      RunInv(env, Apply(s, steps[0]), steps[1..]);
    }
  }

  ghost predicate AllReported(s: State) {
    forall p <- s.promoted :: p.digest != ""
  }

  /** Where every generation reports a digest, every delete carries one. */
  lemma {:induction false} ReportedCarry(env: Env, s: State, steps: seq<Step>)
    requires Sound(s) && AllReported(s) && Legal(env, s, steps) && env.reported
    ensures AllCarry(steps) && AllReported(Exec(env, s, steps))
    decreases |steps|
  {
    if steps != [] {
      var step := steps[0];
      if step.Delete? {
        assert BuildInv(s, s.builds[step.b]);
        assert StampOf(step.h) in s.promoted;
      }
      StepSound(s, step);
      ReportedCarry(env, Apply(s, step), steps[1..]);
      assert steps == [step] + steps[1..];
    }
  }

  // ---------------------------------------------------------------- safety of every run

  /** The copy on whose behalf a step deletes, if it deletes at all. */
  function Deleter(s: State, step: Step): Option<Stamp> {
    match step
    case Delete(b, _, _) =>
      if b in s.builds && s.builds[b].phase.Deleting? then Some(s.builds[b].phase.seen) else None
    case LateDelete(req) => Some(req.sender)
    case _ => None
  }

  /**
   A copy disappears only by a delete on behalf of a strictly newer promote of its template,
   the deleting build's own promote if that reported a digest.
   */
  ghost predicate MayGo(s: State, step: Step, slot: Slot)
    requires slot in s.held
  {
    var sender := Deleter(s, step);
    && sender.Some? && sender.value in s.promoted && sender.value.slot.key.template == slot.key.template
    && s.held[slot].created < sender.value.created
    && (step.Delete? && s.builds[step.b].own.digest != "" ==> sender.value == s.builds[step.b].own)
  }

  /** The label write a step makes, now or late, if it makes one. */
  function Tagger(s: State, step: Step): Option<TagRequest> {
    match step
    case Tag(b, _) => if b in s.builds then Some(TagRequest(s.builds[b].own, s.builds[b].tags)) else None
    case LateTag(write) => Some(write)
    case _ => None
  }

  /** Labels change only to the tagging build's tags, and on its own generation if that reported a digest. */
  ghost predicate MayRelabel(s: State, step: Step, slot: Slot, now: Generation)
    requires slot in s.held
  {
    var write := Tagger(s, step);
    && write.Some? && write.value.own.slot == slot
    && now == s.held[slot].(labels := LabelsFor(write.value.tags, write.value.own.digest))
    && (write.value.own.digest != "" ==> Holds(s.held, write.value.own))
  }

  /** What one step may do to the operator's copies; a copy is replaced only by a promote no older than it. */
  ghost predicate SafeStep(s: State, step: Step)
    requires Enabled(s, step)
  {
    var s' := Apply(s, step);
    forall slot <- s.held :: slot.tenant == "" ==>
      if slot !in s'.held then MayGo(s, step, slot)
      else if s'.held[slot] == s.held[slot] then true
      else if step.Promote? then step.slot == slot && s.held[slot].created <= s'.held[slot].created
      else MayRelabel(s, step, slot, s'.held[slot])
  }

  lemma DeletedMayGo(s: State, step: Step, target: Stamp, slot: Slot)
    requires Sound(s) && Unrepeated(s.promoted) && Enabled(s, step) && Carries(step) && slot in s.held
    requires (step.Delete? && target == StampOf(step.h)) || (step.LateDelete? && target == step.req.target)
    requires slot !in DeleteAt(s.held, target.slot, target.digest)
    ensures MayGo(s, step, slot)
  {
    if step.Delete? {
      assert BuildInv(s, s.builds[step.b]);
    }
    var was := Stamp(slot, s.held[slot].digest, s.held[slot].created);
    assert was.slot.tenant == "" && was == target;
  }

  lemma TagIsSafe(s: State, step: Step)
    requires Sound(s) && Unrepeated(s.promoted) && Enabled(s, step) && (step.Tag? || step.LateTag?)
    ensures SafeStep(s, step)
  {
    if step.Tag? {
      assert BuildInv(s, s.builds[step.b]);
    }
    assert Tagger(s, step).value.own in s.promoted;
  }

  lemma StepIsSafe(env: Env, s: State, step: Step)
    requires Sound(s) && Unrepeated(s.promoted) && Enabled(s, step) && Guaranteed(env, s, step) && Carries(step)
    requires env.monotone || env.increasing
    ensures SafeStep(s, step)
  {
    var s' := Apply(s, step);
    if step.Tag? || step.LateTag? {
      TagIsSafe(s, step);
    } else if step.Delete? || step.LateDelete? {
      forall slot <- s.held | slot !in s'.held
        ensures MayGo(s, step, slot)
      {
        DeletedMayGo(s, step, if step.Delete? then StampOf(step.h) else step.req.target, slot);
      }
    }
  }

  /**
   Safety: after any run whose deletes carry digests, in a fleet where other generations may
   report none, the newest promote of every template so far is still held by an equally new
   copy, and whatever such step comes next deletes no generation stamped at or after the one
   it acts for and tags nothing but the tagging build's own generation.
   */
  lemma PublishIsSafe(env: Env, s: State, steps: seq<Step>, next: Step)
    requires Init(env, s) && Legal(env, s, steps) && AllCarry(steps)
    requires env.unrepeated && (env.monotone || env.increasing)
    requires Enabled(Exec(env, s, steps), next) && Guaranteed(env, Exec(env, s, steps), next) && Carries(next)
    ensures NewestHeld(Exec(env, s, steps))
    ensures SafeStep(Exec(env, s, steps), next)
  {
    InitInv(env, s);
    RunInv(env, s, steps);
    StepIsSafe(env, Exec(env, s, steps), next);
  }

  // ---------------------------------------------------------------- convergence

  /** `bd`'s promote is a newer one of the same template. */
  predicate Outdates(bd: Build, p: Stamp) {
    p.slot.key.template == bd.template && p.created < bd.own.created
  }

  /** No promote of the build's template is stamped later than its own. */
  predicate IsNewest(promoted: set<Stamp>, bd: Build) {
    forall p <- promoted :: p.slot.key.template == bd.template ==> p.created <= bd.own.created
  }

  /**
   What holds of a build while its promote is the newest: its slot holds nothing else and none
   of its reads said otherwise, and of each older generation still held, how far the build has
   got with it.
   */
  ghost predicate Swept(s: State, bd: Build) {
    IsNewest(s.promoted, bd) &&
    (bd.phase.Promoted? || bd.phase.Reading? || bd.phase.Deleting? || bd.phase.Tagging? || bd.phase.Done?) ==>
      && (bd.own.slot in s.held ==> Holds(s.held, bd.own))
      && (bd.phase.Reading? ==> forall h <- bd.phase.holders :: SlotOf(h) == bd.own.slot ==> StampOf(h) == bd.own)
      && forall p <- s.promoted :: p.slot.key.template == bd.template && p != bd.own ==>
           && p.created != bd.own.created
           && (p.created < bd.own.created && Holds(s.held, p) ==>
                 match bd.phase
                 case Reading(unread, holders) => p.slot.node in unread || HolderOf(p) in holders
                 case Deleting(todo, broken, _) => broken || HolderOf(p) in todo
                 case Tagging => false
                 case Done => false
                 case _ => true)
  }

  ghost predicate AllSwept(s: State) {
    forall b <- s.builds :: Swept(s, s.builds[b])
  }

  /** A generation that is held after a step other than its own promote was held before it. */
  lemma HeldBefore(env: Env, s: State, step: Step, p: Stamp)
    requires Sound(s) && Enabled(s, step) && env.increasing && Guaranteed(env, s, step)
    requires p in s.promoted && Holds(Apply(s, step).held, p)
    ensures Holds(s.held, p)
  {
  }

  lemma DecideSwept(s: State, bd: Build)
    requires HeldInv(s) && BuildInv(s, bd) && Swept(s, bd) && bd.phase.Reading? && bd.phase.unread == {}
    ensures Swept(s, bd.(phase := DecidePhase(bd.phase.holders, bd.own)))
  {
    var i := IndexOfOwn(bd.phase.holders, bd.own.slot.node, bd.own.slot.key);
    if i.Some? && IsNewest(s.promoted, bd) {
      assert bd.phase.holders[i.value] in bd.phase.holders;
      assert StampOf(bd.phase.holders[i.value]) == bd.own;
    }
  }

  /** A promote is newer than every other, and a listing that begins names every node with an older one. */
  lemma StartSwept(env: Env, s: State, step: Step)
    requires Sound(s) && AllSwept(s) && Enabled(s, step) && Guaranteed(env, s, step) && env.increasing && env.listed
    requires step.Promote? || step.ListNodes?
    ensures Swept(Apply(s, step), Apply(s, step).builds[step.b])
  {
    assert BuildInv(s, s.builds[step.b]) && Swept(s, s.builds[step.b]);
  }

  lemma EndSwept(s: State, step: Step)
    requires Sound(s) && AllSwept(s) && Enabled(s, step)
    requires step.Begin? || step.Abandon? || step.DeletesReturn? || step.Tag?
    ensures Swept(Apply(s, step), Apply(s, step).builds[step.b])
  {
    assert step.b in s.builds ==> BuildInv(s, s.builds[step.b]) && Swept(s, s.builds[step.b]);
  }

  /** The step's own build: the phase change it makes keeps the account of older generations right. */
  lemma ActorSwept(env: Env, s: State, step: Step)
    requires Sound(s) && AllSwept(s) && Enabled(s, step) && Guaranteed(env, s, step) && env.increasing && env.listed
    requires Acts(step)
    ensures Swept(Apply(s, step), Apply(s, step).builds[step.b])
  {
    match step
    case Decide(b) =>
      assert BuildInv(s, s.builds[b]) && Swept(s, s.builds[b]);
      DecideSwept(s, s.builds[b]);
    case ReadNode(_, _, _) => ReadSwept(s, step);
    case Delete(_, _, _) => DeleteSwept(s, step);
    case Promote(_, _, _, _) => StartSwept(env, s, step);
    case ListNodes(_, _) => StartSwept(env, s, step);
    case _ => EndSwept(s, step);
  }

  lemma ReadSwept(s: State, step: Step)
    requires Sound(s) && AllSwept(s) && Enabled(s, step) && step.ReadNode?
    ensures Swept(Apply(s, step), Apply(s, step).builds[step.b])
  {
    assert Swept(s, s.builds[step.b]);
    assert BuildInv(s, s.builds[step.b]);
    var bd := s.builds[step.b];
    forall p <- s.promoted | IsNewest(s.promoted, bd) && Outdates(bd, p) && Holds(s.held, p)
      ensures p.slot.node in bd.phase.unread - {step.node} || HolderOf(p) in bd.phase.holders + step.answer
    {
      assert p.slot.tenant == "";
    }
  }

  lemma DeleteSwept(s: State, step: Step)
    requires Sound(s) && AllSwept(s) && Enabled(s, step) && step.Delete?
    ensures Swept(Apply(s, step), Apply(s, step).builds[step.b])
  {
    assert Swept(s, s.builds[step.b]);
    assert BuildInv(s, s.builds[step.b]);
    var bd := s.builds[step.b];
    var s' := Apply(s, step);
    forall p <- s.promoted | IsNewest(s.promoted, bd) && Outdates(bd, p) && Holds(s'.held, p)
      ensures s'.builds[step.b].phase.broken || HolderOf(p) in s'.builds[step.b].phase.todo
    {
      assert p.slot.tenant == "";
      if step.h == HolderOf(p) {
        assert SlotOf(step.h) == p.slot;
      }
    }
  }

  /** Nobody puts another generation into the slot of a promote that stays the newest. */
  lemma OwnSlotStays(env: Env, s: State, step: Step, bd: Build)
    requires Sound(s) && Enabled(s, step) && Guaranteed(env, s, step) && env.increasing
    requires bd.own in s.promoted && Owned(bd.own.slot, bd.template) && IsNewest(Apply(s, step).promoted, bd)
    requires bd.own.slot in s.held ==> Holds(s.held, bd.own)
    ensures bd.own.slot in Apply(s, step).held ==> Holds(Apply(s, step).held, bd.own)
  {
    assert step.Promote? ==> Stamp(step.slot, step.gen.digest, step.gen.created) in Apply(s, step).promoted;
  }

  lemma BystanderSwept(env: Env, s: State, step: Step, b: int)
    requires Sound(s) && AllSwept(s) && Enabled(s, step) && Guaranteed(env, s, step) && env.increasing
    requires b in s.builds && Apply(s, step).builds[b] == s.builds[b]
    ensures Swept(Apply(s, step), s.builds[b])
  {
    var s', bd := Apply(s, step), s.builds[b];
    assert Swept(s, bd) && BuildInv(s, bd);
    if IsNewest(s'.promoted, bd) && !bd.phase.Building? && !bd.phase.Failed? {
      OwnSlotStays(env, s, step, bd);
      forall p <- s.promoted | Holds(s'.held, p)
        ensures Holds(s.held, p)
      {
        HeldBefore(env, s, step, p);
      }
      NewerIsNoNewest(env, s, step, bd);
    }
  }

  /** A promote that joins the record is newer than the newest so far. */
  lemma NewerIsNoNewest(env: Env, s: State, step: Step, bd: Build)
    requires Enabled(s, step) && Guaranteed(env, s, step) && env.increasing
    requires bd.own in s.promoted && Owned(bd.own.slot, bd.template) && IsNewest(Apply(s, step).promoted, bd)
    ensures IsNewest(s.promoted, bd)
    ensures forall p <- Apply(s, step).promoted :: p.slot.key.template == bd.template ==> p in s.promoted
  {
    assert step.Promote? ==> Stamp(step.slot, step.gen.digest, step.gen.created) in Apply(s, step).promoted;
  }

  lemma StepSwept(env: Env, s: State, step: Step)
    requires Sound(s) && AllSwept(s) && Enabled(s, step) && Guaranteed(env, s, step) && env.increasing && env.listed
    ensures AllSwept(Apply(s, step))
  {
    var s' := Apply(s, step);
    forall b <- s'.builds
      ensures Swept(s', s'.builds[b])
    {
      if Acts(step) && b == step.b {
        ActorSwept(env, s, step);
      } else {
        BystanderSwept(env, s, step, b);
      }
    }
  }

  lemma {:induction false} RunSwept(env: Env, s: State, steps: seq<Step>)
    requires Sound(s) && AllSwept(s) && Legal(env, s, steps) && env.increasing && env.listed
    ensures AllSwept(Exec(env, s, steps))
    decreases |steps|
  {
    if steps != [] {
      StepSound(s, steps[0]);
      StepSwept(env, s, steps[0]);
      RunSwept(env, Apply(s, steps[0]), steps[1..]);
    }
  }

  /** The build with the newest promote of its template has published with success. */
  ghost predicate NewestDone(e: State, b: int) {
    b in e.builds && e.builds[b].phase.Done? && IsNewest(e.promoted, e.builds[b])
  }

  /** No node holds an operator-owned copy of the build's template other than its own generation. */
  ghost predicate OnlyOwn(e: State, b: int)
    requires b in e.builds
  {
    forall slot <- e.held :: Owned(slot, e.builds[b].template) ==>
      slot == e.builds[b].own.slot && Holds(e.held, e.builds[b].own)
  }

  /**
   Convergence: once the build with the newest promote of its template has published with
   success, no node holds another operator-owned copy of that template; and where slots do not
   repeat digests its own generation is held, unless some delete of the run carried none.
   */
  lemma PublishConverges(env: Env, s: State, steps: seq<Step>, b: int)
    requires Init(env, s) && Legal(env, s, steps) && env.increasing && env.listed
    requires NewestDone(Exec(env, s, steps), b)
    ensures OnlyOwn(Exec(env, s, steps), b)
    ensures AllCarry(steps) && env.unrepeated ==> Holds(Exec(env, s, steps).held, Exec(env, s, steps).builds[b].own)
  {
    InitInv(env, s);
    RunSound(env, s, steps);
    RunSwept(env, s, steps);
    var e := Exec(env, s, steps);
    var bd := e.builds[b];
    assert BuildInv(e, bd) && Swept(e, bd);
    forall slot <- e.held | Owned(slot, bd.template)
      ensures slot == bd.own.slot && Holds(e.held, bd.own)
    {
      var p := Stamp(slot, e.held[slot].digest, e.held[slot].created);
      assert p in e.promoted && Holds(e.held, p);
      assert p == bd.own;
    }
    if AllCarry(steps) && env.unrepeated {
      RunInv(env, s, steps);
      assert Covered(e.held, bd.own);
      var slot :| slot in e.held && Owned(slot, bd.own.slot.key.template) && e.held[slot].created >= bd.own.created;
    }
  }
}
