/**
 That publishes get somewhere: a build ends in failure exactly when one of its own calls went
 wrong or its copy was replaced, and a build whose calls are answered finishes, whatever other
 builds do in between.
 */
module PublishProgress {
  import opened Common
  import opened TemplatePublish
  import opened PublishLimits

  // ---------------------------------------------------------------- why a build fails

  /** None of the copies read is the build's own generation. */
  predicate OwnGone(holders: seq<Holder>, own: Stamp) {
    forall h <- holders :: !(h.node == own.slot.node && h.key == own.slot.key && h.digest == own.digest)
  }

  /** The node answers the label write with 412: the slot is empty or holds another digest than the one sent. */
  predicate Replaced(held: map<Slot, Generation>, own: Stamp) {
    own.slot !in held || (own.digest != "" && held[own.slot].digest != own.digest)
  }

  /** What can go wrong for build `b`: it is given up, one of its own calls fails, or its copy was replaced. */
  ghost predicate GoesWrong(s: State, step: Step, b: int) {
    match step
    case Abandon(c) => c == b
    case Promote(c, _, _, answered) => c == b && !answered
    case Decide(c) => c == b && b in s.builds && s.builds[b].phase.Reading? &&
        OwnGone(s.builds[b].phase.holders, s.builds[b].own)
    case Delete(c, _, outcome) => c == b && outcome.Broken?
    case Tag(c, outcome) => c == b && b in s.builds && (outcome.Broken? || Replaced(s.held, s.builds[b].own))
    case _ => false
  }

  ghost predicate Trouble(env: Env, s: State, steps: seq<Step>, b: int)
    requires Legal(env, s, steps)
    decreases |steps|
  {
    steps != [] && (GoesWrong(s, steps[0], b) || Trouble(env, Apply(s, steps[0]), steps[1..], b))
  }

  /** No copy is listed twice with different contents, since a node is read once. */
  ghost predicate ReadOnce(s: State, b: int) {
    b in s.builds && s.builds[b].phase.Reading? ==>
      var p := s.builds[b].phase;
      && (forall h <- p.holders :: h.node !in p.unread)
      && forall h, k :: h in p.holders && k in p.holders && SlotOf(h) == SlotOf(k) ==> h == k
  }

  ghost predicate Clean(s: State, b: int) {
    b in s.builds ==> !s.builds[b].phase.Failed? && (s.builds[b].phase.Deleting? ==> !s.builds[b].phase.broken)
  }

  /** Lost for good: failed, or sure to fail when its deletes return. */
  ghost predicate Doomed(s: State, b: int) {
    b in s.builds && (s.builds[b].phase.Failed? || (s.builds[b].phase.Deleting? && s.builds[b].phase.broken))
  }

  lemma StepReadOnce(s: State, step: Step, b: int)
    requires ReadOnce(s, b) && Enabled(s, step)
    ensures ReadOnce(Apply(s, step), b)
  {
  }

  /** A node's copies are told apart by node and key, so the first one at the build's place is the only one. */
  lemma DecideFails(holders: seq<Holder>, own: Stamp)
    requires forall h, k :: h in holders && k in holders && SlotOf(h) == SlotOf(k) ==> h == k
    ensures DecidePhase(holders, own).Failed? <==> OwnGone(holders, own)
    ensures !OwnGone(holders, own) ==> DecidePhase(holders, own).Deleting? && !DecidePhase(holders, own).broken
  {
    var i := IndexOfOwn(holders, own.slot.node, own.slot.key);
    if i.Some? {
      var first := holders[i.value];
      assert first in holders;
      forall h <- holders | h.node == own.slot.node && h.key == own.slot.key
        ensures h == first
      {
        assert SlotOf(h) == SlotOf(first);
      }
    }
  }

  lemma StepStaysClean(s: State, step: Step, b: int)
    requires Enabled(s, step) && ReadOnce(s, b) && Clean(s, b) && !GoesWrong(s, step, b)
    ensures Clean(Apply(s, step), b)
  {
    if step == Decide(b) {
      DecideFails(s.builds[b].phase.holders, s.builds[b].own);
    }
  }

  lemma StepDooms(s: State, step: Step, b: int)
    requires Enabled(s, step) && ReadOnce(s, b) && (Doomed(s, b) || GoesWrong(s, step, b))
    ensures Doomed(Apply(s, step), b)
  {
    if step == Decide(b) {
      DecideFails(s.builds[b].phase.holders, s.builds[b].own);
    }
  }

  lemma {:induction false} RunVerdict(env: Env, s: State, steps: seq<Step>, b: int)
    requires Legal(env, s, steps) && ReadOnce(s, b) && (Clean(s, b) || Doomed(s, b))
    ensures if Doomed(s, b) ||
            Trouble(env, s, steps, b) then Doomed(Exec(env, s, steps), b) else Clean(Exec(env, s, steps), b)
    decreases |steps|
  {
    if steps != [] {
      StepReadOnce(s, steps[0], b);
      if Doomed(s, b) || GoesWrong(s, steps[0], b) {
        StepDooms(s, steps[0], b);
      } else {
        StepStaysClean(s, steps[0], b);
      }
      RunVerdict(env, Apply(s, steps[0]), steps[1..], b);
    }
  }

  /**
   A build that has ended failed exactly if it was given up, its promote's reply was lost, its
   copy was gone when it read the fleet, one of its own calls failed, or its label write met
   another generation. Nothing else, and no other build, makes a publish fail.
   */
  lemma FailsIffTrouble(env: Env, s: State, steps: seq<Step>, b: int)
    requires Init(env, s) && Legal(env, s, steps)
    requires b in Exec(env, s, steps).builds
    requires Exec(env, s, steps).builds[b].phase.Done? || Exec(env, s, steps).builds[b].phase.Failed?
    ensures Exec(env, s, steps).builds[b].phase.Failed? <==> Trouble(env, s, steps, b)
  {
    RunVerdict(env, s, steps, b);
  }

  // ---------------------------------------------------------------- how a build succeeds

  /** The holders build `b` deletes in `steps`. */
  function DeletedBy(steps: seq<Step>, b: int): set<Holder> {
    set step | step in steps && step.Delete? && step.b == b :: step.h
  }

  /** Whatever else happens, build `b` does nothing but delete, and is answered each time. */
  ghost predicate OnlyAnsweredDeletes(steps: seq<Step>, b: int) {
    forall step <- steps :: Acts(step) && step.b == b ==> step.Delete? && step.outcome.Answered?
  }

  lemma {:induction false} DeletesProgress(env: Env, s: State, steps: seq<Step>, b: int)
    requires Legal(env, s, steps) && OnlyAnsweredDeletes(steps, b)
    requires b in s.builds && s.builds[b].phase.Deleting?
    ensures b in Exec(env, s, steps).builds
    ensures var p := s.builds[b].phase;
            Exec(env, s, steps).builds[b] == s.builds[b].(phase := p.(todo := p.todo - DeletedBy(steps, b)))
    decreases |steps|
  {
    var p := s.builds[b].phase;
    if steps == [] {
      assert p.todo - DeletedBy(steps, b) == p.todo;
    } else {
      var step, rest := steps[0], steps[1..];
      assert steps == [step] + rest;
      var s1 := Apply(s, step);
      if Acts(step) && step.b == b {
        assert DeletedBy(steps, b) == {step.h} + DeletedBy(rest, b);
        assert s1.builds[b] == s.builds[b].(phase := p.(todo := p.todo - {step.h}));
        assert p.todo - {step.h} - DeletedBy(rest, b) == p.todo - DeletedBy(steps, b);
      } else {
        assert DeletedBy(steps, b) == DeletedBy(rest, b);
      }
      DeletesProgress(env, s1, rest, b);
    }
  }

  /**
   A publish whose deletes are all answered, a missing copy and another generation included,
   gets past them whatever the nodes hold and other builds do: it is done if it has no tags,
   else it writes them next.
   */
  lemma AnsweredDeletesFinish(env: Env, s: State, steps: seq<Step>, b: int)
    requires Legal(env, s, steps) && OnlyAnsweredDeletes(steps, b)
    requires b in s.builds && s.builds[b].phase.Deleting? && !s.builds[b].phase.broken
    requires s.builds[b].phase.todo <= DeletedBy(steps, b)
    ensures Enabled(Exec(env, s, steps), DeletesReturn(b))
    ensures var e := Apply(Exec(env, s, steps), DeletesReturn(b));
            e.builds[b].phase == (if s.builds[b].tags == [] then Done else Tagging) &&
                e.builds[b].own == s.builds[b].own
  {
    DeletesProgress(env, s, steps, b);
  }

  /**
   An answered label write on the build's own generation completes the publish: the labels are
   then exactly its tags, each naming the digest of its own promote, and nothing else changes.
   */
  lemma TagWritesOwnDigest(s: State, b: int)
    requires b in s.builds && s.builds[b].phase.Tagging? && Holds(s.held, s.builds[b].own)
    ensures Enabled(s, Tag(b, Answered))
    ensures var e, bd := Apply(s, Tag(b, Answered)), s.builds[b];
            && e.builds[b].phase.Done? && e.held.Keys == s.held.Keys
            && (forall t :: t in e.held[bd.own.slot].labels <==> t in bd.tags)
            && (forall t <- bd.tags :: e.held[bd.own.slot].labels[t] == bd.own.digest)
            && Holds(e.held, bd.own)
            && forall slot <- s.held :: slot != bd.own.slot ==> e.held[slot] == s.held[slot]
  {
  }

  /** In any fleet, a run in which a publish deletes an older copy, writes its tags if it has any, and succeeds. */
  lemma OlderCopyIsReplaced(env: Env, h: Holder, mine: Holder, tags: seq<string>) returns (s: State, steps: seq<Step>)
    requires Pair(env, h, mine)
    ensures Init(env, s) && Legal(env, s, steps)
    ensures var e := Exec(env, s, steps);
            && 0 in e.builds && e.builds[0].phase.Done? && e.builds[0].own == StampOf(mine) && e.builds[0].tags == tags
            && e.held.Keys == {SlotOf(mine)} && Holds(e.held, StampOf(mine))
            && e.held[SlotOf(mine)].labels == LabelsFor(tags, mine.digest)
  {
    s, steps := SceneIsReachable(env, h, mine, tags);
    var e := Exec(env, s, steps);
    SceneFinishes(e, h, mine, tags);
    var delete, done, tag := Delete(0, h, Answered), DeletesReturn(0), Tag(0, Answered);
    Extend(env, s, steps, delete);
    steps := steps + [delete];
    Extend(env, s, steps, done);
    steps := steps + [done];
    if tags != [] {
      Extend(env, s, steps, tag);
      steps := steps + [tag];
    }
  }

  lemma SceneFinishes(e: State, h: Holder, mine: Holder, tags: seq<string>)
    requires Scene(e, h, mine, tags, Deleting({h}, false, StampOf(mine))) && SlotOf(h) != SlotOf(mine)
    ensures Enabled(e, Delete(0, h, Answered)) && Enabled(Apply(e, Delete(0, h, Answered)), DeletesReturn(0))
    ensures var f := Apply(Apply(e, Delete(0, h, Answered)), DeletesReturn(0));
            && f.held.Keys == {SlotOf(mine)} && Holds(f.held, StampOf(mine)) && 0 in f.builds
            && f.builds[0].own == StampOf(mine) && f.builds[0].tags == tags
            && f.builds[0].phase == (if tags == [] then Done else Tagging)
            && f.held[SlotOf(mine)].labels == map[]
  {
    var f := Apply(Apply(e, Delete(0, h, Answered)), DeletesReturn(0));
    assert {h} - {h} == {};
    assert f.held == e.held - {SlotOf(h)};
    assert f.held.Keys == {SlotOf(mine)};
  }

  /**
   A call whose reply is lost may take effect all the same, then or later: it does what the
   answered call would do to the node at that moment.
   */
  lemma LostCallsStillAct(s: State, b: int, h: Holder, late: bool, req: Request, write: TagRequest)
    requires Enabled(s, Delete(b, h, Answered)) && Enabled(s, LateDelete(req)) && Enabled(s, LateTag(write))
    ensures Apply(s, Delete(b, h, Broken(true, late))).held == Apply(s, Delete(b, h, Answered)).held
    ensures late ==> Request(StampOf(h), s.builds[b].phase.seen) in Apply(s, Delete(b, h, Broken(false, late))).lost
    ensures Holds(s.held, req.target) ==> req.target.slot !in Apply(s, LateDelete(req)).held
    ensures Holds(s.held, write.own) && write.tags != [] ==>
              var e := Apply(s, LateTag(write));
              write.own.slot in e.held && write.tags[0] in e.held[write.own.slot].labels
  {
  }
}
