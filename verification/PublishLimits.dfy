/**
 Where the safety of the publish protocol stops: exactly which deletes and tags may hit a
 generation other than the one meant, the runs in which they do, and exactly which guarantees
 of the fleet rule them out.
 */
module PublishLimits {
  import opened Common
  import opened TemplatePublish

  // ---------------------------------------------------------------- one delete, one tag

  /** The copies in `held` are among the promotes in `promoted`. */
  ghost predicate Within(held: map<Slot, Generation>, promoted: set<Stamp>) {
    forall slot <- held :: Stamp(slot, held[slot].digest, held[slot].created) in promoted
  }

  /** Whatever the nodes hold by then, a delete sent for `h` removes at most the generation that was observed. */
  ghost predicate RemovesOnlySeen(h: Holder, promoted: set<Stamp>) {
    forall held: map<Slot, Generation> ::
      Within(held, promoted) && SlotOf(h) in held && SlotOf(h) !in DeleteAt(held, SlotOf(h), h.digest) ==>
        Holds(held, StampOf(h))
  }

  /**
   A delete is exact exactly when the slot has seen no other promote, or the holder reported
   a digest that no other promote of the slot repeats.
   */
  lemma DeleteIsExactIff(h: Holder, promoted: set<Stamp>)
    ensures RemovesOnlySeen(h, promoted) <==>
            forall p <- promoted :: p.slot == SlotOf(h) && p != StampOf(h) ==> h.digest != "" && p.digest != h.digest
  {
    if p :| p in promoted && p.slot == SlotOf(h) && p != StampOf(h) && (h.digest == "" || p.digest == h.digest) {
      var held := map[SlotOf(h) := Generation(p.digest, p.created, map[])];
      assert Within(held, promoted) && SlotOf(h) !in DeleteAt(held, SlotOf(h), h.digest);
      assert !Holds(held, StampOf(h));
    }
  }

  /**
   A build that is about to delete `h` while another promotes `gen` over it as the newest: the
   newest is lost exactly when `h` reported no digest or `gen` repeats its digest.
   */
  lemma OvertakenIsLostIff(s: State, b: int, h: Holder, c: int, gen: Generation)
    requires b in s.builds && s.builds[b].phase.Deleting? && h in s.builds[b].phase.todo
    requires c in s.builds && s.builds[c].phase.Building? && s.builds[c].template == h.key.template
    requires Recorded(s) && NewestHeld(s) && Newer(s.promoted, h.key.template, gen.created)
    ensures var over := Promote(c, SlotOf(h), gen, true);
            && Enabled(s, over) && Enabled(Apply(s, over), Delete(b, h, Answered))
            && (!NewestHeld(Apply(Apply(s, over), Delete(b, h, Answered))) <==>
                h.digest == "" || gen.digest == h.digest)
  {
    var over := Promote(c, SlotOf(h), gen, true);
    var s1 := Apply(s, over);
    var s2 := Apply(s1, Delete(b, h, Answered));
    if h.digest == "" || gen.digest == h.digest {
      forall slot <- s2.held | Owned(slot, h.key.template)
        ensures s2.held[slot].created < gen.created
      {
        assert slot in s.held && s2.held[slot] == s.held[slot];
      }
      assert !Covered(s2.held, Stamp(SlotOf(h), gen.digest, gen.created));
    } else {
      PromoteKeepsNewest(Env(false, false, false, true, false), s, over);
      SameHeldKeepsNewest(s1, s2);
    }
  }

  /**
   A build that is about to tag its generation while another promotes `gen` over it: the tags
   land on `gen`, and the publish reports success, exactly when the build's own promote
   reported no digest or `gen` repeats it. Otherwise nothing is written and the publish fails.
   */
  lemma TagLandsElsewhereIff(s: State, b: int, c: int, gen: Generation)
    requires b in s.builds && s.builds[b].phase.Tagging?
    requires c in s.builds && s.builds[c].phase.Building? && Owned(s.builds[b].own.slot, s.builds[c].template)
    ensures var own, over := s.builds[b].own, Promote(c, s.builds[b].own.slot, gen, true);
            && Enabled(s, over) && Enabled(Apply(s, over), Tag(b, Answered))
            && var s1, s2 := Apply(s, over), Apply(Apply(s, over), Tag(b, Answered));
            && (s2.builds[b].phase.Done? <==> own.digest == "" || gen.digest == own.digest)
            && (s2.builds[b].phase.Done? ==>
                  s2.held[own.slot] == gen.(labels := LabelsFor(s.builds[b].tags, own.digest)))
            && (!s2.builds[b].phase.Done? ==> s2.builds[b].phase.Failed? && s2.held == s1.held)
  {
  }

  // ---------------------------------------------------------------- runs that lose the newest

  /** A legal run can be continued by any step its last state allows. */
  lemma {:induction false} Extend(env: Env, s: State, steps: seq<Step>, step: Step)
    requires Legal(env, s, steps)
    requires Enabled(Exec(env, s, steps), step) && Guaranteed(env, Exec(env, s, steps), step)
    ensures Legal(env, s, steps + [step])
    ensures Exec(env, s, steps + [step]) == Apply(Exec(env, s, steps), step)
    decreases |steps|
  {
    if steps == [] {
      assert Legal(env, Apply(s, step), []);
      assert [] + [step] == [step];
    } else {
      Extend(env, Apply(s, steps[0]), steps[1..], step);
      assert (steps + [step])[1..] == steps[1..] + [step];
    }
  }

  /** Two copies of one template on one node under different keys, `h` the older one. */
  predicate Pair(env: Env, h: Holder, mine: Holder) {
    && h.created < mine.created && h.node == mine.node && h.key != mine.key && h.key.template == mine.key.template
    && (env.reported ==> h.digest != "" && mine.digest != "")
  }

  /** Build 0 promoted `mine` beside the older `h` and is in `phase`; build 1 waits. */
  ghost predicate Scene(e: State, h: Holder, mine: Holder, tags: seq<string>, phase: Phase) {
    && e.held.Keys == {SlotOf(h), SlotOf(mine)} && Holds(e.held, StampOf(h)) && Holds(e.held, StampOf(mine))
    && e.promoted == {StampOf(h), StampOf(mine)}
    && 0 in e.builds && e.builds[0].template == h.key.template && e.builds[0].own == StampOf(mine)
    && e.builds[0].tags == tags && e.builds[0].phase == phase && e.held[SlotOf(mine)].labels == map[]
    && 1 in e.builds && e.builds[1].template == h.key.template && e.builds[1].phase.Building?
  }

  lemma ScenePromoted(env: Env, h: Holder, mine: Holder, tags: seq<string>) returns (s: State, steps: seq<Step>)
    requires Pair(env, h, mine)
    ensures Init(env, s) && Legal(env, s, steps) && Scene(Exec(env, s, steps), h, mine, tags, Promoted)
  {
    s := State(map[SlotOf(h) := Generation(h.digest, h.created, map[])], map[], {StampOf(h)}, {}, {});
    steps := [];
    Extend(env, s, steps, Begin(0, h.key.template, tags));
    steps := steps + [Begin(0, h.key.template, tags)];
    Extend(env, s, steps, Begin(1, h.key.template, []));
    steps := steps + [Begin(1, h.key.template, [])];
    var promote := Promote(0, SlotOf(mine), Generation(mine.digest, mine.created, map[]), true);
    Extend(env, s, steps, promote);
    steps := steps + [promote];
  }

  lemma SceneRead(e: State, h: Holder, mine: Holder, tags: seq<string>)
    requires Scene(e, h, mine, tags, Reading({h.node}, [])) && h.node == mine.node &&
             h.key.template == mine.key.template
    ensures Enabled(e, ReadNode(0, h.node, [h, mine]))
    ensures Scene(Apply(e, ReadNode(0, h.node, [h, mine])), h, mine, tags, Reading({}, [h, mine]))
  {
    assert [] + [h, mine] == [h, mine];
    assert {h.node} - {h.node} == {};
  }

  lemma SceneDecided(env: Env, e: State, h: Holder, mine: Holder, tags: seq<string>)
    requires Pair(env, h, mine) && Scene(e, h, mine, tags, Reading({}, [h, mine]))
    ensures Enabled(e, Decide(0)) && Scene(Apply(e, Decide(0)), h, mine, tags, Deleting({h}, false, StampOf(mine)))
  {
    assert [h, mine][1..] == [mine];
    assert IndexOfOwn([mine], mine.node, mine.key) == Some(0);
    assert OlderThan([h, mine], mine.created) == {h};
  }

  /** In any fleet, a run leads to a publish that is about to delete `h` while another build waits. */
  lemma SceneIsReachable(env: Env, h: Holder, mine: Holder, tags: seq<string>) returns (s: State, steps: seq<Step>)
    requires Pair(env, h, mine)
    ensures Init(env, s) && Legal(env, s, steps)
    ensures Scene(Exec(env, s, steps), h, mine, tags, Deleting({h}, false, StampOf(mine)))
  {
    s, steps := ScenePromoted(env, h, mine, tags);
    Extend(env, s, steps, ListNodes(0, {h.node}));
    steps := steps + [ListNodes(0, {h.node})];
    SceneRead(Exec(env, s, steps), h, mine, tags);
    Extend(env, s, steps, ReadNode(0, h.node, [h, mine]));
    steps := steps + [ReadNode(0, h.node, [h, mine])];
    SceneDecided(env, Exec(env, s, steps), h, mine, tags);
    Extend(env, s, steps, Decide(0));
    steps := steps + [Decide(0)];
  }

  /** `gen` may be promoted over `h` in a fleet of `env`, and a delete of `h` would then take it. */
  predicate Takes(env: Env, h: Holder, mine: Holder, gen: Generation) {
    && Pair(env, h, mine) && mine.created < gen.created && (h.digest == "" || gen.digest == h.digest)
    && (env.reported ==> gen.digest != "") && (env.unrepeated && gen.digest != "" ==> gen.digest != h.digest)
  }

  lemma SceneIsSound(e: State, h: Holder, mine: Holder, tags: seq<string>, phase: Phase)
    requires Scene(e, h, mine, tags, phase)
    ensures Recorded(e) && NewestHeld(e)
  {
    assert forall slot <- e.held :: slot in {SlotOf(h), SlotOf(mine)};
    forall p <- e.promoted
      ensures Covered(e.held, p)
    {
      assert p.slot in e.held;
    }
  }

  lemma SceneLoses(env: Env, e: State, h: Holder, mine: Holder, tags: seq<string>, gen: Generation)
    requires Takes(env, h, mine, gen) && Scene(e, h, mine, tags, Deleting({h}, false, StampOf(mine)))
    ensures var over := Promote(1, SlotOf(h), gen, true);
            && Enabled(e, over) && Guaranteed(env, e, over) && Enabled(Apply(e, over), Delete(0, h, Answered))
            && !NewestHeld(Apply(Apply(e, over), Delete(0, h, Answered)))
  {
    SceneIsSound(e, h, mine, tags, Deleting({h}, false, StampOf(mine)));
    OvertakenIsLostIff(e, 0, h, 1, gen);
  }

  /** From there a promote over `h` that the fleet admits is lost if `h` had no digest or it repeats it. */
  lemma OvertakingRunLoses(env: Env, h: Holder, mine: Holder, gen: Generation) returns (s: State, steps: seq<Step>)
    requires Takes(env, h, mine, gen)
    ensures Init(env, s) && Legal(env, s, steps) && !NewestHeld(Exec(env, s, steps))
  {
    s, steps := SceneIsReachable(env, h, mine, []);
    SceneLoses(env, Exec(env, s, steps), h, mine, [], gen);
    var over := Promote(1, SlotOf(h), gen, true);
    Extend(env, s, steps, over);
    steps := steps + [over];
    Extend(env, s, steps, Delete(0, h, Answered));
    steps := steps + [Delete(0, h, Answered)];
  }

  const OLD_KEY := PoolKey("app", "none", "small")
  const NEW_KEY := PoolKey("app", "none", "large")

  /**
   A publish reads an old copy without a digest, a newer build promotes over it, and the delete
   removes the newer one.
   */
  lemma EmptyDigestLosesNewest(env: Env) returns (s: State, steps: seq<Step>)
    requires !env.reported
    ensures Init(env, s) && Legal(env, s, steps) && !NewestHeld(Exec(env, s, steps))
  {
    s, steps := OvertakingRunLoses(
      env, Holder("n", OLD_KEY, "", 1), Holder("n", NEW_KEY, "d2", 2), Generation("d3", 3, map[]));
  }

  /** The same with every delete carrying a digest: the newer build has the bytes, so the digest, of the old copy. */
  lemma RepeatedDigestLosesNewest(env: Env) returns (s: State, steps: seq<Step>)
    requires !env.unrepeated
    ensures Init(env, s) && Legal(env, s, steps) && !NewestHeld(Exec(env, s, steps))
  {
    s, steps := OvertakingRunLoses(
      env, Holder("n", OLD_KEY, "d1", 1), Holder("n", NEW_KEY, "d2", 2), Generation("d1", 3, map[]));
  }

  /** A clock that goes back on one slot: a promote replaces a newer stamp by an older one. */
  lemma BackwardStampLosesNewest(env: Env) returns (s: State, steps: seq<Step>)
    requires !env.monotone && !env.increasing
    ensures Init(env, s) && Legal(env, s, steps) && !NewestHeld(Exec(env, s, steps))
  {
    var slot := Slot("n", "", OLD_KEY);
    s := State(map[slot := Generation("d1", 1, map[])], map[], {Stamp(slot, "d1", 1)}, {}, {});
    steps := [];
    Extend(env, s, steps, Begin(0, "app", []));
    steps := steps + [Begin(0, "app", [])];
    var promote := Promote(0, slot, Generation("d0", 0, map[]), true);
    Extend(env, s, steps, promote);
    steps := steps + [promote];
    assert !Covered(Exec(env, s, steps).held, Stamp(slot, "d1", 1));
  }

  ghost predicate AlwaysHeld(env: Env) {
    forall s, steps {:trigger Legal(env, s, steps)} ::
      Init(env, s) && Legal(env, s, steps) ==> NewestHeld(Exec(env, s, steps))
  }

  /**
   The newest promote of every template is held in every run exactly when every generation
   reports a digest, no slot repeats one, and stamps do not go back.
   */
  lemma NewestIsAlwaysHeldIff(env: Env)
    ensures AlwaysHeld(env) <==> env.reported && env.unrepeated && (env.monotone || env.increasing)
  {
    if env.reported && env.unrepeated && (env.monotone || env.increasing) {
      forall s, steps | Init(env, s) && Legal(env, s, steps)
        ensures NewestHeld(Exec(env, s, steps))
      {
        InitInv(env, s);
        ReportedCarry(env, s, steps);
        RunInv(env, s, steps);
      }
    } else if !env.reported {
      var s, steps := EmptyDigestLosesNewest(env);
    } else if !env.unrepeated {
      var s, steps := RepeatedDigestLosesNewest(env);
    } else {
      var s, steps := BackwardStampLosesNewest(env);
    }
  }

  // ---------------------------------------------------------------- runs that tag another build's generation

  /** The step writes labels, now or late, onto a generation that is not the tagging build's own. */
  ghost predicate Mistags(s: State, step: Step)
    requires Enabled(s, step)
  {
    var write := Tagger(s, step);
    write.Some? && Apply(s, step).held != s.held && !Holds(s.held, write.value.own)
  }

  /** Copies on nodes the publish does not list, as it may if the fleet need not list every holder. */
  ghost predicate Apart(env: Env, apart: map<Slot, Generation>, mine: Holder) {
    && (apart != map[] ==> !env.listed)
    && (forall slot <- apart :: slot.node != mine.node && Owned(slot, mine.key.template))
    && (forall slot <- apart :: apart[slot].created < mine.created && (env.reported ==> apart[slot].digest != ""))
  }

  ghost function StampsOf(held: map<Slot, Generation>): set<Stamp> {
    set slot | slot in held :: Stamp(slot, held[slot].digest, held[slot].created)
  }

  /** Build 0 promoted `mine` beside the copies `apart` and is in `phase`; build 1 waits. */
  ghost predicate Alone(e: State, apart: map<Slot, Generation>, mine: Holder, tags: seq<string>, phase: Phase) {
    && e.held == apart[SlotOf(mine) := Generation(mine.digest, mine.created, map[])]
    && e.promoted == StampsOf(apart) + {StampOf(mine)}
    && 0 in e.builds && e.builds[0] == Build(mine.key.template, tags, phase, StampOf(mine))
    && 1 in e.builds && e.builds[1].template == mine.key.template && e.builds[1].phase.Building?
  }

  lemma AlonePromoted(env: Env, apart: map<Slot, Generation>, mine: Holder, tags: seq<string>)
    returns (s: State, steps: seq<Step>)
    requires Apart(env, apart, mine) && (env.reported ==> mine.digest != "")
    ensures Init(env, s) && Legal(env, s, steps) && Alone(Exec(env, s, steps), apart, mine, tags, Promoted)
  {
    s, steps := State(apart, map[], StampsOf(apart), {}, {}), [];
    Extend(env, s, steps, Begin(0, mine.key.template, tags));
    steps := steps + [Begin(0, mine.key.template, tags)];
    Extend(env, s, steps, Begin(1, mine.key.template, []));
    steps := steps + [Begin(1, mine.key.template, [])];
    var promote := Promote(0, SlotOf(mine), Generation(mine.digest, mine.created, map[]), true);
    assert SlotOf(mine) !in apart;
    Extend(env, s, steps, promote);
    steps := steps + [promote];
  }

  lemma AloneListed(env: Env, e: State, apart: map<Slot, Generation>, mine: Holder, tags: seq<string>)
    requires Apart(env, apart, mine) && Alone(e, apart, mine, tags, Promoted)
    ensures Enabled(e, ListNodes(0, {mine.node})) && Guaranteed(env, e, ListNodes(0, {mine.node}))
    ensures Alone(Apply(e, ListNodes(0, {mine.node})), apart, mine, tags, Reading({mine.node}, []))
  {
  }

  lemma AloneRead(env: Env, e: State, apart: map<Slot, Generation>, mine: Holder, tags: seq<string>)
    requires Apart(env, apart, mine) && Alone(e, apart, mine, tags, Reading({mine.node}, []))
    ensures Enabled(e, ReadNode(0, mine.node, [mine]))
    ensures Alone(Apply(e, ReadNode(0, mine.node, [mine])), apart, mine, tags, Reading({}, [mine]))
  {
    assert [] + [mine] == [mine];
    assert {mine.node} - {mine.node} == {};
  }

  lemma AloneDecided(e: State, apart: map<Slot, Generation>, mine: Holder, tags: seq<string>)
    requires Alone(e, apart, mine, tags, Reading({}, [mine]))
    ensures Enabled(e, Decide(0))
    ensures Alone(Apply(e, Decide(0)), apart, mine, tags, Deleting({}, false, StampOf(mine)))
  {
    assert OlderThan([mine], mine.created) == {};
  }

  /** In such a fleet a run takes a publish that finds nothing to delete to its tags, or to its end without any. */
  lemma AloneIsReachable(env: Env, apart: map<Slot, Generation>, mine: Holder, tags: seq<string>)
    returns (s: State, steps: seq<Step>)
    requires Apart(env, apart, mine) && (env.reported ==> mine.digest != "")
    ensures Init(env, s) && Legal(env, s, steps)
    ensures Alone(Exec(env, s, steps), apart, mine, tags, if tags == [] then Done else Tagging)
  {
    s, steps := AlonePromoted(env, apart, mine, tags);
    AloneListed(env, Exec(env, s, steps), apart, mine, tags);
    Extend(env, s, steps, ListNodes(0, {mine.node}));
    steps := steps + [ListNodes(0, {mine.node})];
    AloneRead(env, Exec(env, s, steps), apart, mine, tags);
    Extend(env, s, steps, ReadNode(0, mine.node, [mine]));
    steps := steps + [ReadNode(0, mine.node, [mine])];
    AloneDecided(Exec(env, s, steps), apart, mine, tags);
    Extend(env, s, steps, Decide(0));
    steps := steps + [Decide(0)];
    Extend(env, s, steps, DeletesReturn(0));
    steps := steps + [DeletesReturn(0)];
  }

  /** A legal run that ends with tags on another build's generation, without digests or with a repeated one. */
  lemma OvertakingRunMistags(env: Env) returns (s: State, steps: seq<Step>, tag: Step)
    requires !env.reported || !env.unrepeated
    ensures Init(env, s) && Legal(env, s, steps)
    ensures Enabled(Exec(env, s, steps), tag) && Mistags(Exec(env, s, steps), tag)
  {
    var digest := if env.reported then "d1" else "";
    var mine := Holder("n", OLD_KEY, digest, 1);
    s, steps := AloneIsReachable(env, map[], mine, ["v1"]);
    var gen := Generation(digest, 2, map[]);
    var over := Promote(1, SlotOf(mine), gen, true);
    tag := Tag(0, Answered);
    TagLandsElsewhereIff(Exec(env, s, steps), 0, 1, gen);
    Extend(env, s, steps, over);
    steps := steps + [over];
    assert "v1" in LabelsFor(["v1"], digest) && "v1" !in gen.labels;
  }

  ghost predicate AlwaysTagsOwn(env: Env) {
    forall s, steps, tag {:trigger Legal(env, s, steps), Carries(tag)} ::
      Init(env, s) && Legal(env, s, steps) && Enabled(Exec(env, s, steps), tag) ==> !Mistags(Exec(env, s, steps), tag)
  }

  /**
   Tags land only on the tagging build's own generation, in every run, exactly when digests are
   reported and unrepeated.
   */
  lemma TagsAlwaysOwnIff(env: Env)
    ensures AlwaysTagsOwn(env) <==> env.reported && env.unrepeated
  {
    if env.reported && env.unrepeated {
      forall s, steps, tag | Init(env, s) && Legal(env, s, steps) && Enabled(Exec(env, s, steps), tag)
        ensures !Mistags(Exec(env, s, steps), tag)
      {
        InitInv(env, s);
        ReportedCarry(env, s, steps);
        RunSound(env, s, steps);
        TagIsOwn(Exec(env, s, steps), tag);
      }
    } else {
      var s, steps, tag := OvertakingRunMistags(env);
      assert Carries(tag);
    }
  }

  lemma TagIsOwn(e: State, tag: Step)
    requires Sound(e) && Unrepeated(e.promoted) && AllReported(e) && Enabled(e, tag)
    ensures !Mistags(e, tag)
  {
    if tag.Tag? {
      assert BuildInv(e, e.builds[tag.b]);
    }
  }

  // ---------------------------------------------------------------- runs that do not converge

  /** A build done as the newest, and a later one that promotes elsewhere with an older stamp: both copies are held. */
  lemma BackwardStampKeepsTwo(env: Env) returns (s: State, steps: seq<Step>)
    requires !env.increasing
    ensures Init(env, s) && Legal(env, s, steps)
    ensures NewestDone(Exec(env, s, steps), 0) && !OnlyOwn(Exec(env, s, steps), 0)
  {
    var mine, slot := Holder("n", OLD_KEY, "d2", 2), Slot("m", "", OLD_KEY);
    s, steps := AloneIsReachable(env, map[], mine, []);
    var promote := Promote(1, slot, Generation("d1", 1, map[]), true);
    Extend(env, s, steps, promote);
    steps := steps + [promote];
    assert slot in Exec(env, s, steps).held && Owned(slot, "app");
  }

  /** A node the publish does not list keeps its older copy. */
  lemma UnlistedNodeKeepsOld(env: Env) returns (s: State, steps: seq<Step>)
    requires !env.listed
    ensures Init(env, s) && Legal(env, s, steps)
    ensures NewestDone(Exec(env, s, steps), 0) && !OnlyOwn(Exec(env, s, steps), 0)
  {
    var mine, slot := Holder("n", OLD_KEY, "d2", 2), Slot("m", "", OLD_KEY);
    s, steps := AloneIsReachable(env, map[slot := Generation("d1", 1, map[])], mine, []);
    assert slot in Exec(env, s, steps).held && Owned(slot, "app");
  }

  ghost predicate AlwaysConverges(env: Env) {
    forall s, steps, b {:trigger NewestDone(Exec(env, s, steps), b)} ::
      Init(env, s) && Legal(env, s, steps) && NewestDone(Exec(env, s, steps), b) ==> OnlyOwn(Exec(env, s, steps), b)
  }

  /**
   A newest build that has published with success leaves no copy but its own, in every run,
   exactly when promotes are stamped in the order they take effect and every holding node is
   listed.
   */
  lemma ConvergesAlwaysIff(env: Env)
    ensures AlwaysConverges(env) <==> env.increasing && env.listed
  {
    if env.increasing && env.listed {
      forall s, steps, b | Init(env, s) && Legal(env, s, steps) && NewestDone(Exec(env, s, steps), b)
        ensures OnlyOwn(Exec(env, s, steps), b)
      {
        PublishConverges(env, s, steps, b);
      }
    } else if !env.increasing {
      var s, steps := BackwardStampKeepsTwo(env);
    } else {
      var s, steps := UnlistedNodeKeepsOld(env);
    }
  }
}
