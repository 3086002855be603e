/**
 Membership of a sandboxd mesh, rebuilt each tick from whatever the members answer and
 gossip. Go ranges over its maps in no fixed order, so every loop here picks its next
 element freely; the tick is specified by a relation that does not mention an order.
 */
module MeshMembership {
  import opened Common

  /** A node's inventory under its own key, the address it advertises. */
  datatype Inventory = Inventory(node: string, body: string)

  datatype Answer = Ok(inv: Inventory, peers: seq<string>) | Err

  datatype Member = Member(seed: bool, fails: nat, inv: Option<Inventory>)

  type Members = map<string, Member>
  type Answers = map<string, Answer>
  type Snapshot = map<string, Inventory>

  // ---------------------------------------------------------------- what a tick does

  ghost predicate Heard(answers: Answers) {
    exists a :: a in answers && answers[a].Ok?
  }

  ghost predicate Names(answers: Answers, p: string) {
    exists a :: a in answers && answers[a].Ok? && p in answers[a].peers
  }

  /** `a` answered and its node key is `k`. */
  ghost predicate AnswersAs(answers: Answers, a: string, k: string) {
    a in answers && answers[a].Ok? && answers[a].inv.node == k
  }

  ghost predicate AnsweredKey(answers: Answers, k: string) {
    exists b :: AnswersAs(answers, b, k)
  }

  function Age(m: Member, answer: Answer): Member {
    match answer
    case Ok(inv, _) => m.(fails := 0, inv := Some(inv))
    case Err => m.(fails := m.fails + 1)
  }

  /** A member is dropped for silence: not a seed, someone else answered, nobody names it, and it failed too often. */
  ghost predicate Silenced(members: Members, answers: Answers, maxStale: nat, a: string)
    requires a in members && a in answers
  {
    answers[a].Err? && !members[a].seed && Heard(answers) && !Names(answers, a) && members[a].fails + 1 > maxStale
  }

  /** After the first loop: every member aged by its answer, the silenced ones gone. */
  ghost predicate Aged(members: Members, answers: Answers, maxStale: nat, aged: Members)
    requires answers.Keys == members.Keys
  {
    && (forall a {:trigger a in aged} :: a in aged ==> a in members)
    && (forall a {:trigger a in aged} :: a in members ==>
          && (a in aged <==> !Silenced(members, answers, maxStale, a))
          && (a in aged ==> aged[a] == Age(members[a], answers[a])))
  }

  /**
   After the second loop: of the members that answered under one key, exactly the seeds
   remain if there is one, else exactly one, the member dialled at the key itself if it
   answered. Nobody else goes.
   */
  ghost predicate Deduped(aged: Members, answers: Answers, kept: Members)
    requires forall a <- aged :: a in answers
  {
    && (forall a {:trigger a in kept} :: a in kept ==> a in aged && kept[a] == aged[a])
    && (forall a {:trigger a in kept} {:trigger a in aged} :: a in aged && answers[a].Err? ==> a in kept)
    && (forall k {:trigger Decided(aged, answers, kept, k)} :: AnsweredBy(aged, answers, k) ==>
        Decided(aged, answers, kept, k))
  }

  ghost predicate AnsweredBy(aged: Members, answers: Answers, k: string) {
    exists a :: a in aged && AnswersAs(answers, a, k)
  }

  ghost predicate Decided(aged: Members, answers: Answers, kept: Members, k: string) {
    exists w :: KeepsFor(aged, answers, kept, k, w)
  }

  /**
   `w` decides for key `k`: it remains, and of the members answering as `k` the seeds remain with
   it if it is one, else none.
   */
  ghost predicate KeepsFor(aged: Members, answers: Answers, kept: Members, k: string, w: string) {
    && w in aged && w in kept && AnswersAs(answers, w, k)
    && (forall a {:trigger AnswersAs(answers, a, k)} :: a in aged && AnswersAs(answers, a, k) ==>
          if aged[w].seed then (a in kept <==> aged[a].seed)
          else !aged[a].seed && (a in kept <==> a == w) && (a == k ==> w == k))
  }

  /** After the last loop: every named address that is neither a member nor an answered key is dialled anew. */
  ghost predicate Grown(kept: Members, answers: Answers, members: Members) {
    && (forall a {:trigger a in kept} :: a in kept ==> a in members && members[a] == kept[a])
    && (forall a {:trigger a in members} :: a in members ==>
        a in kept || (members[a] == Member(false, 0, None) && Names(answers, a) && !AnsweredKey(answers, a)))
    && (forall p :: Names(answers, p) ==> p in members || AnsweredKey(answers, p))
  }

  predicate Fresh(m: Member, maxStale: nat, k: string) {
    m.inv.Some? && m.inv.value.node == k && m.fails <= maxStale
  }

  ghost predicate Freshest(members: Members, maxStale: nat, k: string, a: string) {
    a in members && Fresh(members[a], maxStale, k) && forall b <- members :: Fresh(members[b], maxStale, k) ==>
        members[a].fails <= members[b].fails
  }

  ghost predicate Shown(members: Members, maxStale: nat, snap: Snapshot, k: string) {
    k in snap && exists a :: Freshest(members, maxStale, k, a) && members[a].inv.value == snap[k]
  }

  /**
   The snapshot holds a key exactly when some member's inventory of it is not too stale, and then
   the freshest one.
   */
  ghost predicate Published(members: Members, maxStale: nat, snap: Snapshot) {
    && (forall a <- members :: members[a].inv.Some? && members[a].fails <= maxStale ==>
        members[a].inv.value.node in snap)
    && (forall k {:trigger Shown(members, maxStale, snap, k)} :: k in snap ==> Shown(members, maxStale, snap, k))
  }

  ghost predicate TickTo(members: Members, answers: Answers, maxStale: nat, members': Members, snap': Snapshot) {
    && answers.Keys == members.Keys
    && exists aged: Members, kept: Members ::
        Stages(members, answers, maxStale, aged, kept, members') && Published(members', maxStale, snap')
  }

  ghost predicate Stages(members: Members, answers: Answers, maxStale: nat, aged: Members, kept: Members,
          members': Members)
    requires answers.Keys == members.Keys
  {
    Aged(members, answers, maxStale, aged) && Deduped(aged, answers, kept) && Grown(kept, answers, members')
  }

  // ---------------------------------------------------------------- the loops

  class Source {
    const maxStale: nat
    var members: Members
    var snap: Snapshot

    constructor (seeds: seq<string>, maxStale: nat)
      ensures this.maxStale == maxStale && snap == map[]
      ensures members.Keys == (set s | s in seeds) && forall s <- seeds :: members[s] == Member(true, 0, None)
    {
      this.maxStale, members, snap := maxStale, map s | s in seeds :: Member(true, 0, None), map[];
    }

    /** One poll's answers, for any iteration order of every loop. */
    method Tick(answers: Answers)
      requires answers.Keys == members.Keys
      modifies this
      ensures TickTo(old(members), answers, maxStale, members, snap)
    {
      var named, heard := Tally(answers);
      ghost var before := members;
      var aged := AgeMembers(members, answers, maxStale, named, heard);
      var kept, owner := Dedupe(aged, answers);
      assert forall k :: k in owner <==> AnsweredKey(answers, k) by {
        forall k
          ensures k in owner <==> AnsweredKey(answers, k)
        {
          if b :| AnswersAs(answers, b, k) {
            assert b in aged;
          }
        }
      }
      members := Grow(kept, answers, named, owner);
      assert Stages(before, answers, maxStale, aged, kept, members);
      snap := Publish(members, maxStale);
    }
  }

  method Tally(answers: Answers) returns (named: set<string>, heard: bool)
    ensures heard == Heard(answers)
    ensures forall p :: p in named <==> Names(answers, p)
  {
    named, heard := {}, false;
    var todo := answers.Keys;
    while todo != {}
      invariant todo <= answers.Keys
      invariant heard <==> exists a :: a in answers && a !in todo && answers[a].Ok?
      invariant forall p :: p in named <==>
                exists a :: a in answers && a !in todo && answers[a].Ok? && p in answers[a].peers
      decreases |todo|
    {
      var a :| a in todo;
      todo := todo - {a};
      if answers[a].Ok? {
        heard := true;
        named := named + set p | p in answers[a].peers;
      }
    }
  }

  method AgeMembers(members: Members, answers: Answers, maxStale: nat, named: set<string>, heard: bool)
    returns (aged: Members)
    requires answers.Keys == members.Keys
    requires heard == Heard(answers) && forall p :: p in named <==> Names(answers, p)
    ensures Aged(members, answers, maxStale, aged)
    ensures forall a <- answers :: answers[a].Ok? ==> a in aged
  {
    aged := members;
    var todo := members.Keys;
    while todo != {}
      invariant todo <= members.Keys && aged.Keys <= members.Keys
      invariant forall a <- todo :: a in aged && aged[a] == members[a]
      invariant forall a <- members :: a !in todo ==> (a in aged <==> !Silenced(members, answers, maxStale, a))
      invariant forall a <- aged :: a !in todo ==> aged[a] == Age(members[a], answers[a])
      decreases |todo|
    {
      var a :| a in todo;
      todo := todo - {a};
      var m := Age(aged[a], answers[a]);
      if answers[a].Err? && !m.seed && heard && a !in named && m.fails > maxStale {
        aged := aged - {a};
      } else {
        aged := aged[a := m];
      }
    }
  }

  /** The dedupe loop's state: each visited answer's key has an owner, and the owner decides as KeepsFor says so far. */
  ghost predicate Owners(aged: Members, answers: Answers, visited: set<string>, kept: Members,
          owner: map<string, string>)
  {
    && (forall k <- owner ::
        owner[k] in visited && owner[k] in aged && owner[k] in kept && AnswersAs(answers, owner[k], k))
    && (forall a <- visited ::
        a in aged && a in answers && (answers[a].Ok? ==> OwnedWell(aged, answers[a].inv.node, a, kept, owner)))
  }

  ghost predicate OwnedWell(aged: Members, k: string, a: string, kept: Members, owner: map<string, string>) {
    && a in aged && k in owner && owner[k] in aged
    && if aged[owner[k]].seed then (a in kept <==> aged[a].seed)
       else !aged[a].seed && (a in kept <==> a == owner[k]) && (a == k ==> owner[k] == k)
  }

  lemma OwnersFirst(aged: Members, answers: Answers, visited: set<string>, kept: Members, owner: map<string, string>,
          a: string)
    requires Owners(aged, answers, visited, kept, owner) && a in aged && a in kept && a !in visited
    requires a in answers && answers[a].Ok? && answers[a].inv.node !in owner
    ensures Owners(aged, answers, visited + {a}, kept, owner[answers[a].inv.node := a])
  {
  }

  /** One more answer under a key that has an owner: both stay, the newcomer takes over, or it goes. */
  lemma OwnersNext(aged: Members, answers: Answers, visited: set<string>, kept: Members, owner: map<string, string>,
          a: string)
    requires Owners(aged, answers, visited, kept, owner) && a in aged && a in kept && a !in visited
    requires a in answers && answers[a].Ok? && answers[a].inv.node in owner
    ensures var k := answers[a].inv.node;
            var other := owner[k];
            if aged[a].seed && aged[other].seed then Owners(aged, answers, visited + {a}, kept, owner)
            else if aged[a].seed || (!aged[other].seed && a == k)
            then Owners(aged, answers, visited + {a}, kept - {other}, owner[k := a])
            else Owners(aged, answers, visited + {a}, kept - {a}, owner)
  {
  }

  method Dedupe(aged: Members, answers: Answers) returns (kept: Members, owner: map<string, string>)
    requires forall a <- aged :: a in answers
    ensures Deduped(aged, answers, kept)
    ensures forall k <- owner :: AnswersAs(answers, owner[k], k)
    ensures forall a <- aged :: answers[a].Ok? ==> answers[a].inv.node in owner
  {
    kept, owner := aged, map[];
    var todo := aged.Keys;
    while todo != {}
      invariant todo <= aged.Keys
      invariant forall a <- kept :: a in aged && kept[a] == aged[a]
      invariant forall a <- aged :: a in todo || answers[a].Err? ==> a in kept
      invariant Owners(aged, answers, aged.Keys - todo, kept, owner)
      decreases |todo|
    {
      var a :| a in todo;
      assert aged.Keys - (todo - {a}) == (aged.Keys - todo) + {a};
      assert aged.Keys - (todo - {a}) - {a} == aged.Keys - todo;
      todo := todo - {a};
      if answers[a].Ok? {
        var k := answers[a].inv.node;
        if k !in owner {
          OwnersFirst(aged, answers, aged.Keys - todo - {a}, kept, owner, a);
          owner := owner[k := a];
        } else {
          var other := owner[k];
          OwnersNext(aged, answers, aged.Keys - todo - {a}, kept, owner, a);
          if aged[a].seed && aged[other].seed {
          } else if aged[a].seed || (!aged[other].seed && a == k) {
            kept := kept - {other};
            owner := owner[k := a];
          } else {
            kept := kept - {a};
          }
        }
      }
    }
    assert aged.Keys - todo == aged.Keys;
    OwnersDecide(aged, answers, kept, owner);
  }

  lemma OwnersDecide(aged: Members, answers: Answers, kept: Members, owner: map<string, string>)
    requires (forall a <- aged :: a in answers) && Owners(aged, answers, aged.Keys, kept, owner)
    ensures forall k :: AnsweredBy(aged, answers, k) ==> Decided(aged, answers, kept, k)
  {
    forall k | AnsweredBy(aged, answers, k)
      ensures Decided(aged, answers, kept, k)
    {
      var a :| a in aged && AnswersAs(answers, a, k);
      assert a in aged.Keys && OwnedWell(aged, k, a, kept, owner);
      assert KeepsFor(aged, answers, kept, k, owner[k]) by {
        forall b <- aged | AnswersAs(answers, b, k)
          ensures OwnedWell(aged, k, b, kept, owner)
        {
          assert b in aged.Keys;
        }
      }
    }
  }

  method Grow(kept: Members, answers: Answers, named: set<string>, owner: map<string, string>)
    returns (members: Members)
    requires forall p :: p in named <==> Names(answers, p)
    requires forall k :: k in owner <==> AnsweredKey(answers, k)
    ensures Grown(kept, answers, members)
  {
    members := kept;
    var todo := named;
    while todo != {}
      invariant todo <= named
      invariant forall a <- kept :: a in members && members[a] == kept[a]
      invariant forall a <- members :: a in kept || (members[a] == Member(false, 0, None) && a in named && a !in owner)
      invariant forall p <- named :: p in todo || p in members || p in owner
      decreases |todo|
    {
      var p :| p in todo;
      todo := todo - {p};
      if p !in members && p !in owner {
        members := members[p := Member(false, 0, None)];
      }
    }
  }

  /** Among the members `visited`, `best` names a freshest one for each key that any of them shows. */
  ghost predicate BestSoFar(members: Members, maxStale: nat, visited: set<string>, best: map<string, string>) {
    && (forall k <- best :: best[k] in members && Fresh(members[best[k]], maxStale, k))
    && (forall a <- visited :: a in members && (Showable(members[a], maxStale) ==>
          var k := members[a].inv.value.node; k in best && members[best[k]].fails <= members[a].fails))
  }

  predicate Showable(m: Member, maxStale: nat) {
    m.inv.Some? && m.fails <= maxStale
  }

  lemma BestNext(members: Members, maxStale: nat, visited: set<string>, best: map<string, string>, a: string)
    requires BestSoFar(members, maxStale, visited, best) && a in members
    ensures BestSoFar(
              members, maxStale, visited + {a},
              if Showable(members[a], maxStale) && Improves(members, best, a)
              then best[members[a].inv.value.node := a]
              else best)
  {
  }

  predicate Improves(members: Members, best: map<string, string>, a: string)
    requires a in members && members[a].inv.Some? && forall k <- best :: best[k] in members
  {
    var k := members[a].inv.value.node;
    k !in best || members[a].fails < members[best[k]].fails
  }

  lemma BestIsFreshest(members: Members, maxStale: nat, best: map<string, string>, k: string)
    requires BestSoFar(members, maxStale, members.Keys, best) && k in best
    ensures Freshest(members, maxStale, k, best[k])
  {
    forall b <- members | Fresh(members[b], maxStale, k)
      ensures members[best[k]].fails <= members[b].fails
    {
      assert b in members.Keys;
    }
  }

  method Publish(members: Members, maxStale: nat) returns (snap: Snapshot)
    ensures Published(members, maxStale, snap)
  {
    var best: map<string, string> := map[];
    var todo := members.Keys;
    while todo != {}
      invariant todo <= members.Keys && BestSoFar(members, maxStale, members.Keys - todo, best)
      decreases |todo|
    {
      var a :| a in todo;
      BestNext(members, maxStale, members.Keys - todo, best, a);
      assert members.Keys - todo + {a} == members.Keys - (todo - {a});
      todo := todo - {a};
      if Showable(members[a], maxStale) && Improves(members, best, a) {
        best := best[members[a].inv.value.node := a];
      }
    }
    assert members.Keys - todo == members.Keys;
    snap := map k | k in best :: members[best[k]].inv.value;
    forall k <- snap
      ensures Shown(members, maxStale, snap, k)
    {
      BestIsFreshest(members, maxStale, best, k);
    }
    assert forall a <- members :: a in members.Keys;
  }

  // ---------------------------------------------------------------- one tick

  /** Seeds stay members and keep their mark; nobody else ever gets one. */
  lemma TickKeepsSeeds(members: Members, answers: Answers, maxStale: nat, members': Members, snap': Snapshot, a: string)
    requires TickTo(members, answers, maxStale, members', snap')
    ensures a in members && members[a].seed <==> a in members' && members'[a].seed
  {
    var aged: Members, kept: Members :| Stages(members, answers, maxStale, aged, kept, members');
    if a in members && members[a].seed {
      assert a in aged;
      if answers[a].Ok? {
        assert Decided(aged, answers, kept, answers[a].inv.node);
        assert AnswersAs(answers, a, answers[a].inv.node);
      }
      assert a in kept;
    }
  }

  /**
   A member that does not answer goes in this tick exactly if it is no seed, some member
   answered, no answer names it, and it had used up its allowance.
   */
  lemma TickDropsIffSilent(members: Members, answers: Answers, maxStale: nat, members': Members, snap': Snapshot,
          a: string)
    requires TickTo(members, answers, maxStale, members', snap')
    requires a in members && answers[a].Err?
    ensures a !in members' <==>
            && !members[a].seed && members[a].fails >= maxStale
            && (exists b :: b in answers && answers[b].Ok?)
            && (forall b <- answers :: answers[b].Ok? ==> a !in answers[b].peers)
  {
    var aged: Members, kept: Members :| Stages(members, answers, maxStale, aged, kept, members');
    assert a in kept <==> a in aged;
    assert Names(answers, a) ==> !Silenced(members, answers, maxStale, a);
  }

  /** Nobody becomes a member unnamed: a newcomer is an address some answer names and no answer has as its key. */
  lemma NewcomersAreNamed(members: Members, answers: Answers, maxStale: nat, members': Members, snap': Snapshot,
          a: string)
    requires TickTo(members, answers, maxStale, members', snap')
    requires a in members' && a !in members
    ensures members'[a] == Member(false, 0, None)
    ensures exists b :: b in answers && answers[b].Ok? && a in answers[b].peers
    ensures forall b <- answers :: answers[b].Ok? ==> answers[b].inv.node != a
  {
    var aged: Members, kept: Members :| Stages(members, answers, maxStale, aged, kept, members');
    assert a !in aged && a !in kept;
    assert forall b <- answers :: answers[b].Ok? && answers[b].inv.node == a ==> AnswersAs(answers, b, a);
  }

  /** A tick that nobody answers changes no membership. */
  lemma UnheardTickKeepsMembers(members: Members, answers: Answers, maxStale: nat, members': Members, snap': Snapshot)
    requires TickTo(members, answers, maxStale, members', snap') && !Heard(answers)
    ensures members'.Keys == members.Keys
  {
    var aged: Members, kept: Members :| Stages(members, answers, maxStale, aged, kept, members');
    forall a: string
      ensures a in members <==> a in members'
    {
      UnheardKeeps(members, answers, maxStale, aged, kept, members', a);
    }
  }

  lemma UnheardKeeps(members: Members, answers: Answers, maxStale: nat, aged: Members, kept: Members, members': Members,
          a: string)
    requires answers.Keys == members.Keys && Stages(members, answers, maxStale, aged, kept, members') && !Heard(answers)
    ensures a in members <==> a in members'
  {
    assert a in members ==> a in aged && answers[a].Err?;
  }

  /** After a tick every named address is a member, or the key of a member that answered. */
  lemma NamedIsCovered(members: Members, answers: Answers, maxStale: nat, members': Members, snap': Snapshot, p: string)
    requires TickTo(members, answers, maxStale, members', snap') && Names(answers, p)
    ensures p in members' || exists b :: b in members' && AnswersAs(answers, b, p)
  {
    var aged: Members, kept: Members :| Stages(members, answers, maxStale, aged, kept, members');
    if p !in members' {
      var b :| AnswersAs(answers, b, p);
      assert b in aged;
      assert Decided(aged, answers, kept, p);
      var w :| KeepsFor(aged, answers, kept, p, w);
      assert w in members';
    }
  }

  /** `a` is still the member it was, not an address just dialled anew. */
  predicate Remains(members: Members, a: string) {
    a in members && members[a].inv.Some?
  }

  /** One answering member through the stages. */
  lemma AnswererThroughStages(members: Members, answers: Answers, maxStale: nat, aged: Members, kept: Members,
          members': Members, a: string)
    requires answers.Keys == members.Keys && Stages(members, answers, maxStale, aged, kept, members') &&
             a in answers && answers[a].Ok?
    ensures a in aged && aged[a] == members[a].(fails := 0, inv := Some(answers[a].inv))
    ensures Remains(members', a) <==> a in kept
    ensures Remains(members', a) ==> members'[a] == aged[a]
    ensures a in members' <==> Remains(members', a) || (Names(answers, a) && !AnsweredKey(answers, a))
  {
  }

  /** The member that decides for an answered key, and what it keeps. */
  lemma KeyThroughStages(members: Members, answers: Answers, maxStale: nat, aged: Members, kept: Members,
          members': Members, k: string)
    returns (w: string)
    requires answers.Keys == members.Keys && Stages(members, answers, maxStale, aged, kept, members') &&
             AnsweredKey(answers, k)
    ensures KeepsFor(aged, answers, kept, k, w) && Remains(members', w)
  {
    var b :| AnswersAs(answers, b, k);
    AnswererThroughStages(members, answers, maxStale, aged, kept, members', b);
    assert Decided(aged, answers, kept, k);
    w :| KeepsFor(aged, answers, kept, k, w);
    AnswererThroughStages(members, answers, maxStale, aged, kept, members', w);
  }

  /**
   Dedupe, for every order the maps are walked in: of the members that answered as `k`,
   exactly the seeds remain if a seed did; otherwise exactly one remains, the one dialled at
   `k` itself if it answered.
   */
  lemma AnsweredKeyIsDeduped(members: Members, answers: Answers, maxStale: nat, members': Members, snap': Snapshot,
          k: string)
    returns (w: string)
    requires TickTo(members, answers, maxStale, members', snap') && AnsweredKey(answers, k)
    ensures AnswersAs(answers, w, k) && Remains(members', w)
    ensures forall a :: AnswersAs(answers, a, k) ==>
              if exists s :: AnswersAs(answers, s, k) && members[s].seed
              then (Remains(members', a) <==> members[a].seed)
              else (Remains(members', a) <==> a == w) && (a == k ==> w == k)
  {
    var aged: Members, kept: Members :| Stages(members, answers, maxStale, aged, kept, members') &&
        Published(members', maxStale, snap');
    w := KeyThroughStages(members, answers, maxStale, aged, kept, members', k);
    forall a | AnswersAs(answers, a, k)
      ensures a in aged && (Remains(members', a) <==> a in kept) && aged[a].seed == members[a].seed
    {
      AnswererThroughStages(members, answers, maxStale, aged, kept, members', a);
    }
  }

  /**
   An answering member that dedupe removed is a member again in the same tick, dialled anew
   and without an inventory, exactly when gossip names its address and no member answered
   under that address as its key.
   */
  lemma DedupedIsRedialledIffNamed(members: Members, answers: Answers, maxStale: nat, members': Members,
          snap': Snapshot, a: string)
    requires TickTo(members, answers, maxStale, members', snap') && a in answers && answers[a].Ok? &&
             !Remains(members', a)
    ensures a in members' <==> Names(answers, a) && !AnsweredKey(answers, a)
  {
  }

  /** A member with no failures and an inventory answered in this very tick. */
  lemma UnfailedAnsweredNow(members: Members, answers: Answers, maxStale: nat, members': Members, snap': Snapshot,
          a: string)
    requires TickTo(members, answers, maxStale, members', snap')
    requires a in members' && members'[a].fails == 0 && members'[a].inv.Some?
    ensures a in answers && answers[a].Ok? && answers[a].inv == members'[a].inv.value
  {
  }

  /** An answered key has a member that remains with no failures. */
  lemma AnsweredKeyRemains(members: Members, answers: Answers, maxStale: nat, members': Members, snap': Snapshot,
          k: string)
    returns (w: string)
    requires TickTo(members, answers, maxStale, members', snap') && AnsweredKey(answers, k)
    ensures w in members' && members'[w].fails == 0 && HoldsKey(members'[w], k)
    ensures Published(members', maxStale, snap')
  {
    var aged: Members, kept: Members :| Stages(members, answers, maxStale, aged, kept, members') &&
        Published(members', maxStale, snap');
    w := KeyThroughStages(members, answers, maxStale, aged, kept, members', k);
    AnswererThroughStages(members, answers, maxStale, aged, kept, members', w);
  }

  /** The snapshot shows every answered key, with an inventory read in this very tick from a member that remains. */
  lemma AnsweredKeyIsShown(members: Members, answers: Answers, maxStale: nat, members': Members, snap': Snapshot,
          k: string)
    requires TickTo(members, answers, maxStale, members', snap') && AnsweredKey(answers, k)
    ensures k in snap' && exists a :: AnswersAs(answers, a, k) && Remains(members', a) && snap'[k] == answers[a].inv
  {
    var w := AnsweredKeyRemains(members, answers, maxStale, members', snap', k);
    var best := FreshIsShown(members', maxStale, snap', k, w);
    UnfailedAnsweredNow(members, answers, maxStale, members', snap', best);
  }

  lemma FreshIsShown(members: Members, maxStale: nat, snap: Snapshot, k: string, w: string) returns (best: string)
    requires Published(members, maxStale, snap) && w in members && members[w].fails == 0 && HoldsKey(members[w], k)
    ensures k in snap && best in members && HoldsKey(members[best], k) && members[best].fails == 0 &&
            members[best].inv.value == snap[k]
  {
    assert Shown(members, maxStale, snap, k);
    best :| Freshest(members, maxStale, k, best) && members[best].inv.value == snap[k];
    assert Fresh(members[w], maxStale, k);
  }

  // ---------------------------------------------------------------- whole runs

  /** A run of ticks from seeds alone: member maps and snapshots between ticks, and each tick's answers. */
  ghost predicate Run(seeds: set<string>, maxStale: nat, ms: seq<Members>, ss: seq<Snapshot>, ticks: seq<Answers>) {
    && |ms| == |ss| == |ticks| + 1
    && ms[0].Keys == seeds && (forall a <- ms[0] :: ms[0][a] == Member(true, 0, None))
    && forall i {:trigger TickAt(maxStale, ms, ss, ticks, i)} :: 0 <= i < |ticks| ==> TickAt(maxStale, ms, ss, ticks, i)
  }

  /** The i-th tick of a run. */
  ghost predicate TickAt(maxStale: nat, ms: seq<Members>, ss: seq<Snapshot>, ticks: seq<Answers>, i: int)
    requires |ms| == |ss| == |ticks| + 1 && 0 <= i < |ticks|
  {
    TickTo(ms[i], ticks[i], maxStale, ms[i + 1], ss[i + 1])
  }

  /** In every run, exactly the seeds carry the seed mark, and every seed is always a member. */
  lemma {:induction false} SeedsStay(seeds: set<string>, maxStale: nat, ms: seq<Members>, ss: seq<Snapshot>,
          ticks: seq<Answers>, i: nat, a: string)
    requires Run(seeds, maxStale, ms, ss, ticks) && i <= |ticks|
    ensures a in seeds <==> a in ms[i] && ms[i][a].seed
  {
    if i > 0 {
      SeedsStay(seeds, maxStale, ms, ss, ticks, i - 1, a);
      assert TickAt(maxStale, ms, ss, ticks, i - 1);
      TickKeepsSeeds(ms[i - 1], ticks[i - 1], maxStale, ms[i], ss[i], a);
    }
  }

  /** What a tick does to a member's count: one more for silence; none after an answer, or when it was no member. */
  lemma TickCountsSilence(members: Members, answers: Answers, maxStale: nat, members': Members, snap': Snapshot,
          a: string)
    requires TickTo(members, answers, maxStale, members', snap') && a in members'
    ensures members'[a].fails > 0 ==> a in members && answers[a].Err? && members'[a].fails == members[a].fails + 1
    ensures members'[a].fails == 0 ==> a !in members || answers[a].Ok?
  {
    var aged: Members, kept: Members :| Stages(members, answers, maxStale, aged, kept, members');
    assert a in kept ==> a in aged;
  }

  /**
   A member's failure count is the length of its current streak of silent ticks: it was a
   silent member in that many ticks, and in the one before it answered or was no member.
   */
  lemma {:induction false} FailsCountSilence(seeds: set<string>, maxStale: nat, ms: seq<Members>, ss: seq<Snapshot>,
          ticks: seq<Answers>, i: nat, a: string)
    requires Run(seeds, maxStale, ms, ss, ticks) && i <= |ticks| && a in ms[i]
    ensures var start := i - ms[i][a].fails;
            && start >= 0
            && (forall j :: start <= j < i ==> a in ms[j] && a in ticks[j] && ticks[j][a].Err?)
            && (start > 0 ==> a !in ms[start - 1] || (a in ticks[start - 1] && ticks[start - 1][a].Ok?))
  {
    if i > 0 {
      assert TickAt(maxStale, ms, ss, ticks, i - 1);
      TickCountsSilence(ms[i - 1], ticks[i - 1], maxStale, ms[i], ss[i], a);
      if ms[i][a].fails > 0 {
        FailsCountSilence(seeds, maxStale, ms, ss, ticks, i - 1, a);
      }
    }
  }

  /**
   In every run, a silent member goes in a tick exactly if it is no seed, some member answered
   that tick, none named it, and it was a silent member in that tick and the MaxStale before it.
   */
  lemma SilenceDropsIff(seeds: set<string>, maxStale: nat, ms: seq<Members>, ss: seq<Snapshot>, ticks: seq<Answers>,
          i: nat, a: string)
    requires Run(seeds, maxStale, ms, ss, ticks) && i < |ticks|
    requires a in ms[i] && a in ticks[i] && ticks[i][a].Err?
    ensures a !in ms[i + 1] <==>
            && a !in seeds && i >= maxStale
            && (exists b :: b in ticks[i] && ticks[i][b].Ok?)
            && (forall b <- ticks[i] :: ticks[i][b].Ok? ==> a !in ticks[i][b].peers)
            && forall j :: i - maxStale <= j <= i ==> SilentMember(ms, ticks, j, a)
  {
    SeedsStay(seeds, maxStale, ms, ss, ticks, i, a);
    FailsCountSilence(seeds, maxStale, ms, ss, ticks, i, a);
    assert TickAt(maxStale, ms, ss, ticks, i);
    TickDropsIffSilent(ms[i], ticks[i], maxStale, ms[i + 1], ss[i + 1], a);
    if ms[i][a].fails < maxStale <= i {
      assert !SilentMember(ms, ticks, i - ms[i][a].fails - 1, a);
    }
  }

  predicate SilentMember(ms: seq<Members>, ticks: seq<Answers>, j: int, a: string) {
    0 <= j < |ticks| && j < |ms| && a in ms[j] && a in ticks[j] && ticks[j][a].Err?
  }

  predicate HoldsKey(m: Member, k: string) {
    m.inv.Some? && m.inv.value.node == k
  }

  /** Every member whose last answer was `k` is silent this tick, and nobody answers as `k`. */
  ghost predicate Silent(members: Members, answers: Answers, k: string) {
    && answers.Keys == members.Keys
    && (forall a <- members :: HoldsKey(members[a], k) ==> answers[a].Err?)
    && !AnsweredKey(answers, k)
  }

  /** The freshest inventory of `k` is `f` failures old. */
  ghost predicate OldestFails(members: Members, k: string, f: nat) {
    && (exists a :: a in members && HoldsKey(members[a], k) && members[a].fails == f)
    && (forall a <- members :: HoldsKey(members[a], k) ==> members[a].fails >= f)
  }

  ghost predicate TooStale(members: Members, k: string, maxStale: nat) {
    forall a <- members :: HoldsKey(members[a], k) ==> members[a].fails > maxStale
  }

  /**
   The freshest inventory of `k` is `f` failures old, or all are too stale to show if `f` is more
   than the allowance.
   */
  ghost predicate KeyAge(members: Members, k: string, maxStale: nat, f: nat) {
    if f <= maxStale then OldestFails(members, k, f) else TooStale(members, k, maxStale)
  }

  /** Who holds `k` after a silent tick held it before, one failure fresher. */
  lemma SilentAges(members: Members, answers: Answers, maxStale: nat, members': Members, snap': Snapshot, k: string,
          a: string)
    requires TickTo(members, answers, maxStale, members', snap') && Silent(members, answers, k)
    ensures a in members' && HoldsKey(members'[a], k) ==>
            a in members && HoldsKey(members[a], k) && members'[a].fails == members[a].fails + 1
    ensures a in members && HoldsKey(members[a], k) && members[a].fails < maxStale ==>
            a in members' && HoldsKey(members'[a], k)
  {
    var aged: Members, kept: Members :| Stages(members, answers, maxStale, aged, kept, members');
    if a in members' && HoldsKey(members'[a], k) {
      assert a in kept && a in aged;
      assert answers[a].Ok? ==> AnswersAs(answers, a, k);
    }
    if a in members && HoldsKey(members[a], k) && members[a].fails < maxStale {
      assert a in aged && a in kept;
    }
  }

  lemma SilentStep(members: Members, answers: Answers, maxStale: nat, members': Members, snap': Snapshot, k: string,
          f: nat)
    requires TickTo(members, answers, maxStale, members', snap') && Silent(members, answers, k)
    requires KeyAge(members, k, maxStale, f)
    ensures KeyAge(members', k, maxStale, f + 1)
    ensures k in snap' <==> f + 1 <= maxStale
  {
    forall a: string
      ensures a in members' && HoldsKey(members'[a], k) ==>
              a in members && HoldsKey(members[a], k) && members'[a].fails == members[a].fails + 1
    {
      SilentAges(members, answers, maxStale, members', snap', k, a);
    }
    if f + 1 <= maxStale {
      var a :| a in members && HoldsKey(members[a], k) && members[a].fails == f;
      SilentAges(members, answers, maxStale, members', snap', k, a);
      assert a in members' && members'[a].fails == f + 1;
    } else {
      assert k in snap' ==> Shown(members', maxStale, snap', k);
    }
  }

  /**
   Silence over a run: if some member answered as `k` in tick `t` and from then on every
   holder of `k` is silent and nobody answers as `k`, the key stays in the snapshot for
   exactly MaxStale more ticks and is gone afterwards, whatever gossip says.
   */
  lemma {:induction false} SilentKeyLeavesOnTime(seeds: set<string>, maxStale: nat, ms: seq<Members>, ss: seq<Snapshot>,
          ticks: seq<Answers>, k: string, t: nat, j: nat)
    requires Run(seeds, maxStale, ms, ss, ticks) && t + 1 + j <= |ticks| && AnsweredKey(ticks[t], k)
    requires forall i :: t < i <= t + j ==> SilentAt(ms, ticks, k, i)
    ensures k in ss[t + 1 + j] <==> j <= maxStale
    ensures KeyAge(ms[t + 1 + j], k, maxStale, j)
  {
    var i := t + j;
    assert TickAt(maxStale, ms, ss, ticks, i);
    if j == 0 {
      AnsweredStartsAtZero(ms[i], ticks[i], maxStale, ms[i + 1], ss[i + 1], k);
    } else {
      SilentKeyLeavesOnTime(seeds, maxStale, ms, ss, ticks, k, t, j - 1);
      assert SilentAt(ms, ticks, k, i);
      SilentStep(ms[i], ticks[i], maxStale, ms[i + 1], ss[i + 1], k, j - 1);
    }
  }

  ghost predicate SilentAt(ms: seq<Members>, ticks: seq<Answers>, k: string, i: int) {
    0 <= i < |ms| && i < |ticks| && Silent(ms[i], ticks[i], k)
  }

  lemma AnsweredStartsAtZero(members: Members, answers: Answers, maxStale: nat, members': Members, snap': Snapshot,
          k: string)
    requires TickTo(members, answers, maxStale, members', snap') && AnsweredKey(answers, k)
    ensures k in snap' && OldestFails(members', k, 0)
  {
    AnsweredKeyIsShown(members, answers, maxStale, members', snap', k);
    var a :| AnswersAs(answers, a, k) && Remains(members', a) && snap'[k] == answers[a].inv;
    AnswererHolds(members, answers, maxStale, members', snap', a, k);
  }

  lemma AnswererHolds(members: Members, answers: Answers, maxStale: nat, members': Members, snap': Snapshot, a: string,
          k: string)
    requires TickTo(members, answers, maxStale, members', snap') && Remains(members', a) && AnswersAs(answers, a, k)
    ensures members'[a].fails == 0 && HoldsKey(members'[a], k)
  {
  }
}
