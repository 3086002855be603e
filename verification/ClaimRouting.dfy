/**
 Claiming a warm microVM: the store samples a candidate node, follows its redirects, drops
 nodes that delivered nothing and tries again. Node answers are arbitrary. The point is that
 a claim must never be sent again once it may have delivered a VM.
 */
module ClaimRouting {
  import opened Common
  import NodeIndex

  datatype PoolCapacity = PoolCapacity(key: PoolKey, warm: int)

  datatype NodePools = NodePools(node: string, address: string, pools: seq<PoolCapacity>, templates: seq<PoolKey>)

  datatype Candidate = Candidate(node: string, addr: string, warm: int)

  /** What one claim request comes back with. */
  datatype Answer =
    | Delivered(id: string)
    | AtCapacity
    | Redirect(targets: seq<string>)
    | DialFailed
    | Http(status: int)
    | Unknown

  /** One request the store sent: where to, whether redirects were forbidden, and the answer. */
  datatype Exchange = Exchange(addr: string, noRedirect: bool, answer: Answer)

  datatype Outcome = Assigned(node: string, id: string) | NoCapacity | Refused(answer: Answer) | Unavailable

  /** A node's reply to the n-th request sent, at an address. */
  type Fleet = (nat, string) -> Answer

  function OrDefault(s: string, fallback: string): string {
    if s == "" then fallback else s
  }

  predicate PoolMatches(have: PoolKey, want: PoolKey) {
    && have.template == want.template
    && OrDefault(have.net, "none") == OrDefault(want.net, "none")
    && OrDefault(have.size, "small") == OrDefault(want.size, "small")
  }

  /** An unset net is "none" and an unset size "small"; everything else must be the same. */
  lemma PoolMatchesIff(have: PoolKey, want: PoolKey)
    ensures PoolMatches(have, want) <==>
            && have.template == want.template
            && (have.net == want.net || {have.net, want.net} == {"", "none"})
            && (have.size == want.size || {have.size, want.size} == {"", "small"})
  {
  }

  /** The answer counts as saying that no VM was handed over, so another node is asked. */
  predicate Undelivered(a: Answer) {
    a.AtCapacity? || a.Redirect? || a.DialFailed? || (a.Http? && a.status >= 500)
  }

  predicate TemplateGone(a: Answer) {
    a == Http(404)
  }

  predicate Advertises(nodes: seq<NodePools>, node: string, addr: string) {
    exists n :: n in nodes && n.node == node && n.address == addr
  }

  /** A node with an address and warm capacity for the pool. */
  predicate WarmAt(n: NodePools, pool: PoolKey) {
    n.address != "" && exists pc :: pc in n.pools && pc.warm > 0 && PoolMatches(pc.key, pool)
  }

  predicate HoldsTemplate(n: NodePools, pool: PoolKey) {
    n.address != "" && exists t :: t in n.templates && PoolMatches(t, pool)
  }

  /** Each node has one entry and a name, as every inventory source lists them. */
  predicate ListedOnce(nodes: seq<NodePools>) {
    && (forall n <- nodes :: n.node != "")
    && (forall i, j :: 0 <= i < j < |nodes| ==> nodes[i].node != nodes[j].node)
  }

  /** `c` is how the candidate list shows a warm pool of `n`. */
  predicate OffersWarm(n: NodePools, pool: PoolKey, c: Candidate) {
    && c.node == n.node && c.addr == n.address && n.address != ""
    && exists pc :: pc in n.pools && pc.warm > 0 && pc.warm == c.warm && PoolMatches(pc.key, pool)
  }

  predicate OffersTemplate(n: NodePools, pool: PoolKey, c: Candidate) {
    HoldsTemplate(n, pool) && c == Candidate(n.node, n.address, 1)
  }

  method WarmCandidates(nodes: seq<NodePools>, pool: PoolKey) returns (out: seq<Candidate>)
    ensures forall c :: c in out <==> exists n :: n in nodes && OffersWarm(n, pool, c)
  {
    out := [];
    for i := 0 to |nodes|
      invariant forall c :: c in out <==> exists n :: n in nodes[..i] && OffersWarm(n, pool, c)
    {
      var n := nodes[i];
      assert nodes[..i + 1] == nodes[..i] + [n];
      if n.address != "" {
        var more: seq<Candidate> := [];
        for j := 0 to |n.pools|
          invariant forall c :: c in more <==>
                      c.node == n.node && c.addr == n.address && exists pc ::
                          pc in n.pools[..j] && pc.warm > 0 && pc.warm == c.warm && PoolMatches(pc.key, pool)
        {
          var pc := n.pools[j];
          assert n.pools[..j + 1] == n.pools[..j] + [pc];
          if pc.warm > 0 && PoolMatches(pc.key, pool) {
            more := more + [Candidate(n.node, n.address, pc.warm)];
          }
        }
        assert n.pools[..|n.pools|] == n.pools;
        assert forall c :: c in more <==> OffersWarm(n, pool, c);
        out := out + more;
      }
    }
    assert nodes[..|nodes|] == nodes;
  }

  method TemplateCandidates(nodes: seq<NodePools>, pool: PoolKey) returns (out: seq<Candidate>)
    ensures forall c :: c in out <==> exists n :: n in nodes && OffersTemplate(n, pool, c)
  {
    out := [];
    for i := 0 to |nodes|
      invariant forall c :: c in out <==> exists n :: n in nodes[..i] && OffersTemplate(n, pool, c)
    {
      var n := nodes[i];
      assert nodes[..i + 1] == nodes[..i] + [n];
      if HoldsTemplate(n, pool) {
        assert OffersTemplate(n, pool, Candidate(n.node, n.address, 1));
        out := out + [Candidate(n.node, n.address, 1)];
      }
    }
    assert nodes[..|nodes|] == nodes;
  }

  /** The name of the first node at `addr`, empty when no node advertises it. */
  function NodeForAddress(nodes: seq<NodePools>, addr: string): (node: string)
    ensures node != "" ==> Advertises(nodes, node, addr)
    ensures (forall n <- nodes :: n.node != "") && (exists n :: n in nodes && n.address == addr) ==> node != ""
  {
    if nodes == [] then ""
    else if nodes[0].address == addr then nodes[0].node
    else
      var rest := NodeForAddress(nodes[1..], addr);
      assert forall n <- nodes :: n == nodes[0] || n in nodes[1..];
      rest
  }

  /** Every answer on record is the fleet's to that request. */
  predicate Faithful(fleet: Fleet, sent: seq<Exchange>) {
    forall k :: 0 <= k < |sent| ==> sent[k].answer == fleet(k, sent[k].addr)
  }

  /** Some request went to `addr` and delivered nothing. */
  predicate AskedInVain(sent: seq<Exchange>, addr: string) {
    exists k :: 0 <= k < |sent| && sent[k].addr == addr && Undelivered(sent[k].answer)
  }

  /** Some request went to `addr` and its answer lets the claim go on: nothing delivered, or the template gone. */
  predicate AskedOver(sent: seq<Exchange>, addr: string, promoted: bool) {
    exists k :: 0 <= k < |sent| && sent[k].addr == addr &&
      (Undelivered(sent[k].answer) || (promoted && TemplateGone(sent[k].answer)))
  }

  predicate AllUndelivered(sent: seq<Exchange>) {
    forall x <- sent :: Undelivered(x.answer)
  }

  /** The redirect walk: each known target in turn, until one delivers or may have. */
  method ClaimRedirected(nodes: seq<NodePools>, from: string, targets: seq<string>, fleet: Fleet, before: seq<Exchange>)
    returns (node: string, answer: Answer, walked: seq<Exchange>)
    requires Faithful(fleet, before)
    ensures Faithful(fleet, before + walked)
    ensures forall x <- walked :: x.noRedirect && x.addr in targets
    ensures Undelivered(answer) ==> answer == Redirect(targets) && node == from && AllUndelivered(walked)
    ensures Undelivered(answer) ==> forall t <- targets :: NodeForAddress(nodes, t) != "" ==> AskedInVain(walked, t)
    ensures !Undelivered(answer) ==>
              && walked != [] && AllUndelivered(walked[..|walked| - 1])
              && walked[|walked| - 1].answer == answer && Advertises(nodes, node, walked[|walked| - 1].addr)
  {
    walked := [];
    for i := 0 to |targets|
      invariant Faithful(fleet, before + walked)
      invariant forall x <- walked :: x.noRedirect && x.addr in targets
      invariant AllUndelivered(walked)
      invariant forall t <- targets[..i] :: NodeForAddress(nodes, t) != "" ==> AskedInVain(walked, t)
    {
      var target := targets[i];
      assert targets[..i + 1] == targets[..i] + [target];
      node := NodeForAddress(nodes, target);
      if node == "" {
        continue;
      }
      var x := Exchange(target, true, fleet(|before + walked|, target));
      ghost var was := walked;
      walked := walked + [x];
      assert before + walked == (before + was) + [x];
      answer := x.answer;
      if !Undelivered(answer) {
        assert walked[..|walked| - 1] == was;
        return;
      }
      assert walked[|walked| - 1] == x;
      forall t <- targets[..i + 1] | NodeForAddress(nodes, t) != ""
        ensures AskedInVain(walked, t)
      {
        if t in targets[..i] {
          var k :| 0 <= k < |was| && was[k].addr == t && Undelivered(was[k].answer);
          assert walked[k] == was[k];
        }
      }
    }
    assert targets[..|targets|] == targets;
    node, answer := from, Redirect(targets);
  }

  /** The warmer of two sampled candidates, the first of them if they are as warm. */
  method PickPowerOfTwo(candidates: seq<Candidate>, i: nat, j: nat) returns (best: Candidate)
    requires i < |candidates| && j < |candidates|
    ensures best == candidates[i] || best == candidates[j]
    ensures best.warm >= candidates[i].warm && best.warm >= candidates[j].warm
    ensures candidates[i].warm == candidates[j].warm ==> best == candidates[i]
  {
    best := if candidates[j].warm > candidates[i].warm then candidates[j] else candidates[i];
  }

  /** slices.DeleteFunc on the candidates a fruitless round rules out. */
  function Remaining(candidates: seq<Candidate>, node: string, targets: seq<string>): (r: seq<Candidate>)
    ensures forall c :: c in r <==> c in candidates && c.node != node && c.addr !in targets
    ensures |r| <= |candidates|
    ensures (exists c :: c in candidates && c.node == node) ==> |r| < |candidates|
  {
    if candidates == [] then []
    else
      var rest := Remaining(candidates[1..], node, targets);
      assert forall c <- candidates :: c == candidates[0] || c in candidates[1..];
      if candidates[0].node != node && candidates[0].addr !in targets then [candidates[0]] + rest else rest
  }

  /** No request after one that may have delivered: all but the last answer prove that nothing was handed over. */
  predicate OnlyLastMayDeliver(sent: seq<Exchange>, promoted: bool) {
    forall k :: 0 <= k < |sent| - 1 ==> Undelivered(sent[k].answer) || (promoted && TemplateGone(sent[k].answer))
  }

  /** Every answer on record lets the claim go on. */
  predicate MayGoOn(sent: seq<Exchange>, promoted: bool) {
    forall x <- sent :: Undelivered(x.answer) || (promoted && TemplateGone(x.answer))
  }

  /** One round: ask a candidate and follow its redirect. */
  method ClaimRound(nodes: seq<NodePools>, best: Candidate, fleet: Fleet, before: seq<Exchange>)
    returns (node: string, answer: Answer, targets: seq<string>, round: seq<Exchange>)
    requires Faithful(fleet, before) && Advertises(nodes, best.node, best.addr)
    ensures Faithful(fleet, before + round) && round != []
    ensures round[0].addr == best.addr && !round[0].noRedirect
    ensures AllUndelivered(round[..|round| - 1])
    ensures !Undelivered(answer) ==>
            round[|round| - 1].answer == answer && Advertises(nodes, node, round[|round| - 1].addr)
    ensures Undelivered(answer) ==> AllUndelivered(round)
    ensures Undelivered(answer) ==> forall t <- targets :: NodeForAddress(nodes, t) != "" ==> AskedInVain(round, t)
    ensures !round[0].answer.Redirect? ==> targets == [] && |round| == 1
  {
    var x := Exchange(best.addr, false, fleet(|before|, best.addr));
    round := [x];
    node, answer, targets := best.node, x.answer, [];
    assert round[..|round| - 1] == [];
    assert before + round == before + [x];
    if x.answer.Redirect? {
      targets := x.answer.targets;
      var walked;
      node, answer, walked := ClaimRedirected(nodes, best.node, targets, fleet, before + [x]);
      assert before + ([x] + walked) == before + [x] + walked;
      round := [x] + walked;
      if walked != [] {
        assert round[..|round| - 1] == [x] + walked[..|walked| - 1];
      } else {
        assert round[..|round| - 1] == [];
      }
      assert forall t :: AskedInVain(walked, t) ==> AskedInVain(round, t) by {
        forall t | AskedInVain(walked, t)
          ensures AskedInVain(round, t)
        {
          var k :| 0 <= k < |walked| && walked[k].addr == t && Undelivered(walked[k].answer);
          assert round[k + 1] == walked[k];
        }
      }
    }
  }

  lemma AskedGrows(sent: seq<Exchange>, more: seq<Exchange>, addr: string, promoted: bool)
    requires AskedOver(sent, addr, promoted) || AskedOver(more, addr, promoted)
    ensures AskedOver(sent + more, addr, promoted)
  {
    if AskedOver(sent, addr, promoted) {
      var k :| 0 <= k < |sent| && sent[k].addr == addr &&
        (Undelivered(sent[k].answer) || (promoted && TemplateGone(sent[k].answer)));
      assert (sent + more)[k] == sent[k];
    } else {
      var k :| 0 <= k < |more| && more[k].addr == addr &&
        (Undelivered(more[k].answer) || (promoted && TemplateGone(more[k].answer)));
      assert (sent + more)[|sent| + k] == more[k];
    }
  }

  /**
   A round that lets the claim go on leaves every candidate it rules out asked, unless a
   redirect ended in a template that is gone.
   */
  lemma RoundAsks(nodes: seq<NodePools>, candidates: seq<Candidate>, best: Candidate, targets: seq<string>,
          round: seq<Exchange>, promoted: bool)
    requires ListedOnce(nodes) && best in candidates && round != [] && round[0].addr == best.addr
    requires MayGoOn(round, promoted) && forall c <- candidates :: Advertises(nodes, c.node, c.addr)
    requires forall t <- targets :: NodeForAddress(nodes, t) != "" ==> AskedInVain(round, t)
    ensures forall c <- candidates :: c !in Remaining(candidates, best.node, targets) ==>
            AskedOver(round, c.addr, promoted)
  {
    forall c <- candidates | c !in Remaining(candidates, best.node, targets)
      ensures AskedOver(round, c.addr, promoted)
    {
      if c.node == best.node {
        var n :| n in nodes && n.node == c.node && n.address == c.addr;
        var m :| m in nodes && m.node == best.node && m.address == best.addr;
        assert n == m;
        assert round[0] in round;
      } else {
        assert AskedInVain(round, c.addr);
        var k :| 0 <= k < |round| && round[k].addr == c.addr && Undelivered(round[k].answer);
      }
    }
  }

  /** Appending a round to a record that may go on. */
  lemma RoundAppends(sent: seq<Exchange>, round: seq<Exchange>, promoted: bool)
    requires MayGoOn(sent, promoted) && round != [] && AllUndelivered(round[..|round| - 1])
    ensures OnlyLastMayDeliver(sent + round, promoted)
    ensures (sent + round)[|sent + round| - 1] == round[|round| - 1]
    ensures var a := round[|round| - 1].answer; Undelivered(a) || (promoted && TemplateGone(a)) ==>
            MayGoOn(sent + round, promoted)
  {
  }

  /** The candidates the claim started from: those left, or asked and passed over. */
  predicate Accounted(all: seq<Candidate>, left: seq<Candidate>, sent: seq<Exchange>, promoted: bool) {
    forall c <- all :: c in left || AskedOver(sent, c.addr, promoted)
  }

  predicate NoRedirect(sent: seq<Exchange>) {
    forall x <- sent :: !x.answer.Redirect?
  }

  lemma RoundAccounts(nodes: seq<NodePools>, all: seq<Candidate>, left: seq<Candidate>, best: Candidate,
          targets: seq<string>, sent: seq<Exchange>, round: seq<Exchange>, promoted: bool)
    requires ListedOnce(nodes) && best in left && round != [] && round[0].addr == best.addr && MayGoOn(round, promoted)
    requires forall c <- left :: Advertises(nodes, c.node, c.addr)
    requires forall t <- targets :: NodeForAddress(nodes, t) != "" ==> AskedInVain(round, t)
    requires Accounted(all, left, sent, promoted)
    ensures Accounted(all, Remaining(left, best.node, targets), sent + round, promoted)
  {
    RoundAsks(nodes, left, best, targets, round, promoted);
    forall c <- all | c !in Remaining(left, best.node, targets)
      ensures AskedOver(sent + round, c.addr, promoted)
    {
      AskedGrows(sent, round, c.addr, promoted);
    }
  }

  /** A claim whose candidates are all gone through: only a redirect on the promoted route can leave one unasked. */
  predicate Exhausted(nodes: seq<NodePools>, all: seq<Candidate>, left: seq<Candidate>, sent: seq<Exchange>,
          promoted: bool)
  {
    ListedOnce(nodes) && (promoted ==> NoRedirect(sent)) ==> Accounted(all, left, sent, promoted)
  }

  lemma RoundExhausts(nodes: seq<NodePools>, all: seq<Candidate>, left: seq<Candidate>, best: Candidate,
          targets: seq<string>, sent: seq<Exchange>, round: seq<Exchange>, promoted: bool, answer: Answer)
    requires best in left && round != [] && round[0].addr == best.addr && MayGoOn(round, promoted)
    requires forall c <- left :: Advertises(nodes, c.node, c.addr)
    requires Undelivered(answer) ==> forall t <- targets :: NodeForAddress(nodes, t) != "" ==> AskedInVain(round, t)
    requires !Undelivered(answer) ==> promoted
    requires !round[0].answer.Redirect? ==> targets == []
    requires Exhausted(nodes, all, left, sent, promoted)
    ensures Exhausted(nodes, all, Remaining(left, best.node, targets), sent + round, promoted)
  {
    if ListedOnce(nodes) && (promoted ==> NoRedirect(sent + round)) {
      assert forall x <- sent :: x in sent + round;
      assert round[0] in sent + round;
      RoundAccounts(nodes, all, left, best, targets, sent, round, promoted);
    }
  }

  /** The retry loop over a given candidate list. */
  method ClaimLoop(nodes: seq<NodePools>, all: seq<Candidate>, promoted: bool, fleet: Fleet)
    returns (r: Outcome, sent: seq<Exchange>)
    requires forall c <- all :: Advertises(nodes, c.node, c.addr)
    ensures Faithful(fleet, sent) && OnlyLastMayDeliver(sent, promoted) && !r.Unavailable?
    ensures r.Assigned? ==>
            sent != [] && sent[|sent| - 1].answer == Delivered(r.id) && Advertises(nodes, r.node, sent[|sent| - 1].addr)
    ensures r.Refused? ==>
            sent != [] && sent[|sent| - 1].answer == r.answer && !Undelivered(r.answer) && !r.answer.Delivered?
    ensures r.NoCapacity? ==> MayGoOn(sent, promoted) && Exhausted(nodes, all, [], sent, promoted)
    ensures r.Refused? && TemplateGone(r.answer) ==> !promoted
  {
    sent := [];
    var candidates := all;
    while candidates != []
      invariant Faithful(fleet, sent) && MayGoOn(sent, promoted)
      invariant forall c <- candidates :: Advertises(nodes, c.node, c.addr)
      invariant Exhausted(nodes, all, candidates, sent, promoted)
      decreases |candidates|
    {
      var i: nat :| i < |candidates|;
      var j: nat :| j < |candidates|;
      var best := PickPowerOfTwo(candidates, i, j);
      var node, answer, targets, round := ClaimRound(nodes, best, fleet, sent);
      RoundAppends(sent, round, promoted);
      if answer.Delivered? {
        return Assigned(node, answer.id), sent + round;
      }
      if !(Undelivered(answer) || (promoted && TemplateGone(answer))) {
        return Refused(answer), sent + round;
      }
      RoundMayGoOn(round, promoted, answer);
      RoundExhausts(nodes, all, candidates, best, targets, sent, round, promoted, answer);
      sent := sent + round;
      candidates := Remaining(candidates, best.node, targets);
    }
    return NoCapacity, sent;
  }

  lemma RoundMayGoOn(round: seq<Exchange>, promoted: bool, answer: Answer)
    requires round != [] && AllUndelivered(round[..|round| - 1])
    requires Undelivered(answer) || (promoted && TemplateGone(answer))
    requires if Undelivered(answer) then AllUndelivered(round) else round[|round| - 1].answer == answer
    ensures MayGoOn(round, promoted)
  {
    forall x <- round
      ensures Undelivered(x.answer) || (promoted && TemplateGone(x.answer))
    {
      var k :| 0 <= k < |round| && round[k] == x;
      if k < |round| - 1 {
        assert round[..|round| - 1][k] == x;
      }
    }
  }

  /** The answers after which a claim asks on, by what they are. */
  predicate PassesOn(a: Answer, promoted: bool) {
    match a
    case AtCapacity => true
    case Redirect(_) => true
    case DialFailed => true
    case Http(status) => status >= 500 || (promoted && status == 404)
    case Delivered(_) => false
    case Unknown => false
  }

  lemma PassesOnIs(a: Answer, promoted: bool)
    ensures Undelivered(a) || (promoted && TemplateGone(a)) <==> PassesOn(a, promoted)
  {
  }

  /** Some request went to `addr`, and its answer let the claim ask on. */
  predicate PassedOver(sent: seq<Exchange>, addr: string, promoted: bool) {
    exists k :: 0 <= k < |sent| && sent[k].addr == addr && PassesOn(sent[k].answer, promoted)
  }

  /** How the requests of a claim relate to its outcome. */
  predicate Concluded(r: Outcome, sent: seq<Exchange>, promoted: bool) {
    && (forall k :: 0 <= k < |sent| - 1 ==> PassesOn(sent[k].answer, promoted))
    && (r.Assigned? ==> sent != [] && sent[|sent| - 1].answer == Delivered(r.id))
    && (r.Refused? ==> sent != [] && sent[|sent| - 1].answer == r.answer
                       && (r.answer.Unknown? || (r.answer.Http? && !PassesOn(r.answer, promoted))))
    && (r.NoCapacity? ==> forall x <- sent :: PassesOn(x.answer, promoted))
  }

  predicate CoversWarm(nodes: seq<NodePools>, pool: PoolKey, candidates: seq<Candidate>) {
    forall n <- nodes :: WarmAt(n, pool) ==> exists c :: c in candidates && c.addr == n.address
  }

  predicate CoversHolders(nodes: seq<NodePools>, pool: PoolKey, candidates: seq<Candidate>) {
    forall n <- nodes :: HoldsTemplate(n, pool) ==> exists c :: c in candidates && c.addr == n.address
  }

  /** The route and its candidates: every warm node, else if the caller accepts one every template holder. */
  method ChooseRoute(nodes: seq<NodePools>, pool: PoolKey, wantPromoted: bool)
    returns (promoted: bool, candidates: seq<Candidate>)
    ensures promoted == OnPromotedRoute(nodes, pool, wantPromoted)
    ensures if promoted then CoversHolders(nodes, pool, candidates) else CoversWarm(nodes, pool, candidates)
    ensures forall c <- candidates :: Advertises(nodes, c.node, c.addr)
  {
    candidates := WarmCandidates(nodes, pool);
    WarmNodesOffer(nodes, pool, candidates);
    promoted := candidates == [] && wantPromoted;
    if promoted {
      candidates := TemplateCandidates(nodes, pool);
      HoldersOffer(nodes, pool, candidates);
    }
  }

  /**
   Claim over every sequence of node answers and every sampling: it ends; every answer but the
   last says that the node is full, elsewhere, unreachable or failing, or on the promoted route
   that the template is gone, so at most the last request may have delivered a VM; a success
   names a node advertising the address that delivered; a refusal is an answer of no such kind;
   and a no-capacity result means every warm node was asked, and on the promoted route, unless
   one redirected, every holder of the template.
   */
  method Claim(routing: bool, listing: Option<seq<NodePools>>, pool: PoolKey, wantPromoted: bool, fleet: Fleet)
    returns (r: Outcome, sent: seq<Exchange>)
    ensures Faithful(fleet, sent)
    ensures !routing || listing.None? <==> r.Unavailable?
    ensures r.Unavailable? ==> sent == []
    ensures listing.Some? ==> Concluded(r, sent, OnPromotedRoute(listing.value, pool, wantPromoted))
    ensures r.Assigned? ==> Advertises(listing.value, r.node, sent[|sent| - 1].addr)
    ensures r.NoCapacity? && ListedOnce(listing.value) ==>
              forall n <- listing.value :: WarmAt(n, pool) ==> PassedOver(sent, n.address, false)
    ensures r.NoCapacity? && ListedOnce(listing.value) && wantPromoted && NoRedirect(sent) &&
            (forall n <- listing.value :: !WarmAt(n, pool)) ==>
              forall n <- listing.value :: HoldsTemplate(n, pool) ==> PassedOver(sent, n.address, true)
  {
    sent := [];
    if !routing || listing.None? {
      return Unavailable, [];
    }
    var nodes := listing.value;
    var promoted, candidates := ChooseRoute(nodes, pool, wantPromoted);
    r := NoCapacity;
    if candidates != [] {
      r, sent := ClaimLoop(nodes, candidates, promoted, fleet);
    }
    ClaimConcludes(r, sent, promoted);
    EveryoneAsked(nodes, candidates, sent, promoted);
  }

  lemma ClaimConcludes(r: Outcome, sent: seq<Exchange>, promoted: bool)
    requires OnlyLastMayDeliver(sent, promoted) && (r.NoCapacity? ==> MayGoOn(sent, promoted))
    requires r.Assigned? ==> sent != [] && sent[|sent| - 1].answer == Delivered(r.id)
    requires r.Refused? ==> sent != [] && sent[|sent| - 1].answer == r.answer && !r.answer.Delivered?
    requires r.Refused? ==> !Undelivered(r.answer) && (TemplateGone(r.answer) ==> !promoted)
    ensures Concluded(r, sent, promoted)
  {
    SpelledOut([], sent, promoted);
    assert forall k :: 0 <= k < |sent| ==> sent[k] in sent;
  }

  lemma EveryoneAsked(nodes: seq<NodePools>, candidates: seq<Candidate>, sent: seq<Exchange>, promoted: bool)
    ensures ListedOnce(nodes) && (promoted ==> NoRedirect(sent)) && Exhausted(nodes, candidates, [], sent, promoted) ==>
              forall c <- candidates :: PassedOver(sent, c.addr, promoted)
  {
    SpelledOut(candidates, sent, promoted);
  }

  lemma SpelledOut(all: seq<Candidate>, sent: seq<Exchange>, promoted: bool)
    ensures forall x <- sent :: Undelivered(x.answer) || (promoted && TemplateGone(x.answer)) <==>
            PassesOn(x.answer, promoted)
    ensures Accounted(all, [], sent, promoted) ==> forall c <- all :: PassedOver(sent, c.addr, promoted)
  {
    forall x <- sent
      ensures Undelivered(x.answer) || (promoted && TemplateGone(x.answer)) <==> PassesOn(x.answer, promoted)
    {
      PassesOnIs(x.answer, promoted);
    }
    forall c <- all | AskedOver(sent, c.addr, promoted)
      ensures PassedOver(sent, c.addr, promoted)
    {
      var k :| 0 <= k < |sent| && sent[k].addr == c.addr &&
        (Undelivered(sent[k].answer) || (promoted && TemplateGone(sent[k].answer)));
      assert sent[k] in sent;
    }
  }

  lemma HoldersOffer(nodes: seq<NodePools>, pool: PoolKey, candidates: seq<Candidate>)
    requires forall c :: c in candidates <==> exists n :: n in nodes && OffersTemplate(n, pool, c)
    ensures CoversHolders(nodes, pool, candidates)
    ensures forall c <- candidates :: Advertises(nodes, c.node, c.addr)
  {
    forall n <- nodes | HoldsTemplate(n, pool)
      ensures exists c :: c in candidates && c.addr == n.address
    {
      assert OffersTemplate(n, pool, Candidate(n.node, n.address, 1));
    }
  }

  /** No node is warm for the pool and the caller accepts a promoted template. */
  predicate OnPromotedRoute(nodes: seq<NodePools>, pool: PoolKey, wantPromoted: bool) {
    wantPromoted && forall n <- nodes :: !WarmAt(n, pool)
  }

  lemma WarmNodesOffer(nodes: seq<NodePools>, pool: PoolKey, candidates: seq<Candidate>)
    requires forall c :: c in candidates <==> exists n :: n in nodes && OffersWarm(n, pool, c)
    ensures candidates == [] <==> forall n <- nodes :: !WarmAt(n, pool)
    ensures CoversWarm(nodes, pool, candidates)
    ensures forall c <- candidates :: Advertises(nodes, c.node, c.addr)
  {
    forall n <- nodes | WarmAt(n, pool)
      ensures exists c :: c in candidates && c.addr == n.address
    {
      var pc :| pc in n.pools && pc.warm > 0 && PoolMatches(pc.key, pool);
      assert OffersWarm(n, pool, Candidate(n.node, n.address, pc.warm));
    }
    if candidates != [] {
      assert candidates[0] in candidates;
    }
  }

  function NameKey(namespace: string, name: string): string {
    "name/" + namespace + "/" + name
  }

  function ClaimKey(namespace: string, id: string): string {
    "claim/" + namespace + "/" + id
  }

  /** What a successful claim leaves in the index: both the name and the claim id lead to the delivering node. */
  method RememberClaim(index: NodeIndex.Index, namespace: string, name: string, id: string, node: string)
    requires NodeIndex.Bounded(index.Value()) && node != ""
    modifies index
    ensures NodeIndex.Bounded(index.Value())
    ensures NodeIndex.Find(index.Value(), NameKey(namespace, name)) == Some(node)
    ensures NodeIndex.Find(index.Value(), ClaimKey(namespace, id)) == Some(node)
  {
    ghost var x := index.Value();
    var nameKey, claimKey := NameKey(namespace, name), ClaimKey(namespace, id);
    assert nameKey[0] != claimKey[0];
    index.Remember(nameKey, node);
    index.Remember(claimKey, node);
    NodeIndex.StoreBounded(x, nameKey, node);
    NodeIndex.StoreBounded(NodeIndex.Store(x, nameKey, node), claimKey, node);
  }
}
