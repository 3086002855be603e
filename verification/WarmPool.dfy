/**
 The warm-pool driver's arithmetic: spreading each pool's replicas over the nodes, summing
 the targets per node and key into one PUT, and apportioning the live warm counts back to
 the pools of a key. Nothing may be lost or invented on the way.
 */
module WarmPool {
  import opened Common
  import opened Ordering

  /** A schedulable node with its live warm count per key; a key it does not report is 0. */
  datatype NodeView = NodeView(name: string, warmBy: map<PoolKey, nat>)

  /** A pool resolved to its key, with its target per node name. */
  datatype DesiredPool = DesiredPool(key: PoolKey, targets: map<string, nat>)

  predicate DistinctNames(nodes: seq<NodeView>) {
    forall i, j :: 0 <= i < j < |nodes| ==> nodes[i].name != nodes[j].name
  }

  function Clamp(replicas: int): (r: nat)
    ensures r >= replicas && (r == replicas || r == 0)
  {
    if replicas > 0 then replicas else 0
  }

  /** A Go map read: an absent key is 0. */
  function Get(m: map<PoolKey, nat>, key: PoolKey): nat {
    if key in m then m[key] else 0
  }

  function WarmOf(n: NodeView, key: PoolKey): nat {
    Get(n.warmBy, key)
  }

  function TargetOn(dp: DesiredPool, name: string): nat {
    if name in dp.targets then dp.targets[name] else 0
  }

  // ---------------------------------------------------------------- sums

  /** Sum of a map's values over a set of its keys; AddTo shows the order of choice does not matter. */
  ghost function SumOver(keys: set<string>, m: map<string, nat>): nat
    requires keys <= m.Keys
  {
    if keys == {} then 0
    else
      var k :| k in keys;
      m[k] + SumOver(keys - {k}, m)
  }

  lemma {:induction false} AddTo(keys: set<string>, m: map<string, nat>, k: string)
    requires keys <= m.Keys && k in keys
    ensures SumOver(keys, m) == m[k] + SumOver(keys - {k}, m)
    decreases |keys|
  {
    var x :| x in keys && SumOver(keys, m) == m[x] + SumOver(keys - {x}, m);
    if x != k {
      AddTo(keys - {x}, m, k);
      AddTo(keys - {k}, m, x);
      assert keys - {x} - {k} == keys - {k} - {x};
    }
  }

  /** A pool's whole target. */
  ghost function PoolTarget(dp: DesiredPool): nat {
    SumOver(dp.targets.Keys, dp.targets)
  }

  /** poolTarget ranges over the map in any order. */
  method SumTargets(dp: DesiredPool) returns (total: nat)
    ensures total == PoolTarget(dp)
  {
    total := 0;
    var todo := dp.targets.Keys;
    while todo != {}
      invariant todo <= dp.targets.Keys && total + SumOver(todo, dp.targets) == PoolTarget(dp)
      decreases |todo|
    {
      var k :| k in todo;
      AddTo(todo, dp.targets, k);
      total := total + dp.targets[k];
      todo := todo - {k};
    }
  }

  /** What a pool's targets add up to over a list of nodes. */
  function TargetSum(dp: DesiredPool, nodes: seq<NodeView>): nat {
    if nodes == [] then 0 else TargetSum(dp, nodes[..|nodes| - 1]) + TargetOn(dp, nodes[|nodes| - 1].name)
  }

  // ---------------------------------------------------------------- spreading replicas

  /** What distribute gives the i-th of n nodes: the base, one more for the first `total % n`. */
  function Share(total: nat, n: nat, i: nat): nat
    requires n > 0
  {
    total / n + (if i < total % n then 1 else 0)
  }

  /** The shares of the first `i` nodes. */
  ghost predicate SpreadTo(targets: map<string, nat>, total: nat, nodes: seq<NodeView>, i: nat)
    requires i <= |nodes| && |nodes| > 0
  {
    && targets.Keys == FirstNames(nodes, i)
    && (DistinctNames(nodes) ==>
          forall k :: 0 <= k < i ==> nodes[k].name in targets && targets[nodes[k].name] == Share(total, |nodes|, k))
  }

  lemma SpreadNext(targets: map<string, nat>, total: nat, nodes: seq<NodeView>, i: nat)
    requires i < |nodes| && SpreadTo(targets, total, nodes, i)
    ensures SpreadTo(targets[nodes[i].name := Share(total, |nodes|, i)], total, nodes, i + 1)
  {
    assert FirstNames(nodes, i + 1) == FirstNames(nodes, i) + {nodes[i].name};
  }

  /** distribute: every node's share of the replicas, negative counts as none. */
  method Distribute(replicas: int, nodes: seq<NodeView>) returns (targets: map<string, nat>)
    ensures targets.Keys == set i | 0 <= i < |nodes| :: nodes[i].name
    ensures DistinctNames(nodes) ==> Spread(targets, replicas, nodes)
  {
    targets := map[];
    if |nodes| == 0 {
      return;
    }
    var total := Clamp(replicas);
    var base, remainder := total / |nodes|, total % |nodes|;
    for i := 0 to |nodes|
      invariant SpreadTo(targets, total, nodes, i)
    {
      var t := base;
      SpreadNext(targets, total, nodes, i);
      if i < remainder {
        t := t + 1;
      }
      targets := targets[nodes[i].name := t];
    }
  }

  /** Shares over the first i of n nodes. */
  function ShareSum(total: nat, n: nat, i: nat): nat
    requires n > 0
  {
    if i == 0 then 0 else ShareSum(total, n, i - 1) + Share(total, n, i - 1)
  }

  lemma {:induction false} ShareSumIs(total: nat, n: nat, i: nat)
    requires n > 0 && i <= n
    ensures ShareSum(total, n, i) == i * (total / n) + (if i < total % n then i else total % n)
  {
    if i > 0 {
      ShareSumIs(total, n, i - 1);
      assert i * (total / n) == (i - 1) * (total / n) + total / n;
    }
  }

  /** `targets` is distribute's answer for these replicas and nodes. */
  predicate Spread(targets: map<string, nat>, replicas: int, nodes: seq<NodeView>) {
    && (forall i :: 0 <= i < |nodes| ==>
        nodes[i].name in targets && targets[nodes[i].name] == Share(Clamp(replicas), |nodes|, i))
    && targets.Keys == (set i | 0 <= i < |nodes| :: nodes[i].name)
  }

  lemma {:induction false} SpreadPrefix(dp: DesiredPool, replicas: int, nodes: seq<NodeView>, i: nat)
    requires Spread(dp.targets, replicas, nodes) && i <= |nodes| && |nodes| > 0
    ensures TargetSum(dp, nodes[..i]) == ShareSum(Clamp(replicas), |nodes|, i)
  {
    if i > 0 {
      assert nodes[..i][..i - 1] == nodes[..i - 1];
      SpreadPrefix(dp, replicas, nodes, i - 1);
    }
  }

  lemma SharesAddUp(total: nat, n: nat)
    requires n > 0
    ensures ShareSum(total, n, n) == total
  {
    ShareSumIs(total, n, n);
  }

  /** One pool: the per-node targets add up to the replicas and differ by at most one. */
  lemma SpreadConserves(dp: DesiredPool, replicas: int, nodes: seq<NodeView>)
    requires Spread(dp.targets, replicas, nodes) && |nodes| > 0
    ensures TargetSum(dp, nodes) == Clamp(replicas)
  {
    SpreadPrefix(dp, replicas, nodes, |nodes|);
    assert nodes[..|nodes|] == nodes;
    SharesAddUp(Clamp(replicas), |nodes|);
  }

  lemma SpreadIsEven(dp: DesiredPool, replicas: int, nodes: seq<NodeView>, i: nat, j: nat)
    requires Spread(dp.targets, replicas, nodes) && i < |nodes| && j < |nodes|
    ensures TargetOn(dp, nodes[i].name) - TargetOn(dp, nodes[j].name) <= 1
    ensures i <= j ==> TargetOn(dp, nodes[i].name) >= TargetOn(dp, nodes[j].name)
  {
  }

  ghost function FirstNames(nodes: seq<NodeView>, i: nat): set<string>
    requires i <= |nodes|
  {
    set k | 0 <= k < i :: nodes[k].name
  }

  lemma FirstNamesStep(nodes: seq<NodeView>, i: nat)
    requires DistinctNames(nodes) && 0 < i <= |nodes|
    ensures nodes[i - 1].name in FirstNames(nodes, i) && FirstNames(nodes, i) <= FirstNames(nodes, |nodes|)
    ensures FirstNames(nodes, i) - {nodes[i - 1].name} == FirstNames(nodes, i - 1)
  {
  }

  lemma {:induction false} PrefixTarget(dp: DesiredPool, nodes: seq<NodeView>, i: nat)
    requires DistinctNames(nodes) && i <= |nodes| && FirstNames(nodes, |nodes|) == dp.targets.Keys
    ensures FirstNames(nodes, i) <= dp.targets.Keys &&
            SumOver(FirstNames(nodes, i), dp.targets) == TargetSum(dp, nodes[..i])
  {
    if i > 0 {
      PrefixTarget(dp, nodes, i - 1);
      FirstNamesStep(nodes, i);
      AddTo(FirstNames(nodes, i), dp.targets, nodes[i - 1].name);
      assert nodes[..i][..i - 1] == nodes[..i - 1];
    }
  }

  /** poolTarget of a spread pool is its replica count again. */
  lemma PoolTargetIsReplicas(dp: DesiredPool, replicas: int, nodes: seq<NodeView>)
    requires Spread(dp.targets, replicas, nodes) && DistinctNames(nodes) && |nodes| > 0
    ensures PoolTarget(dp) == Clamp(replicas)
  {
    assert FirstNames(nodes, |nodes|) == dp.targets.Keys;
    PrefixTarget(dp, nodes, |nodes|);
    assert nodes[..|nodes|] == nodes;
    SpreadConserves(dp, replicas, nodes);
  }

  // ---------------------------------------------------------------- one PUT per node

  /** The sum over the pools of a key of their targets on one node: what its PUT asks for. */
  function KeyTarget(desired: seq<DesiredPool>, key: PoolKey, name: string): nat {
    if desired == [] then 0
    else
      var dp := desired[|desired| - 1];
      KeyTarget(desired[..|desired| - 1], key, name) + (if dp.key == key then TargetOn(dp, name) else 0)
  }

  /** A node's PUT: each key once, since it is a map, with the key's summed target. */
  method PutFor(name: string, desired: seq<DesiredPool>) returns (byKey: map<PoolKey, nat>)
    ensures byKey.Keys == set i | 0 <= i < |desired| :: desired[i].key
    ensures forall key :: Get(byKey, key) == KeyTarget(desired, key, name)
  {
    byKey := map[];
    for i := 0 to |desired|
      invariant byKey.Keys == set k | 0 <= k < i :: desired[k].key
      invariant forall key :: Get(byKey, key) == KeyTarget(desired[..i], key, name)
    {
      var dp := desired[i];
      assert desired[..i + 1][..i] == desired[..i];
      byKey := byKey[dp.key := Get(byKey, dp.key) + TargetOn(dp, name)];
    }
    assert desired[..|desired|] == desired;
  }

  /** A key's targets over all nodes' PUTs. */
  function PutSum(desired: seq<DesiredPool>, key: PoolKey, nodes: seq<NodeView>): nat {
    if nodes == [] then 0
    else PutSum(desired, key, nodes[..|nodes| - 1]) + KeyTarget(desired, key, nodes[|nodes| - 1].name)
  }

  /** The replicas asked for by the pools of a key. */
  function Wanted(desired: seq<DesiredPool>, replicas: seq<int>, key: PoolKey): nat
    requires |replicas| == |desired|
  {
    if desired == [] then 0
    else
      var k := |desired| - 1;
      Wanted(desired[..k], replicas[..k], key) + (if desired[k].key == key then Clamp(replicas[k]) else 0)
  }

  function PoolsOf(desired: seq<DesiredPool>, key: PoolKey): nat {
    if desired == [] then 0
    else PoolsOf(desired[..|desired| - 1], key) + (if desired[|desired| - 1].key == key then 1 else 0)
  }

  lemma {:induction false} PutSumByPool(desired: seq<DesiredPool>, key: PoolKey, nodes: seq<NodeView>)
    requires desired != []
    ensures PutSum(desired, key, nodes) ==
            PutSum(desired[..|desired| - 1], key, nodes) +
                (if desired[|desired| - 1].key == key then TargetSum(desired[|desired| - 1], nodes) else 0)
  {
    if nodes != [] {
      PutSumByPool(desired, key, nodes[..|nodes| - 1]);
    }
  }

  lemma {:induction false} PutSumOfNone(key: PoolKey, nodes: seq<NodeView>)
    ensures PutSum([], key, nodes) == 0
  {
    if nodes != [] {
      PutSumOfNone(key, nodes[..|nodes| - 1]);
    }
  }

  /** End to end: summed over all nodes' PUTs, a key's targets are the replicas of the pools that resolve to it. */
  lemma {:induction false} PutsConserve(desired: seq<DesiredPool>, replicas: seq<int>, key: PoolKey,
          nodes: seq<NodeView>)
    requires |nodes| > 0 && |replicas| == |desired|
    requires forall i :: 0 <= i < |desired| ==> Spread(desired[i].targets, replicas[i], nodes)
    ensures PutSum(desired, key, nodes) == Wanted(desired, replicas, key)
  {
    if desired == [] {
      PutSumOfNone(key, nodes);
    } else {
      var k := |desired| - 1;
      PutSumByPool(desired, key, nodes);
      SpreadConserves(desired[k], replicas[k], nodes);
      PutsConserve(desired[..k], replicas[..k], key, nodes);
    }
  }

  /** A key's totals on two nodes differ by at most the number of pools that share the key. */
  lemma {:induction false} PutsAreEven(desired: seq<DesiredPool>, replicas: seq<int>, key: PoolKey,
          nodes: seq<NodeView>, i: nat, j: nat)
    requires |replicas| == |desired| && i < |nodes| && j < |nodes|
    requires forall k :: 0 <= k < |desired| ==> Spread(desired[k].targets, replicas[k], nodes)
    ensures KeyTarget(desired, key, nodes[i].name) - KeyTarget(desired, key, nodes[j].name) <= PoolsOf(desired, key)
  {
    if desired != [] {
      var k := |desired| - 1;
      SpreadIsEven(desired[k], replicas[k], nodes, i, j);
      PutsAreEven(desired[..k], replicas[..k], key, nodes, i, j);
    }
  }

  // ---------------------------------------------------------------- the PUT's pool list

  datatype PoolSpec = PoolSpec(key: PoolKey, warm: nat)

  predicate SpecOrder(a: PoolSpec, b: PoolSpec) {
    var c, d := Compare(a.key.template, b.key.template), Compare(a.key.net, b.key.net);
    c < 0 || (c == 0 && (d < 0 || (d == 0 && Compare(a.key.size, b.key.size) <= 0)))
  }

  lemma SpecOrderIsTotal()
    ensures TotalPreorder(SpecOrder)
  {
    forall a: PoolSpec, b: PoolSpec
      ensures SpecOrder(a, b) || SpecOrder(b, a)
    {
      CompareFlips(a.key.template, b.key.template);
      CompareFlips(a.key.net, b.key.net);
      CompareFlips(a.key.size, b.key.size);
    }
    forall a: PoolSpec, b: PoolSpec, c: PoolSpec | SpecOrder(a, b) && SpecOrder(b, c)
      ensures SpecOrder(a, c)
    {
      CompareTransitive(a.key.template, b.key.template, c.key.template);
      CompareFlips(a.key.template, b.key.template);
      if a.key.template == c.key.template {
        CompareTransitive(a.key.net, b.key.net, c.key.net);
        CompareFlips(a.key.net, b.key.net);
        if a.key.net == c.key.net {
          CompareTransitive(a.key.size, b.key.size, c.key.size);
        }
      }
    }
  }

  /** By template, then net, then size. */
  lemma SpecOrderIs(a: PoolSpec, b: PoolSpec)
    ensures SpecOrder(a, b) <==>
            || Compare(a.key.template, b.key.template) < 0
            || (a.key.template == b.key.template && Compare(a.key.net, b.key.net) < 0)
            || (a.key.template == b.key.template && a.key.net == b.key.net && Compare(a.key.size, b.key.size) <= 0)
  {
  }

  predicate KeysOnce(put: seq<PoolSpec>) {
    forall i, j :: 0 <= i < j < |put| ==> put[i].key != put[j].key
  }

  /** The request body: the map's entries, each key once, in key order. */
  method SpecsOf(byKey: map<PoolKey, nat>) returns (specs: seq<PoolSpec>)
    ensures Sorted(specs, SpecOrder) && KeysOnce(specs)
    ensures forall s :: s in specs <==> s.key in byKey && s.warm == byKey[s.key]
  {
    var all: seq<PoolSpec> := [];
    var todo := byKey.Keys;
    while todo != {}
      invariant todo <= byKey.Keys && NoDuplicates(all)
      invariant forall s :: s in all <==> s.key in byKey && s.key !in todo && s.warm == byKey[s.key]
      decreases |todo|
    {
      var key :| key in todo;
      todo := todo - {key};
      all := all + [PoolSpec(key, byKey[key])];
    }
    SpecOrderIsTotal();
    SortSorts(all, SpecOrder);
    specs := Sort(all, SpecOrder);
    PermutationKeepsDistinct(all, specs);
    SameElements(specs, all);
    forall i, j | 0 <= i < j < |specs|
      ensures specs[i].key != specs[j].key
    {
      assert specs[i] in specs && specs[j] in specs;
    }
  }

  // ---------------------------------------------------------------- from pools to PUTs

  /** A pool as the driver lists it: the key it resolves to and the replicas it asks for. */
  datatype Pool = Pool(key: PoolKey, replicas: int)

  /** The replicas the pools of a key ask for, negative ones as none, and how many pools that are. */
  function ReplicasOf(pools: seq<Pool>, key: PoolKey): nat {
    if pools == [] then 0
    else
      var p := pools[|pools| - 1];
      ReplicasOf(pools[..|pools| - 1], key) + (if p.key == key then Clamp(p.replicas) else 0)
  }

  function Sharing(pools: seq<Pool>, key: PoolKey): nat {
    if pools == [] then 0
    else Sharing(pools[..|pools| - 1], key) + (if pools[|pools| - 1].key == key then 1 else 0)
  }

  /** What one PUT list asks for a key, and what all of them do. */
  function Asked(put: seq<PoolSpec>, key: PoolKey): nat {
    if put == [] then 0
    else Asked(put[..|put| - 1], key) + (if put[|put| - 1].key == key then put[|put| - 1].warm else 0)
  }

  function AskedInAll(puts: seq<seq<PoolSpec>>, key: PoolKey): nat {
    if puts == [] then 0 else AskedInAll(puts[..|puts| - 1], key) + Asked(puts[|puts| - 1], key)
  }

  lemma {:induction false} AskedIs(put: seq<PoolSpec>, key: PoolKey, warm: nat)
    requires KeysOnce(put) && forall i :: 0 <= i < |put| && put[i].key == key ==> put[i].warm == warm
    ensures Asked(put, key) == if exists i :: 0 <= i < |put| && put[i].key == key then warm else 0
  {
    if put != [] {
      var k := |put| - 1;
      AskedIs(put[..k], key, warm);
      if i :| 0 <= i < k && put[i].key == key {
        assert put[..k][i].key == key;
      }
    }
  }

  lemma SpecsAsk(byKey: map<PoolKey, nat>, specs: seq<PoolSpec>, key: PoolKey)
    requires KeysOnce(specs) && forall s :: s in specs <==> s.key in byKey && s.warm == byKey[s.key]
    ensures Asked(specs, key) == Get(byKey, key)
  {
    forall i | 0 <= i < |specs| && specs[i].key == key
      ensures specs[i].warm == Get(byKey, key)
    {
      assert specs[i] in specs;
    }
    AskedIs(specs, key, Get(byKey, key));
    if key in byKey {
      assert PoolSpec(key, byKey[key]) in specs;
    }
  }

  /** `desired` are the pools, each spread over the nodes. */
  ghost predicate SpreadsAll(desired: seq<DesiredPool>, pools: seq<Pool>, nodes: seq<NodeView>) {
    && |desired| == |pools|
    && forall i :: 0 <= i < |pools| ==>
        desired[i].key == pools[i].key && Spread(desired[i].targets, pools[i].replicas, nodes)
  }

  lemma {:induction false} WantedIsReplicas(desired: seq<DesiredPool>, pools: seq<Pool>, replicas: seq<int>,
          key: PoolKey)
    requires |desired| == |pools| == |replicas|
    requires forall i :: 0 <= i < |pools| ==> desired[i].key == pools[i].key && replicas[i] == pools[i].replicas
    ensures Wanted(desired, replicas, key) == ReplicasOf(pools, key) && PoolsOf(desired, key) == Sharing(pools, key)
  {
    if pools != [] {
      var k := |pools| - 1;
      WantedIsReplicas(desired[..k], pools[..k], replicas[..k], key);
    }
  }

  lemma {:induction false} AskedInAllIs(puts: seq<seq<PoolSpec>>, desired: seq<DesiredPool>, nodes: seq<NodeView>,
          key: PoolKey)
    requires |puts| == |nodes| && forall i :: 0 <= i < |nodes| ==>
             Asked(puts[i], key) == KeyTarget(desired, key, nodes[i].name)
    ensures AskedInAll(puts, key) == PutSum(desired, key, nodes)
  {
    if nodes != [] {
      AskedInAllIs(puts[..|nodes| - 1], desired, nodes[..|nodes| - 1], key);
    }
  }

  /** What the PUT lists of one pass ask for a key: the pools' replicas in all, evenly spread. */
  lemma PutListsConserve(pools: seq<Pool>, desired: seq<DesiredPool>, nodes: seq<NodeView>, puts: seq<seq<PoolSpec>>,
          key: PoolKey)
    requires SpreadsAll(desired, pools, nodes) && |nodes| > 0 && |puts| == |nodes|
    requires forall i :: 0 <= i < |nodes| ==> Asked(puts[i], key) == KeyTarget(desired, key, nodes[i].name)
    ensures AskedInAll(puts, key) == ReplicasOf(pools, key)
    ensures forall i, j :: 0 <= i < |puts| && 0 <= j < |puts| ==>
            Asked(puts[i], key) - Asked(puts[j], key) <= Sharing(pools, key)
  {
    var replicas := seq(|pools|, i requires 0 <= i < |pools| => pools[i].replicas);
    WantedIsReplicas(desired, pools, replicas, key);
    AskedInAllIs(puts, desired, nodes, key);
    PutsConserve(desired, replicas, key, nodes);
    forall i, j | 0 <= i < |puts| && 0 <= j < |puts|
      ensures Asked(puts[i], key) - Asked(puts[j], key) <= Sharing(pools, key)
    {
      PutsAreEven(desired, replicas, key, nodes, i, j);
    }
  }

  method SpreadPools(pools: seq<Pool>, nodes: seq<NodeView>) returns (desired: seq<DesiredPool>)
    ensures DistinctNames(nodes) ==> SpreadsAll(desired, pools, nodes)
  {
    desired := [];
    for i := 0 to |pools|
      invariant |desired| == i
      invariant DistinctNames(nodes) ==> SpreadsAll(desired, pools[..i], nodes)
    {
      var targets := Distribute(pools[i].replicas, nodes);
      desired := desired + [DesiredPool(pools[i].key, targets)];
    }
    assert pools[..|pools|] == pools;
  }

  /**
   One pass of the driver, end to end: a PUT list per node, each key at most once and in
   order; with distinct node names a key is asked for, over all lists, exactly as often as
   the pools that resolve to it ask for replicas, and on two nodes by counts that differ by
   at most the number of those pools.
   */
  method PutLists(pools: seq<Pool>, nodes: seq<NodeView>) returns (puts: seq<seq<PoolSpec>>)
    ensures |puts| == |nodes| && forall i :: 0 <= i < |puts| ==> KeysOnce(puts[i]) && Sorted(puts[i], SpecOrder)
    ensures DistinctNames(nodes) && |nodes| > 0 ==> forall key :: AskedInAll(puts, key) == ReplicasOf(pools, key)
    ensures DistinctNames(nodes) ==> forall key, i, j :: 0 <= i < |puts| && 0 <= j < |puts| ==>
              Asked(puts[i], key) - Asked(puts[j], key) <= Sharing(pools, key)
  {
    var desired := SpreadPools(pools, nodes);
    puts := [];
    for n := 0 to |nodes|
      invariant |puts| == n
      invariant forall i :: 0 <= i < n ==> KeysOnce(puts[i]) && Sorted(puts[i], SpecOrder)
      invariant forall i, key :: 0 <= i < n ==> Asked(puts[i], key) == KeyTarget(desired, key, nodes[i].name)
    {
      var byKey := PutFor(nodes[n].name, desired);
      var specs := SpecsOf(byKey);
      forall key: PoolKey
        ensures Asked(specs, key) == KeyTarget(desired, key, nodes[n].name)
      {
        SpecsAsk(byKey, specs, key);
      }
      puts := puts + [specs];
    }
    if DistinctNames(nodes) && |nodes| > 0 {
      forall key: PoolKey
        ensures AskedInAll(puts, key) == ReplicasOf(pools, key)
        ensures forall i, j :: 0 <= i < |puts| && 0 <= j < |puts| ==>
                Asked(puts[i], key) - Asked(puts[j], key) <= Sharing(pools, key)
      {
        PutListsConserve(pools, desired, nodes, puts, key);
      }
    }
  }

  // ---------------------------------------------------------------- apportioning the live warm

  /** The fleet's warm count for a key. */
  function FleetWarm(nodes: seq<NodeView>, key: PoolKey): nat {
    if nodes == [] then 0 else FleetWarm(nodes[..|nodes| - 1], key) + WarmOf(nodes[|nodes| - 1], key)
  }

  /** The summed targets of a key's pools. */
  ghost function KeySum(desired: seq<DesiredPool>, key: PoolKey): nat {
    if desired == [] then 0
    else
      var dp := desired[|desired| - 1];
      KeySum(desired[..|desired| - 1], key) + (if dp.key == key then PoolTarget(dp) else 0)
  }

  /** A pool's proportional share rounded down; 0 when nobody wants the key. */
  ghost function Floor(dp: DesiredPool, fleet: nat, sum: nat): nat {
    if sum == 0 then 0 else fleet * PoolTarget(dp) / sum
  }

  ghost function FloorSum(desired: seq<DesiredPool>, key: PoolKey, fleet: nat, sum: nat): nat {
    if desired == [] then 0
    else
      var dp := desired[|desired| - 1];
      FloorSum(desired[..|desired| - 1], key, fleet, sum) + (if dp.key == key then Floor(dp, fleet, sum) else 0)
  }

  /** What the pools of a key got in all. */
  function Given(desired: seq<DesiredPool>, out: seq<nat>, key: PoolKey): nat
    requires |out| == |desired|
  {
    if desired == [] then 0
    else
      var k := |desired| - 1;
      Given(desired[..k], out[..k], key) + (if desired[k].key == key then out[k] else 0)
  }

  lemma {:induction false} GivenUpdate(desired: seq<DesiredPool>, out: seq<nat>, key: PoolKey, i: nat, v: nat)
    requires |out| == |desired| && i < |out|
    ensures Given(desired, out[i := v], key) == Given(desired, out, key) +
            (if desired[i].key == key then v - out[i] else 0)
  {
    var k := |desired| - 1;
    if i == k {
      assert out[i := v][..k] == out[..k];
    } else {
      assert out[i := v][..k] == out[..k][i := v];
      GivenUpdate(desired[..k], out[..k], key, i, v);
    }
  }

  lemma FloorBounds(fleet: nat, t: nat, sum: nat)
    requires sum > 0
    ensures sum * (fleet * t / sum) <= fleet * t <= sum * (fleet * t / sum) + (sum - 1)
  {
  }

  lemma Distribute3(a: nat, b: nat, c: nat)
    ensures a * (b + c) == a * b + a * c
  {
  }

  /** Rounding down loses less than one unit per pool. */
  lemma {:induction false} FloorSumBounds(desired: seq<DesiredPool>, key: PoolKey, fleet: nat, sum: nat)
    requires sum > 0
    ensures sum * FloorSum(desired, key, fleet, sum) <= fleet * KeySum(desired, key)
    ensures fleet * KeySum(desired, key) <= sum * FloorSum(desired, key, fleet, sum) + (sum - 1) * PoolsOf(desired, key)
  {
    if desired != [] {
      var k := |desired| - 1;
      FloorSumBounds(desired[..k], key, fleet, sum);
      if desired[k].key == key {
        var t := PoolTarget(desired[k]);
        FloorBounds(fleet, t, sum);
        Distribute3(sum, FloorSum(desired[..k], key, fleet, sum), fleet * t / sum);
        Distribute3(fleet, KeySum(desired[..k], key), t);
        Distribute3(sum - 1, PoolsOf(desired[..k], key), 1);
      }
    }
  }

  /** So the remainder is smaller than the number of pools, and one extra unit each is enough. */
  lemma RemainderFits(desired: seq<DesiredPool>, key: PoolKey, fleet: nat)
    requires KeySum(desired, key) > 0
    ensures var floors := FloorSum(desired, key, fleet, KeySum(desired, key));
            floors <= fleet <= floors + PoolsOf(desired, key)
  {
    var sum := KeySum(desired, key);
    FloorSumBounds(desired, key, fleet, sum);
    Cancel(sum, fleet, FloorSum(desired, key, fleet, sum), PoolsOf(desired, key));
  }

  lemma Scales(a: nat, b: int, c: int)
    requires b <= c
    ensures a * b <= a * c
  {
  }

  lemma Cancel(sum: nat, fleet: nat, floors: nat, n: nat)
    requires sum > 0 && sum * floors <= fleet * sum <= sum * floors + (sum - 1) * n
    ensures floors <= fleet <= floors + n
  {
    if floors > fleet {
      Scales(sum, fleet + 1, floors);
      Distribute3(sum, fleet, 1);
    }
    if fleet > floors + n {
      Scales(sum, floors + n + 1, fleet);
      Distribute3(sum, floors, n + 1);
      Distribute3(sum, n, 1);
      Scales(n, sum - 1, sum);
    }
  }

  /** The first loop: the fleet's warm count and the summed target of every key. */
  method Totals(desired: seq<DesiredPool>, nodes: seq<NodeView>)
    returns (fleet: map<PoolKey, nat>, sumTarget: map<PoolKey, nat>)
    ensures forall i :: 0 <= i < |desired| ==> Get(fleet, desired[i].key) == FleetWarm(nodes, desired[i].key)
    ensures forall key :: Get(sumTarget, key) == KeySum(desired, key)
  {
    fleet, sumTarget := map[], map[];
    for i := 0 to |desired|
      invariant forall k :: 0 <= k < i ==> Get(fleet, desired[k].key) == FleetWarm(nodes, desired[k].key)
      invariant forall key <- fleet :: fleet[key] == FleetWarm(nodes, key)
      invariant forall key :: Get(sumTarget, key) == KeySum(desired[..i], key)
    {
      var dp := desired[i];
      if dp.key !in fleet {
        ghost var before := fleet;
        for j := 0 to |nodes|
          invariant Get(fleet, dp.key) == FleetWarm(nodes[..j], dp.key)
          invariant forall key <- fleet :: key == dp.key || (key in before && fleet[key] == before[key])
          invariant forall key <- before :: key in fleet && fleet[key] == before[key]
        {
          assert nodes[..j + 1][..j] == nodes[..j];
          fleet := fleet[dp.key := Get(fleet, dp.key) + WarmOf(nodes[j], dp.key)];
        }
        assert nodes[..|nodes|] == nodes;
      }
      assert desired[..i + 1][..i] == desired[..i];
      var t := SumTargets(dp);
      sumTarget := sumTarget[dp.key := Get(sumTarget, dp.key) + t];
    }
    assert desired[..|desired|] == desired;
  }

  /** The proportional shares of the first `i` pools, nothing yet for the rest. */
  ghost predicate Floored(desired: seq<DesiredPool>, nodes: seq<NodeView>, out: seq<nat>, i: nat) {
    && |out| == |desired| && i <= |desired|
    && (forall k :: 0 <= k < i ==> out[k] == FloorOf(desired, nodes, k))
    && (forall k :: i <= k < |desired| ==> out[k] == 0)
  }

  ghost function FloorOf(desired: seq<DesiredPool>, nodes: seq<NodeView>, k: nat): nat
    requires k < |desired|
  {
    Floor(desired[k], FleetWarm(nodes, desired[k].key), KeySum(desired, desired[k].key))
  }

  /** The second loop: every pool's share rounded down, and what each key has given out. */
  method FloorShares(desired: seq<DesiredPool>, nodes: seq<NodeView>, fleet: map<PoolKey, nat>,
          sumTarget: map<PoolKey, nat>)
    returns (out: seq<nat>, given: map<PoolKey, nat>)
    requires forall i :: 0 <= i < |desired| ==> Get(fleet, desired[i].key) == FleetWarm(nodes, desired[i].key)
    requires forall key :: Get(sumTarget, key) == KeySum(desired, key)
    ensures Floored(desired, nodes, out, |desired|) && Counts(desired, out, given)
  {
    out, given := seq(|desired|, _ => 0), map[];
    forall key
      ensures Given(desired, out, key) == 0
    {
      GivenNothing(desired, out, key);
    }
    for i := 0 to |desired|
      invariant Floored(desired, nodes, out, i) && Counts(desired, out, given)
    {
      var dp := desired[i];
      if Get(sumTarget, dp.key) > 0 {
        var t := SumTargets(dp);
        var share: nat := Get(fleet, dp.key) * t / Get(sumTarget, dp.key);
        GiveMore(desired, out, given, i, share);
        out := out[i := out[i] + share];
        given := given[dp.key := Get(given, dp.key) + share];
      }
    }
  }

  /** `given` counts what the pools of every key got. */
  ghost predicate Counts(desired: seq<DesiredPool>, out: seq<nat>, given: map<PoolKey, nat>) {
    |out| == |desired| && forall key :: Get(given, key) == Given(desired, out, key)
  }

  lemma GiveMore(desired: seq<DesiredPool>, out: seq<nat>, given: map<PoolKey, nat>, i: nat, more: nat)
    requires Counts(desired, out, given) && i < |desired|
    ensures Counts(desired, out[i := out[i] + more], given[desired[i].key := Get(given, desired[i].key) + more])
  {
    var next: seq<nat>, total: map<PoolKey, nat> := out[i := out[i] + more],
        given[desired[i].key := Get(given, desired[i].key) + more];
    forall key: PoolKey
      ensures Get(total, key) == Given(desired, next, key)
    {
      GivenUpdate(desired, out, key, i, out[i] + more);
    }
  }

  lemma {:induction false} GivenNothing(desired: seq<DesiredPool>, out: seq<nat>, key: PoolKey)
    requires |out| == |desired| && forall k :: 0 <= k < |out| ==> out[k] == 0
    ensures Given(desired, out, key) == 0
  {
    if desired != [] {
      GivenNothing(desired[..|desired| - 1], out[..|desired| - 1], key);
    }
  }

  lemma {:induction false} GivenFloors(desired: seq<DesiredPool>, all: seq<DesiredPool>, nodes: seq<NodeView>,
          out: seq<nat>, key: PoolKey)
    requires desired <= all && |out| == |desired|
    requires forall k :: 0 <= k < |desired| ==> out[k] == FloorOf(all, nodes, k)
    ensures Given(desired, out, key) == FloorSum(desired, key, FleetWarm(nodes, key), KeySum(all, key))
  {
    if desired != [] {
      GivenFloors(desired[..|desired| - 1], all, nodes, out[..|desired| - 1], key);
    }
  }

  /** What a key has given out once the first `i` pools were topped up. */
  ghost function ToppedUp(desired: seq<DesiredPool>, nodes: seq<NodeView>, key: PoolKey, i: nat): nat
    requires i <= |desired|
  {
    var fleet, sum := FleetWarm(nodes, key), KeySum(desired, key);
    if sum > 0 then
      var reach := FloorSum(desired, key, fleet, sum) + PoolsOf(desired[..i], key);
      if reach < fleet then reach else fleet
    else if PoolsOf(desired[..i], key) > 0 then fleet
    else 0
  }

  /** A pool's final share: rounded down or one more; with no target at all the key's first pool takes everything. */
  ghost predicate FairShare(desired: seq<DesiredPool>, nodes: seq<NodeView>, k: nat, share: nat)
    requires k < |desired|
  {
    if KeySum(desired, desired[k].key) > 0
    then FloorOf(desired, nodes, k) <= share <= FloorOf(desired, nodes, k) + 1
    else share == if PoolsOf(desired[..k], desired[k].key) == 0 then FleetWarm(nodes, desired[k].key) else 0
  }

  lemma PoolsStep(desired: seq<DesiredPool>, i: nat, key: PoolKey)
    requires i < |desired|
    ensures PoolsOf(desired[..i + 1], key) == PoolsOf(desired[..i], key) + (if desired[i].key == key then 1 else 0)
  {
    assert desired[..i + 1][..i] == desired[..i];
  }

  /**
   apportionWarm: for every key of a pool the shares add up to exactly the fleet's warm
   count; each share is fair.
   */
  method ApportionWarm(desired: seq<DesiredPool>, nodes: seq<NodeView>) returns (out: seq<nat>)
    ensures |out| == |desired|
    ensures forall i :: 0 <= i < |desired| ==> Given(desired, out, desired[i].key) == FleetWarm(nodes, desired[i].key)
    ensures forall i :: 0 <= i < |desired| ==> FairShare(desired, nodes, i, out[i])
  {
    var fleet, sumTarget := Totals(desired, nodes);
    var given: map<PoolKey, nat>;
    out, given := FloorShares(desired, nodes, fleet, sumTarget);
    StartTopUp(desired, nodes, out);
    for i := 0 to |desired|
      invariant |out| == |desired| && Counts(desired, out, given)
      invariant forall k :: 0 <= k < i ==> FairShare(desired, nodes, k, out[k])
      invariant forall k :: i <= k < |desired| ==> out[k] == FloorOf(desired, nodes, k)
      invariant forall key :: Given(desired, out, key) == ToppedUp(desired, nodes, key, i)
    {
      var key := desired[i].key;
      var extra := TopUp(Get(given, key), Get(fleet, key), Get(sumTarget, key));
      GiveMore(desired, out, given, i, extra);
      TopUpStep(desired, nodes, out, i, extra, out[i := out[i] + extra]);
      out := out[i := out[i] + extra];
      given := given[key := Get(given, key) + extra];
    }
    forall i | 0 <= i < |desired|
      ensures Given(desired, out, desired[i].key) == FleetWarm(nodes, desired[i].key)
    {
      EndTopUp(desired, nodes, i);
    }
  }

  /** The third loop's inner loop: one unit if the key has a target, else all that is left. */
  method TopUp(given: nat, fleet: nat, sum: nat) returns (extra: nat)
    ensures extra == if given >= fleet then 0 else if sum > 0 then 1 else fleet - given
  {
    extra := 0;
    while given + extra < fleet
      invariant extra == 0 || (sum == 0 && given + extra <= fleet)
      decreases fleet - extra
    {
      extra := extra + 1;
      if sum > 0 {
        break;
      }
    }
  }

  lemma TopUpStep(desired: seq<DesiredPool>, nodes: seq<NodeView>, out: seq<nat>, i: nat, extra: nat, next: seq<nat>)
    requires |out| == |desired| && i < |desired| && out[i] == FloorOf(desired, nodes, i)
    requires forall key :: Given(desired, out, key) == ToppedUp(desired, nodes, key, i)
    requires var key := desired[i].key;
             var given, fleet := Given(desired, out, key), FleetWarm(nodes, key);
             extra == if given >= fleet then 0 else if KeySum(desired, key) > 0 then 1 else fleet - given
    requires next == out[i := out[i] + extra]
    ensures FairShare(desired, nodes, i, next[i])
    ensures forall key :: Given(desired, next, key) == ToppedUp(desired, nodes, key, i + 1)
  {
    forall key: PoolKey
      ensures Given(desired, next, key) == ToppedUp(desired, nodes, key, i + 1)
    {
      GivenUpdate(desired, out, key, i, out[i] + extra);
      PoolsStep(desired, i, key);
      if KeySum(desired, key) > 0 {
        RemainderFits(desired, key, FleetWarm(nodes, key));
      }
    }
  }

  lemma StartTopUp(desired: seq<DesiredPool>, nodes: seq<NodeView>, out: seq<nat>)
    requires Floored(desired, nodes, out, |desired|)
    ensures forall key :: Given(desired, out, key) == ToppedUp(desired, nodes, key, 0)
  {
    forall key: PoolKey
      ensures Given(desired, out, key) == ToppedUp(desired, nodes, key, 0)
    {
      GivenFloors(desired, desired, nodes, out, key);
      if KeySum(desired, key) > 0 {
        RemainderFits(desired, key, FleetWarm(nodes, key));
      } else {
        NoTargetNoFloor(desired, key, FleetWarm(nodes, key));
      }
    }
  }

  lemma {:induction false} NoTargetNoFloor(desired: seq<DesiredPool>, key: PoolKey, fleet: nat)
    ensures FloorSum(desired, key, fleet, 0) == 0
  {
    if desired != [] {
      NoTargetNoFloor(desired[..|desired| - 1], key, fleet);
    }
  }

  lemma EndTopUp(desired: seq<DesiredPool>, nodes: seq<NodeView>, i: nat)
    requires i < |desired|
    ensures ToppedUp(desired, nodes, desired[i].key, |desired|) == FleetWarm(nodes, desired[i].key)
  {
    assert desired[..|desired|] == desired;
    HasPool(desired, i);
    if KeySum(desired, desired[i].key) > 0 {
      RemainderFits(desired, desired[i].key, FleetWarm(nodes, desired[i].key));
    }
  }

  lemma {:induction false} HasPool(desired: seq<DesiredPool>, i: nat)
    requires i < |desired|
    ensures PoolsOf(desired, desired[i].key) > 0
  {
    if i < |desired| - 1 {
      HasPool(desired[..|desired| - 1], i);
    }
  }
}
