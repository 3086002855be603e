/**
 The Kubernetes inventory source: a snapshot rebuilt on every informer event, and reads that
 leave out nodes whose last publish trails the newest one, or the clock, by too much. Times
 are nanoseconds since 1970; an inventory without a stamp counts as published at 0.
 */
module KubeInventory {
  import opened Common
  import opened Ordering

  datatype Inventory = Inventory(name: string, publishedAt: int, body: string)

  /** A node's address, pools and templates, as listings carry them. */
  datatype NodePools = NodePools(node: string, body: string)

  datatype Snapshot = Snapshot(caps: seq<NodePools>, stamps: seq<int>, newest: int, byNode: map<string, Inventory>)

  function Min(a: int, b: int): int {
    if a < b then a else b
  }

  predicate Stale(stamp: int, ref: int, staleAfter: int) {
    ref - stamp > staleAfter
  }

  /** `snap` shows exactly the objects of `byNode`, in name order. */
  ghost predicate Shows(snap: Snapshot, byNode: map<string, Inventory>) {
    && snap.byNode == byNode && |snap.caps| == |snap.stamps|
    && (forall i :: 0 <= i < |snap.caps| ==> ShowsAt(snap.caps[i], snap.stamps[i], byNode))
    && (forall i, j :: 0 <= i < j < |snap.caps| ==> Compare(snap.caps[i].node, snap.caps[j].node) < 0)
    && (forall n <- byNode :: exists i :: 0 <= i < |snap.caps| && snap.caps[i].node == n)
    && snap.newest == Newest(snap.stamps)
  }

  predicate ShowsAt(cap: NodePools, stamp: int, byNode: map<string, Inventory>) {
    cap.node in byNode && cap.body == byNode[cap.node].body && stamp == byNode[cap.node].publishedAt
  }

  /** The listing: the caps that are not stale against `ref`, in order. */
  function FreshCaps(caps: seq<NodePools>, stamps: seq<int>, ref: int, staleAfter: int): seq<NodePools>
    requires |caps| == |stamps|
  {
    if caps == [] then []
    else
      var k := |caps| - 1;
      FreshCaps(caps[..k], stamps[..k], ref, staleAfter) + (if Stale(stamps[k], ref, staleAfter) then [] else [caps[k]])
  }

  function NamesOf(caps: seq<NodePools>): seq<string> {
    if caps == [] then [] else NamesOf(caps[..|caps| - 1]) + [caps[|caps| - 1].node]
  }

  /** What every read agrees on at one instant. */
  function Listing(snap: Snapshot, now: int, staleAfter: int): seq<NodePools>
    requires |snap.caps| == |snap.stamps|
  {
    FreshCaps(snap.caps, snap.stamps, Min(snap.newest, now), staleAfter)
  }

  lemma {:induction false} ListedIsFresh(caps: seq<NodePools>, stamps: seq<int>, ref: int, staleAfter: int,
          c: NodePools)
    returns (i: nat)
    requires |caps| == |stamps| && c in FreshCaps(caps, stamps, ref, staleAfter)
    ensures i < |caps| && caps[i] == c && !Stale(stamps[i], ref, staleAfter)
  {
    i := |caps| - 1;
    if c in FreshCaps(caps[..i], stamps[..i], ref, staleAfter) {
      i := ListedIsFresh(caps[..i], stamps[..i], ref, staleAfter, c);
    }
  }

  lemma {:induction false} FreshIsListed(caps: seq<NodePools>, stamps: seq<int>, ref: int, staleAfter: int, i: nat)
    requires |caps| == |stamps| && i < |caps| && !Stale(stamps[i], ref, staleAfter)
    ensures caps[i] in FreshCaps(caps, stamps, ref, staleAfter)
  {
    if i < |caps| - 1 {
      FreshIsListed(caps[..|caps| - 1], stamps[..|caps| - 1], ref, staleAfter, i);
    }
  }

  lemma FreshStep(caps: seq<NodePools>, stamps: seq<int>, ref: int, staleAfter: int, i: nat)
    requires |caps| == |stamps| && i < |caps|
    ensures FreshCaps(caps[..i + 1], stamps[..i + 1], ref, staleAfter) ==
            FreshCaps(caps[..i], stamps[..i], ref, staleAfter) +
                (if Stale(stamps[i], ref, staleAfter) then [] else [caps[i]])
  {
    assert caps[..i + 1][..i] == caps[..i] && stamps[..i + 1][..i] == stamps[..i];
  }

  /** Where nothing is stale, the first `n` caps are listed as they are. */
  lemma {:induction false} NothingStale(caps: seq<NodePools>, stamps: seq<int>, ref: int, staleAfter: int, n: nat)
    requires |caps| == |stamps| && n <= |caps|
    requires forall i :: 0 <= i < |stamps| ==> !Stale(stamps[i], ref, staleAfter)
    ensures FreshCaps(caps[..n], stamps[..n], ref, staleAfter) == caps[..n]
  {
    if n > 0 {
      NothingStale(caps, stamps, ref, staleAfter, n - 1);
      FreshStep(caps, stamps, ref, staleAfter, n - 1);
      assert caps[..n] == caps[..n - 1] + [caps[n - 1]];
    }
  }

  lemma AllListed(caps: seq<NodePools>, stamps: seq<int>, ref: int, staleAfter: int)
    requires |caps| == |stamps| && forall s <- stamps :: !Stale(s, ref, staleAfter)
    ensures FreshCaps(caps, stamps, ref, staleAfter) == caps
  {
    assert forall i :: 0 <= i < |stamps| ==> stamps[i] in stamps;
    NothingStale(caps, stamps, ref, staleAfter, |caps|);
    assert caps[..|caps|] == caps && stamps[..|caps|] == stamps;
  }

  lemma NamesStep(caps: seq<NodePools>, c: NodePools)
    ensures NamesOf(caps + [c]) == NamesOf(caps) + [c.node] && caps + [] == caps
  {
  }

  method KeepFreshCaps(caps: seq<NodePools>, stamps: seq<int>, ref: int, staleAfter: int) returns (out: seq<NodePools>)
    requires |caps| == |stamps|
    ensures out == FreshCaps(caps, stamps, ref, staleAfter)
  {
    out := [];
    for i := 0 to |caps|
      invariant out == FreshCaps(caps[..i], stamps[..i], ref, staleAfter)
    {
      FreshStep(caps, stamps, ref, staleAfter, i);
      NamesStep(out, caps[i]);
      if !Stale(stamps[i], ref, staleAfter) {
        out := out + [caps[i]];
      }
    }
    assert caps[..|caps|] == caps && stamps[..|stamps|] == stamps;
  }

  method KeepFreshNames(caps: seq<NodePools>, stamps: seq<int>, ref: int, staleAfter: int) returns (nodes: seq<string>)
    requires |caps| == |stamps|
    ensures nodes == NamesOf(FreshCaps(caps, stamps, ref, staleAfter))
  {
    nodes := [];
    ghost var kept: seq<NodePools> := [];
    for i := 0 to |caps|
      invariant kept == FreshCaps(caps[..i], stamps[..i], ref, staleAfter) && nodes == NamesOf(kept)
    {
      FreshStep(caps, stamps, ref, staleAfter, i);
      NamesStep(kept, caps[i]);
      if !Stale(stamps[i], ref, staleAfter) {
        nodes, kept := nodes + [caps[i].node], kept + [caps[i]];
      }
    }
    assert caps[..|caps|] == caps && stamps[..|stamps|] == stamps;
  }

  /** publish: one cap and one stamp per object in name order, and the newest stamp. */
  method BuildSnapshot(byNode: map<string, Inventory>) returns (snap: Snapshot)
    ensures Shows(snap, byNode)
  {
    var names := SortedKeys(byNode.Keys);
    var caps, stamps, newest := Fill(names, byNode);
    InOrder(names, caps, byNode);
    snap := Snapshot(caps, stamps, newest, byNode);
  }

  method Fill(names: seq<string>, byNode: map<string, Inventory>)
    returns (caps: seq<NodePools>, stamps: seq<int>, newest: int)
    requires forall k :: 0 <= k < |names| ==> names[k] in byNode
    ensures |caps| == |stamps| == |names| && newest == Newest(stamps)
    ensures forall k :: 0 <= k < |names| ==> caps[k].node == names[k] && ShowsAt(caps[k], stamps[k], byNode)
  {
    caps, stamps, newest := [], [], 0;
    for i := 0 to |names|
      invariant |caps| == |stamps| == i && newest == Newest(stamps)
      invariant forall k :: 0 <= k < i ==> caps[k].node == names[k] && ShowsAt(caps[k], stamps[k], byNode)
    {
      var inv := byNode[names[i]];
      NewestSnoc(stamps, inv.publishedAt);
      caps, stamps := caps + [NodePools(names[i], inv.body)], stamps + [inv.publishedAt];
      newest := if newest < inv.publishedAt then inv.publishedAt else newest;
    }
  }

  lemma InOrder(names: seq<string>, caps: seq<NodePools>, byNode: map<string, Inventory>)
    requires Sorted(names, StringOrder) && NoDuplicates(names) && (forall n :: n in names <==> n in byNode)
    requires |caps| == |names| && forall k :: 0 <= k < |names| ==> caps[k].node == names[k]
    ensures forall i, j :: 0 <= i < j < |caps| ==> Compare(caps[i].node, caps[j].node) < 0
    ensures forall n <- byNode :: exists i :: 0 <= i < |caps| && caps[i].node == n
  {
  }

  class Source {
    const staleAfter: int
    var byNode: map<string, Inventory>
    var snap: Snapshot

    ghost predicate Valid()
      reads this
    {
      Shows(snap, byNode) && forall n <- byNode :: byNode[n].name == n
    }

    constructor (staleAfter: int)
      ensures Valid() && byNode == map[] && this.staleAfter == staleAfter
    {
      this.staleAfter, byNode, snap := staleAfter, map[], Snapshot([], [], 0, map[]);
    }

    /** An informer event; an object that is no inventory is ignored. */
    method Put(obj: Option<Inventory>)
      requires Valid()
      modifies this
      ensures Valid() && byNode == if obj.Some? then old(byNode)[obj.value.name := obj.value] else old(byNode)
    {
      if obj.Some? {
        byNode := byNode[obj.value.name := obj.value];
        Publish();
      }
    }

    method Drop(obj: Option<Inventory>)
      requires Valid()
      modifies this
      ensures Valid() && byNode == if obj.Some? then old(byNode) - {obj.value.name} else old(byNode)
    {
      if obj.Some? {
        byNode := byNode - {obj.value.name};
        Publish();
      }
    }

    method Publish()
      modifies this`snap
      ensures Shows(snap, byNode)
    {
      snap := BuildSnapshot(byNode);
    }

    method ListNodes(now: int) returns (nodes: seq<string>)
      requires Valid()
      ensures nodes == NamesOf(Listing(snap, now, staleAfter))
    {
      nodes := KeepFreshNames(snap.caps, snap.stamps, Min(snap.newest, now), staleAfter);
    }

    /** The shared slice when nothing is stale, else a filtered copy: the same listing either way. */
    method NodeCapacities(now: int) returns (out: seq<NodePools>)
      requires Valid()
      ensures out == Listing(snap, now, staleAfter)
    {
      var ref := Min(snap.newest, now);
      if forall s <- snap.stamps :: !Stale(s, ref, staleAfter) {
        AllListed(snap.caps, snap.stamps, ref, staleAfter);
        return snap.caps;
      }
      out := KeepFreshCaps(snap.caps, snap.stamps, ref, staleAfter);
    }

    /** One node's inventory: found exactly when the listing has the node, and then it is the stored object. */
    method Get(node: string, now: int) returns (inv: Option<Inventory>)
      requires Valid()
      ensures inv.Some? <==> exists c :: c in Listing(snap, now, staleAfter) && c.node == node
      ensures inv.Some? ==> node in byNode && inv.value == byNode[node]
    {
      GetAgrees(snap, byNode, node, now, staleAfter);
      if node !in snap.byNode || Stale(snap.byNode[node].publishedAt, Min(snap.newest, now), staleAfter) {
        return None;
      }
      return Some(snap.byNode[node]);
    }
  }

  /** A node is in the listing exactly when it is stored and its own stamp is not stale. */
  lemma GetAgrees(snap: Snapshot, byNode: map<string, Inventory>, node: string, now: int, staleAfter: int)
    requires Shows(snap, byNode)
    ensures (exists c :: c in Listing(snap, now, staleAfter) && c.node == node) <==>
            node in byNode && (if now < snap.newest then now else snap.newest) - byNode[node].publishedAt <= staleAfter
  {
    var ref := Min(snap.newest, now);
    if c :| c in Listing(snap, now, staleAfter) && c.node == node {
      var i := ListedIsFresh(snap.caps, snap.stamps, ref, staleAfter, c);
      assert ShowsAt(snap.caps[i], snap.stamps[i], byNode);
    }
    if node in byNode && !Stale(byNode[node].publishedAt, ref, staleAfter) {
      var i :| 0 <= i < |snap.caps| && snap.caps[i].node == node;
      assert ShowsAt(snap.caps[i], snap.stamps[i], byNode);
      FreshIsListed(snap.caps, snap.stamps, ref, staleAfter, i);
    }
  }

  predicate InNameOrder(caps: seq<NodePools>) {
    forall i, j :: 0 <= i < j < |caps| ==> Compare(caps[i].node, caps[j].node) < 0
  }

  /** The listing is in strict name order. */
  lemma ListingIsOrdered(snap: Snapshot, byNode: map<string, Inventory>, now: int, staleAfter: int)
    requires Shows(snap, byNode)
    ensures InNameOrder(Listing(snap, now, staleAfter))
  {
    assert InNameOrder(snap.caps);
    FreshIsOrdered(snap.caps, snap.stamps, Min(snap.newest, now), staleAfter);
  }

  /** And each cap in it carries what its node's object says. */
  lemma ListedIsStored(snap: Snapshot, byNode: map<string, Inventory>, now: int, staleAfter: int, c: NodePools)
    requires Shows(snap, byNode) && c in Listing(snap, now, staleAfter)
    ensures c.node in byNode && c.body == byNode[c.node].body
  {
    var i := ListedIsFresh(snap.caps, snap.stamps, Min(snap.newest, now), staleAfter, c);
    assert ShowsAt(snap.caps[i], snap.stamps[i], byNode);
  }

  lemma {:induction false} FreshIsOrdered(caps: seq<NodePools>, stamps: seq<int>, ref: int, staleAfter: int)
    requires |caps| == |stamps| && InNameOrder(caps)
    ensures InNameOrder(FreshCaps(caps, stamps, ref, staleAfter))
  {
    if caps != [] {
      var k := |caps| - 1;
      var front := FreshCaps(caps[..k], stamps[..k], ref, staleAfter);
      FreshIsOrdered(caps[..k], stamps[..k], ref, staleAfter);
      forall i | 0 <= i < |front|
        ensures Compare(front[i].node, caps[k].node) < 0
      {
        var n := ListedIsFresh(caps[..k], stamps[..k], ref, staleAfter, front[i]);
      }
    }
  }

  /** A stamp ahead of the clock evicts nobody that published within staleAfter of now. */
  lemma RecentIsListed(snap: Snapshot, byNode: map<string, Inventory>, node: string, now: int, staleAfter: int)
    requires Shows(snap, byNode) && node in byNode && now - byNode[node].publishedAt <= staleAfter
    ensures exists c :: c in Listing(snap, now, staleAfter) && c.node == node
  {
    GetAgrees(snap, byNode, node, now, staleAfter);
  }

  /**
   The newest publisher is listed, so a non-empty fleet reads non-empty, exactly when it
   published within staleAfter of now, or the limit is not negative and its stamp is no more
   than the limit before 1970. With a limit of 0 or more every stamp since 1970 is.
   */
  lemma NewestIsListedIff(snap: Snapshot, byNode: map<string, Inventory>, node: string, now: int, staleAfter: int)
    requires Shows(snap, byNode)
    requires node in byNode && forall n <- byNode :: byNode[n].publishedAt <= byNode[node].publishedAt
    ensures Listing(snap, now, staleAfter) != [] <==>
            || (staleAfter >= 0 && byNode[node].publishedAt >= -staleAfter)
            || now - byNode[node].publishedAt <= staleAfter
    ensures Listing(snap, now, staleAfter) != [] ==> exists c :: c in Listing(snap, now, staleAfter) && c.node == node
  {
    var stamp, ref := byNode[node].publishedAt, Min(snap.newest, now);
    var i :| 0 <= i < |snap.caps| && snap.caps[i].node == node;
    assert ShowsAt(snap.caps[i], snap.stamps[i], byNode) && snap.stamps[i] in snap.stamps;
    NewestIs(snap, byNode, stamp);
    GetAgrees(snap, byNode, node, now, staleAfter);
    if Listing(snap, now, staleAfter) != [] {
      var c := Listing(snap, now, staleAfter)[0];
      var k := ListedIsFresh(snap.caps, snap.stamps, ref, staleAfter, c);
      assert ShowsAt(snap.caps[k], snap.stamps[k], byNode);
    }
  }

  lemma NewestIs(snap: Snapshot, byNode: map<string, Inventory>, stamp: int)
    requires Shows(snap, byNode) && stamp in snap.stamps && forall n <- byNode :: byNode[n].publishedAt <= stamp
    ensures snap.newest == if stamp > 0 then stamp else 0
  {
    if snap.newest != 0 {
      var k :| 0 <= k < |snap.stamps| && snap.stamps[k] == snap.newest;
      assert ShowsAt(snap.caps[k], snap.stamps[k], byNode);
    }
  }

  lemma {:induction false} AllStale(caps: seq<NodePools>, stamps: seq<int>, ref: int, staleAfter: int)
    requires |caps| == |stamps| && forall s <- stamps :: Stale(s, ref, staleAfter)
    ensures FreshCaps(caps, stamps, ref, staleAfter) == []
  {
    if caps != [] {
      var k := |caps| - 1;
      assert stamps[k] in stamps && forall s <- stamps[..k] :: s in stamps;
      AllStale(caps[..k], stamps[..k], ref, staleAfter);
    }
  }

  /** A negative limit, which the flag accepts, hides the whole fleet once the clock has passed the newest stamp. */
  lemma NegativeLimitReadsEmpty(snap: Snapshot, byNode: map<string, Inventory>, now: int, staleAfter: int)
    requires Shows(snap, byNode) && staleAfter < 0 && snap.newest <= now
    ensures Listing(snap, now, staleAfter) == []
  {
    AllStale(snap.caps, snap.stamps, snap.newest, staleAfter);
  }

  /** With no events, the listing no longer changes once the clock has passed the newest stamp. */
  lemma FrozenWithoutEvents(snap: Snapshot, now: int, later: int, staleAfter: int)
    requires |snap.caps| == |snap.stamps| && snap.newest <= now && snap.newest <= later
    ensures Listing(snap, later, staleAfter) == Listing(snap, now, staleAfter)
  {
  }

  /** And before that, time only ever removes nodes. */
  lemma {:induction false} OlderOnlyShrinks(snap: Snapshot, byNode: map<string, Inventory>, now: int, later: int,
          staleAfter: int, node: string)
    requires Shows(snap, byNode) && now <= later
    requires exists c :: c in Listing(snap, later, staleAfter) && c.node == node
    ensures exists c :: c in Listing(snap, now, staleAfter) && c.node == node
  {
    GetAgrees(snap, byNode, node, later, staleAfter);
    GetAgrees(snap, byNode, node, now, staleAfter);
  }
}
