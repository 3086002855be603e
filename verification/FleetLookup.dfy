/**
 Resolving one sandbox over the fleet: the indexed node's inventory, that node itself, every
 inventory, then every node. The index is only a hint, and the sweep runs its workers
 concurrently and cancels them on the first hit; neither may change what is found.
 */
module FleetLookup {
  import opened Common
  import NodeIndex

  /** One live sandbox as its node summarizes it; `detail` stands for the fields no lookup reads. */
  datatype Entry = Entry(name: string, id: string, phase: string, claimRef: string, template: string, detail: string)

  datatype Inventory = Inventory(node: string, entries: seq<Entry>)

  /** A synthesized Sandbox: its namespace and name, the node it is on and the entry it renders. */
  datatype Sandbox = Sandbox(namespace: string, name: string, node: string, entry: Entry)

  /**
   What the fleet answers during one call: whether the node list is readable, the listed
   nodes, each readable inventory, and with `routing` each answering node's own rows for the
   call's query.
   */
  datatype Fleet = Fleet(
    listable: bool, nodes: seq<string>, inventories: map<string, Inventory>, routing: bool,
    live: map<string, seq<Entry>>)

  datatype Resolution = Found(sandbox: Sandbox) | Missing | ListFailed

  /** An entry name without a namespace is in the default namespace. */
  function SplitNamespacedName(s: string): (string, string) {
    match IndexOf(s, '/')
    case None => ("default", s)
    case Some(i) => (s[..i], s[i + 1..])
  }

  /** The namespace is what stands before the first slash, "default" where there is none. */
  lemma NamesSplit(namespace: string, name: string)
    requires '/' !in namespace
    ensures SplitNamespacedName(namespace + "/" + name) == (namespace, name)
    ensures SplitNamespacedName(namespace) == ("default", namespace)
  {
    CutAtFirst(namespace, '/', name);
    assert namespace + ['/'] + name == namespace + "/" + name;
  }

  function EntryToSandbox(node: string, e: Entry): Sandbox {
    var (ns, name) := SplitNamespacedName(e.name);
    Sandbox(ns, name, node, e)
  }

  /** The first entry that matches, rendered as a sandbox of `node`. */
  function FirstMatch(node: string, entries: seq<Entry>, matches: Entry -> bool): (r: Option<Sandbox>)
    ensures r.None? <==> forall e <- entries :: !matches(e)
    ensures r.Some? ==>
            r.value.entry in entries && matches(r.value.entry) && r.value == EntryToSandbox(node, r.value.entry)
  {
    if entries == [] then None
    else if matches(entries[0]) then Some(EntryToSandbox(node, entries[0]))
    else FirstMatch(node, entries[1..], matches)
  }

  function MatchOnNode(fleet: Fleet, node: string, matches: Entry -> bool): Option<Sandbox> {
    if node in fleet.inventories
    then FirstMatch(fleet.inventories[node].node, fleet.inventories[node].entries, matches)
    else None
  }

  function LiveOnNode(fleet: Fleet, node: string, matches: Entry -> bool): Option<Sandbox> {
    if fleet.routing && node in fleet.live then FirstMatch(node, fleet.live[node], matches) else None
  }

  /** What both scans do: walk the entries and stop at the first match. */
  method ScanEntries(node: string, entries: seq<Entry>, matches: Entry -> bool) returns (r: Option<Sandbox>)
    ensures r == FirstMatch(node, entries, matches)
  {
    for i := 0 to |entries|
      invariant FirstMatch(node, entries, matches) == FirstMatch(node, entries[i..], matches)
    {
      if matches(entries[i]) {
        return Some(EntryToSandbox(node, entries[i]));
      }
      assert entries[i..][1..] == entries[i + 1..];
    }
    return None;
  }

  /** Where one worker of a sweep stands. */
  datatype Worker = Waiting | Asking | Holding(hit: Sandbox) | Cancelling | Finished

  function StepsLeft(w: Worker): nat {
    match w
    case Waiting => 4
    case Asking => 3
    case Holding(_) => 2
    case Cancelling => 1
    case Finished => 0
  }

  function Work(workers: seq<Worker>): nat {
    if workers == [] then 0 else StepsLeft(workers[0]) + Work(workers[1..])
  }

  lemma {:induction false} WorkUpdate(workers: seq<Worker>, i: nat, w: Worker)
    requires i < |workers|
    ensures Work(workers[i := w]) == Work(workers) - StepsLeft(workers[i]) + StepsLeft(w)
  {
    if i == 0 {
      assert workers[0 := w][1..] == workers[1..];
    } else {
      assert workers[i := w][1..] == workers[1..][i - 1 := w];
      WorkUpdate(workers[1..], i - 1, w);
    }
  }

  /** A worker's state is honest: it holds only what its node answered, and finishes empty-handed only with reason. */
  predicate Honest(w: Worker, answer: Option<Sandbox>, found: Option<Sandbox>) {
    match w
    case Holding(hit) => answer == Some(hit)
    case Cancelling => found.Some?
    case Finished => answer.None? || found.Some?
    case _ => true
  }

  /**
   FirstHit over every interleaving of its workers. A worker first looks whether the sweep is
   cancelled, then asks its node, takes the lock to keep the first hit, and cancels; a find
   that runs under a cancelled context may fail and report nothing. The fan-out limit only
   removes interleavings.
   */
  method FirstHit(nodes: seq<string>, find: string -> Option<Sandbox>) returns (found: Option<Sandbox>)
    ensures found.None? <==> forall n <- nodes :: find(n).None?
    ensures found.Some? ==> exists n :: n in nodes && find(n) == found
  {
    found := None;
    var cancelled := false;
    var workers := seq(|nodes|, _ => Waiting);
    while exists i :: 0 <= i < |workers| && !workers[i].Finished?
      invariant |workers| == |nodes|
      invariant cancelled ==> found.Some?
      invariant found.Some? ==> exists n :: n in nodes && find(n) == found
      invariant forall i :: 0 <= i < |nodes| ==> Honest(workers[i], find(nodes[i]), found)
      decreases Work(workers)
    {
      var i :| 0 <= i < |workers| && !workers[i].Finished?;
      var next := Finished;
      match workers[i] {
      case Waiting =>
        next := if cancelled then Finished else Asking;
      case Asking =>
        var failed: bool := *;
        var hit := if cancelled && failed then None else find(nodes[i]);
        next := if hit.Some? then Holding(hit.value) else Finished;
      case Holding(hit) =>
        found := if found.Some? then found else Some(hit);
        next := Cancelling;
      case Cancelling =>
        cancelled := true;
      }
      WorkUpdate(workers, i, next);
      workers := workers[i := next];
    }
    if found.None? {
      forall n <- nodes
        ensures find(n).None?
      {
        var i :| 0 <= i < |nodes| && nodes[i] == n;
        assert Honest(workers[i], find(nodes[i]), found);
      }
    }
  }

  /** Only listed nodes are readable, as both inventory sources have it at one instant. */
  predicate Coherent(fleet: Fleet) {
    && (forall n <- fleet.inventories :: n in fleet.nodes)
    && (forall n <- fleet.live :: n in fleet.nodes)
  }

  /** Every inventory names the node it is read from. */
  predicate WellNamed(fleet: Fleet) {
    forall n <- fleet.inventories :: fleet.inventories[n].node == n
  }

  /** Neither the node's inventory nor, with routing, the node itself has a match. */
  predicate NoMatchOn(fleet: Fleet, node: string, matches: Entry -> bool) {
    && (node in fleet.inventories ==> forall e <- fleet.inventories[node].entries :: !matches(e))
    && (fleet.routing && node in fleet.live ==> forall e <- fleet.live[node] :: !matches(e))
  }

  /** `sb` renders a matching entry that `node`'s inventory or the node itself reported. */
  predicate ReadFrom(fleet: Fleet, node: string, matches: Entry -> bool, sb: Sandbox) {
    && matches(sb.entry)
    && ( || (node in fleet.inventories && sb.entry in fleet.inventories[node].entries &&
        sb == EntryToSandbox(fleet.inventories[node].node, sb.entry))
         || (fleet.routing && node in fleet.live && sb.entry in fleet.live[node] &&
             sb == EntryToSandbox(node, sb.entry)))
  }

  /**
   The lookup for any hint the index gives, right, stale or none: it misses exactly when the
   node list is readable and neither the hinted node nor any listed one has a match, and what
   it finds was read from the fleet.
   */
  method ResolveWithHint(hint: Option<string>, fleet: Fleet, matches: Entry -> bool)
    returns (r: Resolution, swept: bool)
    ensures r.Missing? <==> fleet.listable && (hint.Some? ==> NoMatchOn(fleet, hint.value, matches)) &&
                            forall n <- fleet.nodes :: NoMatchOn(fleet, n, matches)
    ensures r.ListFailed? ==> !fleet.listable
    ensures r.Found? ==> exists n :: (n in fleet.nodes || hint == Some(n)) && ReadFrom(fleet, n, matches, r.sandbox)
    ensures r.Found? && !swept ==> hint.Some? && ReadFrom(fleet, hint.value, matches, r.sandbox)
  {
    swept := false;
    if hint.Some? {
      var sb := MatchOnNode(fleet, hint.value, matches);
      if sb.None? {
        sb := LiveOnNode(fleet, hint.value, matches);
      }
      if sb.Some? {
        assert ReadFrom(fleet, hint.value, matches, sb.value);
        return Found(sb.value), false;
      }
    }
    swept := true;
    if !fleet.listable {
      return ListFailed, true;
    }
    var found := FirstHit(fleet.nodes, n => MatchOnNode(fleet, n, matches));
    if found.Some? {
      ghost var n :| n in fleet.nodes && MatchOnNode(fleet, n, matches) == found;
      assert ReadFrom(fleet, n, matches, found.value);
      return Found(found.value), true;
    }
    if fleet.routing {
      found := FirstHit(fleet.nodes, n => LiveOnNode(fleet, n, matches));
      if found.Some? {
        ghost var n :| n in fleet.nodes && LiveOnNode(fleet, n, matches) == found;
        assert ReadFrom(fleet, n, matches, found.value);
        return Found(found.value), true;
      }
    }
    return Missing, true;
  }

  /**
   resolve: whatever the index holds, a miss means the whole fleet has no match, as a plain
   sweep would report, and a hit names the node it was read from and leaves the index
   pointing there.
   */
  method Resolve(index: NodeIndex.Index, key: string, fleet: Fleet, matches: Entry -> bool) returns (r: Resolution)
    requires Coherent(fleet) && WellNamed(fleet)
    modifies index
    ensures r.Missing? <==> fleet.listable && forall n <- fleet.nodes :: NoMatchOn(fleet, n, matches)
    ensures r.ListFailed? ==> !fleet.listable
    ensures r.Found? ==> ReadFrom(fleet, r.sandbox.node, matches, r.sandbox) && r.sandbox.node in fleet.nodes
    ensures r.Found? && key != "" && r.sandbox.node != "" ==> NodeIndex.Find(index.Value(), key) == Some(r.sandbox.node)
    ensures !r.Found? ==> index.Value() == NodeIndex.After(old(index.Value()), NodeIndex.Lookup(key))
  {
    var hint := index.Lookup(key);
    var swept;
    r, swept := ResolveWithHint(hint, fleet, matches);
    if r.Found? {
      ghost var n :| (n in fleet.nodes || hint == Some(n)) && ReadFrom(fleet, n, matches, r.sandbox);
      assert r.sandbox.node == n;
      if swept {
        index.Remember(key, r.sandbox.node);
      }
    }
  }
}
