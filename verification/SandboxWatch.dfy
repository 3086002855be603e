/**
 The poll-diff watch. Each tick lists the fleet and sends the difference to what was known;
 the receiver must be able to rebuild the listing from the events alone. A watch pinned to
 one name follows that name's node and asks the node itself before it reports a deletion.
 */
module SandboxWatch {
  import opened Common
  import opened FleetLookup
  import opened Ordering

  datatype Kind = Added | Modified | Deleted | Bookmark

  datatype Event = Event(kind: Kind, sandbox: Sandbox)

  /** Resource version of an entry, an opaque digest of it. */
  type Version = Entry -> string

  /** An object key. A namespace holds no slash, so "namespace/name" and the pair identify the same object. */
  datatype Name = Name(namespace: string, name: string)

  function Key(sb: Sandbox): Name {
    Name(sb.namespace, sb.name)
  }

  // ---------------------------------------------------------------- what a receiver sees

  /** A receiver's view after one more event; None when the event makes no sense to it. */
  function Receive(view: map<Name, Sandbox>, e: Event): Option<map<Name, Sandbox>> {
    var k := Key(e.sandbox);
    match e.kind
    case Added => if k in view then None else Some(view[k := e.sandbox])
    case Modified => if k in view then Some(view[k := e.sandbox]) else None
    case Deleted => if k in view then Some(view - {k}) else None
    case Bookmark => Some(view)
  }

  /** Replaying a whole stream from nothing. */
  function Replay(events: seq<Event>): Option<map<Name, Sandbox>> {
    if events == [] then Some(map[])
    else
      match Replay(events[..|events| - 1])
      case None => None
      case Some(view) => Receive(view, events[|events| - 1])
  }

  /** Two views list the same names, each at the same resource version. */
  predicate Agree(a: map<Name, Sandbox>, b: map<Name, Sandbox>, version: Version) {
    a.Keys == b.Keys && forall k <- a :: version(a[k].entry) == version(b[k].entry)
  }

  lemma Associates(a: seq<Event>, b: seq<Event>, c: seq<Event>)
    ensures a + b + c == a + (b + c)
  {
  }

  lemma ReplaySnoc(events: seq<Event>, e: Event)
    requires Replay(events).Some?
    ensures Replay(events + [e]) == Receive(Replay(events).value, e)
  {
  }

  /** Event `i` is about name `k`. */
  predicate About(events: seq<Event>, i: int, k: Name) {
    0 <= i < |events| && !events[i].kind.Bookmark? && Key(events[i].sandbox) == k
  }

  /** In a stream that replays, a name is in the view exactly when its last event did not delete it. */
  lemma {:induction false} ViewIsLastEvent(events: seq<Event>, k: Name, last: int)
    requires Replay(events).Some?
    requires About(events, last, k) && forall i :: last < i < |events| ==> !About(events, i, k)
    ensures k in Replay(events).value <==> !events[last].kind.Deleted?
  {
    var front := events[..|events| - 1];
    if last < |events| - 1 {
      assert About(front, last, k);
      assert !About(events, |events| - 1, k);
      assert forall i :: last < i < |front| ==> !About(front, i, k) by {
        forall i | last < i < |front|
          ensures !About(front, i, k)
        {
          assert !About(events, i, k);
        }
      }
      ViewIsLastEvent(front, k, last);
    }
  }

  lemma {:induction false} UntouchedIsAbsent(events: seq<Event>, k: Name)
    requires Replay(events).Some? && forall i :: 0 <= i < |events| ==> !About(events, i, k)
    ensures k !in Replay(events).value
  {
    if events != [] {
      var front := events[..|events| - 1];
      assert !About(events, |events| - 1, k);
      forall i | 0 <= i < |front|
        ensures !About(front, i, k)
      {
        assert !About(events, i, k);
      }
      UntouchedIsAbsent(front, k);
    }
  }

  /**
   Per name, events go Added, Modified*, Deleted and again: the first is Added, and of two
   neighbours the second is Added exactly when the first is Deleted.
   */
  lemma StreamGrammar(events: seq<Event>, k: Name, prev: int, next: int)
    requires Replay(events).Some?
    requires About(events, next, k) && -1 <= prev < next && (prev >= 0 ==> About(events, prev, k))
    requires forall i :: prev < i < next ==> !About(events, i, k)
    ensures prev < 0 ==> events[next].kind.Added?
    ensures prev >= 0 ==> (events[next].kind.Added? <==> events[prev].kind.Deleted?)
  {
    var before := events[..next];
    PrefixReplays(events, next);
    PrefixReplays(events, next + 1);
    assert events[..next + 1] == before + [events[next]];
    ReplaySnoc(before, events[next]);
    forall i | prev < i < next
      ensures !About(before, i, k)
    {
      assert !About(events, i, k);
    }
    if prev >= 0 {
      assert About(before, prev, k);
      ViewIsLastEvent(before, k, prev);
    } else {
      UntouchedIsAbsent(before, k);
    }
  }

  lemma {:induction false} PrefixReplays(events: seq<Event>, n: nat)
    requires n <= |events| && Replay(events).Some?
    ensures Replay(events[..n]).Some?
  {
    if n < |events| {
      assert events[..|events| - 1][..n] == events[..n];
      PrefixReplays(events[..|events| - 1], n);
    } else {
      assert events[..n] == events;
    }
  }

  // ---------------------------------------------------------------- what a poll lists

  predicate NameMatch(e: Entry, namespace: string, name: string) {
    SplitNamespacedName(e.name) == (namespace, name)
  }

  function NameMatcher(namespace: string, name: string): Entry -> bool {
    e => NameMatch(e, namespace, name)
  }

  /** One inventory's selected sandboxes in the namespace, or in all of them when it is empty. */
  function Materialize(node: string, entries: seq<Entry>, namespace: string, selects: Sandbox -> bool): seq<Sandbox> {
    if entries == [] then []
    else
      var sb := EntryToSandbox(node, entries[0]);
      (if (namespace == "" || sb.namespace == namespace) && selects(sb) then [sb] else []) +
      Materialize(node, entries[1..], namespace, selects)
  }

  /** The readable inventories of `nodes`, one after the other. */
  function Gather(fleet: Fleet, nodes: seq<string>, namespace: string, selects: Sandbox -> bool): seq<Sandbox> {
    if nodes == [] then []
    else
      (if nodes[0] in fleet.inventories
       then Materialize(fleet.inventories[nodes[0]].node, fleet.inventories[nodes[0]].entries, namespace, selects)
       else []) +
      Gather(fleet, nodes[1..], namespace, selects)
  }

  predicate NameOrder(a: Sandbox, b: Sandbox) {
    var c := Compare(a.namespace, b.namespace);
    c < 0 || (c == 0 && Compare(a.name, b.name) <= 0)
  }

  function ListInventories(fleet: Fleet, namespace: string, selects: Sandbox -> bool): seq<Sandbox> {
    Sort(Gather(fleet, fleet.nodes, namespace, selects), NameOrder)
  }

  lemma NameOrderIsTotal()
    ensures TotalPreorder(NameOrder)
  {
    forall a: Sandbox, b: Sandbox
      ensures NameOrder(a, b) || NameOrder(b, a)
    {
      CompareFlips(a.namespace, b.namespace);
      CompareFlips(a.name, b.name);
    }
    forall a: Sandbox, b: Sandbox, c: Sandbox | NameOrder(a, b) && NameOrder(b, c)
      ensures NameOrder(a, c)
    {
      CompareTransitive(a.namespace, b.namespace, c.namespace);
      if a.namespace == c.namespace {
        CompareFlips(a.namespace, b.namespace);
        CompareTransitive(a.name, b.name, c.name);
      }
    }
  }

  lemma {:induction false} MaterializeHas(node: string, entries: seq<Entry>, namespace: string,
          selects: Sandbox -> bool, sb: Sandbox)
    ensures sb in Materialize(node, entries, namespace, selects) <==>
            exists e ::
                e in entries && sb == EntryToSandbox(node, e) && (namespace == "" || sb.namespace == namespace) &&
                selects(sb)
  {
    if entries != [] {
      MaterializeHas(node, entries[1..], namespace, selects, sb);
      assert entries == [entries[0]] + entries[1..];
    }
  }

  lemma {:induction false} GatherHas(fleet: Fleet, nodes: seq<string>, namespace: string, selects: Sandbox -> bool,
          sb: Sandbox)
    ensures sb in Gather(fleet, nodes, namespace, selects) <==>
            exists n :: n in nodes && n in fleet.inventories &&
              sb in Materialize(fleet.inventories[n].node, fleet.inventories[n].entries, namespace, selects)
  {
    if nodes != [] {
      GatherHas(fleet, nodes[1..], namespace, selects, sb);
      assert nodes == [nodes[0]] + nodes[1..];
    }
  }

  /** The list is every selected entry in the namespace of every readable listed inventory, sorted by name. */
  lemma ListIsTheFleet(fleet: Fleet, namespace: string, selects: Sandbox -> bool)
    ensures Sorted(ListInventories(fleet, namespace, selects), NameOrder)
    ensures forall i, j :: 0 <= i < j < |ListInventories(fleet, namespace, selects)| ==>
              var a, b := ListInventories(fleet, namespace, selects)[i], ListInventories(fleet, namespace, selects)[j];
              Compare(a.namespace, b.namespace) < 0 || (a.namespace == b.namespace && Compare(a.name, b.name) <= 0)
    ensures forall sb :: sb in ListInventories(fleet, namespace, selects) <==>
              exists n, e :: n in fleet.nodes && n in fleet.inventories && e in fleet.inventories[n].entries &&
                sb == EntryToSandbox(fleet.inventories[n].node, e) &&
                    (namespace == "" || sb.namespace == namespace) && selects(sb)
  {
    NameOrderIsTotal();
    var all := Gather(fleet, fleet.nodes, namespace, selects);
    SortSorts(all, NameOrder);
    SameElements(Sort(all, NameOrder), all);
    forall sb
      ensures sb in all <==>
              exists n, e :: n in fleet.nodes && n in fleet.inventories && e in fleet.inventories[n].entries &&
                sb == EntryToSandbox(fleet.inventories[n].node, e) &&
                    (namespace == "" || sb.namespace == namespace) && selects(sb)
    {
      GatherHas(fleet, fleet.nodes, namespace, selects, sb);
      forall n | n in fleet.inventories
        ensures sb in Materialize(fleet.inventories[n].node, fleet.inventories[n].entries, namespace, selects) <==>
                exists e :: e in fleet.inventories[n].entries && sb == EntryToSandbox(fleet.inventories[n].node, e) &&
                  (namespace == "" || sb.namespace == namespace) && selects(sb)
      {
        MaterializeHas(fleet.inventories[n].node, fleet.inventories[n].entries, namespace, selects, sb);
      }
    }
  }

  predicate DistinctKeys(items: seq<Sandbox>) {
    forall i, j :: 0 <= i < j < |items| ==> Key(items[i]) != Key(items[j])
  }

  /** The node's inventory, or the node itself, shows a selected sandbox as its first match of the name. */
  predicate SelectedFirst(found: Option<Sandbox>, selects: Sandbox -> bool) {
    found.Some? && selects(found.value)
  }

  /** `sb` is gone: neither its node's inventory nor, with routing, its node itself shows it selected. */
  predicate Gone(fleet: Fleet, sb: Sandbox, selects: Sandbox -> bool) {
    && !SelectedFirst(MatchOnNode(fleet, sb.node, NameMatcher(sb.namespace, sb.name)), selects)
    && !SelectedFirst(LiveOnNode(fleet, sb.node, NameMatcher(sb.namespace, sb.name)), selects)
  }

  /** Looking at the first match only gives the same verdict as looking at every match. */
  ghost predicate FirstSpeaks(node: string, entries: seq<Entry>, matches: Entry -> bool, selects: Sandbox -> bool) {
    SelectedFirst(FirstMatch(node, entries, matches), selects) <==>
    exists e :: e in entries && matches(e) && selects(EntryToSandbox(node, e))
  }

  predicate OneEntryPerName(entries: seq<Entry>, matches: Entry -> bool) {
    forall e, f :: e in entries && f in entries && matches(e) && matches(f) ==> e == f
  }

  /**
   Only the first entry of a name is looked at. That speaks for every entry of the name,
   whatever the selector, exactly when the node reports one entry per name.
   */
  lemma FirstMatchSpeaksForAll(node: string, entries: seq<Entry>, matches: Entry -> bool)
    ensures (forall selects :: FirstSpeaks(node, entries, matches, selects)) <==> OneEntryPerName(entries, matches)
  {
    if OneEntryPerName(entries, matches) {
      forall selects: Sandbox -> bool
        ensures FirstSpeaks(node, entries, matches, selects)
      {
      }
    } else {
      var e, f :| e in entries && f in entries && matches(e) && matches(f) && e != f;
      var first := FirstMatch(node, entries, matches);
      var other := if e == first.value.entry then f else e;
      var selects := (sb: Sandbox) => sb.entry == other;
      assert selects(EntryToSandbox(node, other));
      assert !FirstSpeaks(node, entries, matches, selects);
    }
  }

  /** Two listed entries of one name, the first not selected: the watch would report the name deleted. */
  lemma SecondEntryIsOverlooked()
    ensures var running := Entry("ns/a", "sb_2", "Running", "ns/a", "t", "");
            var paused := Entry("ns/a", "sb_1", "Hibernated", "ns/a", "t", "");
            var fleet := Fleet(true, ["n"], map["n" := Inventory("n", [paused, running])], false, map[]);
            var selects := (sb: Sandbox) => sb.entry.phase == "Running";
            Gone(fleet, Sandbox("ns", "a", "n", running), selects) && selects(EntryToSandbox("n", running))
  {
    var running := Entry("ns/a", "sb_2", "Running", "ns/a", "t", "");
    var paused := Entry("ns/a", "sb_1", "Hibernated", "ns/a", "t", "");
    CutAtFirst("ns", '/', "a");
    assert "ns" + ['/'] + "a" == "ns/a";
    assert SplitNamespacedName("ns/a") == ("ns", "a");
    assert "Hibernated"[0] != "Running"[0];
  }

  // ---------------------------------------------------------------- the watch

  /** `known` is exactly the items, under their keys. */
  predicate Holds(known: map<Name, Sandbox>, items: seq<Sandbox>) {
    && (forall k <- known :: known[k] in items && Key(known[k]) == k)
    && (forall sb <- items :: Key(sb) in known && known[Key(sb)] == sb)
  }

  lemma HoldsStep(cur: map<Name, Sandbox>, items: seq<Sandbox>, i: nat)
    requires i < |items| && DistinctKeys(items) && Holds(cur, items[..i])
    ensures Key(items[i]) !in cur && Holds(cur[Key(items[i]) := items[i]], items[..i + 1])
  {
  }

  lemma AnnounceNext(view: map<Name, Sandbox>, known: map<Name, Sandbox>, items: seq<Sandbox>, i: nat, version: Version,
          before: seq<Event>, sent: seq<Event>)
    requires i < |items| && DistinctKeys(items) && Holds(known, items[..i]) && Agree(view, known, version)
    requires sent == before + Each(Added, items[..i])
    ensures Key(items[i]) !in known && Holds(known[Key(items[i]) := items[i]], items[..i + 1])
    ensures var e := Event(Added, items[i]);
            && sent + [e] == before + Each(Added, items[..i + 1]) && Receive(view, e).Some?
            && Agree(Receive(view, e).value, known[Key(items[i]) := items[i]], version)
  {
    HoldsStep(known, items, i);
    EachNext(Added, items, i);
  }

  /** What a listed sandbox changes for the receiver, if anything. */
  function ListedEvent(known: map<Name, Sandbox>, sb: Sandbox, version: Version): Option<Event> {
    if Key(sb) !in known then Some(Event(Added, sb))
    else if version(known[Key(sb)].entry) != version(sb.entry) then Some(Event(Modified, sb))
    else None
  }

  /** A listed sandbox that was not known is among the events as Added, one at another version as Modified. */
  predicate Tells(known: map<Name, Sandbox>, sb: Sandbox, version: Version, events: seq<Event>) {
    && (Key(sb) !in known ==> Event(Added, sb) in events)
    && (Key(sb) in known && version(known[Key(sb)].entry) != version(sb.entry) ==> Event(Modified, sb) in events)
  }

  /** The event is about a listed sandbox that was not known, as Added, or known at another version, as Modified. */
  predicate IsNews(known: map<Name, Sandbox>, items: seq<Sandbox>, version: Version, e: Event) {
    && e.sandbox in items
    && (if Key(e.sandbox) in known
        then e.kind.Modified? && version(known[Key(e.sandbox)].entry) != version(e.sandbox.entry)
        else e.kind.Added?)
  }

  predicate OncePerName(events: seq<Event>) {
    forall i, j :: 0 <= i < j < |events| ==> Key(events[i].sandbox) != Key(events[j].sandbox)
  }

  lemma OnceMore(events: seq<Event>, more: seq<Event>)
    requires OncePerName(events) && OncePerName(more)
    requires forall e <- more, f <- events :: Key(e.sandbox) != Key(f.sandbox)
    ensures OncePerName(events + more)
  {
  }

  /** One event of a kind for each sandbox, in order. */
  function Each(kind: Kind, items: seq<Sandbox>): (r: seq<Event>)
    ensures |r| == |items| && forall i :: 0 <= i < |r| ==> r[i] == Event(kind, items[i])
  {
    seq(|items|, i requires 0 <= i < |items| => Event(kind, items[i]))
  }

  lemma EachNext(kind: Kind, items: seq<Sandbox>, i: nat)
    requires i < |items|
    ensures Each(kind, items[..i + 1]) == Each(kind, items[..i]) + [Event(kind, items[i])]
  {
  }

  /** The bookmark that ends the initial events names no sandbox. */
  const BOOKMARK := Event(Bookmark, Sandbox("", "", "", Entry("", "", "", "", "", "")))

  lemma ListedStep(view: map<Name, Sandbox>, known: map<Name, Sandbox>, cur: map<Name, Sandbox>, sb: Sandbox,
          version: Version)
    requires Agree(view, known + cur, version) && Key(sb) !in cur
    ensures var e := ListedEvent(known, sb, version);
            if e.None? then Agree(view, known + cur[Key(sb) := sb], version)
            else
              && !e.value.kind.Deleted? && Receive(view, e.value).Some?
              && Agree(Receive(view, e.value).value, known + cur[Key(sb) := sb], version)
  {
    assert known + cur[Key(sb) := sb] == (known + cur)[Key(sb) := sb];
  }

  predicate HeldByNode(fleet: Fleet, sb: Sandbox, selects: Sandbox -> bool) {
    SelectedFirst(LiveOnNode(fleet, sb.node, NameMatcher(sb.namespace, sb.name)), selects)
  }

  /** What stays known after a tick: everything listed, and the missing names something still holds. */
  predicate OnlyKept(known: map<Name, Sandbox>, listed: map<Name, Sandbox>, cur: map<Name, Sandbox>,
          held: Sandbox -> bool)
  {
    && (forall k <- listed :: k in cur && cur[k] == listed[k])
    && (forall k <- cur :: k in listed || (k in known && cur[k] == known[k] && held(known[k])))
  }

  /** The drops are known names that are neither listed nor held, each once. */
  predicate OnlyDropped(known: map<Name, Sandbox>, cur: map<Name, Sandbox>, drops: seq<Sandbox>, held: Sandbox -> bool)
  {
    && (forall d <- drops :: Key(d) in known && known[Key(d)] == d && Key(d) !in cur && !held(d))
    && DistinctKeys(drops)
  }

  /** Splits the known names that a poll no longer lists into those to keep and those to delete. */
  method SplitMissing(known: map<Name, Sandbox>, listed: map<Name, Sandbox>, held: Sandbox -> bool)
    returns (cur: map<Name, Sandbox>, drops: seq<Sandbox>)
    requires forall k <- known :: Key(known[k]) == k
    ensures OnlyKept(known, listed, cur, held) && OnlyDropped(known, cur, drops, held)
    ensures forall k <- known :: k in cur || known[k] in drops
  {
    cur, drops := listed, [];
    var todo := known.Keys;
    while todo != {}
      invariant todo <= known.Keys
      invariant OnlyKept(known, listed, cur, held) && OnlyDropped(known, cur, drops, held)
      invariant forall d <- drops :: Key(d) !in todo
      invariant forall k <- known :: k in todo || k in cur || known[k] in drops
      decreases |todo|
    {
      var k :| k in todo;
      todo := todo - {k};
      if k !in cur {
        if held(known[k]) {
          cur := cur[k := known[k]];
        } else {
          drops := drops + [known[k]];
        }
      }
    }
  }

  /** `view` without the names of `drops`. */
  predicate Without(view: map<Name, Sandbox>, drops: seq<Sandbox>, rest: map<Name, Sandbox>) {
    && (forall k <- rest :: k in view && rest[k] == view[k] && forall d <- drops :: Key(d) != k)
    && (forall k <- view :: k in rest || exists d :: d in drops && Key(d) == k)
  }

  lemma NothingDropped(view: map<Name, Sandbox>, drops: seq<Sandbox>, sent: seq<Event>)
    ensures Without(view, drops[..0], view) && sent == sent + Each(Deleted, drops[..0])
  {
  }

  lemma DropNext(view: map<Name, Sandbox>, drops: seq<Sandbox>, i: nat, rest: map<Name, Sandbox>, before: seq<Event>,
          sent: seq<Event>)
    requires i < |drops| && DistinctKeys(drops) && Without(view, drops[..i], rest) && Key(drops[i]) in view
    requires sent == before + Each(Deleted, drops[..i])
    ensures Key(drops[i]) in rest && Without(view, drops[..i + 1], rest - {Key(drops[i])})
    ensures sent + [Event(Deleted, drops[i])] == before + Each(Deleted, drops[..i + 1])
  {
    WithoutNext(view, drops, i, rest);
    EachNext(Deleted, drops, i);
  }

  lemma WithoutNext(view: map<Name, Sandbox>, drops: seq<Sandbox>, i: nat, rest: map<Name, Sandbox>)
    requires i < |drops| && DistinctKeys(drops) && Without(view, drops[..i], rest) && Key(drops[i]) in view
    ensures Key(drops[i]) in rest && Without(view, drops[..i + 1], rest - {Key(drops[i])})
  {
  }

  /** Deleting exactly the drops from a view of everything known or listed leaves a view of what stays known. */
  lemma DropsLeaveKept(view: map<Name, Sandbox>, known: map<Name, Sandbox>, listed: map<Name, Sandbox>,
          cur: map<Name, Sandbox>, drops: seq<Sandbox>, rest: map<Name, Sandbox>, held: Sandbox -> bool,
          version: Version)
    requires Agree(view, known + listed, version) && Without(view, drops, rest)
    requires OnlyKept(known, listed, cur, held) && OnlyDropped(known, cur, drops, held)
    requires forall k <- known :: Key(known[k]) == k && (k in cur || known[k] in drops)
    ensures Agree(rest, cur, version)
  {
    forall k
      ensures k in rest <==> k in cur
    {
      if k in cur {
        assert k in view;
      }
    }
  }

  function OnlySelected(sb: Option<Sandbox>, selects: Sandbox -> bool): Option<Sandbox> {
    if SelectedFirst(sb, selects) then sb else None
  }

  function SelectedOne(sb: Option<Sandbox>, selects: Sandbox -> bool): seq<Sandbox> {
    if SelectedFirst(sb, selects) then [sb.value] else []
  }

  lemma MatchHasName(fleet: Fleet, node: string, p: Name)
    ensures var sb := MatchOnNode(fleet, node, NameMatcher(p.namespace, p.name));
            sb.Some? ==> Key(sb.value) == p
  {
  }

  lemma PinnedDropIsGone(fleet: Fleet, p: Name, known: map<Name, Sandbox>, items: seq<Sandbox>, sb: Sandbox,
          selects: Sandbox -> bool)
    requires Key(sb) == p && p in known && known[p] == sb && (forall other <- items :: Key(other) != p)
    requires items == SelectedOne(MatchOnNode(fleet, sb.node, NameMatcher(p.namespace, p.name)), selects)
    requires !HeldByNode(fleet, sb, selects)
    ensures Gone(fleet, sb, selects)
  {
    MatchHasName(fleet, sb.node, p);
    var m := MatchOnNode(fleet, sb.node, NameMatcher(p.namespace, p.name));
    assert m.None? || m.value !in items;
  }

  /** The first match of the name in a node's inventory. */
  function ShownBy(fleet: Fleet, node: string, p: Name): Option<Sandbox> {
    MatchOnNode(fleet, node, NameMatcher(p.namespace, p.name))
  }

  /** Some listed node's inventory shows `sb` as its first match of the name. */
  predicate ShownAt(fleet: Fleet, p: Name, sb: Sandbox) {
    exists n :: n in fleet.nodes && ShownBy(fleet, n, p) == Some(sb)
  }

  /**
   What a pinned watch that knew `was` knows after a tick: what its node's inventory shows
   selected, with the change sent if it is one; else `was`, exactly if the node itself holds it.
   */
  predicate Follows(fleet: Fleet, was: Sandbox, known: map<Name, Sandbox>, selects: Sandbox -> bool, version: Version,
          news: seq<Event>)
  {
    var shown := ShownBy(fleet, was.node, Key(was));
    if SelectedFirst(shown, selects)
    then Key(was) in known && known[Key(was)] == shown.value && Tells(map[Key(was) := was], shown.value, version, news)
    else (Key(was) in known <==> HeldByNode(fleet, was, selects)) && (Key(was) in known ==> known[Key(was)] == was)
  }

  /** What one that knew nothing knows: exactly if some inventory shows one, a selected sandbox, sent as Added. */
  predicate Finds(fleet: Fleet, p: Name, known: map<Name, Sandbox>, selects: Sandbox -> bool, news: seq<Event>) {
    && (p in known <==> exists n :: n in fleet.nodes && SelectedFirst(ShownBy(fleet, n, p), selects))
    && (p in known ==> selects(known[p]) && ShownAt(fleet, p, known[p]) && Event(Added, known[p]) in news)
  }

  /** At most one selected sandbox of the name that some inventory shows, and none only if none does. */
  predicate Anywhere(fleet: Fleet, p: Name, items: seq<Sandbox>, selects: Sandbox -> bool) {
    && |items| <= 1 && (forall sb <- items :: selects(sb) && ShownAt(fleet, p, sb))
    && (items == [] <==> forall n <- fleet.nodes :: !SelectedFirst(ShownBy(fleet, n, p), selects))
  }

  method PollAnywhere(fleet: Fleet, p: Name, selects: Sandbox -> bool) returns (items: seq<Sandbox>)
    ensures Anywhere(fleet, p, items, selects)
  {
    var sb := FirstHit(fleet.nodes, n => OnlySelected(ShownBy(fleet, n, p), selects));
    assert sb.Some? ==> exists n :: n in fleet.nodes && ShownBy(fleet, n, p) == sb;
    return SelectedOne(sb, selects);
  }

  /** What is listed under a pinned name has that name. */
  lemma PinnedItems(fleet: Fleet, p: Name, items: seq<Sandbox>, selects: Sandbox -> bool, node: string)
    requires Anywhere(fleet, p, items, selects) || items == SelectedOne(ShownBy(fleet, node, p), selects)
    ensures DistinctKeys(items) && forall sb <- items :: Key(sb) == p
  {
    forall n: string
      ensures ShownBy(fleet, n, p).Some? ==> Key(ShownBy(fleet, n, p).value) == p
    {
      MatchHasName(fleet, n, p);
    }
  }

  /** A tick ended with `items` known and told, and of what was known before only what is held beside them. */
  ghost predicate Settled(before: map<Name, Sandbox>, items: seq<Sandbox>, known: map<Name, Sandbox>,
          held: Sandbox -> bool, version: Version, news: seq<Event>)
  {
    && (forall sb <- items :: Key(sb) in known && known[Key(sb)] == sb && Tells(before, sb, version, news))
    && (forall k <- before :: if held(before[k]) then k in known else k in known || Event(Deleted, before[k]) in news)
    && (forall k <- known :: known[k] in items || (k in before && known[k] == before[k] && held(known[k])))
  }

  lemma PinnedFinds(fleet: Fleet, p: Name, before: map<Name, Sandbox>, items: seq<Sandbox>, known: map<Name, Sandbox>,
          held: Sandbox -> bool, selects: Sandbox -> bool, version: Version, news: seq<Event>)
    requires p !in before && Settled(before, items, known, held, version, news)
    requires Anywhere(fleet, p, items, selects)
    ensures Finds(fleet, p, known, selects, news)
  {
    PinnedItems(fleet, p, items, selects, "");
    if items != [] {
      assert items[0] in items;
    }
  }

  lemma PinnedFollows(fleet: Fleet, p: Name, before: map<Name, Sandbox>, items: seq<Sandbox>, known: map<Name, Sandbox>,
          held: Sandbox -> bool, selects: Sandbox -> bool, version: Version, news: seq<Event>)
    requires p in before && Key(before[p]) == p && Settled(before, items, known, held, version, news)
    requires items == SelectedOne(ShownBy(fleet, before[p].node, p), selects)
    requires held(before[p]) == HeldByNode(fleet, before[p], selects)
    ensures Follows(fleet, before[p], known, selects, version, news)
  {
    MatchHasName(fleet, before[p].node, p);
    var shown := ShownBy(fleet, before[p].node, p);
    if SelectedFirst(shown, selects) {
      assert items[0] in items;
    }
  }

  lemma NewsGrows(known: map<Name, Sandbox>, items: seq<Sandbox>, i: nat, version: Version, news: seq<Event>,
          more: seq<Event>)
    requires i < |items| && DistinctKeys(items) && OncePerName(news) && |more| <= 1
    requires forall e <- news :: IsNews(known, items[..i], version, e)
    requires forall e <- more :: IsNews(known, [items[i]], version, e)
    requires forall k :: 0 <= k < i ==> Tells(known, items[k], version, news)
    requires Tells(known, items[i], version, more)
    ensures OncePerName(news + more) && forall e <- news + more :: IsNews(known, items[..i + 1], version, e)
    ensures forall k :: 0 <= k < i + 1 ==> Tells(known, items[k], version, news + more)
  {
    forall e <- more, f <- news
      ensures Key(e.sandbox) != Key(f.sandbox)
    {
      var k :| 0 <= k < i && items[k] == f.sandbox;
    }
    OnceMore(news, more);
    assert items[..i + 1] == items[..i] + [items[i]];
  }

  /** The first `i` items are in `cur` and told, each once. */
  ghost predicate Told(known: map<Name, Sandbox>, items: seq<Sandbox>, i: nat, cur: map<Name, Sandbox>,
          view: map<Name, Sandbox>, version: Version, news: seq<Event>)
    requires i <= |items|
  {
    && Agree(view, known + cur, version) && Holds(cur, items[..i])
    && OncePerName(news) && (forall e <- news :: IsNews(known, items[..i], version, e))
    && (forall k :: 0 <= k < i ==> Tells(known, items[k], version, news))
  }

  lemma NothingTold(known: map<Name, Sandbox>, items: seq<Sandbox>, view: map<Name, Sandbox>, version: Version)
    requires Agree(view, known, version)
    ensures Told(known, items, 0, map[], view, version, [])
  {
    assert known + map[] == known;
  }

  lemma ToldNext(known: map<Name, Sandbox>, items: seq<Sandbox>, i: nat, cur: map<Name, Sandbox>,
          view: map<Name, Sandbox>, now: map<Name, Sandbox>, version: Version, news: seq<Event>, more: seq<Event>)
    requires i < |items| && DistinctKeys(items) && Told(known, items, i, cur, view, version, news)
    requires Agree(now, known + cur[Key(items[i]) := items[i]], version)
    requires |more| <= 1 && (forall e <- more :: IsNews(known, [items[i]], version, e))
    requires Tells(known, items[i], version, more)
    ensures Told(known, items, i + 1, cur[Key(items[i]) := items[i]], now, version, news + more)
  {
    HoldsStep(cur, items, i);
    NewsGrows(known, items, i, version, news, more);
  }

  lemma SomeTold(known: map<Name, Sandbox>, items: seq<Sandbox>, i: nat, cur: map<Name, Sandbox>,
          view: map<Name, Sandbox>, version: Version, news: seq<Event>)
    requires i <= |items| && Told(known, items, i, cur, view, version, news)
    ensures forall e <- news :: IsNews(known, items, version, e)
    ensures i == |items| ==> forall sb <- items :: Tells(known, sb, version, news)
  {
    assert forall sb <- items[..i] :: sb in items;
    assert items[..|items|] == items;
  }

  /**
   Every event of a tick is news of a listed sandbox or the deletion of a known one that is neither
   listed nor held.
   */
  ghost predicate OnlyDifferences(before: map<Name, Sandbox>, items: seq<Sandbox>, held: Sandbox -> bool,
          version: Version, news: seq<Event>)
  {
    && OncePerName(news)
    && forall e <- news ::
         || IsNews(before, items, version, e)
         || (&& e.kind.Deleted? && Key(e.sandbox) in before && before[Key(e.sandbox)] == e.sandbox && !held(e.sandbox)
             && forall sb <- items :: Key(sb) != Key(e.sandbox))
  }

  lemma DropsAreDifferences(before: map<Name, Sandbox>, items: seq<Sandbox>, cur: map<Name, Sandbox>,
          drops: seq<Sandbox>, held: Sandbox -> bool, version: Version, changes: seq<Event>, n: nat)
    requires n <= |drops| && OnlyDropped(before, cur, drops, held) && (forall sb <- items :: Key(sb) in cur)
    requires OncePerName(changes) && forall e <- changes :: IsNews(before, items, version, e)
    ensures OnlyDifferences(before, items, held, version, changes + Each(Deleted, drops[..n]))
  {
    var deletions := Each(Deleted, drops[..n]);
    forall e <- deletions
      ensures e.kind.Deleted? && e.sandbox in drops
    {
      var k :| 0 <= k < n && deletions[k] == e;
      assert drops[k] in drops;
    }
    OnceMore(changes, deletions);
  }

  lemma EveryDropTold(drops: seq<Sandbox>, deletions: seq<Event>)
    requires deletions == Each(Deleted, drops)
    ensures forall d <- drops :: Event(Deleted, d) in deletions
  {
    forall d <- drops
      ensures Event(Deleted, d) in deletions
    {
      var k :| 0 <= k < |drops| && drops[k] == d;
      assert deletions[k] == Event(Deleted, d);
    }
  }

  lemma DiffSettles(before: map<Name, Sandbox>, items: seq<Sandbox>, listed: map<Name, Sandbox>,
          cur: map<Name, Sandbox>, drops: seq<Sandbox>, held: Sandbox -> bool, version: Version, changes: seq<Event>)
    requires Holds(listed, items) && OnlyKept(before, listed, cur, held) && OnlyDropped(before, cur, drops, held)
    requires forall k <- before :: k in cur || before[k] in drops
    requires forall sb <- items :: Tells(before, sb, version, changes)
    ensures Settled(before, items, cur, held, version, changes + Each(Deleted, drops))
  {
    EveryDropTold(drops, Each(Deleted, drops));
    assert forall e <- changes :: e in changes + Each(Deleted, drops);
    assert forall e <- Each(Deleted, drops) :: e in changes + Each(Deleted, drops);
  }

  /** What a pinned lookup may come to: a miss only if nothing matches, a hit only of what the fleet shows. */
  ghost predicate Resolved(fleet: Fleet, hint: Option<string>, matches: Entry -> bool, r: Resolution) {
    && (r.Missing? <==> fleet.listable && (hint.Some? ==> NoMatchOn(fleet, hint.value, matches)) &&
                        forall n <- fleet.nodes :: NoMatchOn(fleet, n, matches))
    && (r.ListFailed? ==> !fleet.listable)
    && (r.Found? ==> exists n :: (n in fleet.nodes || hint == Some(n)) && ReadFrom(fleet, n, matches, r.sandbox))
  }

  /** The first list of a pinned name: what was resolved if that is selected, else what any inventory shows selected. */
  predicate FirstItems(fleet: Fleet, p: Name, r: Resolution, items: seq<Sandbox>, selects: Sandbox -> bool) {
    if r.Found? && selects(r.sandbox) then items == [r.sandbox]
    else if r.Found? && fleet.listable then Anywhere(fleet, p, items, selects)
    else items == []
  }

  /**
   The first list of a pinned name, whatever the hint: it is of the fleet, it is empty if
   nothing matches the name, and not empty if something does and all that matches is selected.
   */
  ghost predicate FirstList(fleet: Fleet, hint: Option<string>, p: Name, r: Resolution, items: seq<Sandbox>,
          selects: Sandbox -> bool)
  {
    var matches := NameMatcher(p.namespace, p.name);
    && Resolved(fleet, hint, matches, r) && FirstItems(fleet, p, r, items, selects) && |items| <= 1
    && (fleet.listable && (forall n, sb :: ReadFrom(fleet, n, matches, sb) ==> selects(sb)) ==>
          (items == [] <==> (hint.Some? ==> NoMatchOn(fleet, hint.value, matches)) &&
                            forall n <- fleet.nodes :: NoMatchOn(fleet, n, matches)))
  }

  lemma FirstItemsNamed(fleet: Fleet, hint: Option<string>, p: Name, r: Resolution, items: seq<Sandbox>,
          selects: Sandbox -> bool)
    requires Resolved(fleet, hint, NameMatcher(p.namespace, p.name), r) && FirstItems(fleet, p, r, items, selects)
    ensures FirstList(fleet, hint, p, r, items, selects)
    ensures DistinctKeys(items) && forall sb <- items :: Key(sb) == p
  {
    if r.Found? && !selects(r.sandbox) && fleet.listable {
      PinnedItems(fleet, p, items, selects, "");
    }
  }

  lemma HoldsOne(known: map<Name, Sandbox>, items: seq<Sandbox>, p: Name)
    requires Holds(known, items) && |items| <= 1 && forall sb <- items :: Key(sb) == p
    ensures known == if items == [] then map[] else map[p := items[0]]
  {
    if items != [] {
      assert items[0] in items;
    }
  }

  class Watch {
    /** How many events the receiver takes before it stops the watch. */
    const capacity: nat
    const version: Version
    const selects: Sandbox -> bool
    const namespace: string
    const pin: Option<Name>
    var known: map<Name, Sandbox>
    var sent: seq<Event>
    var room: nat
    var closed: bool

    /** The watch is closed only once the receiver has taken all it takes. */
    ghost predicate Counted()
      reads this
    {
      room + |sent| == capacity && (closed ==> room == 0)
    }

    ghost predicate Valid()
      reads this
    {
      && Counted() && Replay(sent).Some?
      && (!closed ==> Agree(Replay(sent).value, known, version))
      && (forall k <- known :: Key(known[k]) == k)
      && (pin.Some? ==> forall k <- known :: Key(known[k]) == pin.value)
    }

    constructor (version: Version, selects: Sandbox -> bool, namespace: string, pin: Option<Name>, room: nat)
      ensures Valid() && known == map[] && sent == [] && !closed && capacity == room
      ensures this.version == version && this.selects == selects && this.namespace == namespace && this.pin == pin
    {
      this.version, this.selects, this.namespace, this.pin := version, selects, namespace, pin;
      this.capacity, this.room := room, room;
      known, sent, closed := map[], [], false;
    }

    method Emit(e: Event, ghost view: map<Name, Sandbox>) returns (ok: bool)
      requires Replay(sent) == Some(view) && Receive(view, e).Some? && !closed && Counted()
      modifies this`sent, this`room, this`closed
      ensures Counted() && ok == (|old(sent)| < capacity)
      ensures ok ==> sent == old(sent) + [e] && !closed && Replay(sent) == Receive(view, e)
      ensures !ok ==> sent == old(sent) && closed
    {
      if room == 0 {
        closed := true;
        return false;
      }
      ReplaySnoc(sent, e);
      room, sent := room - 1, sent + [e];
      return true;
    }

    /** The items the first list starts from: every one is announced. */
    method Announce(items: seq<Sandbox>)
      requires Valid() && known == map[] && !closed && DistinctKeys(items)
      requires pin.Some? ==> forall sb <- items :: Key(sb) == pin.value
      modifies this
      ensures Valid()
      ensures !closed ==> Holds(known, items) && sent == old(sent) + Each(Added, items)
    {
      assert Each(Added, items[..0]) == [] && sent + [] == sent;
      for i := 0 to |items|
        invariant Valid() && !closed && Holds(known, items[..i]) && sent == old(sent) + Each(Added, items[..i])
      {
        var sb := items[i];
        ghost var view := Replay(sent).value;
        AnnounceNext(view, known, items, i, version, old(sent), sent);
        known := known[Key(sb) := sb];
        var ok := Emit(Event(Added, sb), view);
        if !ok {
          return;
        }
      }
      assert items[..|items|] == items;
    }

    method SendBookmark()
      requires Valid() && !closed
      modifies this`sent, this`room, this`closed
      ensures Valid()
      ensures !closed ==> sent == old(sent) + [BOOKMARK]
    {
      var ok := Emit(BOOKMARK, Replay(sent).value);
    }

    /** The initial events: every item, then the bookmark if the caller wants one. */
    method Open(items: seq<Sandbox>, watchList: bool)
      requires Valid() && known == map[] && sent == [] && !closed && DistinctKeys(items)
      requires pin.Some? ==> forall sb <- items :: Key(sb) == pin.value
      modifies this
      ensures Valid()
      ensures !closed ==> Holds(known, items) && sent == Each(Added, items) + (if watchList then [BOOKMARK] else [])
    {
      Announce(items);
      assert [] + Each(Added, items) == Each(Added, items) && Each(Added, items) + [] == Each(Added, items);
      if watchList && !closed {
        SendBookmark();
      }
    }

    /** What one listed sandbox changes, if anything. */
    method SendChange(sb: Sandbox, ghost view: map<Name, Sandbox>, ghost cur: map<Name, Sandbox>)
      returns (ok: bool, ghost now: map<Name, Sandbox>, ghost news: seq<Event>)
      requires Replay(sent) == Some(view) && !closed && Counted()
      requires Agree(view, known + cur, version) && Key(sb) !in cur
      modifies this`sent, this`room, this`closed
      ensures Counted() && sent == old(sent) + news && ok == !closed
      ensures |news| <= 1 && forall e <- news :: IsNews(known, [sb], version, e)
      ensures ok ==> Replay(sent) == Some(now) && Agree(now, known + cur[Key(sb) := sb], version)
      ensures ok ==> Tells(known, sb, version, news)
      ensures !ok ==> sent == old(sent)
    {
      ListedStep(view, known, cur, sb, version);
      ok, now, news := true, view, [];
      var change := ListedEvent(known, sb, version);
      if change.Some? {
        ok := Emit(change.value, view);
        if ok {
          now, news := Receive(view, change.value).value, [change.value];
        }
      }
    }

    /** First half of a tick: everything listed that is new or changed, once. */
    method SendListed(items: seq<Sandbox>) returns (cur: map<Name, Sandbox>, ghost news: seq<Event>)
      requires Valid() && !closed && DistinctKeys(items)
      modifies this`sent, this`room, this`closed
      ensures Counted() && sent == old(sent) + news && Replay(sent).Some?
      ensures OncePerName(news) && forall e <- news :: IsNews(known, items, version, e)
      ensures !closed ==> Agree(Replay(sent).value, known + cur, version) && Holds(cur, items)
      ensures !closed ==> forall sb <- items :: Tells(known, sb, version, news)
    {
      cur, news := map[], [];
      ghost var view := Replay(sent).value;
      NothingTold(known, items, view, version);
      for i := 0 to |items|
        invariant Counted() && sent == old(sent) + news && Replay(sent) == Some(view) && !closed
        invariant Told(known, items, i, cur, view, version, news)
      {
        HoldsStep(cur, items, i);
        ghost var more;
        var ok;
        ghost var was := view;
        ok, view, more := SendChange(items[i], was, cur);
        if !ok {
          SomeTold(known, items, i, cur, was, version, news);
          return;
        }
        Associates(old(sent), news, more);
        ToldNext(known, items, i, cur, was, view, version, news, more);
        news, cur := news + more, cur[Key(items[i]) := items[i]];
      }
      SomeTold(known, items, |items|, cur, view, version, news);
      assert items[..|items|] == items;
    }

    /** Second half: deletes the given names; the receiver may stop after the first `n`. */
    method SendDrops(drops: seq<Sandbox>, ghost view: map<Name, Sandbox>)
      returns (ghost rest: map<Name, Sandbox>, ghost n: nat)
      requires !closed && Replay(sent) == Some(view) && Counted()
      requires DistinctKeys(drops) && forall d <- drops :: Key(d) in view
      modifies this`sent, this`room, this`closed
      ensures Counted() && Replay(sent).Some?
      ensures n <= |drops| && sent == old(sent) + Each(Deleted, drops[..n])
      ensures !closed ==> Replay(sent) == Some(rest) && Without(view, drops, rest) && n == |drops|
    {
      rest := view;
      NothingDropped(view, drops, sent);
      for i := 0 to |drops|
        invariant Counted() && !closed && Replay(sent) == Some(rest)
        invariant sent == old(sent) + Each(Deleted, drops[..i]) && Without(view, drops[..i], rest)
      {
        n := i;
        DropNext(view, drops, i, rest, old(sent), sent);
        var ok := Emit(Event(Deleted, drops[i]), rest);
        if !ok {
          return;
        }
        rest := rest - {Key(drops[i])};
      }
      n := |drops|;
      assert drops[..|drops|] == drops;
    }

    /** What one poll reads: the pinned name on its node, the pinned name anywhere, or every inventory. */
    method Poll(fleet: Fleet) returns (items: Option<seq<Sandbox>>)
      requires forall k <- known :: Key(known[k]) == k
      ensures pin.None? ==> items == if fleet.listable then Some(ListInventories(fleet, namespace, selects)) else None
      ensures pin.Some? && pin.value in known ==>
                items == Some(SelectedOne(ShownBy(fleet, known[pin.value].node, pin.value), selects))
      ensures pin.Some? && pin.value !in known && fleet.listable ==>
                items.Some? && Anywhere(fleet, pin.value, items.value, selects)
      ensures items.None? <==> !fleet.listable && (pin.Some? ==> pin.value !in known)
    {
      if pin.None? {
        return if fleet.listable then Some(ListInventories(fleet, namespace, selects)) else None;
      }
      if pin.value in known {
        var sb := MatchOnNode(fleet, known[pin.value].node, NameMatcher(pin.value.namespace, pin.value.name));
        return Some(SelectedOne(sb, selects));
      }
      if !fleet.listable {
        return None;
      }
      var found := PollAnywhere(fleet, pin.value, selects);
      return Some(found);
    }

    /** One successful poll: sends the difference to what is known, keeping missing names that are held. */
    method Diff(items: seq<Sandbox>, held: Sandbox -> bool) returns (ghost news: seq<Event>)
      requires Valid() && !closed && DistinctKeys(items)
      requires pin.Some? ==> forall sb <- items :: Key(sb) == pin.value
      modifies this
      ensures Valid() && sent == old(sent) + news
      ensures !closed ==> Settled(old(known), items, known, held, version, news)
      ensures OnlyDifferences(old(known), items, held, version, news)
    {
      var listed, changes := SendListed(items);
      news := changes;
      if closed {
        return;
      }
      var cur, drops := SplitMissing(known, listed, held);
      ghost var view := Replay(sent).value;
      ghost var rest, n := SendDrops(drops, view);
      ghost var deletions := Each(Deleted, drops[..n]);
      Associates(old(sent), changes, deletions);
      DropsAreDifferences(known, items, cur, drops, held, version, changes, n);
      news := changes + deletions;
      if !closed {
        assert drops[..|drops|] == drops;
        DropsLeaveKept(view, known, listed, cur, drops, rest, held, version);
        DiffSettles(known, items, listed, cur, drops, held, version, changes);
        known := cur;
      }
    }

    /**
     One tick. After it, failed polls included, replaying everything sent gives exactly the
     known sandboxes up to resource version; an unpinned watch then knows exactly what the
     fleet lists; and a pinned one sends Deleted only for a name that neither its node's
     inventory nor the node itself still shows selected, and follows what is shown.
     */
    method Tick(fleet: Fleet) returns (ghost news: seq<Event>)
      requires Valid() && !closed
      requires pin.None? ==> DistinctKeys(ListInventories(fleet, namespace, selects))
      modifies this
      ensures Valid() && sent == old(sent) + news
      ensures !fleet.listable && (pin.Some? ==> pin.value !in old(known)) ==> news == [] && known == old(known)
      ensures pin.None? && fleet.listable && !closed ==> Holds(known, ListInventories(fleet, namespace, selects))
      ensures pin.None? && fleet.listable ==>
                OnlyDifferences(old(known), ListInventories(fleet, namespace, selects), _ => false, version, news)
      ensures pin.None? && fleet.listable && !closed ==>
                Settled(old(known), ListInventories(fleet, namespace, selects), known, _ => false, version, news)
      ensures pin.Some? ==> forall e <- news :: e.kind.Deleted? ==> Gone(fleet, e.sandbox, selects)
      ensures pin.Some? && !closed && pin.value in old(known) ==>
                Follows(fleet, old(known)[pin.value], known, selects, version, news)
      ensures pin.Some? && !closed && pin.value !in old(known) && fleet.listable ==>
                Finds(fleet, pin.value, known, selects, news)
    {
      var items := Poll(fleet);
      if items.None? {
        return [];
      }
      if pin.Some? {
        PinnedItems(fleet, pin.value, items.value, selects, if pin.value in known then known[pin.value].node else "");
      }
      var pinned, wanted := pin.Some?, selects;
      var held := sb => pinned && HeldByNode(fleet, sb, wanted);
      ghost var before := known;
      news := Diff(items.value, held);
      if pin.Some? {
        ghost var p := pin.value;
        if !closed && p in before {
          PinnedFollows(fleet, p, before, items.value, known, held, selects, version, news);
        } else if !closed && fleet.listable {
          PinnedFinds(fleet, p, before, items.value, known, held, selects, version, news);
        }
        forall e <- news | e.kind.Deleted?
          ensures Gone(fleet, e.sandbox, selects)
        {
          PinnedDropIsGone(fleet, p, before, items.value, e.sandbox, selects);
        }
      }
    }

    /** The first list: a pinned name is resolved like a Get, with any hint the index gives. */
    method ListItems(fleet: Fleet, hint: Option<string>) returns (items: seq<Sandbox>, ghost r: Resolution)
      requires known == map[]
      requires pin.None? ==> DistinctKeys(ListInventories(fleet, namespace, selects))
      ensures pin.None? ==> items == if fleet.listable then ListInventories(fleet, namespace, selects) else []
      ensures pin.Some? ==> FirstList(fleet, hint, pin.value, r, items, selects)
      ensures DistinctKeys(items) && (pin.Some? ==> forall sb <- items :: Key(sb) == pin.value)
    {
      r := Missing;
      if pin.None? {
        return if fleet.listable then ListInventories(fleet, namespace, selects) else [], r;
      }
      var found, swept := ResolveWithHint(hint, fleet, NameMatcher(pin.value.namespace, pin.value.name));
      items := [];
      if found.Found? {
        if selects(found.sandbox) {
          items := [found.sandbox];
        } else {
          var polled := Poll(fleet);
          items := if polled.Some? then polled.value else [];
        }
      }
      r := found;
      FirstItemsNamed(fleet, hint, pin.value, r, items, selects);
    }

    /** Every item of the first list is known and announced, in order, and the bookmark comes last. */
    method Begin(fleet: Fleet, hint: Option<string>, watchList: bool)
      returns (ghost items: seq<Sandbox>, ghost r: Resolution)
      requires Valid() && known == map[] && sent == [] && !closed
      requires pin.None? ==> DistinctKeys(ListInventories(fleet, namespace, selects))
      modifies this
      ensures Valid()
      ensures pin.None? ==> items == if fleet.listable then ListInventories(fleet, namespace, selects) else []
      ensures pin.Some? ==> FirstList(fleet, hint, pin.value, r, items, selects)
      ensures !closed ==> Holds(known, items) && sent == Each(Added, items) + (if watchList then [BOOKMARK] else [])
      ensures pin.Some? && !closed ==> known == if items == [] then map[] else map[pin.value := items[0]]
    {
      var first;
      first, r := ListItems(fleet, hint);
      items := first;
      Open(first, watchList);
      if pin.Some? && !closed {
        HoldsOne(known, first, pin.value);
      }
    }

    /** A whole watch: after the first list and any sequence of ticks the stream still replays to what is known. */
    method Run(first: Fleet, hint: Option<string>, watchList: bool, fleets: seq<Fleet>)
      requires Valid() && known == map[] && sent == [] && !closed
      requires pin.None? ==> DistinctKeys(ListInventories(first, namespace, selects))
      requires pin.None? ==> forall f <- fleets :: DistinctKeys(ListInventories(f, namespace, selects))
      modifies this
      ensures Replay(sent).Some?
      ensures !closed ==> Agree(Replay(sent).value, known, version)
      ensures pin.None? && fleets != [] && fleets[|fleets| - 1].listable && !closed ==>
                Holds(known, ListInventories(fleets[|fleets| - 1], namespace, selects))
    {
      FollowFirst(first, hint, watchList);
      for i := 0 to |fleets|
        invariant Valid()
        invariant pin.None? && i > 0 && fleets[i - 1].listable && !closed ==>
                  Holds(known, ListInventories(fleets[i - 1], namespace, selects))
      {
        if closed {
          return;
        }
        FollowNext(fleets[i]);
      }
    }

    /** The first list as the whole watch needs it. */
    method FollowFirst(fleet: Fleet, hint: Option<string>, watchList: bool)
      requires Valid() && known == map[] && sent == [] && !closed
      requires pin.None? ==> DistinctKeys(ListInventories(fleet, namespace, selects))
      modifies this
      ensures Valid()
    {
      ghost var items, r := Begin(fleet, hint, watchList);
    }

    /** A tick as the whole watch needs it. */
    method FollowNext(fleet: Fleet)
      requires Valid() && !closed
      requires pin.None? ==> DistinctKeys(ListInventories(fleet, namespace, selects))
      modifies this
      ensures Valid()
      ensures pin.None? && fleet.listable && !closed ==> Holds(known, ListInventories(fleet, namespace, selects))
    {
      ghost var news := Tick(fleet);
    }
  }
}
