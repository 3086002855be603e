/**
 The two-generation resolution index: a bounded, lossy map from a lookup key to the node
 last seen holding it. A full generation is retired whole, so an entry is forgotten only
 after enough later stores.
 */
module NodeIndex {
  import opened Common

  /** The abstract value of an index. */
  datatype Generations = Generations(max: nat, cur: map<string, string>, prev: map<string, string>)

  datatype Call = Remember(key: string, node: string) | Lookup(key: string)

  predicate Bounded(x: Generations) {
    x.max >= 1 && |x.cur| <= x.max && |x.prev| <= x.max
  }

  function Find(x: Generations, key: string): Option<string> {
    if key in x.cur then Some(x.cur[key]) else if key in x.prev then Some(x.prev[key]) else None
  }

  function Store(x: Generations, key: string, node: string): Generations {
    if |x.cur| >= x.max then Generations(x.max, map[key := node], x.cur)
    else x.(cur := x.cur[key := node])
  }

  /** A call stores when it remembers a non-empty pair or promotes a key only the old generation has. */
  predicate Stores(x: Generations, c: Call) {
    match c
    case Remember(key, node) => key != "" && node != ""
    case Lookup(key) => key !in x.cur && key in x.prev
  }

  function After(x: Generations, c: Call): Generations {
    if !Stores(x, c) then x
    else match c
      case Remember(key, node) => Store(x, key, node)
      case Lookup(key) => Store(x, key, x.prev[key])
  }

  function Run(x: Generations, calls: seq<Call>): Generations
    decreases |calls|
  {
    if calls == [] then x else Run(After(x, calls[0]), calls[1..])
  }

  /** How many of `calls` store something. */
  function StoreCount(x: Generations, calls: seq<Call>): nat
    decreases |calls|
  {
    if calls == [] then 0
    else (if Stores(x, calls[0]) then 1 else 0) + StoreCount(After(x, calls[0]), calls[1..])
  }

  /** The node the last effective Remember of `key` named, or `before` when there was none. */
  function LastRemembered(before: Option<string>, calls: seq<Call>, key: string): Option<string> {
    if calls == [] then before
    else
      var c := calls[|calls| - 1];
      if c.Remember? && c.key == key && c.key != "" && c.node != "" then Some(c.node)
      else LastRemembered(before, calls[..|calls| - 1], key)
  }

  /** The index as the store holds it. */
  class Index {
    const max: nat
    var cur: map<string, string>
    var prev: map<string, string>

    ghost function Value(): Generations
      reads this
    {
      Generations(max, cur, prev)
    }

    constructor (maxEntries: nat)
      ensures Value() == Generations(maxEntries, map[], map[])
    {
      max, cur, prev := maxEntries, map[], map[];
    }

    method StoreLocked(key: string, node: string)
      modifies this
      ensures Value() == Store(old(Value()), key, node)
    {
      if |cur| >= max {
        prev, cur := cur, map[];
      }
      cur := cur[key := node];
    }

    method Lookup(key: string) returns (node: Option<string>)
      modifies this
      ensures Value() == After(old(Value()), Call.Lookup(key))
      ensures node == Find(old(Value()), key)
    {
      if key in cur {
        return Some(cur[key]);
      }
      if key in prev {
        node := Some(prev[key]);
        StoreLocked(key, prev[key]);
      } else {
        node := None;
      }
    }

    method Remember(key: string, node: string)
      modifies this
      ensures Value() == After(old(Value()), Call.Remember(key, node))
    {
      if key == "" || node == "" {
        return;
      }
      StoreLocked(key, node);
    }
  }

  /** A store adds at most one entry, and one more store uses up at most one unit of any key's life. */
  lemma StoreBounded(x: Generations, key: string, node: string)
    requires Bounded(x)
    ensures Bounded(Store(x, key, node))
    ensures |x.cur| < x.max ==> |Store(x, key, node).cur| <= |x.cur| + 1
    ensures |x.cur| >= x.max ==> |Store(x, key, node).cur| == 1
  {
  }

  lemma AfterBounded(x: Generations, c: Call)
    requires Bounded(x)
    ensures Bounded(After(x, c)) && After(x, c).max == x.max
  {
  }

  /** At most 2*max entries are ever held. */
  lemma {:induction false} RunBounded(x: Generations, calls: seq<Call>)
    requires Bounded(x)
    ensures Bounded(Run(x, calls)) && Run(x, calls).max == x.max
    ensures |Run(x, calls).cur| + |Run(x, calls).prev| <= 2 * x.max
    decreases |calls|
  {
    if calls != [] {
      AfterBounded(x, calls[0]);
      RunBounded(After(x, calls[0]), calls[1..]);
    }
  }

  lemma {:induction false} RunSnoc(x: Generations, calls: seq<Call>, c: Call)
    ensures Run(x, calls + [c]) == After(Run(x, calls), c)
    decreases |calls|
  {
    if calls == [] {
      assert [c][1..] == [];
      assert calls + [c] == [c];
    } else {
      assert (calls + [c])[1..] == calls[1..] + [c];
      RunSnoc(After(x, calls[0]), calls[1..], c);
    }
  }

  /** A found value is always the last one remembered for that key: the index loses entries, never misleads. */
  lemma {:induction false} FoundIsLastRemembered(x: Generations, calls: seq<Call>, key: string)
    requires Bounded(x)
    ensures Find(Run(x, calls), key).Some? ==> Find(Run(x, calls), key) == LastRemembered(Find(x, key), calls, key)
  {
    if calls != [] {
      var front, c := calls[..|calls| - 1], calls[|calls| - 1];
      assert calls == front + [c];
      FoundIsLastRemembered(x, front, key);
      RunSnoc(x, front, c);
    }
  }

  /** Stores a key can still outlive: a full generation plus the room left in the current one. */
  function Life(x: Generations, key: string): int {
    if key in x.cur then 2 * x.max - |x.cur|
    else if key in x.prev then x.max - |x.cur|
    else -1
  }

  lemma LifeStep(x: Generations, c: Call, key: string)
    requires Bounded(x) && Life(x, key) >= 0
    ensures Life(After(x, c), key) >= Life(x, key) - (if Stores(x, c) then 1 else 0)
  {
  }

  lemma {:induction false} LifeRun(x: Generations, calls: seq<Call>, key: string)
    requires Bounded(x) && Life(x, key) >= StoreCount(x, calls)
    ensures Life(Run(x, calls), key) >= Life(x, key) - StoreCount(x, calls)
    decreases |calls|
  {
    if calls != [] {
      AfterBounded(x, calls[0]);
      LifeStep(x, calls[0], key);
      LifeRun(After(x, calls[0]), calls[1..], key);
    }
  }

  /** A stored key is still found after any calls that store at most max times, promotions counted. */
  lemma StoredOutlivesMaxStores(x: Generations, key: string, node: string, calls: seq<Call>)
    requires Bounded(x)
    requires StoreCount(Store(x, key, node), calls) <= x.max
    ensures Find(Run(Store(x, key, node), calls), key).Some?
  {
    StoreBounded(x, key, node);
    LifeRun(Store(x, key, node), calls, key);
  }

  /** So does a key that was looked up and found: a hit in the old generation stores it anew. */
  lemma FoundOutlivesMaxStores(x: Generations, key: string, calls: seq<Call>)
    requires Bounded(x) && Find(x, key).Some?
    requires StoreCount(After(x, Lookup(key)), calls) <= x.max
    ensures Find(Run(After(x, Lookup(key)), calls), key).Some?
  {
    AfterBounded(x, Lookup(key));
    if key !in x.cur {
      StoreBounded(x, key, x.prev[key]);
    }
    LifeRun(After(x, Lookup(key)), calls, key);
  }

  /** The n-th of a supply of keys, each longer than the one before. */
  function NthKey(n: nat): (k: string)
    ensures |k| == n + 1
  {
    if n == 0 then "k" else "k" + NthKey(n - 1)
  }

  /** The current generation holds as many keys as there are from `lo` up to `hi`, all of such a length. */
  predicate HoldsKeys(x: Generations, lo: nat, hi: nat) {
    lo <= hi && |x.cur| == hi - lo && forall k <- x.cur :: lo < |k| <= hi
  }

  lemma StoreNext(x: Generations, lo: nat, hi: nat)
    requires x.max >= 1 && HoldsKeys(x, lo, hi)
    ensures var y := Store(x, NthKey(hi), "n");
            if hi - lo < x.max then HoldsKeys(y, lo, hi + 1) && y.prev == x.prev && y.max == x.max
            else HoldsKeys(y, hi, hi + 1) && y.prev == x.cur && y.max == x.max
  {
    assert NthKey(hi) !in x.cur;
    var y := Store(x, NthKey(hi), "n");
    if hi - lo < x.max {
      assert y.cur.Keys == x.cur.Keys + {NthKey(hi)};
      assert |y.cur.Keys| == |x.cur.Keys| + 1;
    } else {
      assert y.cur.Keys == {NthKey(hi)};
      assert |y.cur.Keys| == 1;
    }
  }

  lemma RunCons(x: Generations, c: Call, calls: seq<Call>)
    ensures Run(x, [c] + calls) == Run(After(x, c), calls)
    ensures StoreCount(x, [c] + calls) == (if Stores(x, c) then 1 else 0) + StoreCount(After(x, c), calls)
  {
    assert ([c] + calls)[1..] == calls;
  }

  /** `calls` store the keys from `hi` up to `top` beside those from `lo` on, and retire nothing. */
  predicate Fills(x: Generations, lo: nat, hi: nat, top: nat, calls: seq<Call>) {
    var y := Run(x, calls);
    StoreCount(x, calls) == top - hi && HoldsKeys(y, lo, top) && y.prev == x.prev && y.max == x.max
  }

  lemma FillCons(x: Generations, lo: nat, hi: nat, top: nat, rest: seq<Call>)
    requires x.max >= 1 && HoldsKeys(x, lo, hi) && hi - lo < x.max
    requires Fills(Store(x, NthKey(hi), "n"), lo, hi + 1, top, rest)
    ensures Fills(x, lo, hi, top, [Remember(NthKey(hi), "n")] + rest)
  {
    RunCons(x, Remember(NthKey(hi), "n"), rest);
  }

  /** There is room for the keys up to `top`. */
  lemma {:induction false} FillRun(x: Generations, lo: nat, hi: nat, top: nat) returns (calls: seq<Call>)
    requires x.max >= 1 && HoldsKeys(x, lo, hi) && hi <= top <= lo + x.max
    ensures Fills(x, lo, hi, top, calls)
    decreases top - hi
  {
    calls := [];
    if hi < top {
      StoreNext(x, lo, hi);
      calls := FillRun(Store(x, NthKey(hi), "n"), lo, hi + 1, top);
      FillCons(x, lo, hi, top, calls);
      calls := [Remember(NthKey(hi), "n")] + calls;
    }
  }

  /** Neither generation holds a key from before `lo`. */
  predicate Forgot(x: Generations, lo: nat) {
    (forall k <- x.cur :: lo < |k|) && (forall k <- x.prev :: lo < |k|)
  }

  /** Once the generation from `lo` on is full, one more store leaves no key from before `lo` in either. */
  lemma TurnsAfter(x: Generations, lo: nat, top: nat, calls: seq<Call>) returns (last: Call)
    requires x.max >= 1 && top == lo + x.max && Fills(x, lo, lo + 1, top, calls)
    ensures StoreCount(x, calls + [last]) == x.max && Forgot(Run(x, calls + [last]), lo)
  {
    last := Remember(NthKey(top), "n");
    StoreNext(Run(x, calls), lo, top);
    RunSnoc(x, calls, last);
    CountSnoc(x, calls, last);
  }

  lemma FillAndTurn(x: Generations, lo: nat) returns (calls: seq<Call>)
    requires x.max >= 1 && HoldsKeys(x, lo, lo + 1)
    ensures StoreCount(x, calls) == x.max && Forgot(Run(x, calls), lo)
  {
    calls := FillRun(x, lo, lo + 1, lo + x.max);
    var last := TurnsAfter(x, lo, lo + x.max, calls);
    calls := calls + [last];
  }

  /** From a full generation, one store to retire it and as many as the next one has room forget it. */
  lemma TurnTwice(x: Generations, hi: nat) returns (calls: seq<Call>)
    requires x.max >= 1 && hi >= x.max && HoldsKeys(x, hi - x.max, hi)
    ensures StoreCount(x, calls) == x.max + 1 && Forgot(Run(x, calls), hi)
  {
    var first := Remember(NthKey(hi), "n");
    StoreNext(x, hi - x.max, hi);
    calls := FillAndTurn(After(x, first), hi);
    RunCons(x, first, calls);
    calls := [first] + calls;
  }

  lemma FilledIndex(max: nat) returns (x: Generations)
    requires max >= 1
    ensures Bounded(x) && x.max == max && HoldsKeys(x, 0, max - 1)
  {
    var start := Generations(max, map[], map[]);
    var calls := FillRun(start, 0, 0, max - 1);
    RunBounded(start, calls);
    x := Run(start, calls);
  }

  /** The bound is tight for every size: some index stores a key and has forgotten it after max + 1 further stores. */
  lemma OneMoreStoreForgets(max: nat) returns (x: Generations, key: string, calls: seq<Call>)
    requires max >= 1
    ensures Bounded(x) && x.max == max && StoreCount(Store(x, key, "n"), calls) == max + 1
    ensures Find(Run(Store(x, key, "n"), calls), key).None?
  {
    x := FilledIndex(max);
    key := NthKey(max - 1);
    StoreNext(x, 0, max - 1);
    calls := TurnTwice(Store(x, key, "n"), max);
  }

  lemma {:induction false} CountSnoc(x: Generations, calls: seq<Call>, c: Call)
    ensures StoreCount(x, calls + [c]) == StoreCount(x, calls) + (if Stores(Run(x, calls), c) then 1 else 0)
    decreases |calls|
  {
    if calls == [] {
      assert calls + [c] == [c] && [c][1..] == [];
    } else {
      assert (calls + [c])[1..] == calls[1..] + [c];
      CountSnoc(After(x, calls[0]), calls[1..], c);
    }
  }
}
