/** Shared value types. */
module Common {
  datatype Option<+T> = None | Some(value: T)

  /** The claim axes that identify a warm pool or a promoted template. */
  datatype PoolKey = PoolKey(template: string, net: string, size: string)

  /** The first position of `c` in `s`. */
  function IndexOf(s: string, c: char): (i: Option<nat>)
    ensures i.None? ==> forall j :: 0 <= j < |s| ==> s[j] != c
    ensures i.Some? ==> i.value < |s| && s[i.value] == c && forall j :: 0 <= j < i.value ==> s[j] != c
  {
    if s == "" then None
    else if s[0] == c then Some(0)
    else match IndexOf(s[1..], c)
      case None => None
      case Some(i) => Some(i + 1)
  }

  /** Cut at its first `c`, a text falls apart at the one between `front` and `back` exactly when `front` has none. */
  lemma CutAtFirst(front: string, c: char, back: string)
    ensures var s := front + [c] + back;
            var i := IndexOf(s, c);
            && i.Some? && i.value <= |front| && (i.value == |front| <==> c !in front)
            && s[..|front|] == front && s[|front| + 1..] == back
  {
    var s := front + [c] + back;
    assert s[|front|] == c;
    assert forall k :: 0 <= k < |front| ==> s[k] == front[k];
  }
}
