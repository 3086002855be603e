/**
 Cursor pagination of the sandbox list. A page is cut from whatever sandboxes exist at the
 moment of the request, and the token is the key of the last one shown; following tokens
 must neither repeat nor skip a sandbox although others come and go in between.
 */
module Pagination {
  import opened Common
  import opened Ordering
  import opened Base64Url

  datatype PageKey = PageKey(startedAt: string, sandboxID: string)

  datatype Detail = Detail(key: PageKey, body: string)

  datatype Page = Page(limit: nat, desc: bool, after: PageKey)

  datatype ParsedPage = Parsed(page: Page) | BadRequest

  const NO_CURSOR := PageKey("", "")
  const MAX_LIMIT := 100

  // ---------------------------------------------------------------- order

  function ComparePage(desc: bool, a: PageKey, b: PageKey): int {
    var s := Compare(a.startedAt, b.startedAt);
    var c := if s != 0 then s else Compare(a.sandboxID, b.sandboxID);
    if desc then -c else c
  }

  predicate Before(desc: bool, a: PageKey, b: PageKey) {
    ComparePage(desc, a, b) < 0
  }

  lemma KeyOrder(desc: bool, a: PageKey, b: PageKey)
    ensures ComparePage(desc, a, b) == -ComparePage(desc, b, a)
    ensures ComparePage(desc, a, b) == 0 <==> a == b
  {
    CompareFlips(a.startedAt, b.startedAt);
    CompareFlips(a.sandboxID, b.sandboxID);
  }

  /** Oldest first and then by id, or with `desc` the other way round. */
  lemma PageOrderIs(a: PageKey, b: PageKey)
    ensures Before(false, a, b) <==>
            Compare(a.startedAt, b.startedAt) < 0 ||
            (a.startedAt == b.startedAt && Compare(a.sandboxID, b.sandboxID) < 0)
    ensures Before(true, a, b) <==> Before(false, b, a)
  {
    KeyOrder(false, a, b);
  }

  lemma AscendingTransitive(a: PageKey, b: PageKey, c: PageKey)
    requires ComparePage(false, a, b) <= 0 && ComparePage(false, b, c) <= 0
    ensures ComparePage(false, a, c) <= 0
  {
    CompareTransitive(a.startedAt, b.startedAt, c.startedAt);
    if a.startedAt == c.startedAt {
      CompareFlips(a.startedAt, b.startedAt);
      CompareTransitive(a.sandboxID, b.sandboxID, c.sandboxID);
    }
  }

  lemma KeyTransitive(desc: bool, a: PageKey, b: PageKey, c: PageKey)
    requires ComparePage(desc, a, b) <= 0 && ComparePage(desc, b, c) <= 0
    ensures ComparePage(desc, a, c) <= 0
    ensures Before(desc, a, b) || Before(desc, b, c) ==> Before(desc, a, c)
  {
    if desc {
      KeyOrder(false, a, b);
      KeyOrder(false, b, c);
      AscendingTransitive(c, b, a);
      KeyOrder(false, a, c);
    } else {
      AscendingTransitive(a, b, c);
    }
    KeyOrder(desc, a, b);
    KeyOrder(desc, b, c);
    KeyOrder(desc, a, c);
  }

  function DetailOrder(desc: bool): (Detail, Detail) -> bool {
    (a: Detail, b: Detail) => ComparePage(desc, a.key, b.key) <= 0
  }

  lemma DetailOrderIsTotal(desc: bool)
    ensures TotalPreorder(DetailOrder(desc))
  {
    var leq := DetailOrder(desc);
    forall a: Detail, b: Detail
      ensures leq(a, b) || leq(b, a)
    {
      KeyOrder(desc, a.key, b.key);
    }
    forall a: Detail, b: Detail, c: Detail | leq(a, b) && leq(b, c)
      ensures leq(a, c)
    {
      KeyTransitive(desc, a.key, b.key, c.key);
    }
  }

  // ---------------------------------------------------------------- the token

  function TokenOf(k: PageKey): string
    requires IsBytes(k.startedAt) && IsBytes(k.sandboxID)
  {
    Encode(k.startedAt + " " + k.sandboxID)
  }

  /** The cursor a nextToken names, or none when this server did not issue it. */
  function ParseToken(t: string): Option<PageKey> {
    match Decode(t)
    case None => None
    case Some(raw) =>
      match IndexOf(raw, ' ')
      case None => None
      case Some(i) => Some(PageKey(raw[..i], raw[i + 1..]))
  }

  /**
   The token parses back to the key it was made from exactly when the start time has no space, as
   RFC 3339 times do not.
   */
  lemma TokenRoundTrip(k: PageKey)
    requires IsBytes(k.startedAt) && IsBytes(k.sandboxID)
    ensures ParseToken(TokenOf(k)) == Some(k) <==> ' ' !in k.startedAt
  {
    var raw := k.startedAt + " " + k.sandboxID;
    RoundTrip(raw);
    CutAtFirst(k.startedAt, ' ', k.sandboxID);
    var i := IndexOf(raw, ' ').value;
    assert ParseToken(TokenOf(k)) == Some(PageKey(raw[..i], raw[i + 1..]));
    assert |raw[..i]| == i;
  }

  /**
   listPageOf: `limit` is the parsed number if the parameter was given and numeric, None inside
   when it was not a number.
   */
  function ListPageOf(limit: Option<Option<int>>, order: string, nextToken: string): (r: ParsedPage)
    ensures r.Parsed? <==>
              && (limit.Some? ==> limit.value.Some? && 1 <= limit.value.value <= 100)
              && order in {"", "asc", "desc"}
              && (nextToken != "" ==> ParseToken(nextToken).Some?)
    ensures r.Parsed? ==> r.page.limit == if limit.Some? then limit.value.value else 100
    ensures r.Parsed? ==> (r.page.desc <==> order != "asc")
    ensures r.Parsed? ==>
              if nextToken == "" then r.page.after == NO_CURSOR
              else ParseToken(nextToken) == Some(r.page.after)
  {
    if limit.Some? && (limit.value.None? || limit.value.value < 1 || limit.value.value > MAX_LIMIT) then BadRequest
    else if order != "" && order != "desc" && order != "asc" then BadRequest
    else
      var n := if limit.Some? then limit.value.value else MAX_LIMIT;
      if nextToken == "" then Parsed(Page(n, order != "asc", NO_CURSOR))
      else match ParseToken(nextToken)
        case None => BadRequest
        case Some(k) => Parsed(Page(n, order != "asc", k))
  }

  // ---------------------------------------------------------------- cutting a page

  predicate DistinctKeys(items: seq<Detail>) {
    forall i, j :: 0 <= i < j < |items| ==> items[i].key != items[j].key
  }

  /** The items past the cursor, or all of them without one. */
  function PastCursor(p: Page, items: seq<Detail>): (r: seq<Detail>)
    ensures forall d :: d in r <==> d in items && (p.after == NO_CURSOR || Before(p.desc, p.after, d.key))
  {
    if items == [] then []
    else
      var k := |items| - 1;
      var rest := PastCursor(p, items[..k]);
      KeyOrder(p.desc, items[k].key, p.after);
      assert items == items[..k] + [items[k]];
      if Seen(p, items[k]) then rest else rest + [items[k]]
  }

  /** At or before the cursor. */
  predicate Seen(p: Page, d: Detail) {
    p.after != NO_CURSOR && ComparePage(p.desc, d.key, p.after) <= 0
  }

  lemma {:induction false} PastCursorDistinct(p: Page, items: seq<Detail>)
    requires DistinctKeys(items)
    ensures DistinctKeys(PastCursor(p, items))
  {
    if items != [] {
      var k := |items| - 1;
      var rest := PastCursor(p, items[..k]);
      PastCursorDistinct(p, items[..k]);
      forall i | 0 <= i < |rest|
        ensures rest[i].key != items[k].key
      {
        assert rest[i] in items[..k];
      }
    }
  }

  lemma PastCursorSnoc(p: Page, items: seq<Detail>, i: nat)
    requires i < |items|
    ensures PastCursor(p, items[..i + 1]) == PastCursor(p, items[..i]) + (if Seen(p, items[i]) then [] else [items[i]])
  {
    var front := items[..i + 1];
    assert front[..i] == items[..i] && front[i] == items[i];
  }

  function Arranged(p: Page, items: seq<Detail>): seq<Detail> {
    Sort(PastCursor(p, items), DetailOrder(p.desc))
  }

  /** A page and the key its token names, if more follows. */
  function CutPage(p: Page, items: seq<Detail>): (seq<Detail>, Option<PageKey>)
    requires p.limit >= 1
  {
    var all := Arranged(p, items);
    if |all| <= p.limit then (all, None) else (all[..p.limit], Some(all[p.limit - 1].key))
  }

  /** slices.DeleteFunc up to the cursor. */
  method DropSeen(p: Page, items: seq<Detail>) returns (kept: seq<Detail>)
    ensures kept == PastCursor(p, items)
  {
    kept := [];
    for i := 0 to |items|
      invariant kept == PastCursor(p, items[..i])
    {
      PastCursorSnoc(p, items, i);
      kept := kept + (if Seen(p, items[i]) then [] else [items[i]]);
    }
    assert items[..|items|] == items;
  }

  /** What nextToken a page is sent with: none at the end, else the one that names its last key. */
  predicate SentWith(next: Option<PageKey>, token: string) {
    match next
    case None => token == ""
    case Some(k) => IsBytes(k.startedAt) && IsBytes(k.sandboxID) && token == TokenOf(k)
  }

  /** listPage.cut: delete up to the cursor, sort, and keep one page. */
  method Cut(p: Page, items: seq<Detail>) returns (page: seq<Detail>, token: string)
    requires p.limit >= 1 && forall d <- items :: IsBytes(d.key.startedAt) && IsBytes(d.key.sandboxID)
    ensures page == CutPage(p, items).0 && SentWith(CutPage(p, items).1, token)
    ensures |page| == if |PastCursor(p, items)| <= p.limit then |PastCursor(p, items)| else p.limit
    ensures token == "" ==> |page| == |PastCursor(p, items)|
  {
    var kept := DropSeen(p, items);
    ArrangedLength(p, items);
    var all := Sort(kept, DetailOrder(p.desc));
    if |all| <= p.limit {
      return all, "";
    }
    var last := all[p.limit - 1];
    ArrangedIsFrom(p, items, last);
    return all[..p.limit], TokenOf(last.key);
  }

  lemma ArrangedLength(p: Page, items: seq<Detail>)
    ensures |Arranged(p, items)| == |PastCursor(p, items)|
  {
    ArrangedHas(p, items);
    SameElements(Arranged(p, items), PastCursor(p, items));
  }

  lemma ArrangedIsFrom(p: Page, items: seq<Detail>, d: Detail)
    requires d in Arranged(p, items)
    ensures d in items
  {
    ArrangedHas(p, items);
  }

  lemma ArrangedHas(p: Page, items: seq<Detail>)
    ensures Sorted(Arranged(p, items), DetailOrder(p.desc))
    ensures multiset(Arranged(p, items)) == multiset(PastCursor(p, items))
    ensures forall d :: d in Arranged(p, items) <==> d in PastCursor(p, items)
  {
    DetailOrderIsTotal(p.desc);
    SortSorts(PastCursor(p, items), DetailOrder(p.desc));
    SameElements(Arranged(p, items), PastCursor(p, items));
  }

  predicate Increasing(desc: bool, s: seq<Detail>) {
    forall i, j :: 0 <= i < j < |s| ==> Before(desc, s[i].key, s[j].key)
  }

  /** What is past the cursor, strictly ordered, each item once. */
  lemma ArrangedIsStrict(p: Page, items: seq<Detail>)
    requires DistinctKeys(items)
    ensures Increasing(p.desc, Arranged(p, items))
    ensures forall d :: d in Arranged(p, items) <==>
            d in items && (p.after == NO_CURSOR || Before(p.desc, p.after, d.key))
  {
    var past, all, leq := PastCursor(p, items), Arranged(p, items), DetailOrder(p.desc);
    ArrangedHas(p, items);
    PastCursorDistinct(p, items);
    PermutationKeepsDistinct(past, all);
    forall i, j | 0 <= i < j < |all|
      ensures Before(p.desc, all[i].key, all[j].key)
    {
      assert leq(all[i], all[j]);
      assert all[i] in past && all[j] in past && all[i] != all[j];
      var a :| 0 <= a < |past| && past[a] == all[i];
      var b :| 0 <= b < |past| && past[b] == all[j];
      KeyOrder(p.desc, all[i].key, all[j].key);
    }
  }

  // ---------------------------------------------------------------- following the tokens

  /** One request of a walk: its limit and the sandboxes that exist when it is served. */
  datatype Request = Request(limit: nat, items: seq<Detail>)

  predicate Proper(r: Request) {
    && r.limit >= 1 && DistinctKeys(r.items)
    && forall d <- r.items ::
        IsBytes(d.key.startedAt) && IsBytes(d.key.sandboxID) && ' ' !in d.key.startedAt && d.key != NO_CURSOR
  }

  predicate AllProper(requests: seq<Request>) {
    forall i :: 0 <= i < |requests| ==> Proper(requests[i])
  }

  /** The pages shown by following tokens from `after`, and whether the last one came without a token. */
  function Follow(desc: bool, after: PageKey, requests: seq<Request>): (seq<seq<Detail>>, bool)
    requires AllProper(requests)
    decreases |requests|
  {
    if requests == [] then ([], false)
    else
      var r := requests[0];
      var (page, next) := CutPage(Page(r.limit, desc, after), r.items);
      if next.None? then ([page], true)
      else
        var (pages, ended) := Follow(desc, CursorFrom(desc, after, r), requests[1..]);
        ([page] + pages, ended)
  }

  /** The cursor the next request carries: what the token just issued parses to. */
  function CursorFrom(desc: bool, after: PageKey, r: Request): (k: PageKey)
    requires Proper(r) && CutPage(Page(r.limit, desc, after), r.items).1.Some?
    ensures k == CutPage(Page(r.limit, desc, after), r.items).1.value && k != NO_CURSOR
  {
    var p := Page(r.limit, desc, after);
    var k := CutPage(p, r.items).1.value;
    ArrangedIsStrict(p, r.items);
    assert Arranged(p, r.items)[p.limit - 1] in r.items;
    TokenRoundTrip(k);
    ParseToken(TokenOf(k)).value
  }

  function Flatten(pages: seq<seq<Detail>>): seq<Detail> {
    if pages == [] then [] else pages[0] + Flatten(pages[1..])
  }

  predicate AllAfter(desc: bool, after: PageKey, s: seq<Detail>) {
    after == NO_CURSOR || forall d <- s :: Before(desc, after, d.key)
  }

  lemma AppendIncreasing(desc: bool, page: seq<Detail>, rest: seq<Detail>)
    requires page != [] && Increasing(desc, page) && Increasing(desc, rest)
    requires forall d <- rest :: Before(desc, page[|page| - 1].key, d.key)
    ensures Increasing(desc, page + rest)
  {
    var both, last := page + rest, page[|page| - 1].key;
    forall i, j | 0 <= i < j < |both|
      ensures Before(desc, both[i].key, both[j].key)
    {
      if i < |page| && j >= |page| {
        assert both[j] in rest;
        KeyOrder(desc, page[i].key, last);
        if i < |page| - 1 {
          assert Before(desc, page[i].key, page[|page| - 1].key);
        }
        KeyTransitive(desc, both[i].key, last, both[j].key);
      }
    }
  }

  /**
   The walk shows sandboxes in strict order across all its pages, so none twice, and all of
   them past the cursor it started from.
   */
  lemma {:induction false} WalkIsOrdered(desc: bool, after: PageKey, requests: seq<Request>)
    requires AllProper(requests)
    ensures Increasing(desc, Flatten(Follow(desc, after, requests).0))
    ensures AllAfter(desc, after, Flatten(Follow(desc, after, requests).0))
    decreases |requests|
  {
    if requests != [] {
      var r := requests[0];
      FollowFlat(desc, after, requests);
      PageIsOrdered(desc, after, r);
      var (page, next) := CutPage(Page(r.limit, desc, after), r.items);
      if next.Some? {
        var k := CursorFrom(desc, after, r);
        WalkIsOrdered(desc, k, requests[1..]);
        JoinPages(desc, after, page, k, Flatten(Follow(desc, k, requests[1..]).0));
      }
    }
  }

  /** The shown items of a walk: its first page, then those of the walk that follows its token. */
  lemma FollowFlat(desc: bool, after: PageKey, requests: seq<Request>)
    requires AllProper(requests) && requests != []
    ensures var (page, next) := CutPage(Page(requests[0].limit, desc, after), requests[0].items);
            Flatten(Follow(desc, after, requests).0) ==
            if next.None? then page
            else page + Flatten(Follow(desc, CursorFrom(desc, after, requests[0]), requests[1..]).0)
  {
  }

  lemma JoinPages(desc: bool, after: PageKey, page: seq<Detail>, k: PageKey, rest: seq<Detail>)
    requires page != [] && Increasing(desc, page) && AllAfter(desc, after, page) && page[|page| - 1].key == k
    requires k != NO_CURSOR && (after == NO_CURSOR || Before(desc, after, k))
    requires Increasing(desc, rest) && AllAfter(desc, k, rest)
    ensures Increasing(desc, page + rest) && AllAfter(desc, after, page + rest)
  {
    AppendIncreasing(desc, page, rest);
    LaterIsAfter(desc, after, k, rest);
  }

  lemma PageIsOrdered(desc: bool, after: PageKey, r: Request)
    requires Proper(r)
    ensures var (page, next) := CutPage(Page(r.limit, desc, after), r.items);
            && Increasing(desc, page) && AllAfter(desc, after, page)
            && (next.Some? ==>
                page != [] && page[|page| - 1].key == next.value &&
                (after == NO_CURSOR || Before(desc, after, next.value)))
  {
    var p := Page(r.limit, desc, after);
    ArrangedIsStrict(p, r.items);
    var all, page := Arranged(p, r.items), CutPage(p, r.items).0;
    assert page == all[..|page|];
    PrefixIsOrdered(desc, after, all, |page|);
    if CutPage(p, r.items).1.Some? {
      assert page[|page| - 1] in page;
    }
  }

  lemma PrefixIsOrdered(desc: bool, after: PageKey, all: seq<Detail>, n: nat)
    requires n <= |all| && Increasing(desc, all) && AllAfter(desc, after, all)
    ensures Increasing(desc, all[..n]) && AllAfter(desc, after, all[..n])
  {
    assert forall d <- all[..n] :: d in all;
  }

  lemma LaterIsAfter(desc: bool, after: PageKey, k: PageKey, s: seq<Detail>)
    requires k != NO_CURSOR && AllAfter(desc, k, s) && (after == NO_CURSOR || Before(desc, after, k))
    ensures AllAfter(desc, after, s)
  {
    if after != NO_CURSOR {
      forall d <- s
        ensures Before(desc, after, d.key)
      {
        KeyTransitive(desc, after, k, d.key);
      }
    }
  }

  /** A page holds the first of what lies past the cursor: whatever is left out comes after its last item. */
  lemma PageIsFirst(p: Page, items: seq<Detail>, d: Detail)
    requires p.limit >= 1 && DistinctKeys(items) && d in items &&
             (p.after == NO_CURSOR || Before(p.desc, p.after, d.key))
    requires d !in CutPage(p, items).0
    ensures CutPage(p, items).1.Some? && Before(p.desc, CutPage(p, items).1.value, d.key)
    ensures |CutPage(p, items).0| == p.limit && CutPage(p, items).0[p.limit - 1].key == CutPage(p, items).1.value
  {
    if CutPage(p, items).1.None? || !Before(p.desc, CutPage(p, items).1.value, d.key) {
      OnThePage(p, items, d);
    }
  }

  predicate Shows(s: seq<Detail>, k: PageKey) {
    exists d :: d in s && d.key == k
  }

  /** An item of the arranged list not after the page's last key is on the page. */
  lemma OnThePage(p: Page, items: seq<Detail>, d: Detail)
    requires p.limit >= 1 && DistinctKeys(items) && d in items &&
             (p.after == NO_CURSOR || Before(p.desc, p.after, d.key))
    requires CutPage(p, items).1.Some? ==> !Before(p.desc, CutPage(p, items).1.value, d.key)
    ensures d in CutPage(p, items).0
  {
    ArrangedIsStrict(p, items);
    var all := Arranged(p, items);
    assert d in all;
    var i :| 0 <= i < |all| && all[i] == d;
    if |all| > p.limit {
      assert all[..p.limit][i] == d;
    }
  }

  /**
   When the walk has ended, every sandbox present at each of its requests has been shown;
   with WalkIsOrdered, exactly once.
   */
  lemma {:induction false} WalkIsComplete(desc: bool, after: PageKey, requests: seq<Request>, k: PageKey)
    requires AllProper(requests) && Follow(desc, after, requests).1
    requires forall i :: 0 <= i < |requests| ==> Shows(requests[i].items, k)
    requires after == NO_CURSOR || Before(desc, after, k)
    ensures Shows(Flatten(Follow(desc, after, requests).0), k)
    decreases |requests|
  {
    var r := requests[0];
    var p := Page(r.limit, desc, after);
    var (page, next) := CutPage(p, r.items);
    assert Shows(r.items, k);
    var d :| d in r.items && d.key == k;
    if next.None? {
      OnThePage(p, r.items, d);
      assert Flatten([page]) == page + Flatten([page][1..]);
    } else {
      var c := CursorFrom(desc, after, r);
      var pages := Follow(desc, c, requests[1..]).0;
      assert ([page] + pages)[1..] == pages;
      if Before(desc, c, k) {
        WalkIsComplete(desc, c, requests[1..], k);
        var e :| e in Flatten(pages) && e.key == k;
      } else {
        OnThePage(p, r.items, d);
      }
    }
  }
}
