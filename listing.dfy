/**
 * The photo listing API (`PhotoList` in backend/portfolio/views.py): the
 * queryset ordered by descending `order` then descending `id`, optionally
 * narrowed to one folder slug, and a lenient limit/offset pagination.
 */
module Listing {
  import opened Wrappers
  import opened Photos
  import opened IntText

  const DefaultLimit: int := 50
  const MaxLimit: int := 200

  // ---------- get_queryset ----------

  /** `order_by("-order", "-id")`: `a` may be listed before `b`. */
  predicate Precedes(a: Photo, b: Photo) {
    a.order > b.order || (a.order == b.order && Id(a) >= Id(b))
  }

  predicate Ranked(s: seq<Photo>) {
    forall i, j :: 0 <= i < j < |s| ==> Precedes(s[i], s[j])
  }

  lemma ConsRanked(q: Photo, t: seq<Photo>)
    requires Ranked(t)
    requires forall x :: x in t ==> Precedes(q, x)
    ensures Ranked([q] + t)
  {
  }

  lemma InsertTail(q: Photo, p: Photo, tail: seq<Photo>, t: seq<Photo>)
    requires !Precedes(p, q)
    requires forall x :: x in tail ==> Precedes(q, x)
    requires multiset(t) == multiset(tail) + multiset{p}
    ensures forall x :: x in t ==> Precedes(q, x)
  {
    forall x | x in t ensures Precedes(q, x) {
      assert x in multiset(t);
      if x != p {
        assert x in multiset(tail);
      }
    }
  }

  function Insert(p: Photo, s: seq<Photo>): (r: seq<Photo>)
    requires Ranked(s)
    ensures multiset(r) == multiset(s) + multiset{p}
    ensures Ranked(r)
  {
    if s == [] then [p]
    else if Precedes(p, s[0]) then
      ConsRanked(p, s);
      [p] + s
    else
      var t := Insert(p, s[1..]);
      assert s == [s[0]] + s[1..];
      InsertTail(s[0], p, s[1..], t);
      ConsRanked(s[0], t);
      [s[0]] + t
  }

  /**
   * The rows in listing order. The order is refined from the model's
   * default ordering: orders never increase along the result.
   */
  function Rank(s: seq<Photo>): (r: seq<Photo>)
    ensures Ranked(r)
    ensures MetaOrdered(r)
    ensures multiset(r) == multiset(s)
  {
    if s == [] then []
    else
      assert s == [s[0]] + s[1..];
      Insert(s[0], Rank(s[1..]))
  }

  /** `folder__slug=slug`: the photo is in a folder with that slug. */
  predicate InFolder(p: Photo, slug: string) {
    p.folder.Some? && p.folder.value.slug == slug
  }

  function FilterFolder(s: seq<Photo>, slug: string): (r: seq<Photo>)
    ensures forall x :: multiset(r)[x] == if InFolder(x, slug) then multiset(s)[x] else 0
    ensures Ranked(s) ==> Ranked(r)
  {
    if s == [] then []
    else
      var rest := FilterFolder(s[1..], slug);
      assert s == [s[0]] + s[1..];
      if InFolder(s[0], slug) then
        FilterHead(s, slug, rest);
        [s[0]] + rest
      else rest
  }

  lemma FilterHead(s: seq<Photo>, slug: string, rest: seq<Photo>)
    requires s != []
    requires forall x :: multiset(rest)[x] == if InFolder(x, slug) then multiset(s[1..])[x] else 0
    requires Ranked(s[1..]) ==> Ranked(rest)
    ensures Ranked(s) ==> Ranked([s[0]] + rest)
  {
    if Ranked(s) {
      assert Ranked(s[1..]) by {
        forall i, j | 0 <= i < j < |s[1..]| ensures Precedes(s[1..][i], s[1..][j]) {
          assert s[1..][i] == s[i + 1] && s[1..][j] == s[j + 1];
        }
      }
      forall x | x in rest ensures Precedes(s[0], x) {
        assert x in multiset(rest);
        assert x in multiset(s[1..]);
        var m :| 0 <= m < |s[1..]| && s[1..][m] == x;
        assert s[m + 1] == x;
      }
      ConsRanked(s[0], rest);
    }
  }

  /** `if folder_slug:` — an absent or empty `folder` parameter applies no filter. */
  predicate Filters(folderParam: Option<string>) {
    folderParam.Some? && folderParam.value != ""
  }

  /** What a listing may contain: a row of the table, in the requested folder if one is given. */
  predicate Listed(table: seq<Photo>, folderParam: Option<string>, x: Photo) {
    x in table && (Filters(folderParam) ==> InFolder(x, folderParam.value))
  }

  /**
   * `get_queryset`: the table ordered by `(-order, -id)`, kept to the folder
   * whose slug is the `folder` parameter when that is non-empty.
   */
  function Queryset(table: seq<Photo>, folderParam: Option<string>): (r: seq<Photo>)
    ensures Ranked(r)
    ensures forall x :: multiset(r)[x] == (if Filters(folderParam) && !InFolder(x, folderParam.value) then 0 else multiset(table)[x])
    ensures forall x :: x in r <==> Listed(table, folderParam, x)
  {
    var qs := Rank(table);
    var r := if Filters(folderParam) then FilterFolder(qs, folderParam.value) else qs;
    assert forall x :: x in r <==> x in multiset(r);
    assert forall x :: x in table <==> x in multiset(table);
    r
  }

  /** A slug that no photo's folder has yields an empty listing, not an error. */
  lemma UnknownSlugIsEmpty(table: seq<Photo>, slug: string)
    requires slug != ""
    requires forall i :: 0 <= i < |table| ==> !InFolder(table[i], slug)
    ensures Queryset(table, Some(slug)) == []
  {
  }

  /** No two rows with the same id differ. */
  predicate KeyFunctional(s: seq<Photo>) {
    forall x, y :: x in s && y in s && Id(x) == Id(y) ==> x == y
  }

  lemma RankedTail(s: seq<Photo>)
    requires Ranked(s) && s != []
    ensures Ranked(s[1..])
  {
  }

  /** Two ranked sequences with the same rows start with the same row. */
  lemma RankedHeads(s: seq<Photo>, t: seq<Photo>)
    requires Ranked(s) && Ranked(t)
    requires multiset(s) == multiset(t) && s != []
    requires KeyFunctional(s)
    ensures t != [] && s[0] == t[0]
  {
    assert s[0] in multiset(t);
    var j :| 0 <= j < |t| && t[j] == s[0];
    assert t[0] in multiset(s);
    var k :| 0 <= k < |s| && s[k] == t[0];
    assert Precedes(t[0], s[0]) by { if j > 0 { assert Precedes(t[0], t[j]); } }
    assert Precedes(s[0], t[0]) by { if k > 0 { assert Precedes(s[0], s[k]); } }
    assert t[0] in s;
  }

  lemma MultisetTail(s: seq<Photo>, t: seq<Photo>)
    requires s != [] && t != [] && s[0] == t[0]
    requires multiset(s) == multiset(t)
    ensures multiset(s[1..]) == multiset(t[1..])
  {
    assert s == [s[0]] + s[1..] && t == [t[0]] + t[1..];
    assert multiset(s) == multiset{s[0]} + multiset(s[1..]);
    assert multiset(t) == multiset{t[0]} + multiset(t[1..]);
    forall x ensures multiset(s[1..])[x] == multiset(t[1..])[x] {
      assert multiset(s)[x] == multiset{s[0]}[x] + multiset(s[1..])[x];
      assert multiset(t)[x] == multiset{t[0]}[x] + multiset(t[1..])[x];
    }
  }

  lemma {:induction false} RankedPermutationUnique(s: seq<Photo>, t: seq<Photo>)
    requires Ranked(s) && Ranked(t)
    requires multiset(s) == multiset(t)
    requires KeyFunctional(s)
    ensures s == t
    decreases |s|
  {
    if s == [] {
      assert |t| == |multiset(t)| == 0;
    } else {
      RankedHeads(s, t);
      MultisetTail(s, t);
      RankedTail(s);
      RankedTail(t);
      assert KeyFunctional(s[1..]) by {
        forall x, y | x in s[1..] && y in s[1..] && Id(x) == Id(y) ensures x == y {
          assert x in s && y in s;
        }
      }
      RankedPermutationUnique(s[1..], t[1..]);
      assert s == [s[0]] + s[1..] && t == [t[0]] + t[1..];
    }
  }

  /**
   * With ids unique, the id tie-break makes the listing deterministic: any
   * sequence ordered by `(-order, -id)` holding the same rows is the queryset.
   */
  lemma QuerysetDeterministic(table: seq<Photo>, folderParam: Option<string>, t: seq<Photo>)
    requires DistinctIds(table)
    requires Ranked(t)
    requires multiset(t) == multiset(Queryset(table, folderParam))
    ensures t == Queryset(table, folderParam)
  {
    var r := Queryset(table, folderParam);
    forall x, y | x in r && y in r && Id(x) == Id(y) ensures x == y {
      var i :| 0 <= i < |table| && table[i] == x;
      var j :| 0 <= j < |table| && table[j] == y;
      assert i == j;
    }
    RankedPermutationUnique(r, t);
  }

  // ---------- paginate ----------

  function Min(a: int, b: int): int {
    if a <= b then a else b
  }

  function Max(a: int, b: int): int {
    if a >= b then a else b
  }

  /**
   * `min(int(request.GET.get("limit", 50)), 200)`, with 50 when `int`
   * raises `ValueError`. Negative numbers pass through unclamped.
   */
  function ParseLimit(param: Option<string>): (limit: int)
    ensures limit <= MaxLimit
    ensures param.None? ==> limit == DefaultLimit
    ensures param.Some? && ParseInt(param.value).None? ==> limit == DefaultLimit
    ensures param.Some? && ParseInt(param.value).Some? ==>
      var n := ParseInt(param.value).value;
      (n <= MaxLimit ==> limit == n) && (n > MaxLimit ==> limit == MaxLimit)
  {
    var n := match param
      case None => Some(DefaultLimit)
      case Some(s) => ParseInt(s);
    match n
    case None => DefaultLimit
    case Some(v) => Min(v, MaxLimit)
  }

  /** `int(request.GET.get("offset", 0))`, with 0 when `int` raises `ValueError`; never clamped. */
  function ParseOffset(param: Option<string>): (offset: int)
    ensures param.None? ==> offset == 0
    ensures param.Some? && ParseInt(param.value).None? ==> offset == 0
    ensures param.Some? && ParseInt(param.value).Some? ==> offset == ParseInt(param.value).value
  {
    var n := match param
      case None => Some(0)
      case Some(s) => ParseInt(s);
    n.GetOr(0)
  }

  /** The `meta` object of the response. */
  datatype Meta = Meta(
    count: nat,
    limit: int,
    offset: int,
    nextOffset: Option<int>,
    prevOffset: Option<int>)

  datatype Page = Page(items: seq<Photo>, meta: Meta)

  /** The `ValueError` Django raises when a queryset is sliced with a negative bound. */
  datatype ListError = NegativeIndexing

  /** `qs[start:stop]` for non-negative bounds: clipped at the end, empty when `stop <= start`. */
  function Window(qs: seq<Photo>, start: nat, stop: nat): (r: seq<Photo>)
    ensures |r| == Max(0, Min(stop, |qs|) - start)
    ensures forall k :: 0 <= k < |r| ==> r[k] == qs[start + k]
  {
    if start < stop && start < |qs| then qs[start..Min(stop, |qs|)] else []
  }

  /** The page of `qs` at the already parsed `limit` and `offset`. */
  function PageAt(qs: seq<Photo>, limit: int, offset: int): (r: Result<Page, ListError>)
    ensures r.Failure? <==> offset < 0 || offset + limit < 0
    ensures r.Success? ==>
      var p := r.value;
      && p.meta.count == |qs|
      && p.meta.limit == limit
      && p.meta.offset == offset
      && |p.items| == Max(0, Min(offset + limit, |qs|) - offset)
      && |p.items| <= Max(limit, 0)
      && (|p.items| > 0 ==> offset + |p.items| <= |qs|)
      && (forall k :: 0 <= k < |p.items| ==> p.items[k] == qs[offset + k])
      && (p.meta.nextOffset.Some? <==> offset + limit < |qs|)
      && (p.meta.nextOffset.Some? ==> p.meta.nextOffset.value == offset + limit)
      && (p.meta.nextOffset.Some? && limit >= 0 ==> p.meta.nextOffset.value == offset + |p.items|)
      && (p.meta.prevOffset.Some? <==> offset > 0)
      && (p.meta.prevOffset.Some? ==> p.meta.prevOffset.value == Max(offset - limit, 0))
  {
    var total := |qs|;
    if offset < 0 || offset + limit < 0 then Failure(NegativeIndexing)
    else
      var items := Window(qs, offset, offset + limit);
      var nextOffset := if offset + limit < total then Some(offset + limit) else None;
      var prevOffset := if offset > 0 then Some(Max(offset - limit, 0)) else None;
      Success(Page(items, Meta(total, limit, offset, nextOffset, prevOffset)))
  }

  /** `paginate`: parse the `limit` and `offset` parameters and take that page. */
  function Paginate(qs: seq<Photo>, limitParam: Option<string>, offsetParam: Option<string>): (r: Result<Page, ListError>)
    ensures r.Success? ==> r.value.meta.limit <= MaxLimit && |r.value.items| <= MaxLimit
    ensures r.Success? ==> r.value.meta.count == |qs|
    ensures limitParam.None? && offsetParam.None? ==>
      r.Success? && r.value.items == qs[..Min(DefaultLimit, |qs|)]
  {
    PageAt(qs, ParseLimit(limitParam), ParseOffset(offsetParam))
  }

  lemma WindowRanked(s: seq<Photo>, w: seq<Photo>, start: nat)
    requires Ranked(s)
    requires |w| > 0 ==> start + |w| <= |s|
    requires forall k :: 0 <= k < |w| ==> w[k] == s[start + k]
    ensures Ranked(w)
  {
  }

  lemma PageOfRanked(qs: seq<Photo>, r: Result<Page, ListError>, offset: int)
    requires Ranked(qs)
    requires r.Success? ==> 0 <= offset
    requires r.Success? ==> |r.value.items| > 0 ==> offset + |r.value.items| <= |qs|
    requires r.Success? ==> forall k :: 0 <= k < |r.value.items| ==> r.value.items[k] == qs[offset + k]
    ensures r.Success? ==> Ranked(r.value.items) && forall x :: x in r.value.items ==> x in qs
  {
  }

  /**
   * `get`: the queryset, paginated. Every item is a listed row, the items
   * keep the listing order, and at most `MaxLimit` of them come back.
   */
  function List(table: seq<Photo>, folderParam: Option<string>,
                limitParam: Option<string>, offsetParam: Option<string>): (r: Result<Page, ListError>)
    ensures r.Success? ==> Ranked(r.value.items) && |r.value.items| <= MaxLimit
    ensures r.Success? ==> forall x :: x in r.value.items ==> Listed(table, folderParam, x)
    ensures r.Success? ==> r.value.meta.count == |Queryset(table, folderParam)|
  {
    var qs := Queryset(table, folderParam);
    var r := Paginate(qs, limitParam, offsetParam);
    PageOfRanked(qs, r, ParseOffset(offsetParam));
    r
  }

  // ---------- following next_offset ----------

  function Flatten(pages: seq<seq<Photo>>): seq<Photo> {
    if pages == [] then [] else pages[0] + Flatten(pages[1..])
  }

  /** The pages a client collects starting at `offset` and following `next_offset` until it is null. */
  function Walk(qs: seq<Photo>, limit: int, offset: int): (pages: seq<seq<Photo>>)
    requires 0 < limit && 0 <= offset
    ensures |pages| > 0
    decreases if offset <= |qs| then |qs| - offset else 0
  {
    var page := PageAt(qs, limit, offset).value;
    match page.meta.nextOffset
    case None => [page.items]
    case Some(n) => [page.items] + Walk(qs, limit, n)
  }

  lemma FlattenCons(a: seq<Photo>, w: seq<seq<Photo>>)
    ensures Flatten([a] + w) == a + Flatten(w)
  {
  }

  /** One step of the walk: the page at `offset`, then the walk from `next_offset` if there is one. */
  lemma WalkStep(qs: seq<Photo>, limit: int, offset: int)
    requires 0 < limit && 0 <= offset <= |qs|
    ensures offset + limit < |qs| ==>
      Walk(qs, limit, offset) == [qs[offset..offset + limit]] + Walk(qs, limit, offset + limit)
    ensures offset + limit >= |qs| ==> Walk(qs, limit, offset) == [qs[offset..]]
  {
    var page := PageAt(qs, limit, offset).value;
    assert page.items == qs[offset..Min(offset + limit, |qs|)];
    if offset + limit < |qs| {
      assert page.meta.nextOffset == Some(offset + limit);
    } else {
      assert page.meta.nextOffset == None;
      assert qs[offset..Min(offset + limit, |qs|)] == qs[offset..];
    }
  }

  /** Every page but the last holds exactly `limit` rows, and the last at most `limit`. */
  predicate FullPages(w: seq<seq<Photo>>, limit: int) {
    |w| > 0 && (forall k :: 0 <= k < |w| - 1 ==> |w[k]| == limit) && |w[|w| - 1]| <= limit
  }

  lemma FullPagesCons(a: seq<Photo>, rest: seq<seq<Photo>>, limit: int)
    requires |a| == limit && FullPages(rest, limit)
    ensures FullPages([a] + rest, limit)
  {
    var w := [a] + rest;
    forall k | 0 <= k < |w| - 1 ensures |w[k]| == limit {
      if k > 0 {
        assert w[k] == rest[k - 1];
      }
    }
    assert w[|w| - 1] == rest[|rest| - 1];
  }

  /** A page followed by pages covering the rest covers everything from the page's start. */
  lemma CoverCons(qs: seq<Photo>, offset: nat, n: nat, rest: seq<seq<Photo>>)
    requires offset <= n <= |qs|
    requires Flatten(rest) == qs[n..]
    ensures Flatten([qs[offset..n]] + rest) == qs[offset..]
  {
    FlattenCons(qs[offset..n], rest);
    assert qs[offset..] == qs[offset..n] + qs[n..];
  }

  /** The pages of `qs` from `offset` on, cut every `limit` rows. */
  function Pages(qs: seq<Photo>, limit: int, offset: int): (pages: seq<seq<Photo>>)
    requires 0 < limit && 0 <= offset <= |qs|
    decreases |qs| - offset
  {
    if offset + limit < |qs| then [qs[offset..offset + limit]] + Pages(qs, limit, offset + limit)
    else [qs[offset..]]
  }

  /** The walk through `next_offset` cuts the listing into exactly those pages. */
  lemma {:induction false} WalkIsPages(qs: seq<Photo>, limit: int, offset: int)
    requires 0 < limit && 0 <= offset <= |qs|
    ensures Walk(qs, limit, offset) == Pages(qs, limit, offset)
    decreases |qs| - offset
  {
    WalkStep(qs, limit, offset);
    if offset + limit < |qs| {
      WalkIsPages(qs, limit, offset + limit);
    }
  }

  lemma {:induction false} PagesFull(qs: seq<Photo>, limit: int, offset: int)
    requires 0 < limit && 0 <= offset <= |qs|
    ensures FullPages(Pages(qs, limit, offset), limit)
    decreases |qs| - offset
  {
    if offset + limit < |qs| {
      PagesFull(qs, limit, offset + limit);
      FullPagesCons(qs[offset..offset + limit], Pages(qs, limit, offset + limit), limit);
    }
  }

  lemma {:induction false} PagesCover(qs: seq<Photo>, limit: int, offset: int)
    requires 0 < limit && 0 <= offset <= |qs|
    ensures Flatten(Pages(qs, limit, offset)) == qs[offset..]
    decreases |qs| - offset
  {
    if offset + limit < |qs| {
      PagesCover(qs, limit, offset + limit);
      CoverCons(qs, offset, offset + limit, Pages(qs, limit, offset + limit));
    } else {
      CoverCons(qs, offset, |qs|, []);
    }
  }

  /** The pages of a walk are full but the last. */
  lemma WalkFullPages(qs: seq<Photo>, limit: int, offset: int)
    requires 0 < limit && 0 <= offset <= |qs|
    ensures FullPages(Walk(qs, limit, offset), limit)
  {
    WalkIsPages(qs, limit, offset);
    PagesFull(qs, limit, offset);
  }

  /**
   * Following `next_offset` from `offset` with a fixed positive limit visits
   * every following row exactly once, in order.
   */
  lemma WalkCovers(qs: seq<Photo>, limit: int, offset: int)
    requires 0 < limit && 0 <= offset <= |qs|
    ensures Flatten(Walk(qs, limit, offset)) == qs[offset..]
  {
    WalkIsPages(qs, limit, offset);
    PagesCover(qs, limit, offset);
  }

  /** From the first page, the walk returns the whole listing, in full pages but the last. */
  lemma WalkFromStart(qs: seq<Photo>, limit: int)
    requires 0 < limit
    ensures Flatten(Walk(qs, limit, 0)) == qs
    ensures FullPages(Walk(qs, limit, 0), limit)
  {
    WalkCovers(qs, limit, 0);
    WalkFullPages(qs, limit, 0);
  }

  /**
   * A client that writes the echoed `limit` and a returned offset back into
   * the query string gets exactly the page at those numbers.
   */
  lemma ShownParamsGivePage(qs: seq<Photo>, limit: int, offset: int)
    requires limit <= MaxLimit
    ensures Paginate(qs, Some(ShowInt(limit)), Some(ShowInt(offset))) == PageAt(qs, limit, offset)
  {
    ParseShowInt(limit);
    ParseShowInt(offset);
  }

  /** With `limit=0`, `next_offset` repeats the current offset while rows remain: the walk would not advance. */
  lemma ZeroLimitDoesNotAdvance(qs: seq<Photo>, offset: int)
    requires 0 <= offset < |qs|
    ensures PageAt(qs, 0, offset).Success?
    ensures PageAt(qs, 0, offset).value.items == []
    ensures PageAt(qs, 0, offset).value.meta.nextOffset == Some(offset)
  {
  }
}
