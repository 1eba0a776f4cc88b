/** Cutting a result into pages: offset (page - 1) * limit, at most `limit` items, ceil(n / limit) pages. */
module Paging {
  import opened Numbers

  /** LIMIT `limit` OFFSET `offset`. */
  function Window<T>(items: seq<T>, offset: nat, limit: nat): seq<T> {
    var lo := Min(offset, |items|);
    items[lo..Min(lo + limit, |items|)]
  }

  function Page<T>(items: seq<T>, page: nat, limit: nat): seq<T>
    requires page >= 1
  {
    Window(items, (page - 1) * limit, limit)
  }

  /** ceil(n / limit) */
  function PageCount(n: nat, limit: nat): nat
    requires limit >= 1
  {
    (n + limit - 1) / limit
  }

  /** The number of pages reported to the caller: at least one, even without results. */
  function TotalPages(n: nat, limit: nat): nat
    requires limit >= 1
  {
    if PageCount(n, limit) > 0 then PageCount(n, limit) else 1
  }

  /** An empty result has one page; any other as few as hold all its items. */
  lemma TotalPagesExact(n: nat, limit: nat, pages: nat)
    requires limit >= 1
    ensures n == 0 ==> TotalPages(n, limit) == 1
    ensures TotalPages(n, limit) <= pages <==> 1 <= pages && n <= pages * limit
  {
    var c := PageCount(n, limit);
    PageCountIsLeast(n, limit);
    if c <= pages {
      MultipleOrder(c, pages, limit);
    } else {
      MultipleOrder(pages + 1, c, limit);
      NextMultiple(pages, limit);
    }
  }

  /** Pages 1 to `count`, one after the other. */
  function FirstPages<T>(items: seq<T>, count: nat, limit: nat): seq<T> {
    if count == 0 then [] else FirstPages(items, count - 1, limit) + Page(items, count, limit)
  }

  lemma NextMultiple(n: nat, limit: nat)
    ensures (n + 1) * limit == n * limit + limit
  {
  }

  /** The page count is the least number of pages that holds all items. */
  lemma PageCountIsLeast(n: nat, limit: nat)
    requires limit >= 1
    ensures n <= PageCount(n, limit) * limit < n + limit
  {
    var c := PageCount(n, limit);
    assert n + limit - 1 == c * limit + (n + limit - 1) % limit;
  }

  lemma MultipleOrder(a: nat, b: nat, limit: nat)
    requires a <= b
    ensures a * limit <= b * limit
  {
  }

  lemma WindowExtendsPrefix<T>(items: seq<T>, offset: nat, limit: nat)
    ensures items[..Min(offset, |items|)] + Window(items, offset, limit) == items[..Min(offset + limit, |items|)]
  {
  }

  lemma {:induction false} FirstPagesArePrefix<T>(items: seq<T>, count: nat, limit: nat)
    ensures FirstPages(items, count, limit) == items[..Min(count * limit, |items|)]
  {
    if count == 0 {
    } else {
      FirstPagesArePrefix(items, count - 1, limit);
      NextMultiple(count - 1, limit);
      WindowExtendsPrefix(items, (count - 1) * limit, limit);
    }
  }

  /** All pages together are the whole result, in order and without repetition. */
  lemma PagesPartition<T>(items: seq<T>, limit: nat)
    requires limit >= 1
    ensures FirstPages(items, TotalPages(|items|, limit), limit) == items
  {
    var total := TotalPages(|items|, limit);
    PageCountIsLeast(|items|, limit);
    FirstPagesArePrefix(items, total, limit);
    if items == [] {
      assert FirstPages(items, total, limit) == [];
    } else {
      assert PageCount(|items|, limit) > 0;
      assert items[..|items|] == items;
    }
  }

  /** Full pages, then a last page that is not empty, then nothing. */
  lemma PageSizes<T>(items: seq<T>, page: nat, limit: nat)
    requires limit >= 1 && page >= 1
    ensures var total := TotalPages(|items|, limit);
            && (page < total ==> |Page(items, page, limit)| == limit)
            && (page == total && items != [] ==> 1 <= |Page(items, page, limit)| <= limit)
            && (page > total ==> Page(items, page, limit) == [])
  {
    var n := |items|;
    var count := PageCount(n, limit);
    PageCountIsLeast(n, limit);
    NextMultiple(page - 1, limit);
    if count > 0 {
      NextMultiple(count - 1, limit);
    }
    if page < count {
      MultipleOrder(page, count - 1, limit);
    } else if page > count {
      MultipleOrder(count, page - 1, limit);
    }
  }

  lemma Division(i: nat, limit: nat)
    requires limit >= 1
    ensures i == (i / limit) * limit + i % limit && 0 <= i % limit < limit
  {
  }

  lemma PageAt<T>(items: seq<T>, page: nat, j: nat, limit: nat)
    requires limit >= 1 && page >= 1
    ensures j < |Page(items, page, limit)| <==> j < limit && (page - 1) * limit + j < |items|
    ensures j < |Page(items, page, limit)| ==> Page(items, page, limit)[j] == items[(page - 1) * limit + j]
  {
  }

  /** Item `i` is on page `i / limit + 1`, at place `i % limit`, and on no other page at any place. */
  lemma ItemIsOnOnePage<T>(items: seq<T>, i: nat, page: nat, j: nat, limit: nat)
    requires limit >= 1 && page >= 1 && i < |items|
    ensures var home := i / limit + 1;
            i % limit < |Page(items, home, limit)| && Page(items, home, limit)[i % limit] == items[i]
    ensures j < |Page(items, page, limit)| && (page - 1) * limit + j == i ==> page == i / limit + 1 && j == i % limit
  {
    var q, r := i / limit, i % limit;
    Division(i, limit);
    ItemAt(items, i, q, r, limit);
    OnlyPageOf(items, i, q, r, page, j, limit);
  }

  lemma ItemAt<T>(items: seq<T>, i: nat, q: nat, r: nat, limit: nat)
    requires r < limit && i == q * limit + r && i < |items|
    ensures r < |Page(items, q + 1, limit)| && Page(items, q + 1, limit)[r] == items[i]
  {
    PageAt(items, q + 1, r, limit);
  }

  lemma OnlyPageOf<T>(items: seq<T>, i: nat, q: nat, r: nat, page: nat, j: nat, limit: nat)
    requires r < limit && i == q * limit + r && page >= 1
    ensures j < |Page(items, page, limit)| && (page - 1) * limit + j == i ==> page == q + 1 && j == r
  {
    PageAt(items, page, j, limit);
    if j < limit && (page - 1) * limit + j == i {
      QuotientIsUnique(page - 1, j, q, r, limit);
    }
  }

  lemma QuotientIsUnique(q: nat, r: nat, q': nat, r': nat, limit: nat)
    requires r < limit && r' < limit && q * limit + r == q' * limit + r'
    ensures q == q' && r == r'
  {
    if q < q' {
      MultipleOrder(q + 1, q', limit);
      NextMultiple(q, limit);
    } else if q > q' {
      MultipleOrder(q' + 1, q, limit);
      NextMultiple(q', limit);
    }
  }
}
