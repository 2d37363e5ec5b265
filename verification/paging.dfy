/** Page arithmetic of the paginator the list views use: a fixed page size,
    no orphans, and an allowed empty first page. */
module Paging {

  function Min(a: int, b: int): int
  {
    if a <= b then a else b
  }

  /** Number of pages for `count` items: ceil(count / perPage), and one page when there is nothing. */
  function NumPages(count: nat, perPage: nat): (r: nat)
    requires perPage > 0
    ensures r >= 1
    ensures count <= perPage * r
    ensures r == 1 || perPage * (r - 1) < count
    decreases count
  {
    if count <= perPage then 1
    else
      var rest := NumPages(count - perPage, perPage);
      MulSucc(perPage, rest);
      rest + 1
  }

  /** Multiplying by a natural number keeps order. */
  lemma MulMonotone(n: nat, a: nat, b: nat)
    requires a <= b
    ensures n * a <= n * b
  {
  }

  lemma MulSucc(n: nat, a: nat)
    ensures n * (a + 1) == n * a + n
  {
  }

  /** Index, in the whole listing, of the first item on the 1-based page `number`. */
  function First(perPage: nat, number: nat): nat
    requires number >= 1
  {
    perPage * (number - 1)
  }

  /** The 1-based page `number` of `items`: a window of the listing starting at that page's first index. */
  function Page<T>(items: seq<T>, perPage: nat, number: nat): (r: seq<T>)
    requires perPage > 0
    requires 1 <= number <= NumPages(|items|, perPage)
    ensures First(perPage, number) + |r| <= |items|
    ensures |r| == Min(perPage, |items| - First(perPage, number))
    ensures r == items[First(perPage, number)..First(perPage, number) + |r|]
  {
    var bottom := First(perPage, number);
    MulMonotone(perPage, number - 1, NumPages(|items|, perPage) - 1);
    var top := if bottom + perPage >= |items| then |items| else bottom + perPage;
    items[bottom..top]
  }

  /** Pages `from` up to the last, concatenated. */
  function PagesFrom<T>(items: seq<T>, perPage: nat, from: nat): seq<T>
    requires perPage > 0
    requires 1 <= from <= NumPages(|items|, perPage)
    decreases NumPages(|items|, perPage) - from
  {
    Page(items, perPage, from)
      + if from == NumPages(|items|, perPage) then [] else PagesFrom(items, perPage, from + 1)
  }

  /** Where page `from` starts and where the next one does, or that it is the last. */
  lemma PageBounds(count: nat, perPage: nat, from: nat)
    requires perPage > 0
    requires 1 <= from <= NumPages(count, perPage)
    ensures First(perPage, from) <= count
    ensures from < NumPages(count, perPage) ==>
      First(perPage, from + 1) == First(perPage, from) + perPage < count
    ensures from == NumPages(count, perPage) ==> count <= First(perPage, from) + perPage
  {
    var last := NumPages(count, perPage);
    MulMonotone(perPage, from - 1, last - 1);
    MulSucc(perPage, from - 1);
    if from < last {
      MulMonotone(perPage, from, last - 1);
    }
  }

  /** Pages `from` onwards hold exactly the items from that page's first index on. */
  lemma {:induction false} PagesFromSuffix<T>(items: seq<T>, perPage: nat, from: nat)
    requires perPage > 0
    requires 1 <= from <= NumPages(|items|, perPage)
    ensures First(perPage, from) <= |items|
    ensures PagesFrom(items, perPage, from) == items[First(perPage, from)..]
    decreases NumPages(|items|, perPage) - from
  {
    var last := NumPages(|items|, perPage);
    var bottom := First(perPage, from);
    PageBounds(|items|, perPage, from);
    var page := Page(items, perPage, from);
    if from == last {
      assert page == items[bottom..];
    } else {
      var top := First(perPage, from + 1);
      assert page == items[bottom..top];
      PagesFromSuffix(items, perPage, from + 1);
      assert items[bottom..] == items[bottom..top] + items[top..];
    }
  }

  /** Walking every page from the first to the last yields the listing, each item once, in order. */
  lemma PagesCoverListing<T>(items: seq<T>, perPage: nat)
    requires perPage > 0
    ensures PagesFrom(items, perPage, 1) == items
  {
    PagesFromSuffix(items, perPage, 1);
  }

  /** Item `k` sits on page `k / perPage + 1`, at position `k % perPage`. */
  lemma ItemOnPage<T>(items: seq<T>, perPage: nat, k: nat)
    requires perPage > 0
    requires k < |items|
    ensures k / perPage + 1 <= NumPages(|items|, perPage)
    ensures k % perPage < |Page(items, perPage, k / perPage + 1)|
    ensures Page(items, perPage, k / perPage + 1)[k % perPage] == items[k]
  {
    var q, m := k / perPage, k % perPage;
    var last := NumPages(|items|, perPage);
    assert k == perPage * q + m;
    if q + 1 > last {
      MulMonotone(perPage, last, q);
      assert false;
    }
    var bottom := First(perPage, q + 1);
    assert bottom == perPage * q;
    var page := Page(items, perPage, q + 1);
    assert |page| == Min(perPage, |items| - bottom);
    assert page[m] == items[bottom + m];
  }

  /** Twenty-three items at ten per page: three pages holding 10, 10 and 3 items. */
  lemma TwentyThreeItemsExample<T>(items: seq<T>)
    requires |items| == 23
    ensures NumPages(23, 10) == 3
    ensures |Page(items, 10, 1)| == 10 && |Page(items, 10, 2)| == 10 && |Page(items, 10, 3)| == 3
  {
  }
}
