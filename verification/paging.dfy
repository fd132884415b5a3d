/** Finding documents: select, sort, skip and limit. */
module Paging {

  /** The elements of `xs` that satisfy `p`, in order. */
  function Select<T>(xs: seq<T>, p: T -> bool): (ys: seq<T>)
    ensures forall y :: y in ys ==> y in xs && p(y)
    ensures |ys| <= |xs|
  {
    if xs == [] then []
    else Select(xs[..|xs| - 1], p) + if p(xs[|xs| - 1]) then [xs[|xs| - 1]] else []
  }

  lemma SelectSnoc<T>(xs: seq<T>, x: T, p: T -> bool)
    ensures Select(xs + [x], p) == Select(xs, p) + if p(x) then [x] else []
  {
    assert (xs + [x])[..|xs|] == xs;
  }

  lemma {:induction false} SelectAgrees<T>(xs: seq<T>, p: T -> bool, q: T -> bool)
    requires forall x :: x in xs ==> p(x) == q(x)
    ensures Select(xs, p) == Select(xs, q)
    decreases |xs|
  {
    if xs != [] {
      SelectAgrees(xs[..|xs| - 1], p, q);
    }
  }

  // ---- sorting: ties keep the order of the collection ----

  function Insert<T>(xs: seq<T>, x: T, le: (T, T) -> bool): (ys: seq<T>)
    ensures multiset(ys) == multiset(xs) + multiset{x}
  {
    if xs == [] || le(xs[|xs| - 1], x) then xs + [x]
    else
      var n := |xs| - 1;
      assert xs == xs[..n] + [xs[n]];
      Insert(xs[..n], x, le) + [xs[n]]
  }

  function Sort<T>(xs: seq<T>, le: (T, T) -> bool): (ys: seq<T>)
    ensures multiset(ys) == multiset(xs)
    ensures |ys| == |xs|
  {
    if xs == [] then []
    else
      var n := |xs| - 1;
      assert xs == xs[..n] + [xs[n]];
      var ys := Insert(Sort(xs[..n], le), xs[n], le);
      assert |multiset(ys)| == |multiset(xs)|;
      ys
  }

  predicate Ordered<T>(xs: seq<T>, le: (T, T) -> bool) {
    forall i, j :: 0 <= i < j < |xs| ==> le(xs[i], xs[j])
  }

  ghost predicate TotalPreorder<T(!new)>(le: (T, T) -> bool) {
    && (forall x, y :: le(x, y) || le(y, x))
    && (forall x, y, z :: le(x, y) && le(y, z) ==> le(x, z))
  }

  lemma {:induction false} InsertOrdered<T(!new)>(xs: seq<T>, x: T, le: (T, T) -> bool)
    requires TotalPreorder(le) && Ordered(xs, le)
    ensures Ordered(Insert(xs, x, le), le)
    decreases |xs|
  {
    var n := |xs| - 1;
    if xs != [] && !le(xs[n], x) {
      var ys := Insert(xs[..n], x, le);
      InsertOrdered(xs[..n], x, le);
      forall i | 0 <= i < |ys| ensures le(ys[i], xs[n]) {
        assert ys[i] in multiset(ys);
        assert ys[i] in xs[..n] || ys[i] == x;
      }
    }
  }

  lemma {:induction false} SortOrdered<T(!new)>(xs: seq<T>, le: (T, T) -> bool)
    requires TotalPreorder(le)
    ensures Ordered(Sort(xs, le), le)
    decreases |xs|
  {
    if xs != [] {
      var n := |xs| - 1;
      SortOrdered(xs[..n], le);
      InsertOrdered(Sort(xs[..n], le), xs[n], le);
    }
  }

  lemma {:induction false} InsertAgrees<T(!new)>(xs: seq<T>, x: T, le: (T, T) -> bool, le': (T, T) -> bool)
    requires forall a, b :: le(a, b) == le'(a, b)
    ensures Insert(xs, x, le) == Insert(xs, x, le')
    decreases |xs|
  {
    if xs != [] {
      InsertAgrees(xs[..|xs| - 1], x, le, le');
    }
  }

  lemma {:induction false} SortAgrees<T(!new)>(xs: seq<T>, le: (T, T) -> bool, le': (T, T) -> bool)
    requires forall a, b :: le(a, b) == le'(a, b)
    ensures Sort(xs, le) == Sort(xs, le')
    decreases |xs|
  {
    if xs != [] {
      var n := |xs| - 1;
      SortAgrees(xs[..n], le, le');
      InsertAgrees(Sort(xs[..n], le), xs[n], le, le');
    }
  }

  lemma Unsnoc<T>(xs: seq<T>)
    requires xs != []
    ensures xs == xs[..|xs| - 1] + [xs[|xs| - 1]]
  {
  }

  lemma SortSnoc<T>(xs: seq<T>, x: T, le: (T, T) -> bool)
    ensures Sort(xs + [x], le) == Insert(Sort(xs, le), x, le)
  {
    assert (xs + [x])[..|xs|] == xs;
  }

  lemma InsertBefore<T>(xs: seq<T>, last: T, y: T, le: (T, T) -> bool)
    requires !le(last, y)
    ensures Insert(xs + [last], y, le) == Insert(xs, y, le) + [last]
  {
    assert (xs + [last])[..|xs|] == xs;
  }

  lemma InsertLast<T>(xs: seq<T>, x: T, le: (T, T) -> bool)
    requires xs != [] ==> le(xs[|xs| - 1], x)
    ensures Insert(xs, x, le) == xs + [x]
  {
  }

  lemma SelectKeeps<T>(xs: seq<T>, x: T, p: T -> bool)
    ensures Select(xs + [x], p) == if p(x) then Select(xs, p) + [x] else Select(xs, p)
  {
    SelectSnoc(xs, x, p);
    assert Select(xs, p) + [] == Select(xs, p);
  }

  /** Going past a last element that is greater. */
  lemma InsertPast<T(!new)>(xs: seq<T>, last: T, y: T, le: (T, T) -> bool, same: T -> bool)
    requires !le(last, y) && !(same(y) && same(last))
    requires Select(Insert(xs, y, le), same) == if same(y) then Select(xs, same) + [y] else Select(xs, same)
    ensures Select(Insert(xs + [last], y, le), same)
         == if same(y) then Select(xs + [last], same) + [y] else Select(xs + [last], same)
  {
    InsertBefore(xs, last, y, le);
    SelectKeeps(Insert(xs, y, le), last, same);
    SelectKeeps(xs, last, same);
  }

  lemma {:induction false} InsertIsStable<T(!new)>(xs: seq<T>, y: T, le: (T, T) -> bool, same: T -> bool)
    requires forall a, b :: same(a) && same(b) ==> le(a, b)
    ensures Select(Insert(xs, y, le), same) == if same(y) then Select(xs, same) + [y] else Select(xs, same)
  {
    if xs == [] || le(xs[|xs| - 1], y) {
      InsertLast(xs, y, le);
      SelectKeeps(xs, y, same);
    } else {
      var init, last := xs[..|xs| - 1], xs[|xs| - 1];
      InsertIsStable(init, y, le, same);
      InsertPast(init, last, y, le, same);
      Unsnoc(xs);
    }
  }

  /** Elements with equal sort keys keep the order of the collection. */
  lemma {:induction false} SortIsStable<T(!new)>(xs: seq<T>, le: (T, T) -> bool, same: T -> bool)
    requires forall a, b :: same(a) && same(b) ==> le(a, b)
    ensures Select(Sort(xs, le), same) == Select(xs, same)
  {
    if xs != [] {
      var init, last := xs[..|xs| - 1], xs[|xs| - 1];
      Unsnoc(xs);
      SortIsStable(init, le, same);
      InsertIsStable(Sort(init, le), last, le, same);
      SortSnoc(init, last, le);
      SelectKeeps(init, last, same);
    }
  }

  /** Without a sort key the list stays as it is. */
  lemma {:induction false} SortByNothing<T(!new)>(xs: seq<T>, le: (T, T) -> bool)
    requires forall x, y :: le(x, y)
    ensures Sort(xs, le) == xs
  {
    if xs != [] {
      var init, last := xs[..|xs| - 1], xs[|xs| - 1];
      Unsnoc(xs);
      SortByNothing(init, le);
      SortSnoc(init, last, le);
      InsertLast(init, last, le);
    }
  }

  // ---- pages ----

  /** How many elements come before a page. */
  function Skip(page: nat, perPage: nat): nat
    requires page >= 1
  {
    if page == 1 then 0 else Skip(page - 1, perPage) + perPage
  }

  /** How many pages hold `total` elements. */
  function PageCount(total: nat, perPage: nat): nat
    requires perPage >= 1
  {
    if total == 0 then 0 else if total <= perPage then 1 else 1 + PageCount(total - perPage, perPage)
  }

  lemma {:induction false} SkipIsProduct(page: nat, perPage: nat)
    requires page >= 1
    ensures Skip(page, perPage) == (page - 1) * perPage
  {
    if page > 1 {
      SkipIsProduct(page - 1, perPage);
      assert (page - 1) * perPage == (page - 2) * perPage + perPage;
    }
  }

  lemma {:induction false} PageCountIsCeiling(total: nat, perPage: nat)
    requires perPage >= 1
    ensures PageCount(total, perPage) * perPage >= total
    ensures total > 0 ==> PageCount(total, perPage) >= 1 && (PageCount(total, perPage) - 1) * perPage < total
    decreases total
  {
    if total > perPage {
      PageCountIsCeiling(total - perPage, perPage);
      var n := PageCount(total - perPage, perPage);
      assert (n + 1) * perPage == n * perPage + perPage;
      assert n * perPage == (n - 1) * perPage + perPage;
    }
  }

  /** Skip and limit of a query. */
  function Window<T>(xs: seq<T>, skip: nat, limit: nat): seq<T> {
    if skip >= |xs| then [] else if skip + limit >= |xs| then xs[skip..] else xs[skip..skip + limit]
  }

  function Page<T>(xs: seq<T>, page: nat, perPage: nat): seq<T>
    requires page >= 1
  {
    Window(xs, Skip(page, perPage), perPage)
  }

  /** A page holds the elements from position (page - 1) * perPage on, at most `perPage` of them. */
  lemma PageHas<T>(xs: seq<T>, page: nat, perPage: nat)
    requires page >= 1
    ensures var found, skip := Page(xs, page, perPage), (page - 1) * perPage;
      && |found| == (if skip >= |xs| then 0 else if |xs| - skip < perPage then |xs| - skip else perPage)
      && forall k :: 0 <= k < |found| ==> 0 <= skip + k < |xs| && found[k] == xs[skip + k]
  {
    SkipIsProduct(page, perPage);
  }

  /** What the store returns for the skip and the limit that are set for a page. */
  method Fetch<T>(sorted: seq<T>, page: nat, perPage: nat) returns (found: seq<T>)
    requires page >= 1
    ensures found == Page(sorted, page, perPage)
  {
    SkipIsProduct(page, perPage);
    found := Window(sorted, (page - 1) * perPage, perPage);
  }

  /** Pages 1 to `n`, one after the other. */
  function Pages<T>(xs: seq<T>, n: nat, perPage: nat): seq<T> {
    if n == 0 then [] else Pages(xs, n - 1, perPage) + Page(xs, n, perPage)
  }

  lemma {:induction false} PagesTake<T>(xs: seq<T>, n: nat, perPage: nat)
    ensures Pages(xs, n, perPage) == if Skip(n + 1, perPage) >= |xs| then xs else xs[..Skip(n + 1, perPage)]
    decreases n
  {
    if n > 0 {
      PagesTake(xs, n - 1, perPage);
    }
  }

  lemma {:induction false} PagesSuffice(total: nat, perPage: nat, page: nat)
    requires perPage >= 1 && page > PageCount(total, perPage)
    ensures Skip(page, perPage) >= total
    decreases total, page
  {
    if total > perPage {
      PagesSuffice(total - perPage, perPage, page - 1);
    } else if total > 0 && page > 2 {
      PagesSuffice(total, perPage, page - 1);
    }
  }

  /** The pages up to the page count are the whole list, and every later page is empty. */
  lemma PagesPartition<T>(xs: seq<T>, perPage: nat)
    requires perPage >= 1
    ensures Pages(xs, PageCount(|xs|, perPage), perPage) == xs
    ensures forall later: nat :: later > PageCount(|xs|, perPage) ==> Page(xs, later, perPage) == []
  {
    PagesTake(xs, PageCount(|xs|, perPage), perPage);
    PagesSuffice(|xs|, perPage, PageCount(|xs|, perPage) + 1);
    forall later: nat | later > PageCount(|xs|, perPage) ensures Page(xs, later, perPage) == [] {
      PagesSuffice(|xs|, perPage, later);
    }
  }

  // ---- a paged query ----

  /** One page of the sorted matches, and how many matches there are. */
  function Answer<T>(docs: seq<T>, p: T -> bool, le: (T, T) -> bool, page: nat, perPage: nat): (seq<T>, nat)
    requires page >= 1
  {
    (Page(Sort(Select(docs, p), le), page, perPage), |Select(docs, p)|)
  }

  /** The answers to pages 1 to `n`, one after the other. */
  function Answers<T>(docs: seq<T>, p: T -> bool, le: (T, T) -> bool, n: nat, perPage: nat): seq<T> {
    if n == 0 then [] else Answers(docs, p, le, n - 1, perPage) + Answer(docs, p, le, n, perPage).0
  }

  lemma {:induction false} SelectCounts<T>(xs: seq<T>, p: T -> bool, x: T)
    ensures multiset(Select(xs, p))[x] == if p(x) then multiset(xs)[x] else 0
    decreases |xs|
  {
    if xs != [] {
      var n := |xs| - 1;
      SelectCounts(xs[..n], p, x);
      assert xs == xs[..n] + [xs[n]];
    }
  }

  lemma {:induction false} AnswersArePages<T>(
    docs: seq<T>, p: T -> bool, le: (T, T) -> bool, sorted: seq<T>, n: nat, perPage: nat)
    requires sorted == Sort(Select(docs, p), le)
    ensures Answers(docs, p, le, n, perPage) == Pages(sorted, n, perPage)
  {
    if n > 0 {
      AnswersArePages(docs, p, le, sorted, n - 1, perPage);
    }
  }

  /**
   * Reading all pages of a query over an unchanged collection gives its matches in order, each as often as
   * it is stored and nothing else; pages past the page count are empty.
   */
  lemma AnswersCover<T(!new)>(docs: seq<T>, p: T -> bool, le: (T, T) -> bool, perPage: nat)
    requires perPage >= 1 && TotalPreorder(le)
    ensures var n := PageCount(Answer(docs, p, le, 1, perPage).1, perPage);
            var read := Answers(docs, p, le, n, perPage);
      && Ordered(read, le)
      && (forall x :: multiset(read)[x] == if p(x) then multiset(docs)[x] else 0)
      && (forall later: nat :: later > n ==> Answer(docs, p, le, later, perPage).0 == [])
      && (forall page: nat :: page >= 1 ==> Answer(docs, p, le, page, perPage).0 == Page(read, page, perPage))
      && ((forall x, y :: le(x, y)) ==> read == Select(docs, p))
  {
    var sorted := Sort(Select(docs, p), le);
    var n := PageCount(|sorted|, perPage);
    MatchesInOrder(docs, p, le, sorted);
    AnswersArePages(docs, p, le, sorted, n, perPage);
    PagesPartition(sorted, perPage);
    forall page: nat | page >= 1
      ensures Answer(docs, p, le, page, perPage) == (Page(sorted, page, perPage), |sorted|)
    {
      AnswerIsPage(docs, p, le, sorted, page, perPage);
    }
  }

  lemma AnswerIsPage<T>(docs: seq<T>, p: T -> bool, le: (T, T) -> bool, sorted: seq<T>, page: nat, perPage: nat)
    requires page >= 1 && sorted == Sort(Select(docs, p), le)
    ensures Answer(docs, p, le, page, perPage) == (Page(sorted, page, perPage), |sorted|)
  {
  }

  lemma MatchesInOrder<T(!new)>(docs: seq<T>, p: T -> bool, le: (T, T) -> bool, sorted: seq<T>)
    requires TotalPreorder(le) && sorted == Sort(Select(docs, p), le)
    ensures Ordered(sorted, le)
    ensures forall x :: multiset(sorted)[x] == if p(x) then multiset(docs)[x] else 0
    ensures (forall x, y :: le(x, y)) ==> sorted == Select(docs, p)
  {
    SortOrdered(Select(docs, p), le);
    if forall x, y :: le(x, y) { SortByNothing(Select(docs, p), le); }
    forall x ensures multiset(sorted)[x] == if p(x) then multiset(docs)[x] else 0 {
      SelectCounts(docs, p, x);
    }
  }
}
