/**
 * The recent-documents carousel: it sorts the array it is given in place, newest
 * first, shows the first six, three per page, and steps a page index that stays
 * between 0 and the last page start.
 */
module Carousel {
  import opened Seqs
  import opened Types
  import opened Catalog

  const RecentLimit: nat := 6
  const DocumentsPerPage: nat := 3

  /** Newest first: `lastModified` never increases along `s`. */
  predicate SortedByRecency(s: seq<Document>) {
    forall p, q :: 0 <= p < q < |s| ==> s[p].lastModified >= s[q].lastModified
  }

  /**
   * `r` is what the carousel shows for `docs`: as many as `docs` has up to six,
   * taken from `docs`, newest first, and none of the documents left out newer
   * than any shown.
   */
  ghost predicate IsRecentSelection(r: seq<Document>, docs: seq<Document>) {
    && |r| == (if |docs| < RecentLimit then |docs| else RecentLimit)
    && multiset(r) <= multiset(docs)
    && SortedByRecency(r)
    && forall d, x :: d in multiset(docs) - multiset(r) && x in r ==> d.lastModified <= x.lastModified
  }

  /** `documents.sort((a, b) => b.lastModified - a.lastModified)`: an insertion sort, in place. */
  method SortByRecency(a: array<Document>)
    modifies a
    ensures SortedByRecency(a[..])
    ensures multiset(a[..]) == multiset(old(a[..]))
  {
    var i := 0;
    while i < a.Length
      invariant 0 <= i <= a.Length
      invariant SortedByRecency(a[..i])
      invariant multiset(a[..]) == multiset(old(a[..]))
    {
      Sink(a, i);
      i := i + 1;
    }
    assert a[..a.Length] == a[..];
  }

  /** Moves `a[i]` left past every strictly older document, so that `a[..i+1]` is sorted. */
  method Sink(a: array<Document>, i: int)
    requires 0 <= i < a.Length && SortedByRecency(a[..i])
    modifies a
    ensures SortedByRecency(a[..i + 1])
    ensures multiset(a[..]) == multiset(old(a[..]))
  {
    var j := i;
    while j > 0 && a[j - 1].lastModified < a[j].lastModified
      invariant 0 <= j <= i
      invariant forall p, q :: 0 <= p < q <= i && p != j && q != j ==> a[p].lastModified >= a[q].lastModified
      invariant forall q :: j < q <= i ==> a[j].lastModified > a[q].lastModified
      invariant multiset(a[..]) == multiset(old(a[..]))
    {
      Swap(a, j - 1, j);
      j := j - 1;
    }
    SunkIsSorted(a[..], i, j);
  }

  /** Where sinking stops, the prefix up to `i` is sorted. */
  lemma SunkIsSorted(s: seq<Document>, i: int, j: int)
    requires 0 <= j <= i < |s|
    requires forall p, q :: 0 <= p < q <= i && p != j && q != j ==> s[p].lastModified >= s[q].lastModified
    requires forall q :: j < q <= i ==> s[j].lastModified > s[q].lastModified
    requires j > 0 ==> s[j - 1].lastModified >= s[j].lastModified
    ensures SortedByRecency(s[..i + 1])
  {
    forall p, q | 0 <= p < q <= i
      ensures s[p].lastModified >= s[q].lastModified
    {
      if q == j && p < j - 1 {
        assert s[p].lastModified >= s[j - 1].lastModified;
      }
    }
  }

  /** Exchanges two elements; the array keeps its contents. */
  method Swap(a: array<Document>, i: int, j: int)
    requires 0 <= i < a.Length && 0 <= j < a.Length
    modifies a
    ensures a[i] == old(a[j]) && a[j] == old(a[i])
    ensures forall k :: 0 <= k < a.Length && k != i && k != j ==> a[k] == old(a[k])
    ensures multiset(a[..]) == multiset(old(a[..]))
  {
    a[i], a[j] := a[j], a[i];
  }

  /** `recentDocuments`: sorts the given array in place and returns its first six elements. */
  method RecentDocuments(a: array<Document>) returns (r: seq<Document>)
    modifies a
    ensures multiset(a[..]) == multiset(old(a[..]))
    ensures SortedByRecency(a[..])
    ensures |r| <= a.Length && r == a[..|r|]
    ensures IsRecentSelection(r, old(a[..]))
  {
    SortByRecency(a);
    var n := if a.Length < RecentLimit then a.Length else RecentLimit;
    r := a[..n];
    assert a[..] == r + a[n..];
    forall d, x | d in multiset(a[..]) - multiset(r) && x in r
      ensures d.lastModified <= x.lastModified
    {
      assert d in a[n..];
      var q :| n <= q < a.Length && a[q] == d;
      var p :| 0 <= p < n && a[p] == x;
    }
  }

  /**
   * Rendering the carousel inside the catalog (`showCarousel`, for editors and
   * super-editors): the array it sorts is the catalog's own `documents` state, so
   * the stored list is left newest first. Other users see no carousel.
   */
  method RenderCarousel(store: Store) returns (r: seq<Document>)
    modifies store`documents
    ensures !(HasEditPermission(store.user.role) || HasSuperEditPermission(store.user.role)) ==>
      r == [] && store.documents == old(store.documents)
    ensures HasEditPermission(store.user.role) || HasSuperEditPermission(store.user.role) ==>
      && multiset(store.documents) == multiset(old(store.documents))
      && SortedByRecency(store.documents)
      && |r| <= |store.documents| && r == store.documents[..|r|]
      && IsRecentSelection(r, old(store.documents))
  {
    if !(HasEditPermission(store.user.role) || HasSuperEditPermission(store.user.role)) {
      return [];
    }
    var s := store.documents;
    var a := new Document[|s|](i requires 0 <= i < |s| => s[i]);
    assert a[..] == s;
    r := RecentDocuments(a);
    store.documents := a[..];
  }

  /** Filtering a list that is newest first keeps it newest first. */
  lemma {:induction false} FilterKeepsRecencyOrder(s: seq<Document>, keep: Document -> bool)
    requires SortedByRecency(s)
    ensures SortedByRecency(Filter(s, keep))
  {
    if s != [] {
      var tail := s[1..];
      SortedTail(s);
      var rest := Filter(tail, keep);
      FilterKeepsRecencyOrder(tail, keep);
      assert Filter(s, keep) == (if keep(s[0]) then [s[0]] else []) + rest;
      if keep(s[0]) {
        SortedPrepend(s[0], rest);
      } else {
        assert Filter(s, keep) == rest;
      }
    }
  }

  /** The tail of a newest-first list is newest first, and none of it is newer than the head. */
  lemma SortedTail(s: seq<Document>)
    requires s != [] && SortedByRecency(s)
    ensures SortedByRecency(s[1..])
    ensures forall x :: x in s[1..] ==> x.lastModified <= s[0].lastModified
  {
    forall x | x in s[1..]
      ensures x.lastModified <= s[0].lastModified
    {
      var k :| 0 <= k < |s[1..]| && s[1..][k] == x;
      assert s[k + 1] == x;
    }
  }

  /** A document no older than any of a newest-first list may go in front of it. */
  lemma SortedPrepend(x: Document, rest: seq<Document>)
    requires SortedByRecency(rest)
    requires forall y :: y in rest ==> y.lastModified <= x.lastModified
    ensures SortedByRecency([x] + rest)
  {
    var r := [x] + rest;
    forall i, j | 0 <= i < j < |r|
      ensures r[i].lastModified >= r[j].lastModified
    {
      if i == 0 {
        assert r[j] == rest[j - 1];
      } else {
        assert r[i] == rest[i - 1] && r[j] == rest[j - 1];
      }
    }
  }

  /** Once the carousel has reordered the catalog's list, every filtered view of it is newest first too. */
  lemma SortedCatalogFiltersSorted(docs: seq<Document>, user: User, f: Filters)
    requires SortedByRecency(docs)
    ensures SortedByRecency(FilteredDocuments(docs, user, f))
  {
    FilterKeepsRecencyOrder(docs, (d: Document) => Shown(user, f, d));
  }

  /** `Math.max(0, recentDocuments.length - documentsPerPage)` */
  function MaxIndex(count: nat): (m: nat)
    ensures count <= DocumentsPerPage ==> m == 0
    ensures count > DocumentsPerPage ==> m + DocumentsPerPage == count
  {
    if count < DocumentsPerPage then 0 else count - DocumentsPerPage
  }

  /** `Math.min(prev + 1, maxIndex)` */
  function NextIndex(i: int, maxIndex: nat): int {
    if i + 1 < maxIndex then i + 1 else maxIndex
  }

  /** `Math.max(prev - 1, 0)` */
  function PrevIndex(i: int): int {
    if i - 1 > 0 then i - 1 else 0
  }

  /** The index after a run of presses, `true` for next and `false` for previous. */
  function Press(i: int, maxIndex: nat, presses: seq<bool>): int
    decreases |presses|
  {
    if presses == [] then i
    else Press(if presses[0] then NextIndex(i, maxIndex) else PrevIndex(i), maxIndex, presses[1..])
  }

  // ---------------------------------------------------------------------------
  // Properties

  /** Next stays within range, steps by one below the last page and does nothing on it. */
  lemma NextBounded(i: int, maxIndex: nat)
    requires 0 <= i <= maxIndex
    ensures 0 <= NextIndex(i, maxIndex) <= maxIndex
    ensures i < maxIndex ==> NextIndex(i, maxIndex) == i + 1
    ensures i == maxIndex ==> NextIndex(i, maxIndex) == i
  {
  }

  /** Previous stays within range, steps back by one above 0 and does nothing at 0. */
  lemma PrevBounded(i: int, maxIndex: nat)
    requires 0 <= i <= maxIndex
    ensures 0 <= PrevIndex(i) <= maxIndex
    ensures i > 0 ==> PrevIndex(i) == i - 1
    ensures i == 0 ==> PrevIndex(i) == 0
  {
  }

  /** Next then previous returns to a page below the last. */
  lemma NextThenPrev(i: int, maxIndex: nat)
    requires 0 <= i < maxIndex
    ensures PrevIndex(NextIndex(i, maxIndex)) == i
  {
  }

  /** Starting anywhere in range, in particular at 0, every run of presses keeps the index in range. */
  lemma {:induction false} PressesStayInRange(i: int, maxIndex: nat, presses: seq<bool>)
    requires 0 <= i <= maxIndex
    ensures 0 <= Press(i, maxIndex, presses) <= maxIndex
    decreases |presses|
  {
    if presses != [] {
      NextBounded(i, maxIndex);
      PrevBounded(i, maxIndex);
      PressesStayInRange(if presses[0] then NextIndex(i, maxIndex) else PrevIndex(i), maxIndex, presses[1..]);
    }
  }

  /** A selection holds every document when there are at most six. */
  lemma {:induction false} SmallSelectionIsEverything(r: seq<Document>, docs: seq<Document>)
    requires |docs| <= RecentLimit && IsRecentSelection(r, docs)
    ensures multiset(r) == multiset(docs)
  {
    assert |multiset(r)| == |multiset(docs)|;
    var rest := multiset(docs) - multiset(r);
    assert multiset(docs) == multiset(r) + rest;
    assert |rest| == 0;
  }

  /**
   * As written the carousel, which editors see, is given every stored document:
   * another author's draft, which the editor may not view, is shown to them.
   */
  lemma ShowsDraftOfAnotherAuthor(d: Document, user: User, r: seq<Document>)
    requires HasEditPermission(user.role)
    requires d.status == Draft && d.author != user.username
    requires IsRecentSelection(r, [d])
    ensures d in r && !CanViewDocument(user.role, d, user.username)
  {
    SmallSelectionIsEverything(r, [d]);
    assert d in multiset(r);
  }

  /** Given the documents the user may view, as the catalog list is, the carousel shows only documents the user may view. */
  lemma ShowsOnlyVisible(docs: seq<Document>, user: User, r: seq<Document>)
    requires IsRecentSelection(r, VisibleDocuments(docs, user))
    ensures forall d :: d in r ==> CanViewDocument(user.role, d, user.username)
  {
    forall d | d in r
      ensures CanViewDocument(user.role, d, user.username)
    {
      assert d in multiset(r);
      assert d in multiset(VisibleDocuments(docs, user));
      assert d in VisibleDocuments(docs, user);
    }
  }

  // ---------------------------------------------------------------------------
  // The page index

  class Pager {
    /** The number of documents shown. */
    const count: nat
    var currentIndex: int

    predicate Valid()
      reads this
    {
      0 <= currentIndex <= MaxIndex(count)
    }

    constructor (count: nat)
      ensures this.count == count && currentIndex == 0 && Valid()
    {
      this.count := count;
      currentIndex := 0;
    }

    /** `nextSlide` */
    method NextSlide()
      requires Valid()
      modifies this
      ensures Valid()
      ensures currentIndex == NextIndex(old(currentIndex), MaxIndex(count))
    {
      var maxIndex := MaxIndex(count);
      if currentIndex + 1 < maxIndex {
        currentIndex := currentIndex + 1;
      } else {
        currentIndex := maxIndex;
      }
    }

    /** `prevSlide` */
    method PrevSlide()
      requires Valid()
      modifies this
      ensures Valid()
      ensures currentIndex == PrevIndex(old(currentIndex))
    {
      if currentIndex - 1 > 0 {
        currentIndex := currentIndex - 1;
      } else {
        currentIndex := 0;
      }
    }
  }
}
