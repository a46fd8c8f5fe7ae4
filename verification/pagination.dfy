/** Pagination of the filtered list: nine posts per page, the slice a page
    shows, and the row of controls (previous, page numbers with ellipses, next)
    drawn under the grid. */
module Pagination {
  import opened Options

  const PostsPerPage: nat := 9

  function Min(a: int, b: int): int {
    if a <= b then a else b
  }

  /** `Math.ceil(n / 9)`: the fewest pages that hold `n` posts. */
  function PageCount(n: nat): (total: nat)
    ensures total * PostsPerPage >= n
    ensures total == 0 || (total - 1) * PostsPerPage < n
  {
    (n + PostsPerPage - 1) / PostsPerPage
  }

  /** How `Array.prototype.slice` turns an argument into a position of a list of
      length `len`: a negative argument counts back from the end, and the result
      is clamped to the list. */
  function SliceBound(len: nat, x: int): (b: nat)
    ensures b <= len
  {
    if x < 0 then (if len + x < 0 then 0 else len + x)
    else if x < len then x
    else len
  }

  /** `s.slice(start, end)` with JavaScript's treatment of negative and
      out-of-range arguments. */
  function JsSlice<T>(s: seq<T>, start: int, end: int): seq<T> {
    var k := SliceBound(|s|, start);
    var f := SliceBound(|s|, end);
    if k < f then s[k..f] else []
  }

  /** The posts shown on (1-based) page `page`. For any page from 1 on this is the
      plain window of nine positions starting at `(page - 1) * 9`, cut off at the
      end of the list; page 0 shows nothing. */
  function PageSlice<T>(s: seq<T>, page: int): (r: seq<T>)
    ensures |r| <= PostsPerPage
    ensures page >= 1 ==>
      var start := (page - 1) * PostsPerPage;
      r == s[Min(start, |s|)..Min(start + PostsPerPage, |s|)]
    ensures page == 0 ==> r == []
  {
    var start := (page - 1) * PostsPerPage;
    JsSlice(s, start, start + PostsPerPage)
  }

  /** A page from 1 on shows something exactly when it is one of the
      `PageCount` pages. */
  lemma PageSliceNonEmpty<T>(s: seq<T>, page: int)
    requires page >= 1
    ensures |PageSlice(s, page)| > 0 <==> page <= PageCount(|s|)
  {
    var total := PageCount(|s|);
    if page <= total {
      assert (page - 1) * PostsPerPage <= (total - 1) * PostsPerPage;
    } else {
      assert (page - 1) * PostsPerPage >= total * PostsPerPage;
    }
  }

  /** Pages `page` to `last` laid end to end. */
  function PagesFrom<T>(s: seq<T>, page: int, last: int): seq<T>
    requires page >= 1
    decreases last - page + 1
  {
    if page > last then [] else PageSlice(s, page) + PagesFrom(s, page + 1, last)
  }

  /** The pages split the list: laid end to end, pages 1 to `PageCount` give back
      the whole filtered list, so every post is on exactly one page, in order. */
  lemma PagesCoverList<T>(s: seq<T>)
    ensures PagesFrom(s, 1, PageCount(|s|)) == s
  {
    PagesFromSuffix(s, 1);
  }

  lemma {:induction false} PagesFromSuffix<T>(s: seq<T>, page: int)
    requires 1 <= page <= PageCount(|s|) + 1
    ensures PagesFrom(s, page, PageCount(|s|)) == s[Min((page - 1) * PostsPerPage, |s|)..]
    decreases PageCount(|s|) - page + 1
  {
    var total := PageCount(|s|);
    var start := (page - 1) * PostsPerPage;
    if page > total {
      assert start >= total * PostsPerPage;
    } else {
      PagesFromSuffix(s, page + 1);
      assert page * PostsPerPage == start + PostsPerPage;
      assert start <= (total - 1) * PostsPerPage;
      var mid := Min(start + PostsPerPage, |s|);
      assert s[start..] == s[start..mid] + s[mid..];
    }
  }

  /** One control of the pagination row. `Ellipsis(gap)` records which page number
      the "..." stands in for. */
  datatype Control =
    | PrevButton(target: int, disabled: bool)
    | PageButton(number: int, active: bool)
    | Ellipsis(gap: int)
    | NextButton(target: int, disabled: bool)

  /** The page a click on `c` goes to: nothing for an ellipsis or a disabled button. */
  function Target(c: Control): Option<int> {
    match c
    case PrevButton(t, disabled) => if disabled then None else Some(t)
    case PageButton(i, _) => Some(i)
    case Ellipsis(_) => None
    case NextButton(t, disabled) => if disabled then None else Some(t)
  }

  /** The page number a numbered button or an ellipsis stands at. */
  function Slot(c: Control): int {
    match c
    case PageButton(i, _) => i
    case Ellipsis(i) => i
    case _ => 0
  }

  predicate HasButton(cs: seq<Control>, i: int) {
    exists m :: 0 <= m < |cs| && cs[m].PageButton? && cs[m].number == i
  }

  predicate HasEllipsis(cs: seq<Control>, i: int) {
    exists m :: 0 <= m < |cs| && cs[m].Ellipsis? && cs[m].gap == i
  }

  /** The numbered part of the row for page numbers `i` to `total`: a button for
      the first page, the last page and the pages next to the current one; an
      ellipsis two pages away from the current one where there is no button. */
  function PageItems(i: int, total: int, page: int): (r: seq<Control>)
    decreases total - i + 1
    ensures forall m :: 0 <= m < |r| ==> (r[m].PageButton? || r[m].Ellipsis?) && i <= Slot(r[m]) <= total
    ensures forall m, m' :: 0 <= m < m' < |r| ==> Slot(r[m]) < Slot(r[m'])
  {
    if i > total then []
    else
      var here :=
        if i == 1 || i == total || (i >= page - 1 && i <= page + 1) then [PageButton(i, i == page)]
        else if i == page - 2 || i == page + 2 then [Ellipsis(i)]
        else [];
      here + PageItems(i + 1, total, page)
  }

  /** The whole pagination row for `n` filtered posts and current page `page`:
      nothing when the posts fit on one page. */
  function Controls(n: nat, page: int): (cs: seq<Control>)
    ensures PageCount(n) <= 1 <==> cs == []
  {
    var total := PageCount(n);
    if total <= 1 then []
    else [PrevButton(page - 1, page == 1)] + PageItems(1, total, page) + [NextButton(page + 1, page == total)]
  }

  lemma HasButtonConcat(a: seq<Control>, b: seq<Control>, j: int)
    ensures HasButton(a + b, j) <==> HasButton(a, j) || HasButton(b, j)
  {
    var r := a + b;
    if HasButton(a, j) {
      var m :| 0 <= m < |a| && a[m].PageButton? && a[m].number == j;
      assert r[m] == a[m];
    }
    if HasButton(b, j) {
      var m :| 0 <= m < |b| && b[m].PageButton? && b[m].number == j;
      assert r[|a| + m] == b[m];
    }
    if HasButton(r, j) {
      var m :| 0 <= m < |r| && r[m].PageButton? && r[m].number == j;
      if m >= |a| {
        assert b[m - |a|] == r[m];
      } else {
        assert a[m] == r[m];
      }
    }
  }

  lemma HasEllipsisConcat(a: seq<Control>, b: seq<Control>, j: int)
    ensures HasEllipsis(a + b, j) <==> HasEllipsis(a, j) || HasEllipsis(b, j)
  {
    var r := a + b;
    if HasEllipsis(a, j) {
      var m :| 0 <= m < |a| && a[m].Ellipsis? && a[m].gap == j;
      assert r[m] == a[m];
    }
    if HasEllipsis(b, j) {
      var m :| 0 <= m < |b| && b[m].Ellipsis? && b[m].gap == j;
      assert r[|a| + m] == b[m];
    }
    if HasEllipsis(r, j) {
      var m :| 0 <= m < |r| && r[m].Ellipsis? && r[m].gap == j;
      if m >= |a| {
        assert b[m - |a|] == r[m];
      } else {
        assert a[m] == r[m];
      }
    }
  }

  /** The part of the row a single page number `i` contributes. */
  lemma PageItemsStep(i: int, total: int, page: int)
    requires i <= total
    ensures var here := PageItems(i, total, page)[..|PageItems(i, total, page)| - |PageItems(i + 1, total, page)|];
      && PageItems(i, total, page) == here + PageItems(i + 1, total, page)
      && here == if i == 1 || i == total || (i >= page - 1 && i <= page + 1) then [PageButton(i, i == page)]
                 else if i == page - 2 || i == page + 2 then [Ellipsis(i)]
                 else []
  {
  }

  /** Which page numbers between `i` and `total` get a button. */
  lemma {:induction false} PageItemsButtons(i: int, total: int, page: int)
    ensures forall j :: HasButton(PageItems(i, total, page), j) <==>
      i <= j <= total && (j == 1 || j == total || -1 <= j - page <= 1)
    decreases total - i + 1
  {
    if i <= total {
      PageItemsButtons(i + 1, total, page);
      PageItemsStep(i, total, page);
      var rest := PageItems(i + 1, total, page);
      var r := PageItems(i, total, page);
      var here := r[..|r| - |rest|];
      forall j ensures HasButton(r, j) <==> HasButton(here, j) || HasButton(rest, j) {
        HasButtonConcat(here, rest, j);
      }
      forall j ensures HasButton(here, j) <==> j == i && (j == 1 || j == total || -1 <= j - page <= 1) {
        if HasButton(here, j) {
          var m :| 0 <= m < |here| && here[m].PageButton? && here[m].number == j;
        }
        if j == i && (j == 1 || j == total || -1 <= j - page <= 1) {
          assert here[0].number == j;
        }
      }
    } else {
      assert PageItems(i, total, page) == [];
    }
  }

  /** Which page numbers between `i` and `total` get an ellipsis. */
  lemma {:induction false} PageItemsEllipses(i: int, total: int, page: int)
    ensures forall j :: HasEllipsis(PageItems(i, total, page), j) <==>
      i <= j <= total && !(j == 1 || j == total || -1 <= j - page <= 1) && (j - page == 2 || page - j == 2)
    decreases total - i + 1
  {
    if i <= total {
      PageItemsEllipses(i + 1, total, page);
      PageItemsStep(i, total, page);
      var rest := PageItems(i + 1, total, page);
      var r := PageItems(i, total, page);
      var here := r[..|r| - |rest|];
      forall j ensures HasEllipsis(r, j) <==> HasEllipsis(here, j) || HasEllipsis(rest, j) {
        HasEllipsisConcat(here, rest, j);
      }
      forall j ensures HasEllipsis(here, j) <==>
        j == i && !(j == 1 || j == total || -1 <= j - page <= 1) && (j - page == 2 || page - j == 2)
      {
        if HasEllipsis(here, j) {
          var m :| 0 <= m < |here| && here[m].Ellipsis? && here[m].gap == j;
        }
        if j == i && !(j == 1 || j == total || -1 <= j - page <= 1) && (j - page == 2 || page - j == 2) {
          assert here[0].gap == j;
        }
      }
    } else {
      assert PageItems(i, total, page) == [];
    }
  }

  /** Only the button of page `page` is marked active in `cs`. */
  predicate ActiveIsCurrent(cs: seq<Control>, page: int) {
    forall m :: 0 <= m < |cs| && cs[m].PageButton? ==> (cs[m].active <==> cs[m].number == page)
  }

  lemma ActiveIsCurrentConcat(a: seq<Control>, b: seq<Control>, page: int)
    requires ActiveIsCurrent(a, page) && ActiveIsCurrent(b, page)
    ensures ActiveIsCurrent(a + b, page)
  {
    forall m | 0 <= m < |a + b| && (a + b)[m].PageButton?
      ensures ((a + b)[m].active <==> (a + b)[m].number == page)
    {
      if m < |a| {
        assert (a + b)[m] == a[m];
      } else {
        assert (a + b)[m] == b[m - |a|];
      }
    }
  }

  /** Exactly the button of the current page is marked active. */
  lemma {:induction false} PageItemsActive(i: int, total: int, page: int)
    ensures ActiveIsCurrent(PageItems(i, total, page), page)
    decreases total - i + 1
  {
    if i <= total {
      PageItemsActive(i + 1, total, page);
      PageItemsStep(i, total, page);
      var rest := PageItems(i + 1, total, page);
      var r := PageItems(i, total, page);
      var here := r[..|r| - |rest|];
      ActiveIsCurrentConcat(here, rest, page);
    }
  }

  /** The row's contents: which pages have a button (the first, the last, and the
      ones next to the current page), where the ellipses go (two pages away from
      the current one, where there is no button), which button is marked active,
      and when "previous" and "next" are disabled. */
  lemma ControlsContents(n: nat, page: int)
    requires PageCount(n) > 1
    ensures var cs := Controls(n, page); var total := PageCount(n);
      && cs[0] == PrevButton(page - 1, page == 1)
      && cs[|cs| - 1] == NextButton(page + 1, page == total)
      && (forall j :: HasButton(cs, j) <==>
            1 <= j <= total && (j == 1 || j == total || -1 <= j - page <= 1))
      && (forall j :: HasEllipsis(cs, j) <==>
            1 <= j <= total && !(j == 1 || j == total || -1 <= j - page <= 1) && (j - page == 2 || page - j == 2))
      && (forall m :: 0 <= m < |cs| && cs[m].PageButton? ==> (cs[m].active <==> cs[m].number == page))
      && (forall m, m' :: 1 <= m < m' < |cs| - 1 ==> Slot(cs[m]) < Slot(cs[m']))
  {
    var total := PageCount(n);
    var cs := Controls(n, page);
    var items := PageItems(1, total, page);
    PageItemsButtons(1, total, page);
    PageItemsEllipses(1, total, page);
    PageItemsActive(1, total, page);
    assert cs == [PrevButton(page - 1, page == 1)] + items + [NextButton(page + 1, page == total)];
    assert forall m :: 0 <= m < |items| ==> cs[m + 1] == items[m];
    var prev := [PrevButton(page - 1, page == 1)];
    var next := [NextButton(page + 1, page == total)];
    forall j ensures HasButton(cs, j) <==> HasButton(items, j) {
      HasButtonConcat(prev + items, next, j);
      HasButtonConcat(prev, items, j);
    }
    forall j ensures HasEllipsis(cs, j) <==> HasEllipsis(items, j) {
      HasEllipsisConcat(prev + items, next, j);
      HasEllipsisConcat(prev, items, j);
    }
  }

  /** Clicking any enabled control never leaves the valid pages: when the current
      page is one of the `total` pages, every control a click can follow goes to
      a page between 1 and `total`. */
  lemma TargetsInRange(n: nat, page: int)
    requires 1 <= page <= PageCount(n)
    ensures forall c :: c in Controls(n, page) && Target(c).Some? ==> 1 <= Target(c).value <= PageCount(n)
  {
    var total := PageCount(n);
    if total > 1 {
      var cs := Controls(n, page);
      var items := PageItems(1, total, page);
      assert cs == [PrevButton(page - 1, page == 1)] + items + [NextButton(page + 1, page == total)];
      forall c | c in cs && Target(c).Some? ensures 1 <= Target(c).value <= total {
        if c in items {
          var m :| 0 <= m < |items| && items[m] == c;
        }
      }
    }
  }

  /** At most two ellipses and five numbered buttons fit between `i` and `total`:
      the count of numbered items is bounded by what is left of the first page,
      the last page, and the five-page window around the current page. */
  lemma {:induction false} PageItemsBound(i: int, total: int, page: int)
    requires i >= 1
    ensures |PageItems(i, total, page)| <=
      (if i <= 1 then 1 else 0) + (if i <= total then 1 else 0) +
      (if page + 2 >= i && page + 2 >= page - 2 then page + 2 - (if i > page - 2 then i else page - 2) + 1 else 0)
    decreases total - i + 1
  {
    if i <= total {
      PageItemsBound(i + 1, total, page);
    }
  }

  /** However many pages there are, the row never holds more than nine controls. */
  lemma ControlsAtMostNine(n: nat, page: int)
    ensures |Controls(n, page)| <= 9
  {
    var total := PageCount(n);
    if total > 1 {
      PageItemsBound(1, total, page);
    }
  }

  /** Ten posts make two pages: the rows drawn on page 1 and on page 2. */
  lemma TwoPageRows()
    ensures Controls(10, 1) == [PrevButton(0, true), PageButton(1, true), PageButton(2, false), NextButton(2, false)]
    ensures Controls(10, 2) == [PrevButton(1, false), PageButton(1, false), PageButton(2, true), NextButton(3, true)]
  {
    assert PageCount(10) == 2;
    assert PageItems(1, 2, 1) == [PageButton(1, true), PageButton(2, false)] by {
      assert PageItems(3, 2, 1) == [];
      assert PageItems(2, 2, 1) == [PageButton(2, false)];
    }
    assert PageItems(1, 2, 2) == [PageButton(1, false), PageButton(2, true)] by {
      assert PageItems(3, 2, 2) == [];
      assert PageItems(2, 2, 2) == [PageButton(2, true)];
    }
  }
}
