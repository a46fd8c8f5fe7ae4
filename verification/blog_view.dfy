/** The blog listing page as a state machine: the loaded lists, the filtered
    list derived from them, the view fields (page, category, search query), the
    user actions as transitions, and the screen each state renders. */
module BlogView {
  import opened Options
  import opened JsText
  import opened Posts
  import opened BlogFilter
  import opened Pagination
  import opened PostCard

  datatype ViewState = ViewState(currentPage: int, currentCategory: string, searchQuery: string)

  /** The page's state. `filteredPosts` is derived data: the list the grid and the
      pagination are drawn from. */
  datatype Blog = Blog(
    posts: seq<Post>,
    naverPosts: seq<Post>,
    filteredPosts: seq<Post>,
    view: ViewState)

  const InitialView: ViewState := ViewState(1, AllCategories, "")

  /** The last page worth showing: page 1 even when there are no posts. */
  function LastPage(n: nat): nat {
    if PageCount(n) < 1 then 1 else PageCount(n)
  }

  /** A state the page can be in: the filtered list is the filter of the full lists
      by the current category and query, and the current page is one of its pages. */
  predicate Consistent(b: Blog) {
    && b.filteredPosts == FilterPosts(b.posts, b.naverPosts, b.view.currentCategory, b.view.searchQuery)
    && 1 <= b.view.currentPage <= LastPage(|b.filteredPosts|)
  }

  /** Page start-up: the local posts are loaded (the Naver feed is switched off, so
      that list stays empty) and shown newest first, unfiltered, on page 1. */
  function InitBlog(response: Option<seq<LocalRecord>>): (b: Blog)
    ensures b.posts == LoadLocal(response) && b.naverPosts == []
    ensures b.view == InitialView
    ensures multiset(b.filteredPosts) == multiset(b.posts)
    ensures Consistent(b)
  {
    var posts := LoadLocal(response);
    var b := Blog(posts, [], CombinePosts(posts, []), InitialView);
    assert FilterPosts(posts, [], AllCategories, "") == CombinePosts(posts, []) by {
      FilterIsKeepOfCombined(posts, [], AllCategories, "");
      Seqs.KeepEverything(CombinePosts(posts, []), SelectedBy(AllCategories, ""));
    }
    b
  }

  /** The state after a filter change: the lists stay, the filtered list is
      recomputed from them and the page goes back to 1. */
  function Refilter(b: Blog, category: string, query: string): (r: Blog)
    ensures r.posts == b.posts && r.naverPosts == b.naverPosts
    ensures r.view == ViewState(1, category, query)
    ensures r.filteredPosts == FilterPosts(b.posts, b.naverPosts, category, query)
    ensures Consistent(r)
  {
    var filtered := FilterPosts(b.posts, b.naverPosts, category, query);
    assert 1 <= LastPage(|filtered|);
    Blog(b.posts, b.naverPosts, filtered, ViewState(1, category, query))
  }

  /** A click on a category button: the category changes, the search query stays,
      the list is filtered afresh from the full lists and the page goes back to 1. */
  function SelectCategory(b: Blog, category: string): (r: Blog)
    ensures r.view.currentCategory == category
    ensures r.view.searchQuery == b.view.searchQuery && r.view.currentPage == 1
    ensures r.posts == b.posts && r.naverPosts == b.naverPosts
    ensures Consistent(r)
  {
    Refilter(b, category, b.view.searchQuery)
  }

  /** A search (Enter, the search button, or a pause in typing): the query becomes the
      trimmed content of the search box (empty when there is no box), the category
      stays, the list is filtered afresh and the page goes back to 1. */
  function Search(b: Blog, input: Option<string>): (r: Blog)
    ensures r.view.searchQuery == if input.Some? then Trim(input.value) else ""
    ensures r.view.currentCategory == b.view.currentCategory && r.view.currentPage == 1
    ensures r.posts == b.posts && r.naverPosts == b.naverPosts
    ensures Consistent(r)
  {
    var query := if input.Some? then Trim(input.value) else "";
    Refilter(b, b.view.currentCategory, query)
  }

  /** A click on a pagination control: an enabled one sets the current page to its
      target; an ellipsis or a disabled button does nothing. The lists stay as they are. */
  function PressControl(b: Blog, c: Control): (r: Blog)
    ensures Target(c).None? ==> r == b
    ensures Target(c).Some? ==> r == b.(view := b.view.(currentPage := Target(c).value))
  {
    match Target(c)
    case None => b
    case Some(page) => b.(view := b.view.(currentPage := page))
  }

  /** The filtered list is recomputed from the full lists on every change: the
      previous filtered list (and the page number) play no part in the result. */
  lemma FilterIgnoresPreviousList(b1: Blog, b2: Blog, category: string, input: Option<string>)
    requires b1.posts == b2.posts && b1.naverPosts == b2.naverPosts
    requires b1.view.currentCategory == b2.view.currentCategory
    requires b1.view.searchQuery == b2.view.searchQuery
    ensures SelectCategory(b1, category) == SelectCategory(b2, category)
    ensures Search(b1, input) == Search(b2, input)
  {
  }

  /** Choosing the same category again, or searching again with the same box
      content, changes nothing. */
  lemma RepeatedFilterIsIdempotent(b: Blog, category: string, input: Option<string>)
    ensures SelectCategory(SelectCategory(b, category), category) == SelectCategory(b, category)
    ensures Search(Search(b, input), input) == Search(b, input)
  {
  }

  /** What the grid area shows: the empty-state message (and no pagination), or the
      cards of the current page with the pagination row. */
  datatype Screen = EmptyState | Listing(cards: seq<Card>, controls: seq<Control>)

  function Render(b: Blog): (s: Screen)
    ensures s.EmptyState? <==> PageSlice(b.filteredPosts, b.view.currentPage) == []
    ensures s.Listing? ==> 1 <= |s.cards| <= PostsPerPage
    ensures s.Listing? ==> |s.cards| == |PageSlice(b.filteredPosts, b.view.currentPage)|
    ensures s.Listing? ==> forall i :: 0 <= i < |s.cards| ==>
      s.cards[i] == CreateCard(PageSlice(b.filteredPosts, b.view.currentPage)[i])
    ensures s.Listing? ==> s.controls == Controls(|b.filteredPosts|, b.view.currentPage)
  {
    var shown := PageSlice(b.filteredPosts, b.view.currentPage);
    if |shown| == 0 then EmptyState
    else Listing(seq(|shown|, i requires 0 <= i < |shown| => CreateCard(shown[i])),
                 Controls(|b.filteredPosts|, b.view.currentPage))
  }

  /** The controls a user can click on the current screen. */
  function VisibleControls(b: Blog): seq<Control> {
    match Render(b)
    case EmptyState => []
    case Listing(_, controls) => controls
  }

  /** The user actions, as the event handlers dispatch them. */
  datatype Action =
    | ChooseCategory(category: string)
    | SubmitSearch(input: Option<string>)
    | Press(control: Control)

  /** An action the current screen offers: a pressed control must be on screen. */
  predicate Offered(b: Blog, a: Action) {
    a.Press? ==> a.control in VisibleControls(b)
  }

  /** The blog after one user action. No action touches the loaded lists; choosing
      a category or searching goes back to page 1 with a freshly filtered list and
      keeps the other filter; pressing a control only moves between pages. */
  function Step(b: Blog, a: Action): (r: Blog)
    ensures r.posts == b.posts && r.naverPosts == b.naverPosts
    ensures !a.Press? ==> r.view.currentPage == 1 && Consistent(r)
    ensures !a.Press? ==>
      r.filteredPosts == FilterPosts(b.posts, b.naverPosts, r.view.currentCategory, r.view.searchQuery)
    ensures a.ChooseCategory? ==> r.view.currentCategory == a.category && r.view.searchQuery == b.view.searchQuery
    ensures a.SubmitSearch? ==> r.view.currentCategory == b.view.currentCategory
    ensures a.SubmitSearch? ==> r.view.searchQuery == if a.input.Some? then Trim(a.input.value) else ""
    ensures a.Press? ==>
      r.view.currentPage == if Target(a.control).Some? then Target(a.control).value else b.view.currentPage
    ensures a.Press? ==> r.filteredPosts == b.filteredPosts
    ensures a.Press? ==> r.view.currentCategory == b.view.currentCategory && r.view.searchQuery == b.view.searchQuery
  {
    match a
    case ChooseCategory(c) => SelectCategory(b, c)
    case SubmitSearch(input) => Search(b, input)
    case Press(c) => PressControl(b, c)
  }

  /** Every action the screen offers leads to a consistent state again: the page
      number never leaves the filtered list's pages, so the empty-state message
      appears only when nothing matches. */
  lemma StepKeepsConsistent(b: Blog, a: Action)
    requires Consistent(b) && Offered(b, a)
    ensures Consistent(Step(b, a))
  {
    if a.Press? && Target(a.control).Some? {
      var n := |b.filteredPosts|;
      var page := b.view.currentPage;
      assert Render(b).Listing?;
      assert a.control in Controls(n, page);
      PageSliceNonEmpty(b.filteredPosts, page);
      TargetsInRange(n, page);
      assert 1 <= Target(a.control).value <= LastPage(n);
    }
  }

  /** In a consistent state the grid shows the empty-state message exactly when no
      post passes the filter; otherwise it shows between one and nine cards, and a
      pagination row whenever more than one page is needed. */
  lemma ConsistentRender(b: Blog)
    requires Consistent(b)
    ensures Render(b).EmptyState? <==> b.filteredPosts == []
    ensures Render(b).Listing? ==> (Render(b).controls == [] <==> |b.filteredPosts| <= PostsPerPage)
  {
    PageSliceNonEmpty(b.filteredPosts, b.view.currentPage);
  }

  /** A failed load of `posts.json` is no error: the page shows the empty-state
      message and no pagination. */
  lemma FailedLoadShowsEmptyState()
    ensures Render(InitBlog(None)) == EmptyState
  {
    ConsistentRender(InitBlog(None));
  }

  /** Ten local posts and no filter: page 1 shows nine cards with pages 1 and 2
      offered, and "previous" disabled. */
  lemma TenPostsFirstPage(records: seq<LocalRecord>)
    requires |records| == 10
    ensures Render(InitBlog(Some(records))).Listing?
    ensures |Render(InitBlog(Some(records))).cards| == 9
    ensures Render(InitBlog(Some(records))).controls
         == [PrevButton(0, true), PageButton(1, true), PageButton(2, false), NextButton(2, false)]
  {
    TenPostsFiltered(records);
    TenPostsScreens(InitBlog(Some(records)));
  }

  /** ... and "next" leads to page 2, which shows the tenth post, with "next" disabled. */
  lemma TenPostsSecondPage(records: seq<LocalRecord>)
    requires |records| == 10
    ensures var b1 := Step(InitBlog(Some(records)), Press(NextButton(2, false)));
      && Render(b1).Listing?
      && |Render(b1).cards| == 1
      && Render(b1).controls == [PrevButton(1, false), PageButton(1, false), PageButton(2, true), NextButton(3, true)]
  {
    var b0 := InitBlog(Some(records));
    TenPostsFiltered(records);
    PressGoesToTarget(b0, NextButton(2, false));
    TenPostsScreens(b0.(view := b0.view.(currentPage := 2)));
  }

  /** Pressing an enabled control changes the page number and nothing else. */
  lemma PressGoesToTarget(b: Blog, c: Control)
    requires Target(c).Some?
    ensures Step(b, Press(c)) == b.(view := b.view.(currentPage := Target(c).value))
  {
  }

  lemma TenPostsFiltered(records: seq<LocalRecord>)
    requires |records| == 10
    ensures |InitBlog(Some(records)).filteredPosts| == 10
    ensures InitBlog(Some(records)).view.currentPage == 1
  {
    var b0 := InitBlog(Some(records));
    assert |multiset(b0.filteredPosts)| == |multiset(b0.posts)|;
  }

  /** The two screens of a ten-post filtered list. */
  lemma TenPostsScreens(b: Blog)
    requires |b.filteredPosts| == 10
    ensures b.view.currentPage == 1 ==>
      && Render(b).Listing? && |Render(b).cards| == 9
      && Render(b).controls == [PrevButton(0, true), PageButton(1, true), PageButton(2, false), NextButton(2, false)]
    ensures b.view.currentPage == 2 ==>
      && Render(b).Listing? && |Render(b).cards| == 1
      && Render(b).controls == [PrevButton(1, false), PageButton(1, false), PageButton(2, true), NextButton(3, true)]
  {
    TwoPageRows();
    TenPostsSlices(b.filteredPosts);
  }

  lemma TenPostsSlices(f: seq<Post>)
    requires |f| == 10
    ensures |PageSlice(f, 1)| == 9 && |PageSlice(f, 2)| == 1
  {
  }
}
