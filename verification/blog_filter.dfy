/** The listing's filter: a category and a free-text search applied to the
    local and Naver posts, recomputed from those full lists every time. */
module BlogFilter {
  import opened Seqs
  import opened JsText
  import opened Posts

  /** The category key of the "show everything" button. */
  const AllCategories: string := "all"

  function InCategory(category: string): Post -> bool {
    (p: Post) => p.category == category
  }

  /** Whether a post's title or excerpt contains `term`, which the caller has
      already lower-cased. An absent excerpt never matches. */
  predicate MatchesTerm(p: Post, term: string) {
    || Includes(Lower(p.title), term)
    || (p.excerpt.Some? && Includes(Lower(p.excerpt.value), term))
  }

  function MatchesSearch(term: string): Post -> bool {
    (p: Post) => MatchesTerm(p, term)
  }

  /** `query` is a piece of `text` when case is ignored. */
  ghost predicate ContainsIgnoringCase(text: string, query: string) {
    exists i :: OccursAt(Lower(text), Lower(query), i)
  }

  /** Which posts the page promises to list for a category and a search query:
      those of that category (any category for "all") whose title or excerpt
      contains the query, ignoring case (every post for an empty query). */
  ghost predicate Selected(p: Post, category: string, query: string) {
    && (category == AllCategories || p.category == category)
    && (|| query == ""
        || ContainsIgnoringCase(p.title, query)
        || (p.excerpt.Some? && ContainsIgnoringCase(p.excerpt.value, query)))
  }

  ghost function SelectedBy(category: string, query: string): Post -> bool {
    (p: Post) => Selected(p, category, query)
  }

  /** The filter as one test: the category test unless the category is "all",
      and the search test unless the query is empty. */
  function Passes(category: string, query: string): Post -> bool {
    (p: Post) =>
      && (category == AllCategories || p.category == category)
      && (query == "" || MatchesTerm(p, Lower(query)))
  }

  /** The filter keeps exactly the posts the page promises to list. */
  lemma PassesIffSelected(category: string, query: string)
    ensures forall p :: Passes(category, query)(p) <==> Selected(p, category, query)
  {
  }

  /** The two filter stages, category first and search second, applied to the
      concatenated lists. */
  function Narrow(all: seq<Post>, category: string, query: string): (found: seq<Post>)
    ensures found == Keep(all, Passes(category, query))
  {
    var byCat := if category != AllCategories then InCategory(category) else (p: Post) => true;
    var bySearch := if query != "" then MatchesSearch(Lower(query)) else (p: Post) => true;
    var byCategory := if category != AllCategories then Keep(all, InCategory(category)) else all;
    var found := if query != "" then Keep(byCategory, MatchesSearch(Lower(query))) else byCategory;
    assert byCategory == Keep(all, byCat) by {
      if category == AllCategories {
        KeepEverything(all, byCat);
      }
    }
    assert found == Keep(byCategory, bySearch) by {
      if query == "" {
        KeepEverything(byCategory, bySearch);
      }
    }
    KeepTwice(all, byCat, bySearch, Passes(category, query));
    found
  }

  /** The filtered list: the local and Naver posts narrowed to a category unless it
      is "all", then to the search query unless it is empty, newest first. */
  function FilterPosts(posts: seq<Post>, naverPosts: seq<Post>, category: string, query: string): (r: seq<Post>)
    ensures NewestFirst(r)
    ensures forall x :: multiset(r)[x] == if Selected(x, category, query) then multiset(posts + naverPosts)[x] else 0
    ensures forall i :: 0 <= i < |r| ==> Selected(r[i], category, query)
    ensures category != AllCategories ==> forall i :: 0 <= i < |r| ==> r[i].category == category
    ensures category == AllCategories && query == "" ==> multiset(r) == multiset(posts) + multiset(naverPosts)
    ensures |r| <= |posts| + |naverPosts|
  {
    var found := Narrow(posts + naverPosts, category, query);
    var r := SortNewestFirst(found);
    KeepCounts(posts + naverPosts, Passes(category, query));
    PassesIffSelected(category, query);
    assert forall i :: 0 <= i < |r| ==> Selected(r[i], category, query) by {
      forall i | 0 <= i < |r| ensures Selected(r[i], category, query) {
        assert multiset(r)[r[i]] > 0;
      }
    }
    assert category == AllCategories && query == "" ==> multiset(r) == multiset(posts + naverPosts);
    r
  }

  /** The filtered list is the newest-first list of all posts with the posts the
      filter rejects taken out: in particular it keeps the all-posts order. */
  lemma FilterIsKeepOfCombined(posts: seq<Post>, naverPosts: seq<Post>, category: string, query: string)
    ensures FilterPosts(posts, naverPosts, category, query)
         == Keep(CombinePosts(posts, naverPosts), SelectedBy(category, query))
  {
    var all := posts + naverPosts;
    PassesIffSelected(category, query);
    KeepSortCommute(all, Passes(category, query));
    KeepSame(CombinePosts(posts, naverPosts), Passes(category, query), SelectedBy(category, query));
  }

  /** The search is case-insensitive in its query: queries that agree after
      lower-casing select the same posts. */
  lemma FilterIgnoresQueryCase(posts: seq<Post>, naverPosts: seq<Post>, category: string, q1: string, q2: string)
    requires Lower(q1) == Lower(q2)
    ensures FilterPosts(posts, naverPosts, category, q1) == FilterPosts(posts, naverPosts, category, q2)
  {
    assert |q1| == |q2|;
  }
}
