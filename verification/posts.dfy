/** Blog posts as the listing page holds them, how the local list is loaded,
    and the newest-first ordering that every list shown on the page follows. */
module Posts {
  import opened Options
  import opened Seqs

  /** Where a post comes from: the site's own `posts.json` or the Naver blog feed. */
  datatype Source = Original | Naver

  /** A post. `date` is the ordering key the page derives from the post's calendar
      date (larger is newer). */
  datatype Post = Post(
    title: string,
    excerpt: Option<string>,
    category: string,
    date: int,
    source: Source,
    url: string,
    thumbnail: Option<string>)

  /** A record of `posts.json` before the page decorates it. */
  datatype LocalRecord = LocalRecord(
    file: string,
    title: string,
    excerpt: Option<string>,
    category: string,
    date: int,
    thumbnail: Option<string>)

  /** A local record marked as an original post that links to its page under `posts/`. */
  function FromLocal(rec: LocalRecord): (p: Post)
    ensures p.source == Original
    ensures p.url == "posts/" + rec.file
    ensures p.title == rec.title && p.excerpt == rec.excerpt && p.category == rec.category
    ensures p.date == rec.date && p.thumbnail == rec.thumbnail
  {
    Post(rec.title, rec.excerpt, rec.category, rec.date, Original, "posts/" + rec.file, rec.thumbnail)
  }

  /** Loading `posts.json`: `response` is the parsed list, or `None` when the fetch or
      the parse failed, in which case the page carries on with no local posts. */
  function LoadLocal(response: Option<seq<LocalRecord>>): (posts: seq<Post>)
    ensures response.None? ==> posts == []
    ensures response.Some? ==> |posts| == |response.value|
    ensures forall i :: 0 <= i < |posts| ==> response.Some? && posts[i] == FromLocal(response.value[i])
  {
    match response
    case None => []
    case Some(records) => seq(|records|, i requires 0 <= i < |records| => FromLocal(records[i]))
  }

  /** Every post loaded from `posts.json` is an original post. */
  lemma LoadedPostsAreOriginal(response: Option<seq<LocalRecord>>)
    ensures forall p :: p in LoadLocal(response) ==> p.source == Original
  {
    var posts := LoadLocal(response);
    forall p | p in posts ensures p.source == Original {
      var i :| 0 <= i < |posts| && posts[i] == p;
    }
  }

  /** Newest first: no post is older than one after it. */
  predicate NewestFirst(s: seq<Post>) {
    forall i, j :: 0 <= i < j < |s| ==> s[i].date >= s[j].date
  }

  /** Places `x` in front of the first post that is not newer than it. */
  function Insert(x: Post, s: seq<Post>): (r: seq<Post>)
    ensures multiset(r) == multiset(s) + multiset{x}
    ensures |r| == |s| + 1
    ensures NewestFirst(s) ==> NewestFirst(r)
  {
    if |s| == 0 || x.date >= s[0].date then
      [x] + s
    else
      assert s == [s[0]] + s[1..];
      var rest := Insert(x, s[1..]);
      assert NewestFirst(s) ==> NewestFirst([s[0]] + rest) by {
        if NewestFirst(s) {
          InsertBehind(x, s, rest);
        }
      }
      [s[0]] + rest
  }

  /** Putting the first post of an ordered list in front of the ordered insertion
      of an older post into the rest keeps the list ordered. */
  lemma InsertBehind(x: Post, s: seq<Post>, rest: seq<Post>)
    requires NewestFirst(s) && |s| > 0 && x.date < s[0].date
    requires multiset(rest) == multiset(s[1..]) + multiset{x}
    requires NewestFirst(rest)
    ensures NewestFirst([s[0]] + rest)
  {
    var r := [s[0]] + rest;
    forall j | 1 <= j < |r| ensures r[0].date >= r[j].date {
      assert r[j] == rest[j - 1];
      assert r[j] in multiset(rest);
      if r[j] != x {
        assert r[j] in multiset(s[1..]);
        var m :| 0 <= m < |s[1..]| && s[1..][m] == r[j];
        assert s[m + 1] == r[j];
      }
    }
  }

  /** The ordering `Array.prototype.sort` gives with the comparator
      "newer date first": a stable sort, so posts with the same date keep the
      order they had. */
  function SortNewestFirst(s: seq<Post>): (r: seq<Post>)
    ensures multiset(r) == multiset(s)
    ensures |r| == |s|
    ensures NewestFirst(r)
  {
    if |s| == 0 then []
    else
      assert s == [s[0]] + s[1..];
      Insert(s[0], SortNewestFirst(s[1..]))
  }

  /** The initial list: the local posts followed by the Naver posts, newest first. */
  function CombinePosts(posts: seq<Post>, naverPosts: seq<Post>): (r: seq<Post>)
    ensures multiset(r) == multiset(posts) + multiset(naverPosts)
    ensures NewestFirst(r)
  {
    SortNewestFirst(posts + naverPosts)
  }

  /** Filtering an ordered list keeps it ordered. */
  lemma {:induction false} KeepNewestFirst(s: seq<Post>, p: Post -> bool)
    requires NewestFirst(s)
    ensures NewestFirst(Keep(s, p))
  {
    if |s| > 0 {
      KeepNewestFirst(s[1..], p);
      KeepCounts(s[1..], p);
      var rest := Keep(s[1..], p);
      forall y | y in rest ensures s[0].date >= y.date {
        assert multiset(rest)[y] > 0;
        assert y in s[1..];
      }
    }
  }

  /** Inserting and then filtering is filtering and then inserting (if `x` survives). */
  lemma {:induction false} KeepInsert(x: Post, s: seq<Post>, p: Post -> bool)
    requires NewestFirst(s)
    ensures Keep(Insert(x, s), p) == if p(x) then Insert(x, Keep(s, p)) else Keep(s, p)
    decreases |s|, 1
  {
    if |s| == 0 || x.date >= s[0].date {
      KeepInsertFront(x, s, p);
    } else {
      KeepInsertBehind(x, s, p);
    }
  }

  /** `KeepInsert` when `x` goes in front of the whole list. */
  lemma KeepInsertFront(x: Post, s: seq<Post>, p: Post -> bool)
    requires NewestFirst(s)
    requires |s| == 0 || x.date >= s[0].date
    ensures Keep(Insert(x, s), p) == if p(x) then Insert(x, Keep(s, p)) else Keep(s, p)
  {
    assert Insert(x, s) == [x] + s;
    KeepCons(x, s, p);
    var k := Keep(s, p);
    if p(x) && |k| > 0 {
      KeepHeadNotNewer(s, p);
      assert Insert(x, k) == [x] + k;
    }
  }

  /** `KeepInsert` when `x` goes behind the list's first post. */
  lemma {:induction false} KeepInsertBehind(x: Post, s: seq<Post>, p: Post -> bool)
    requires NewestFirst(s)
    requires |s| > 0 && x.date < s[0].date
    ensures Keep(Insert(x, s), p) == if p(x) then Insert(x, Keep(s, p)) else Keep(s, p)
    decreases |s|, 0
  {
    var t := s[1..];
    var it := Insert(x, t);
    var kt := Keep(t, p);
    var ps: seq<Post> := if p(s[0]) then [s[0]] else [];
    assert Keep(Insert(x, s), p) == ps + Keep(it, p) by {
      assert Insert(x, s) == [s[0]] + it;
      KeepCons(s[0], it, p);
    }
    assert Keep(s, p) == ps + kt by {
      assert s == [s[0]] + t;
      KeepCons(s[0], t, p);
    }
    assert Keep(it, p) == if p(x) then Insert(x, kt) else kt by {
      assert NewestFirst(t);
      KeepInsert(x, t, p);
    }
    if !p(x) {
      assert Keep(Insert(x, s), p) == Keep(s, p);
    } else if p(s[0]) {
      assert Keep(Insert(x, s), p) == Insert(x, Keep(s, p)) by {
        KeepInsertBehindBothKept(x, s[0], kt);
      }
    } else {
      assert ps == [];
      assert ps + Keep(it, p) == Keep(it, p);
      assert ps + kt == kt;
      assert Keep(Insert(x, s), p) == Insert(x, Keep(s, p));
    }
  }

  /** Inserting `x` behind a newer head `y` is inserting it into the tail. */
  lemma KeepInsertBehindBothKept(x: Post, y: Post, k: seq<Post>)
    requires x.date < y.date
    ensures Insert(x, [y] + k) == [y] + Insert(x, k)
  {
    assert ([y] + k)[0] == y;
    assert ([y] + k)[1..] == k;
  }

  /** The first post kept from an ordered list is no newer than the list's first post. */
  lemma KeepHeadNotNewer(s: seq<Post>, p: Post -> bool)
    requires NewestFirst(s)
    requires |Keep(s, p)| > 0
    ensures |s| > 0 && Keep(s, p)[0].date <= s[0].date
  {
    var k := Keep(s, p);
    KeepCounts(s, p);
    assert multiset(k)[k[0]] > 0;
    assert k[0] in multiset(s);
    assert k[0] in s;
  }

  /** Sorting commutes with filtering: filtering the sorted list gives the same
      list as sorting the filtered one. */
  lemma {:induction false} KeepSortCommute(s: seq<Post>, p: Post -> bool)
    ensures Keep(SortNewestFirst(s), p) == SortNewestFirst(Keep(s, p))
  {
    if |s| > 0 {
      var t := s[1..];
      assert s == [s[0]] + t;
      KeepSortCommute(t, p);
      var st := SortNewestFirst(t);
      assert SortNewestFirst(s) == Insert(s[0], st);
      KeepInsert(s[0], st, p);
      KeepCons(s[0], t, p);
      var kt := Keep(t, p);
      if p(s[0]) {
        assert ([s[0]] + kt)[0] == s[0];
        assert ([s[0]] + kt)[1..] == kt;
        assert SortNewestFirst([s[0]] + kt) == Insert(s[0], SortNewestFirst(kt));
      } else {
        assert Keep(s, p) == kt;
      }
    }
  }

  /** Sorting posts that all share one date leaves them where they are. */
  lemma {:induction false} SortSameDate(s: seq<Post>, d: int)
    requires forall i :: 0 <= i < |s| ==> s[i].date == d
    ensures SortNewestFirst(s) == s
  {
    if |s| > 0 {
      SortSameDate(s[1..], d);
      assert s == [s[0]] + s[1..];
    }
  }

  function HasDate(d: int): Post -> bool {
    (p: Post) => p.date == d
  }

  /** The sort is stable: the posts of any one date appear in the output in the
      order they had in the input. */
  lemma SortIsStable(s: seq<Post>, d: int)
    ensures Keep(SortNewestFirst(s), HasDate(d)) == Keep(s, HasDate(d))
  {
    KeepSortCommute(s, HasDate(d));
    SortSameDate(Keep(s, HasDate(d)), d);
  }
}
