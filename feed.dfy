/**
 * The read-only queries of index.js: the home page's trending list and main feed,
 * the category listing and the category detail page.
 *
 * The store sorts by `createdAt` and leaves the order of equal timestamps to itself.
 * The lemmas below therefore take the store's answer to a sorted query as a parameter
 * constrained only by `RecencyOrder`; `SortNewest` is one such answer (a stable one),
 * used to give the query functions a definite value.
 */
module Feed {
  import opened Common
  import opened Content

  /** `.limit(5)` of the trending query. */
  const TrendingLimit: nat := 5

  predicate NewestFirst(s: seq<NewsItem>)
  {
    forall i, j :: 0 <= i < j < |s| ==> s[i].createdAt >= s[j].createdAt
  }

  /** `ranked` is an admissible answer of the store to `.sort({ createdAt: -1 })` over `news`. */
  predicate RecencyOrder(news: seq<NewsItem>, ranked: seq<NewsItem>)
  {
    NewestFirst(ranked) && multiset(ranked) == multiset(news)
  }

  /** Putting a record in front of a newest-first list that holds nothing more recent keeps it newest first. */
  lemma ConsNewestFirst(h: NewsItem, tail: seq<NewsItem>)
    requires NewestFirst(tail)
    requires forall y :: y in tail ==> h.createdAt >= y.createdAt
    ensures NewestFirst([h] + tail)
  {
    forall i, j | 0 <= i < j < |[h] + tail| ensures ([h] + tail)[i].createdAt >= ([h] + tail)[j].createdAt {
      assert ([h] + tail)[j] == tail[j - 1];
      if i > 0 {
        assert ([h] + tail)[i] == tail[i - 1];
      }
    }
  }

  /** Whatever holds the records of a newest-first list's tail, and an older record, holds nothing newer than its head. */
  lemma HeadNotOlder(s: seq<NewsItem>, x: NewsItem, tail: seq<NewsItem>)
    requires NewestFirst(s) && s != [] && x.createdAt < s[0].createdAt
    requires multiset(tail) == multiset(s[1..]) + multiset{x}
    ensures forall y :: y in tail ==> s[0].createdAt >= y.createdAt
  {
    forall y | y in tail ensures s[0].createdAt >= y.createdAt {
      assert y in multiset(tail);
      if y != x {
        var j :| 0 <= j < |s[1..]| && s[1..][j] == y;
        assert s[j + 1] == y;
      }
    }
  }

  function Insert(x: NewsItem, s: seq<NewsItem>): (r: seq<NewsItem>)
    requires NewestFirst(s)
    ensures NewestFirst(r)
    ensures multiset(r) == multiset(s) + multiset{x}
  {
    if s == [] || s[0].createdAt <= x.createdAt then
      ConsNewestFirst(x, s);
      [x] + s
    else
      var tail := Insert(x, s[1..]);
      HeadNotOlder(s, x, tail);
      ConsNewestFirst(s[0], tail);
      assert s == [s[0]] + s[1..];
      [s[0]] + tail
  }

  /** A stable newest-first insertion sort. */
  function SortNewest(s: seq<NewsItem>): (r: seq<NewsItem>)
    ensures RecencyOrder(s, r)
  {
    if s == [] then []
    else
      assert s == [s[0]] + s[1..];
      Insert(s[0], SortNewest(s[1..]))
  }

  /** `.limit(k)`. */
  function Take(s: seq<NewsItem>, k: nat): (r: seq<NewsItem>)
    ensures |r| == Min(k, |s|)
    ensures forall i :: 0 <= i < |r| ==> r[i] == s[i]
  {
    s[..Min(k, |s|)]
  }

  /** `trendingNews.map(n => n._id)`, as a set. */
  function IdSet(s: seq<NewsItem>): (ids: set<nat>)
    ensures forall i :: 0 <= i < |s| ==> s[i].id in ids
    ensures forall id :: id in ids ==> exists i :: 0 <= i < |s| && s[i].id == id
  {
    set n | n in s :: n.id
  }

  /** `News.find({ _id: { $nin: ids } })`: the news whose id is not listed, in store order. */
  function ExcludeIds(news: seq<NewsItem>, ids: set<nat>): (r: seq<NewsItem>)
    ensures forall i :: 0 <= i < |r| ==> r[i].id !in ids
    ensures forall n :: multiset(r)[n] == if n.id in ids then 0 else multiset(news)[n]
  {
    if news == [] then []
    else
      assert news == [news[0]] + news[1..];
      (if news[0].id in ids then [] else [news[0]]) + ExcludeIds(news[1..], ids)
  }

  /** With distinct ids no record occurs twice. */
  lemma {:induction false} UniqueIdsOccurOnce(news: seq<NewsItem>, n: NewsItem)
    requires UniqueIds(news)
    ensures multiset(news)[n] <= 1
  {
    if news != [] {
      assert news == [news[0]] + news[1..];
      assert UniqueIds(news[1..]) by {
        forall i, j | 0 <= i < j < |news[1..]| ensures news[1..][i].id != news[1..][j].id {
          assert news[1..][i] == news[i + 1] && news[1..][j] == news[j + 1];
        }
      }
      UniqueIdsOccurOnce(news[1..], n);
      if news[0] == n {
        assert n !in news[1..] by {
          forall i | 0 <= i < |news[1..]| ensures news[1..][i] != n {
            assert news[1..][i] == news[i + 1];
          }
        }
      }
    }
  }

  /** The first `k` records of a newest-first arrangement are at least as recent as every later one. */
  lemma PrefixDominates(ranked: seq<NewsItem>, k: nat, x: NewsItem, y: NewsItem)
    requires NewestFirst(ranked) && k <= |ranked|
    requires x in ranked[..k] && y in ranked && y !in ranked[..k]
    ensures x.createdAt >= y.createdAt
  {
  }

  /**
   * The trending query over any admissible arrangement: `min(5, |news|)` records, newest
   * first, drawn from `news`, and none of the records left out is more recent.
   */
  lemma TrendingOf(news: seq<NewsItem>, ranked: seq<NewsItem>)
    requires RecencyOrder(news, ranked)
    ensures |Take(ranked, TrendingLimit)| == Min(TrendingLimit, |news|)
    ensures NewestFirst(Take(ranked, TrendingLimit))
    ensures multiset(Take(ranked, TrendingLimit)) <= multiset(news)
    ensures forall x, y :: x in Take(ranked, TrendingLimit) && y in news && y !in Take(ranked, TrendingLimit) ==>
              x.createdAt >= y.createdAt
  {
    var k := Min(TrendingLimit, |ranked|);
    var t := Take(ranked, TrendingLimit);
    assert |multiset(ranked)| == |multiset(news)|;
    assert ranked == t + ranked[k..];
    forall x, y | x in t && y in news && y !in t ensures x.createdAt >= y.createdAt {
      assert y in multiset(ranked);
      PrefixDominates(ranked, k, x, y);
    }
  }

  /**
   * Excluding the ids of a sub-collection `t` of `news` with distinct ids leaves, record by
   * record, exactly what `t` does not hold.
   */
  lemma ExcludeComplements(news: seq<NewsItem>, t: seq<NewsItem>, n: NewsItem)
    requires UniqueIds(news) && multiset(t) <= multiset(news)
    ensures multiset(t)[n] + multiset(ExcludeIds(news, IdSet(t)))[n] == multiset(news)[n]
  {
    if n.id in IdSet(t) {
      var m :| m in t && m.id == n.id;
      if n in news {
        assert m in multiset(news);
        var i :| 0 <= i < |news| && news[i] == n;
        var j :| 0 <= j < |news| && news[j] == m;
        assert i == j;
        UniqueIdsOccurOnce(news, n);
      }
    } else {
      assert n !in t;
    }
  }

  /**
   * The main feed over any admissible answer of the store: it shares no id with the trending
   * list, and every trending record is at least as recent as every main-feed record.
   */
  lemma MainFeedAfterTrending(news: seq<NewsItem>, ranked: seq<NewsItem>, rest: seq<NewsItem>)
    requires RecencyOrder(news, ranked)
    requires RecencyOrder(ExcludeIds(news, IdSet(Take(ranked, TrendingLimit))), rest)
    ensures IdSet(Take(ranked, TrendingLimit)) !! IdSet(rest)
    ensures forall x, y :: x in Take(ranked, TrendingLimit) && y in rest ==> x.createdAt >= y.createdAt
  {
    var t := Take(ranked, TrendingLimit);
    var excluded := ExcludeIds(news, IdSet(t));
    TrendingOf(news, ranked);
    forall y | y in rest ensures y.id !in IdSet(t) && y in news && y !in t {
      assert y in multiset(excluded);
    }
  }

  /**
   * The home page over any two admissible answers of the store: the trending list and the
   * main feed share no id, every trending record is at least as recent as every main-feed
   * record, and with distinct ids the two together hold every record exactly once.
   */
  lemma HomePartition(news: seq<NewsItem>, ranked: seq<NewsItem>, rest: seq<NewsItem>)
    requires RecencyOrder(news, ranked)
    requires RecencyOrder(ExcludeIds(news, IdSet(Take(ranked, TrendingLimit))), rest)
    ensures IdSet(Take(ranked, TrendingLimit)) !! IdSet(rest)
    ensures forall x, y :: x in Take(ranked, TrendingLimit) && y in rest ==> x.createdAt >= y.createdAt
    ensures UniqueIds(news) ==> multiset(Take(ranked, TrendingLimit) + rest) == multiset(news)
  {
    MainFeedAfterTrending(news, ranked, rest);
    var t := Take(ranked, TrendingLimit);
    if UniqueIds(news) {
      TrendingOf(news, ranked);
      forall n ensures multiset(t)[n] + multiset(ExcludeIds(news, IdSet(t)))[n] == multiset(news)[n] {
        ExcludeComplements(news, t, n);
      }
      assert multiset(t) + multiset(ExcludeIds(news, IdSet(t))) == multiset(news);
    }
  }

  /** The trending list the routes show: the five most recent records, newest first. */
  function Trending(news: seq<NewsItem>): (t: seq<NewsItem>)
    ensures |t| == Min(TrendingLimit, |news|)
    ensures NewestFirst(t)
    ensures multiset(t) <= multiset(news)
    ensures forall x, y :: x in t && y in news && y !in t ==> x.createdAt >= y.createdAt
  {
    TrendingOf(news, SortNewest(news));
    Take(SortNewest(news), TrendingLimit)
  }

  datatype HomeFeed = HomeFeed(trendingNews: seq<NewsItem>, allNews: seq<NewsItem>)

  /** GET /: the trending list and the rest of the news, both newest first. */
  function Home(news: seq<NewsItem>): (f: HomeFeed)
    ensures |f.trendingNews| == Min(TrendingLimit, |news|)
    ensures NewestFirst(f.trendingNews) && NewestFirst(f.allNews)
    ensures IdSet(f.trendingNews) !! IdSet(f.allNews)
    ensures forall x, y :: x in f.trendingNews && y in f.allNews ==> x.createdAt >= y.createdAt
    ensures UniqueIds(news) ==> multiset(f.trendingNews + f.allNews) == multiset(news)
  {
    var trending := Trending(news);
    var rest := SortNewest(ExcludeIds(news, IdSet(trending)));
    HomePartition(news, SortNewest(news), rest);
    HomeFeed(trending, rest)
  }

  /** GET /categories: every category, unfiltered and in store order. */
  function CategoryListing(categories: seq<Category>): seq<Category>
  {
    categories
  }

  datatype CategoryPage =
    | CategoryNotFound
    | CategoryFound(category: Category, news: seq<NewsItem>)

  /** GET /categories/:name: 404 unless a category has exactly this name; otherwise its news. */
  function CategoryDetail(categories: seq<Category>, news: seq<NewsItem>, name: string): (p: CategoryPage)
    ensures p.CategoryNotFound? <==> forall i :: 0 <= i < |categories| ==> categories[i].name != name
    ensures p.CategoryFound? ==> p.category in categories && p.category.name == name
    ensures p.CategoryFound? ==> forall i :: 0 <= i < |p.news| ==> p.news[i].category == name
    ensures p.CategoryFound? ==>
              forall n :: multiset(p.news)[n] == if n.category == name then multiset(news)[n] else 0
  {
    match FindCategory(categories, name)
    case None => CategoryNotFound
    case Some(category) => CategoryFound(category, InCategory(news, name))
  }
}
