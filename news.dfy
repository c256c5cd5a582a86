/**
 * The routes of news.js: the `ensureAuth` and `ensureAdmin` guards, the admin dashboard,
 * the admin's POST /add (find-or-create the category, then file a news item under its
 * stored name) and the category page with the trending list.
 */
module NewsRoutes {
  import opened Common
  import opened Content
  import Auth
  import Feed

  const MsgAllRequired: string := "All fields are required"
  const MsgAdded: string := "News added successfully!"
  const MsgForbidden: string := "Forbidden: Admins only"

  /** What a news route answers: a redirect, a bare status with a body, or the add-news page. */
  datatype Response =
    | RedirectTo(location: string)
    | Status(code: nat, body: string)
    | AddNewsPage(categories: seq<Category>)

  /** The verdict of a guard: hand on to the next handler, or answer the request itself. */
  datatype Guard = Next | Deny(response: Response)

  predicate IsAdmin(session: Option<Auth.SessionUser>)
  {
    session.Some? && session.value.role == Auth.AdminRole
  }

  /** `ensureAuth`: passes exactly when the session holds a user, otherwise sends the client to /login. */
  function EnsureAuth(session: Option<Auth.SessionUser>): (g: Guard)
    ensures g.Next? <==> session.Some?
    ensures g.Deny? ==> g.response == RedirectTo("/login")
  {
    if session.Some? then Next else Deny(RedirectTo("/login"))
  }

  /** `ensureAdmin`: passes exactly for an administrator, otherwise answers 403 (not a redirect). */
  function EnsureAdmin(session: Option<Auth.SessionUser>): (g: Guard)
    ensures g.Next? <==> IsAdmin(session)
    ensures g.Deny? ==> g.response == Status(403, MsgForbidden)
  {
    if IsAdmin(session) then Next else Deny(Status(403, MsgForbidden))
  }

  /** `ensureAuth, ensureAdmin` as the admin routes mount them: the first guard that fails answers. */
  function AdminGuard(session: Option<Auth.SessionUser>): (g: Guard)
    ensures g.Next? <==> IsAdmin(session)
    ensures session.None? ==> g == Deny(RedirectTo("/login"))
    ensures session.Some? && !IsAdmin(session) ==> g == Deny(Status(403, MsgForbidden))
  {
    match EnsureAuth(session)
    case Deny(response) => Deny(response)
    case Next => EnsureAdmin(session)
  }

  /** GET /news: the add-news form with every category, for administrators only. */
  function Dashboard(session: Option<Auth.SessionUser>, categories: seq<Category>): (r: Response)
    ensures r.AddNewsPage? <==> IsAdmin(session)
    ensures r.AddNewsPage? ==> r.categories == categories
    ensures session.None? ==> r == RedirectTo("/login")
    ensures session.Some? && !IsAdmin(session) ==> r == Status(403, MsgForbidden)
  {
    match AdminGuard(session)
    case Deny(response) => response
    case Next => AddNewsPage(categories)
  }

  /** The category page of news.js; unlike the one of index.js it answers an unknown name with no category rather than 404. */
  datatype CategoryView = CategoryView(category: Option<Category>, news: seq<NewsItem>, trendingNews: seq<NewsItem>)

  /** GET /news/categories/:name: the exactly-named category if any, its news, and the five latest news of all. */
  function CategoryWithTrending(categories: seq<Category>, news: seq<NewsItem>, name: string): (v: CategoryView)
    ensures v.category.None? <==> forall i :: 0 <= i < |categories| ==> categories[i].name != name
    ensures v.category.Some? ==> v.category.value in categories && v.category.value.name == name
    ensures forall i :: 0 <= i < |v.news| ==> v.news[i].category == name
    ensures forall n :: multiset(v.news)[n] == if n.category == name then multiset(news)[n] else 0
    ensures |v.trendingNews| == Min(Feed.TrendingLimit, |news|)
    ensures Feed.NewestFirst(v.trendingNews) && multiset(v.trendingNews) <= multiset(news)
    ensures forall x, y :: x in v.trendingNews && y in news && y !in v.trendingNews ==> x.createdAt >= y.createdAt
  {
    CategoryView(FindCategory(categories, name), InCategory(news, name), Feed.Trending(news))
  }

  /** The body of POST /news/add; a field the client left out is `None`. */
  datatype Submission = Submission(title: Option<string>, category: Option<string>, content: Option<string>)

  predicate Complete(s: Submission)
  {
    Filled(s.title) && Filled(s.category) && Filled(s.content)
  }

  /**
   * Lines 40-44 of /add: reuse the first category whose name matches ignoring case, or
   * create one with the submitted spelling.  Answers the new collection and the stored category.
   */
  function FindOrCreate(categories: seq<Category>, name: string): (r: (seq<Category>, Category))
    ensures FindCategoryIgnoreCase(categories, name).Some? ==>
              r == (categories, FindCategoryIgnoreCase(categories, name).value)
    ensures FindCategoryIgnoreCase(categories, name).None? ==>
              r == (categories + [Category(name)], Category(name))
    ensures FindCategoryIgnoreCase(r.0, name) == Some(r.1)
    ensures FindCategory(r.0, r.1.name).Some?
    ensures DistinctIgnoringCase(categories) ==> DistinctIgnoringCase(r.0)
    ensures forall n :: FindCategory(categories, n).Some? ==> FindCategory(r.0, n).Some?
  {
    match FindCategoryIgnoreCase(categories, name)
    case Some(found) =>
      (categories, found)
    case None =>
      var grown := categories + [Category(name)];
      CreatedCategoryIsFound(categories, name, name);
      assert grown[|categories|] == Category(name);
      assert forall i :: 0 <= i < |categories| ==> grown[i] == categories[i];
      (grown, Category(name))
  }

  predicate RoomValid(categories: seq<Category>, news: seq<NewsItem>, nextId: nat)
  {
    DistinctIgnoringCase(categories) && Filed(news, categories) &&
    UniqueIds(news) && (forall i :: 0 <= i < |news| ==> news[i].id < nextId)
  }

  /** Filing a fresh-id item under a stored category's name, in a collection that only grew, keeps the store valid. */
  lemma FilingKeepsRoomValid(categories: seq<Category>, grown: seq<Category>, news: seq<NewsItem>,
                             nextId: nat, item: NewsItem)
    requires RoomValid(categories, news, nextId)
    requires DistinctIgnoringCase(grown)
    requires forall n :: FindCategory(categories, n).Some? ==> FindCategory(grown, n).Some?
    requires item.id == nextId && FindCategory(grown, item.category).Some?
    ensures RoomValid(grown, news + [item], nextId + 1)
  {
    var s := news + [item];
    assert s[|news|] == item;
    assert forall i :: 0 <= i < |news| ==> s[i] == news[i];
  }

  /** The category and news collections of the content store, with the flash fields of the admin's session. */
  class Newsroom {
    var categories: seq<Category>
    var news: seq<NewsItem>
    /** The id the store assigns to the next news item. */
    var nextId: nat
    var errorMsg: Option<string>
    var successMsg: Option<string>

    ghost predicate Valid()
      reads this
    {
      RoomValid(categories, news, nextId)
    }

    constructor ()
      ensures Valid()
      ensures categories == [] && news == [] && nextId == 0 && errorMsg == None && successMsg == None
    {
      categories := [];
      news := [];
      nextId := 0;
      errorMsg := None;
      successMsg := None;
    }

    /** POST /news/add at time `now`, the timestamp the store gives the new record. */
    method Add(session: Option<Auth.SessionUser>, s: Submission, now: int) returns (r: Response)
      requires Valid()
      modifies this
      ensures Valid()
      ensures AdminGuard(session).Deny? ==>
                r == AdminGuard(session).response &&
                categories == old(categories) && news == old(news) && nextId == old(nextId) &&
                errorMsg == old(errorMsg) && successMsg == old(successMsg)
      ensures AdminGuard(session).Next? && !Complete(s) ==>
                r == RedirectTo("/news") &&
                categories == old(categories) && news == old(news) && nextId == old(nextId) &&
                errorMsg == Some(MsgAllRequired) && successMsg == old(successMsg)
      ensures AdminGuard(session).Next? && Complete(s) ==>
                r == RedirectTo("/news") &&
                categories == FindOrCreate(old(categories), s.category.value).0 &&
                news == old(news) + [NewsItem(old(nextId), s.title.value, s.content.value,
                                              FindOrCreate(old(categories), s.category.value).1.name, now)] &&
                nextId == old(nextId) + 1 &&
                successMsg == Some(MsgAdded) && errorMsg == old(errorMsg)
      ensures |old(categories)| <= |categories| <= |old(categories)| + 1
    {
      var guard := AdminGuard(session);
      if guard.Deny? {
        return guard.response;
      }
      if !Complete(s) {
        errorMsg := Some(MsgAllRequired);
        return RedirectTo("/news");
      }
      var name := s.category.value;
      var found := FindOrCreate(categories, name);
      var grown, stored := found.0, found.1;
      var item := NewsItem(nextId, s.title.value, s.content.value, stored.name, now);
      FilingKeepsRoomValid(categories, grown, news, nextId, item);
      categories := grown;
      news := news + [item];
      nextId := nextId + 1;
      successMsg := Some(MsgAdded);
      r := RedirectTo("/news");
    }
  }

  /**
   * Two postings whose category names differ only in case, into a store that has neither:
   * one category is created, and both items are filed under the first spelling.
   */
  method PostUnderTwoSpellings(room: Newsroom, admin: Option<Auth.SessionUser>,
                               first: Submission, second: Submission, now: int) returns (r1: Response, r2: Response)
    requires room.Valid() && IsAdmin(admin)
    requires Complete(first) && Complete(second)
    requires EqualsIgnoreCase(first.category.value, second.category.value)
    requires FindCategoryIgnoreCase(room.categories, first.category.value).None?
    modifies room
    ensures room.Valid()
    ensures room.categories == old(room.categories) + [Category(first.category.value)]
    ensures |room.news| == |old(room.news)| + 2
    ensures room.news[|room.news| - 2].category == first.category.value
    ensures room.news[|room.news| - 1].category == first.category.value
  {
    r1 := room.Add(admin, first, now);
    CreatedCategoryIsFound(old(room.categories), first.category.value, second.category.value);
    r2 := room.Add(admin, second, now);
  }
}
