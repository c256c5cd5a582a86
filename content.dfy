/**
 * The category and news records of the content store and the lookups the routes run
 * over them: exact and case-insensitive category lookup, and the category filter on news.
 */
module Content {
  import opened Common

  datatype Category = Category(name: string)

  /** A news record; `category` is a copy of a category's name, `createdAt` an abstract timestamp. */
  datatype NewsItem = NewsItem(id: nat, title: string, content: string, category: string, createdAt: int)

  /** Store-assigned news ids are distinct. */
  predicate UniqueIds(news: seq<NewsItem>)
  {
    forall i, j :: 0 <= i < j < |news| ==> news[i].id != news[j].id
  }

  /** `Category.findOne({ name })`: the first category whose name is exactly `name`. */
  function FindCategory(categories: seq<Category>, name: string): (r: Option<Category>)
    ensures r.Some? ==> r.value in categories && r.value.name == name
    ensures r.None? <==> forall i :: 0 <= i < |categories| ==> categories[i].name != name
  {
    if categories == [] then None
    else if categories[0].name == name then Some(categories[0])
    else FindCategory(categories[1..], name)
  }

  /** `Category.findOne({ name: /^name$/i })`: the first category whose name equals `name` ignoring case. */
  function FindCategoryIgnoreCase(categories: seq<Category>, name: string): (r: Option<Category>)
    ensures r.Some? ==> r.value in categories && EqualsIgnoreCase(r.value.name, name)
    ensures r.None? <==> forall i :: 0 <= i < |categories| ==> !EqualsIgnoreCase(categories[i].name, name)
  {
    if categories == [] then None
    else if EqualsIgnoreCase(categories[0].name, name) then Some(categories[0])
    else FindCategoryIgnoreCase(categories[1..], name)
  }

  /** `News.find({ category: name })`: the news filed under exactly `name`, in store order. */
  function InCategory(news: seq<NewsItem>, name: string): (r: seq<NewsItem>)
    ensures forall i :: 0 <= i < |r| ==> r[i].category == name
    ensures forall n :: multiset(r)[n] == if n.category == name then multiset(news)[n] else 0
  {
    if news == [] then []
    else
      assert news == [news[0]] + news[1..];
      (if news[0].category == name then [news[0]] else []) + InCategory(news[1..], name)
  }

  /** No two categories have names that differ only in case. */
  predicate DistinctIgnoringCase(categories: seq<Category>)
  {
    forall i, j :: 0 <= i < j < |categories| ==> !EqualsIgnoreCase(categories[i].name, categories[j].name)
  }

  /** Every news item is filed under the exact name of a stored category. */
  predicate Filed(news: seq<NewsItem>, categories: seq<Category>)
  {
    forall i :: 0 <= i < |news| ==> FindCategory(categories, news[i].category).Some?
  }

  /**
   * Once a name has been created, any spelling of it that differs only in case finds
   * that category, so a second creation never happens.
   */
  lemma {:induction false} CreatedCategoryIsFound(categories: seq<Category>, created: string, asked: string)
    requires FindCategoryIgnoreCase(categories, created).None?
    requires EqualsIgnoreCase(created, asked)
    ensures FindCategoryIgnoreCase(categories + [Category(created)], asked) == Some(Category(created))
  {
    if categories != [] {
      assert (categories + [Category(created)])[1..] == categories[1..] + [Category(created)];
      assert !EqualsIgnoreCase(categories[0].name, created);
      assert FindCategoryIgnoreCase(categories[1..], created).None? by {
        forall i | 0 <= i < |categories[1..]| ensures !EqualsIgnoreCase(categories[1..][i].name, created) {
          assert categories[1..][i] == categories[i + 1];
        }
      }
      CreatedCategoryIsFound(categories[1..], created, asked);
    }
  }
}
