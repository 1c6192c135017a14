/**
 * The site statistics of catalog/utils.py: `get_site_statistics`, six counts
 * in a fixed order, and `get_top_statistics`, four "first by descending
 * score" picks. Both only read the store.
 *
 * `get_site_statistics` is modelled twice. `SiteStatistics` gives the counts
 * the names promise. `SiteStatisticsAsWritten` gives what the two aggregate
 * queries compute: each query counts its model's own rows over a left join
 * with a related table, so a knowledge base is counted once per category and
 * a published article once per comment (see `JoinedCountCounterexample`).
 */
module Statistics {
  import opened Seqs
  import opened Entities
  import Store

  /** One entry of the statistics dictionary. */
  datatype Stat = Stat(key: string, count: nat)

  /** The dictionary's keys, in the order the dictionary is built. */
  const StatKeys: seq<string> := [
    "total_knowledge_bases", "total_categories", "total_articles",
    "total_comments", "total_authors", "total_employees"]

  function Published(articles: seq<Article>): seq<Article>
  {
    Filter(articles, (a: Article) => a.isPublished)
  }

  /** The distinct authors of the articles in `s`. */
  function AuthorsIn(s: seq<Article>): set<nat>
  {
    set a | a in s :: a.author
  }

  lemma {:induction false} AuthorsInBound(s: seq<Article>)
    ensures |AuthorsIn(s)| <= |s|
  {
    if s != [] {
      AuthorsInBound(s[1..]);
      assert AuthorsIn(s) == {s[0].author} + AuthorsIn(s[1..]) by {
        assert s == [s[0]] + s[1..];
        assert forall a :: a in s <==> a == s[0] || a in s[1..];
      }
    }
  }

  /** `total_articles`: the published articles. */
  function TotalArticles(db: Db): (n: nat)
    ensures n <= |db.articles|
    ensures n == 0 <==> forall a :: a in db.articles ==> !a.isPublished
  {
    var p := Published(db.articles);
    assert p != [] ==> p[0] in p;
    |p|
  }

  /** With distinct primary keys, `total_articles` is the number of published articles,
      counted by id. */
  lemma TotalArticlesIsIds(db: Db)
    requires Distinct(db.articles, ArticleId)
    ensures TotalArticles(db) == |set a | a in db.articles && a.isPublished :: a.id|
  {
    var p := Published(db.articles);
    FilterDistinct(db.articles, (a: Article) => a.isPublished, ArticleId);
    DistinctKeyCount(p, ArticleId);
    assert KeysOf(p, ArticleId) == set a | a in db.articles && a.isPublished :: a.id;
  }

  /** `total_authors`: distinct authors of published articles; never more than `total_articles`,
      and zero exactly when `total_articles` is. */
  function TotalAuthors(db: Db): (n: nat)
    ensures n == |set a | a in db.articles && a.isPublished :: a.author|
    ensures n <= TotalArticles(db)
    ensures n == 0 <==> TotalArticles(db) == 0
  {
    var p := Published(db.articles);
    AuthorsInBound(p);
    assert p != [] ==> p[0].author in AuthorsIn(p);
    assert AuthorsIn(p) == set a | a in db.articles && a.isPublished :: a.author;
    |AuthorsIn(p)|
  }

  /** `get_site_statistics()` as its keys describe it. */
  function SiteStatistics(db: Db): (r: seq<Stat>)
    ensures |r| == |StatKeys| && forall i :: 0 <= i < |r| ==> r[i].key == StatKeys[i]
    ensures r[0].count == |db.kbs| && r[1].count == |db.categories|
    ensures r[2].count == TotalArticles(db) && r[3].count == |db.comments|
    ensures r[4].count == TotalAuthors(db) && r[5].count == |db.employees|
    ensures r[4].count <= r[2].count
  {
    [Stat(StatKeys[0], |db.kbs|), Stat(StatKeys[1], |db.categories|),
     Stat(StatKeys[2], TotalArticles(db)), Stat(StatKeys[3], |db.comments|),
     Stat(StatKeys[4], TotalAuthors(db)), Stat(StatKeys[5], |db.employees|)]
  }

  /** An unpublished article, wherever it sits in the table, leaves every statistic as it was. */
  lemma UnpublishedNotCounted(db: Db, xs: seq<Article>, x: Article, ys: seq<Article>)
    requires !x.isPublished
    ensures SiteStatistics(db.(articles := xs + [x] + ys)) == SiteStatistics(db.(articles := xs + ys))
  {
    var more, fewer := db.(articles := xs + [x] + ys), db.(articles := xs + ys);
    FilterSkip(xs, x, ys, (a: Article) => a.isPublished);
    assert TotalArticles(more) == TotalArticles(fewer);
    assert TotalAuthors(more) == TotalAuthors(fewer);
  }

  /** Publishing or unpublishing articles never changes `total_comments`, nor the counts of
      knowledge bases, categories and employees. */
  lemma CommentsIgnorePublishing(db: Db, selected: set<nat>, flag: bool)
    ensures var after := SiteStatistics(db.(articles := Store.WithPublished(db.articles, selected, flag)));
            && after[3] == SiteStatistics(db)[3]
            && after[0] == SiteStatistics(db)[0] && after[1] == SiteStatistics(db)[1]
            && after[5] == SiteStatistics(db)[5]
  {
  }

  // ---------------------------------------------------------------------------
  // The queries as written: counts over a left join

  /** The categories of knowledge base `kb`. */
  function CategoriesOf(categories: seq<Category>, kb: nat): seq<Category>
  {
    Filter(categories, (c: Category) => c.kb == kb)
  }

  function CommentsOn(comments: seq<Comment>, article: nat): seq<Comment>
  {
    Filter(comments, (c: Comment) => c.article == article)
  }

  /** The rows a left join contributes for a parent with `children` related rows. */
  function JoinRows(children: nat): (n: nat)
    ensures n >= 1 && n >= children && (children <= 1 ==> n == 1)
  {
    if children == 0 then 1 else children
  }

  /** `Count("id")` over knowledge bases left-joined with their categories: at least one row
      per knowledge base, and exactly one as long as none has two categories. */
  function JoinedKnowledgeBaseCount(kbs: seq<KnowledgeBase>, categories: seq<Category>): (n: nat)
    ensures n >= |kbs|
    ensures (forall k :: k in kbs ==> |CategoriesOf(categories, k.id)| <= 1) ==> n == |kbs|
  {
    if kbs == [] then 0
    else
      assert forall k :: k in kbs[1..] ==> k in kbs;
      JoinRows(|CategoriesOf(categories, kbs[0].id)|) + JoinedKnowledgeBaseCount(kbs[1..], categories)
  }

  /** `Count("id", filter=Q(is_published=True))` over articles left-joined with their comments:
      at least one row per published article, and exactly one as long as none has two
      comments. */
  function JoinedPublishedArticleCount(articles: seq<Article>, comments: seq<Comment>): (n: nat)
    ensures n >= |Published(articles)|
    ensures (forall a :: a in articles && a.isPublished ==> |CommentsOn(comments, a.id)| <= 1) ==>
              n == |Published(articles)|
  {
    if articles == [] then 0
    else
      assert forall a :: a in articles[1..] ==> a in articles;
      assert articles == [articles[0]] + articles[1..];
      FilterConcat([articles[0]], articles[1..], (a: Article) => a.isPublished);
      (if articles[0].isPublished then JoinRows(|CommentsOn(comments, articles[0].id)|) else 0)
      + JoinedPublishedArticleCount(articles[1..], comments)
  }

  /** `get_site_statistics()` as the two aggregate queries compute it. The category and comment
      counts count the joined child rows, which are all the categories and comments of a
      well-formed store. */
  function SiteStatisticsAsWritten(db: Db): (r: seq<Stat>)
  {
    var site := SiteStatistics(db);
    var kbs := JoinedKnowledgeBaseCount(db.kbs, db.categories);
    var articles := JoinedPublishedArticleCount(db.articles, db.comments);
    site[0 := Stat(StatKeys[0], kbs)][2 := Stat(StatKeys[2], articles)]
  }

  /** The queries as written report the same keys in the same order, and the same values
      except the two joined counts. */
  lemma AsWrittenKeepsOtherCounts(db: Db)
    ensures var r := SiteStatisticsAsWritten(db);
            |r| == |StatKeys| && forall i :: 0 <= i < |r| ==> r[i].key == StatKeys[i]
    ensures forall i :: 0 <= i < |StatKeys| && i != 0 && i != 2 ==>
              SiteStatisticsAsWritten(db)[i] == SiteStatistics(db)[i]
  {
  }

  /** The joined counts are never below the intended ones, and equal them as long as no
      knowledge base has two categories and no published article has two comments. */
  lemma JoinedCountsNeverLower(db: Db)
    ensures SiteStatisticsAsWritten(db)[0].count >= SiteStatistics(db)[0].count
    ensures SiteStatisticsAsWritten(db)[2].count >= SiteStatistics(db)[2].count
    ensures (forall k :: k in db.kbs ==> |CategoriesOf(db.categories, k.id)| <= 1) &&
            (forall a :: a in db.articles && a.isPublished ==> |CommentsOn(db.comments, a.id)| <= 1) ==>
              SiteStatisticsAsWritten(db) == SiteStatistics(db)
  {
  }

  /** One knowledge base with two categories, and one published article with two comments. */
  function FanOutExample(): (db: Db)
    ensures |db.kbs| == 1 && |db.articles| == 1 && db.articles[0].isPublished
  {
    Db([KnowledgeBase(1, "Cars")],
       [Category(1, "Germany", 1), Category(2, "Japan", 1)],
       [Employee(1, "admin", "", "", "", "", "", "", true)],
       [Article(1, "BMW", "text", 1, 1, true, 0, 0)],
       [],
       [Comment(1, 1, 1, "first", 0), Comment(2, 1, 1, "second", 0)])
  }

  lemma FanOutExampleWellFormed()
    ensures WellFormed(FanOutExample())
  {
    var db := FanOutExample();
    assert UniqueKeys(db) by {
      assert TopicKey(db.categories[0]) != TopicKey(db.categories[1]) by {
        assert db.categories[0].topic[0] != db.categories[1].topic[0];
      }
    }
    assert ReferencesResolve(db) by {
      assert KbIds(db.kbs) == {1} && CategoryIds(db.categories) == {1, 2};
      assert ArticleIds(db.articles) == {1} && EmployeeIds(db.employees) == {1};
    }
  }

  lemma FanOutKnowledgeBases()
    ensures JoinedKnowledgeBaseCount(FanOutExample().kbs, FanOutExample().categories) == 2
  {
    var db := FanOutExample();
    assert CategoriesOf(db.categories, 1) == db.categories;
    assert JoinedKnowledgeBaseCount(db.kbs[1..], db.categories) == 0;
  }

  lemma FanOutArticles()
    ensures JoinedPublishedArticleCount(FanOutExample().articles, FanOutExample().comments) == 2
    ensures TotalArticles(FanOutExample()) == 1
  {
    var db := FanOutExample();
    assert CommentsOn(db.comments, 1) == db.comments;
    assert JoinedPublishedArticleCount(db.articles[1..], db.comments) == 0;
    assert Published(db.articles) == db.articles;
  }

  /** On this well-formed store the queries report two knowledge bases and two published
      articles where there is one of each. */
  lemma JoinedCountCounterexample()
    ensures WellFormed(FanOutExample())
    ensures SiteStatistics(FanOutExample())[0].count == 1
    ensures SiteStatisticsAsWritten(FanOutExample())[0].count == 2
    ensures SiteStatistics(FanOutExample())[2].count == 1
    ensures SiteStatisticsAsWritten(FanOutExample())[2].count == 2
  {
    FanOutExampleWellFormed();
    FanOutKnowledgeBases();
    FanOutArticles();
  }

  // ---------------------------------------------------------------------------
  // get_top_statistics

  /** `most_viewed_article`: a published article with the most views; absent exactly when
      nothing is published. */
  function MostViewedArticle(db: Db): (r: Option<Article>)
    ensures r.None? <==> forall a :: a in db.articles ==> !a.isPublished
    ensures r.Some? ==> r.value in db.articles && r.value.isPublished
    ensures r.Some? ==> forall a :: a in db.articles && a.isPublished ==> a.viewsCount <= r.value.viewsCount
  {
    var p := Published(db.articles);
    assert p != [] ==> p[0] in p;
    ArgMax(p, (a: Article) => a.viewsCount as real)
  }

  /** The published articles with at least one rating (`ratings__isnull=False`). */
  function RatedPublished(db: Db): seq<Article>
  {
    Filter(db.articles, (a: Article) => a.isPublished && RatingCount(db, a.id) > 0)
  }

  /** `top_rated_article`: a published, rated article whose mean rating no other published,
      rated article exceeds; absent exactly when no published article has a rating. */
  function TopRatedArticle(db: Db): (r: Option<Article>)
    ensures r.None? <==> forall a :: a in db.articles && a.isPublished ==> RatingCount(db, a.id) == 0
    ensures r.Some? ==> r.value in db.articles && r.value.isPublished && RatingCount(db, r.value.id) > 0
    ensures r.Some? ==> forall a :: a in db.articles && a.isPublished && RatingCount(db, a.id) > 0 ==>
              AverageRating(db, a.id) <= AverageRating(db, r.value.id)
  {
    var p := RatedPublished(db);
    assert p != [] ==> p[0] in p;
    ArgMax(p, (a: Article) => AverageRating(db, a.id))
  }

  /** `most_active_author`: an employee with a published article whom no employee outnumbers
      in published articles; absent exactly when nothing is published. */
  function MostActiveAuthor(db: Db): (r: Option<Employee>)
    ensures r.None? <==> forall e :: e in db.employees ==> PublishedArticlesCount(db.articles, e.id) == 0
    ensures r.Some? ==> r.value in db.employees && PublishedArticlesCount(db.articles, r.value.id) >= 1
    ensures r.Some? ==> forall e :: e in db.employees ==>
              PublishedArticlesCount(db.articles, e.id) <= PublishedArticlesCount(db.articles, r.value.id)
  {
    var p := Filter(db.employees, (e: Employee) => PublishedArticlesCount(db.articles, e.id) > 0);
    assert p != [] ==> p[0] in p;
    ArgMax(p, (e: Employee) => PublishedArticlesCount(db.articles, e.id) as real)
  }

  /** The published articles of category `id`, in table order. */
  function PublishedIn(articles: seq<Article>, id: nat): seq<Article>
  {
    Filter(articles, (a: Article) => a.category == id && a.isPublished)
  }

  /** The number of published articles in category `id`. */
  function CategoryPublishedCount(articles: seq<Article>, id: nat): (n: nat)
    ensures n <= |articles|
    ensures n == 0 <==> forall a :: a in articles && a.category == id ==> !a.isPublished
  {
    var p := PublishedIn(articles, id);
    assert p != [] ==> p[0] in p;
    |p|
  }

  /** `largest_category`: among all categories, one with the most published articles; absent
      only when there are no categories. */
  function LargestCategory(db: Db): (r: Option<Category>)
    ensures r.None? <==> db.categories == []
    ensures r.Some? ==> r.value in db.categories
    ensures r.Some? ==> forall c :: c in db.categories ==>
              CategoryPublishedCount(db.articles, c.id) <= CategoryPublishedCount(db.articles, r.value.id)
  {
    ArgMax(db.categories, (c: Category) => CategoryPublishedCount(db.articles, c.id) as real)
  }

  datatype TopStatistics = TopStatistics(
    mostViewedArticle: Option<Article>,
    topRatedArticle: Option<Article>,
    mostActiveAuthor: Option<Employee>,
    largestCategory: Option<Category>)

  /** `get_top_statistics()`: with nothing published, only the largest category can be present. */
  function GetTopStatistics(db: Db): (r: TopStatistics)
    ensures TotalArticles(db) == 0 ==>
              r.mostViewedArticle.None? && r.topRatedArticle.None? && r.mostActiveAuthor.None?
    ensures TotalArticles(db) > 0 ==> r.mostViewedArticle.Some?
    ensures r.largestCategory.None? <==> db.categories == []
  {
    TopStatistics(MostViewedArticle(db), TopRatedArticle(db), MostActiveAuthor(db), LargestCategory(db))
  }

  /** With every author present in the employee table, someone is the most active author
      exactly when something is published. */
  lemma MostActiveAuthorPresent(db: Db)
    requires WellFormed(db)
    ensures MostActiveAuthor(db).Some? <==> TotalArticles(db) > 0
  {
    if TotalArticles(db) > 0 {
      var a :| a in db.articles && a.isPublished;
      var e :| e in db.employees && e.id == a.author;
      assert PublishedArticlesCount(db.articles, e.id) > 0;
    }
  }
}
