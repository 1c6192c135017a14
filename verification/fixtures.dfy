/**
 * The stores the repository's test cases build, and what the model computes on
 * them: the statistics case of catalog/tests/test_utils.py (knowledge base
 * "Cars", category "Germany", published "BMW" with 1 view, rating 5 and one
 * comment, published "AUDI" with 5 views and rating 3), the rating cases of
 * catalog/tests/test_admin.py and catalog/tests/test_models.py, and the
 * admin count cases.
 */
module Fixtures {
  import opened Seqs
  import opened Entities
  import opened Statistics
  import opened Admin

  const Bmw := Article(1, "BMW", "This is a article about BMW.", 1, 1, true, 1, 0)
  const Audi := Article(2, "AUDI", "This is a article about AUDI.", 1, 1, true, 5, 1)
  const Germany := Category(1, "Germany", 1)
  const Staff := Employee(1, "employee", "", "", "", "", "Employee", "", false)

  function UtilsCase(): Db
  {
    Db([KnowledgeBase(1, "Cars")],
       [Germany],
       [Staff],
       [Bmw, Audi],
       [Rating(1, 1, 1, 5), Rating(2, 2, 1, 3)],
       [Comment(1, 1, 1, "Helpful!", 0)])
  }

  lemma UtilsCaseUniqueKeys()
    ensures UniqueKeys(UtilsCase())
  {
    var db := UtilsCase();
    assert RaterKey(db.ratings[0]) != RaterKey(db.ratings[1]);
  }

  lemma UtilsCaseReferencesResolve()
    ensures ReferencesResolve(UtilsCase())
  {
    var db := UtilsCase();
    assert 1 in KbIds(db.kbs) by { assert db.kbs[0] in db.kbs; }
    assert 1 in CategoryIds(db.categories) by { assert Germany in db.categories; }
    assert 1 in EmployeeIds(db.employees) by { assert Staff in db.employees; }
    assert 1 in ArticleIds(db.articles) && 2 in ArticleIds(db.articles) by {
      assert Bmw in db.articles && Audi in db.articles;
    }
  }

  lemma UtilsCaseWellFormed()
    ensures WellFormed(UtilsCase())
  {
    UtilsCaseUniqueKeys();
    UtilsCaseReferencesResolve();
  }

  lemma UtilsCasePublished()
    ensures TotalArticles(UtilsCase()) == 2 && TotalAuthors(UtilsCase()) == 1
  {
    var db := UtilsCase();
    FilterAll(db.articles, (a: Article) => a.isPublished);
    assert AuthorsIn(db.articles) == {1};
  }

  lemma UtilsCaseNoFanOut()
    ensures SiteStatisticsAsWritten(UtilsCase()) == SiteStatistics(UtilsCase())
  {
    var db := UtilsCase();
    var kb, article := 1, 1;
    FilterAll(db.categories, (c: Category) => c.kb == kb);
    FilterAll(db.comments, (c: Comment) => c.article == article);
    article := 2;
    FilterNone(db.comments, (c: Comment) => c.article == article);
    JoinedCountsNeverLower(db);
  }

  /** One knowledge base, one category, two published articles, one comment, one author and
      one employee; with no fan-out the queries as written agree. */
  lemma UtilsCaseSiteStatistics()
    ensures var s := SiteStatistics(UtilsCase());
            s[0].count == 1 && s[1].count == 1 && s[2].count == 2 &&
            s[3].count == 1 && s[4].count == 1 && s[5].count == 1
    ensures SiteStatisticsAsWritten(UtilsCase()) == SiteStatistics(UtilsCase())
  {
    UtilsCasePublished();
    UtilsCaseNoFanOut();
  }

  lemma UtilsCaseAverages()
    ensures AverageRating(UtilsCase(), 1) == 5.0
    ensures AverageRating(UtilsCase(), 2) == 3.0
    ensures RatingCount(UtilsCase(), 1) == 1 && RatingCount(UtilsCase(), 2) == 1
  {
    var db := UtilsCase();
    assert RatingsOf(db.ratings, 1) == [db.ratings[0]];
    assert RatingsOf(db.ratings, 2) == [db.ratings[1]];
  }

  lemma UtilsCaseMostViewed()
    ensures MostViewedArticle(UtilsCase()) == Some(Audi)
  {
    var db := UtilsCase();
    assert Bmw in db.articles && Audi in db.articles;
  }

  lemma UtilsCaseTopRated()
    ensures TopRatedArticle(UtilsCase()) == Some(Bmw)
  {
    var db := UtilsCase();
    UtilsCaseAverages();
    FilterAll(db.articles, (a: Article) => a.isPublished && RatingCount(db, a.id) > 0);
    var score := (a: Article) => AverageRating(db, a.id);
    assert [Bmw, Audi][1..] == [Audi];
    assert ArgMax([Audi], score) == Some(Audi);
    assert ArgMax([Bmw, Audi], score) == Some(Bmw);
  }

  /** AUDI is the most viewed article and BMW the top-rated one; the only employee is the most
      active author and the only category the largest. */
  lemma UtilsCaseTopStatistics()
    ensures MostViewedArticle(UtilsCase()) == Some(Audi)
    ensures TopRatedArticle(UtilsCase()) == Some(Bmw)
    ensures MostActiveAuthor(UtilsCase()) == Some(Staff)
    ensures LargestCategory(UtilsCase()) == Some(Germany)
  {
    var db := UtilsCase();
    UtilsCaseMostViewed();
    UtilsCaseTopRated();
    assert PublishedArticlesCount(db.articles, 1) > 0 by {
      assert Bmw in db.articles;
    }
  }

  // ---------------------------------------------------------------------------
  // Ratings on one article and on one author's articles

  /** Ratings 4 and 5 on one article average 4.5 over a count of 2. */
  lemma ArticleAverageCase()
    ensures var db := Db([], [], [], [], [Rating(1, 7, 2, 4), Rating(2, 7, 3, 5)], []);
            AverageRating(db, 7) == 4.5 && RatingCount(db, 7) == 2
  {
    var db := Db([], [], [], [], [Rating(1, 7, 2, 4), Rating(2, 7, 3, 5)], []);
    assert RatingsOf(db.ratings, 7) == db.ratings;
  }

  /** Employee 9 wrote two published articles, rated 3 and 5. */
  function RatedAuthorCase(): Db
  {
    Db([], [], [],
       [Article(1, "test_a_f", "", 9, 1, true, 0, 0), Article(2, "test_a_s", "", 9, 1, true, 0, 1)],
       [Rating(1, 1, 9, 3), Rating(2, 2, 9, 5)], [])
  }

  lemma RatedAuthorRatings()
    ensures AuthorRatings(RatedAuthorCase(), 9) == RatedAuthorCase().ratings
  {
    var db := RatedAuthorCase();
    var employee := 9;
    assert 1 in PublishedIdsOf(db.articles, employee) by { assert db.articles[0] in db.articles; }
    assert 2 in PublishedIdsOf(db.articles, employee) by { assert db.articles[1] in db.articles; }
    FilterAll(db.ratings, (r: Rating) => r.article in PublishedIdsOf(db.articles, employee));
  }

  /** An author whose two published articles are rated 3 and 5 has an author rating of 4. */
  lemma AuthorRatingCase()
    ensures AuthorRating(RatedAuthorCase(), 9) == 4.0
  {
    RatedAuthorRatings();
    assert SumRatings(RatedAuthorCase().ratings) == 8;
  }

  // ---------------------------------------------------------------------------
  // Admin counts

  /** A knowledge base with two categories shows a count of 2. */
  lemma CategoriesCountCase()
    ensures CategoriesCount(Db([], [Category(1, "a", 5), Category(2, "b", 5)], [], [], [], []), 5) == 2
  {
    var db := Db([], [Category(1, "a", 5), Category(2, "b", 5)], [], [], [], []);
    assert CategoriesOf(db.categories, 5) == db.categories;
  }

  /** A category with three unpublished articles shows a count of 3, none of them published. */
  lemma ArticlesCountCase()
    ensures var db := Db([], [], [],
                         [Article(1, "Kyiv", "", 1, 4, false, 0, 0), Article(2, "London", "", 1, 4, false, 0, 0),
                          Article(3, "Paris", "", 1, 4, false, 0, 0)], [], []);
            ArticlesCount(db, 4) == 3 && CategoryPublishedCount(db.articles, 4) == 0
  {
    var db := Db([], [], [],
                 [Article(1, "Kyiv", "", 1, 4, false, 0, 0), Article(2, "London", "", 1, 4, false, 0, 0),
                  Article(3, "Paris", "", 1, 4, false, 0, 0)], [], []);
    var id := 4;
    FilterAll(db.articles, (a: Article) => a.category == id && !a.isPublished);
    FilterNone(db.articles, (a: Article) => a.category == id && a.isPublished);
  }
}
