/**
 * The entity store of the knowledge hub (catalog/models.py): knowledge bases,
 * categories, employees, articles, ratings and comments as tables of records,
 * the constraints the schema declares over them, the derived values the model
 * classes expose as properties, and what deleting a record does to the other
 * tables (`on_delete=PROTECT` or `CASCADE`).
 *
 * Records refer to each other by primary key. Timestamps are abstract integer
 * ticks; only their order matters.
 */
module Entities {
  import opened Seqs

  datatype KnowledgeBase = KnowledgeBase(id: nat, title: string)

  datatype Category = Category(id: nat, topic: string, kb: nat)

  datatype Employee = Employee(
    id: nat,
    username: string,
    firstName: string,
    lastName: string,
    email: string,
    project: string,
    position: string,
    level: string,
    isSuperuser: bool)

  datatype Article = Article(
    id: nat,
    title: string,
    content: string,
    author: nat,
    category: nat,
    isPublished: bool,
    viewsCount: nat,
    createdAt: int)

  datatype Rating = Rating(id: nat, article: nat, employee: nat, value: int)

  datatype Comment = Comment(id: nat, article: nat, commentator: nat, commentary: string, createdAt: int)

  /** The whole store: one sequence per table. */
  datatype Db = Db(
    kbs: seq<KnowledgeBase>,
    categories: seq<Category>,
    employees: seq<Employee>,
    articles: seq<Article>,
    ratings: seq<Rating>,
    comments: seq<Comment>)

  /** The values a rating may hold (`Rating.RATING_CHOICES`). */
  const MinRating := 1
  const MaxRating := 5
  const RatingChoices: seq<int> := [1, 2, 3, 4, 5]

  // ---------------------------------------------------------------------------
  // Keys and the schema's constraints

  function KbId(k: KnowledgeBase): nat { k.id }
  function KbTitle(k: KnowledgeBase): string { k.title }
  function CategoryId(c: Category): nat { c.id }
  function TopicKey(c: Category): (string, nat) { (c.topic, c.kb) }
  function EmployeeId(e: Employee): nat { e.id }
  function Username(e: Employee): string { e.username }
  function ArticleId(a: Article): nat { a.id }
  function RatingId(r: Rating): nat { r.id }
  function RaterKey(r: Rating): (nat, nat) { (r.article, r.employee) }
  function CommentId(c: Comment): nat { c.id }

  function KbIds(kbs: seq<KnowledgeBase>): set<nat> { set k | k in kbs :: k.id }
  function CategoryIds(cs: seq<Category>): set<nat> { set c | c in cs :: c.id }
  function EmployeeIds(es: seq<Employee>): set<nat> { set e | e in es :: e.id }
  function ArticleIds(as_: seq<Article>): set<nat> { set a | a in as_ :: a.id }

  /** Primary keys, `KnowledgeBase.title` (unique=True), `Employee.username`,
      `Category` (topic, knowledge_base) and `Rating` (article, employee) are unique. */
  ghost predicate UniqueKeys(db: Db)
  {
    && Distinct(db.kbs, KbId) && Distinct(db.kbs, KbTitle)
    && Distinct(db.categories, CategoryId) && Distinct(db.categories, TopicKey)
    && Distinct(db.employees, EmployeeId) && Distinct(db.employees, Username)
    && Distinct(db.articles, ArticleId)
    && Distinct(db.ratings, RatingId) && Distinct(db.ratings, RaterKey)
    && Distinct(db.comments, CommentId)
  }

  /** Every rating is one of the five choices. */
  ghost predicate RatingsInRange(rs: seq<Rating>)
  {
    forall r :: r in rs ==> MinRating <= r.value <= MaxRating
  }

  /** Every foreign key names a record that exists. */
  ghost predicate ReferencesResolve(db: Db)
  {
    && (forall c :: c in db.categories ==> c.kb in KbIds(db.kbs))
    && (forall a :: a in db.articles ==>
          a.author in EmployeeIds(db.employees) && a.category in CategoryIds(db.categories))
    && (forall r :: r in db.ratings ==>
          r.article in ArticleIds(db.articles) && r.employee in EmployeeIds(db.employees))
    && (forall c :: c in db.comments ==>
          c.article in ArticleIds(db.articles) && c.commentator in EmployeeIds(db.employees))
  }

  ghost predicate WellFormed(db: Db)
  {
    UniqueKeys(db) && RatingsInRange(db.ratings) && ReferencesResolve(db)
  }

  /** `KnowledgeBase.title` is unique: a title names at most one knowledge base. */
  lemma TitleIdentifiesKnowledgeBase(db: Db, k1: KnowledgeBase, k2: KnowledgeBase)
    requires WellFormed(db) && k1 in db.kbs && k2 in db.kbs && k1.title == k2.title
    ensures k1 == k2
  {
    DistinctIdentifies(db.kbs, KbTitle, k1, k2);
  }

  /** `Category.Meta.unique_together`: within one knowledge base a topic names at most one
      category. */
  lemma TopicIdentifiesCategory(db: Db, c1: Category, c2: Category)
    requires WellFormed(db) && c1 in db.categories && c2 in db.categories
    requires c1.topic == c2.topic && c1.kb == c2.kb
    ensures c1 == c2
  {
    DistinctIdentifies(db.categories, TopicKey, c1, c2);
  }

  /** `Employee.username` (unique in `AbstractUser`): a username names at most one employee. */
  lemma UsernameIdentifiesEmployee(db: Db, e1: Employee, e2: Employee)
    requires WellFormed(db) && e1 in db.employees && e2 in db.employees && e1.username == e2.username
    ensures e1 == e2
  {
    DistinctIdentifies(db.employees, Username, e1, e2);
  }

  /** `Rating.Meta.unique_together` and `RATING_CHOICES`: an employee holds at most one rating
      of an article, and its value is one of 1..5. */
  lemma OneRatingPerRater(db: Db, r1: Rating, r2: Rating)
    requires WellFormed(db) && r1 in db.ratings && r2 in db.ratings
    requires r1.article == r2.article && r1.employee == r2.employee
    ensures r1 == r2
    ensures MinRating <= r1.value <= MaxRating
  {
    DistinctIdentifies(db.ratings, RaterKey, r1, r2);
  }

  /** The foreign keys of an article: its author and its category exist. */
  lemma ArticleParentsExist(db: Db, a: Article)
    requires WellFormed(db) && a in db.articles
    ensures exists e :: e in db.employees && e.id == a.author
    ensures exists c :: c in db.categories && c.id == a.category
  {
  }

  /** The foreign keys of ratings and comments: the article and the employee exist. */
  lemma FeedbackParentsExist(db: Db, r: Rating, c: Comment)
    requires WellFormed(db) && r in db.ratings && c in db.comments
    ensures exists a :: a in db.articles && a.id == r.article
    ensures exists e :: e in db.employees && e.id == r.employee
    ensures exists a :: a in db.articles && a.id == c.article
    ensures exists e :: e in db.employees && e.id == c.commentator
  {
  }

  /** The foreign key of a category: its knowledge base exists. */
  lemma CategoryParentExists(db: Db, c: Category)
    requires WellFormed(db) && c in db.categories
    ensures exists k :: k in db.kbs && k.id == c.kb
  {
  }

  // ---------------------------------------------------------------------------
  // Employee

  /** `Employee.full_name` and `Employee.__str__`: "first last" when both names
      are non-empty, the username otherwise. */
  function FullName(e: Employee): (r: string)
    ensures e.firstName != [] && e.lastName != [] ==>
              r == e.firstName + " " + e.lastName && |r| == |e.firstName| + 1 + |e.lastName|
    ensures e.firstName == [] || e.lastName == [] ==> r == e.username
  {
    if e.firstName != [] && e.lastName != [] then e.firstName + " " + e.lastName else e.username
  }

  /** The text before the first space and the text after it. */
  function SplitAtSpace(s: string): (string, string)
  {
    if s == [] then ([], [])
    else if s[0] == ' ' then ([], s[1..])
    else var (w, rest) := SplitAtSpace(s[1..]); ([s[0]] + w, rest)
  }

  lemma {:induction false} SplitJoined(w: string, rest: string)
    requires forall i :: 0 <= i < |w| ==> w[i] != ' '
    ensures SplitAtSpace(w + " " + rest) == (w, rest)
  {
    if w != [] {
      assert (w + " " + rest)[1..] == w[1..] + " " + rest;
      SplitJoined(w[1..], rest);
      assert [w[0]] + w[1..] == w;
    } else {
      assert w + " " + rest == [' '] + rest;
    }
  }

  /** The display name can be read back into its two names when the first name has no space. */
  lemma FullNameSplits(e: Employee)
    requires e.firstName != [] && e.lastName != []
    requires forall i :: 0 <= i < |e.firstName| ==> e.firstName[i] != ' '
    ensures SplitAtSpace(FullName(e)) == (e.firstName, e.lastName)
  {
    SplitJoined(e.firstName, e.lastName);
  }

  /** `Employee.published_articles_count`: the author's articles with `is_published` set. */
  function PublishedArticlesCount(articles: seq<Article>, employee: nat): (n: nat)
    ensures n <= |articles|
    ensures n == 0 <==> forall a :: a in articles && a.author == employee ==> !a.isPublished
  {
    var mine := Filter(articles, (a: Article) => a.author == employee && a.isPublished);
    assert mine != [] ==> mine[0] in mine;
    |mine|
  }

  /** With distinct primary keys, the count is the number of the employee's published
      articles, counted by id. */
  lemma PublishedArticlesCountIsIds(articles: seq<Article>, employee: nat)
    requires Distinct(articles, ArticleId)
    ensures PublishedArticlesCount(articles, employee) == |PublishedIdsOf(articles, employee)|
  {
    var mine := Filter(articles, (a: Article) => a.author == employee && a.isPublished);
    FilterDistinct(articles, (a: Article) => a.author == employee && a.isPublished, ArticleId);
    DistinctKeyCount(mine, ArticleId);
    assert KeysOf(mine, ArticleId) == PublishedIdsOf(articles, employee);
  }

  // ---------------------------------------------------------------------------
  // Ratings and their means

  function SumRatings(rs: seq<Rating>): int
  {
    if rs == [] then 0 else rs[0].value + SumRatings(rs[1..])
  }

  lemma {:induction false} SumRatingsBounds(rs: seq<Rating>)
    requires RatingsInRange(rs)
    ensures MinRating * |rs| <= SumRatings(rs) <= MaxRating * |rs|
  {
    if rs != [] {
      assert forall r :: r in rs[1..] ==> r in rs;
      SumRatingsBounds(rs[1..]);
    }
  }

  /** The exact mean of the rating values (mean times count is the sum); zero for no
      ratings, as the properties report it. */
  function MeanRating(rs: seq<Rating>): (m: real)
    ensures m * |rs| as real == SumRatings(rs) as real
    ensures rs == [] ==> m == 0.0
    ensures rs != [] && RatingsInRange(rs) ==> MinRating as real <= m <= MaxRating as real
  {
    if rs == [] then 0.0
    else
      var s, n := SumRatings(rs) as real, |rs| as real;
      assert RatingsInRange(rs) ==> n <= s <= 5.0 * n by {
        if RatingsInRange(rs) { SumRatingsBounds(rs); }
      }
      MeanBounds(s, n);
      s / n
  }

  /** `average_rating` is the mean of the article's ratings, and `rating_count` their number. */
  lemma AverageRatingUnfolds(db: Db, article: nat)
    ensures RatingCount(db, article) == |RatingsOf(db.ratings, article)|
    ensures AverageRating(db, article) == MeanRating(RatingsOf(db.ratings, article))
  {
  }

  /** Any name for the mean, times the count, is the sum. */
  lemma MeanTimesLength(avg: real, rs: seq<Rating>)
    requires avg == MeanRating(rs)
    ensures avg * |rs| as real == SumRatings(rs) as real
  {
  }

  /** Any name for the mean, times any name for the count, is the sum. */
  lemma MeanTimesCount(avg: real, n: nat, rs: seq<Rating>)
    requires avg == MeanRating(rs) && n == |rs|
    ensures avg * n as real == SumRatings(rs) as real
  {
    MeanTimesLength(avg, rs);
  }

  lemma MeanBounds(s: real, n: real)
    requires n > 0.0
    ensures (s / n) * n == s
    ensures n <= s ==> 1.0 <= s / n
    ensures s <= 5.0 * n ==> s / n <= 5.0
  {
    var m := s / n;
    assert m * n == s;
  }

  function RatingsOf(rs: seq<Rating>, article: nat): seq<Rating>
  {
    Filter(rs, (r: Rating) => r.article == article)
  }

  /** `Article.rating_count`: the number of ratings attached to the article. */
  function RatingCount(db: Db, article: nat): (n: nat)
    ensures n <= |db.ratings|
    ensures n == 0 <==> forall r :: r in db.ratings ==> r.article != article
  {
    var rs := RatingsOf(db.ratings, article);
    assert rs != [] ==> rs[0] in rs;
    |rs|
  }

  /** With distinct primary keys, `rating_count` is the number of ratings that refer to the
      article, counted by id. */
  lemma RatingCountIsIds(db: Db, article: nat)
    requires Distinct(db.ratings, RatingId)
    ensures RatingCount(db, article) == |set r | r in db.ratings && r.article == article :: r.id|
  {
    var rs := RatingsOf(db.ratings, article);
    FilterDistinct(db.ratings, (r: Rating) => r.article == article, RatingId);
    DistinctKeyCount(rs, RatingId);
    assert KeysOf(rs, RatingId) == set r | r in db.ratings && r.article == article :: r.id;
  }

  /** `Article.review_count`: the number of comments attached to the article. */
  function ReviewCount(db: Db, article: nat): (n: nat)
    ensures n <= |db.comments|
    ensures n == 0 <==> forall c :: c in db.comments ==> c.article != article
  {
    var cs := Filter(db.comments, (c: Comment) => c.article == article);
    assert cs != [] ==> cs[0] in cs;
    |cs|
  }

  /** With distinct primary keys, `review_count` is the number of comments that refer to the
      article, counted by id. */
  lemma ReviewCountIsIds(db: Db, article: nat)
    requires Distinct(db.comments, CommentId)
    ensures ReviewCount(db, article) == |set c | c in db.comments && c.article == article :: c.id|
  {
    var cs := Filter(db.comments, (c: Comment) => c.article == article);
    FilterDistinct(db.comments, (c: Comment) => c.article == article, CommentId);
    DistinctKeyCount(cs, CommentId);
    assert KeysOf(cs, CommentId) == set c | c in db.comments && c.article == article :: c.id;
  }

  /** `Article.average_rating`: the mean of the article's ratings, or 0 without ratings. */
  function AverageRating(db: Db, article: nat): (avg: real)
    ensures RatingCount(db, article) == 0 ==> avg == 0.0
    ensures RatingCount(db, article) > 0 && RatingsInRange(db.ratings) ==>
              MinRating as real <= avg <= MaxRating as real
  {
    var rs := RatingsOf(db.ratings, article);
    assert forall r :: r in rs ==> r in db.ratings;
    MeanRating(rs)
  }

  /** `average_rating` is the mean: times `rating_count` it gives the sum of the article's
      rating values. */
  lemma AverageRatingIsMean(db: Db, article: nat)
    ensures AverageRating(db, article) * RatingCount(db, article) as real ==
            SumRatings(RatingsOf(db.ratings, article)) as real
  {
    AverageRatingUnfolds(db, article);
    MeanTimesCount(AverageRating(db, article), RatingCount(db, article), RatingsOf(db.ratings, article));
  }

  /** The ids of the articles an employee has published. */
  function PublishedIdsOf(articles: seq<Article>, employee: nat): set<nat>
  {
    set a | a in articles && a.author == employee && a.isPublished :: a.id
  }

  /** `Employee.author_rating`: the mean over every rating on the employee's
      published articles, or 0 when there is none. */
  function AuthorRating(db: Db, employee: nat): (avg: real)
    ensures (forall r :: r in db.ratings ==> r.article !in PublishedIdsOf(db.articles, employee)) ==>
              avg == 0.0
    ensures RatingsInRange(db.ratings) && (exists r :: r in db.ratings && r.article in PublishedIdsOf(db.articles, employee)) ==>
              MinRating as real <= avg <= MaxRating as real
  {
    var rs := AuthorRatings(db, employee);
    assert forall r :: r in rs ==> r in db.ratings;
    assert rs != [] ==> rs[0] in rs;
    MeanRating(rs)
  }

  /** The ratings on the employee's published articles. */
  function AuthorRatings(db: Db, employee: nat): seq<Rating>
  {
    Filter(db.ratings, (r: Rating) => r.article in PublishedIdsOf(db.articles, employee))
  }

  /** `author_rating` is the mean: times the number of ratings on the employee's published
      articles it gives the sum of their values. */
  lemma AuthorRatingIsMean(db: Db, employee: nat)
    ensures AuthorRating(db, employee) * |AuthorRatings(db, employee)| as real ==
            SumRatings(AuthorRatings(db, employee)) as real
  {
    AuthorRatingUnfolds(db, employee);
    MeanTimesLength(AuthorRating(db, employee), AuthorRatings(db, employee));
  }

  /** `author_rating` is the mean of the ratings on the employee's published articles. */
  lemma AuthorRatingUnfolds(db: Db, employee: nat)
    ensures AuthorRating(db, employee) == MeanRating(AuthorRatings(db, employee))
  {
  }

  // ---------------------------------------------------------------------------
  // Deleting records

  datatype DeleteResult = Deleted(after: Db) | ProtectedError

  /** Deleting a knowledge base: `Category.knowledge_base` is `PROTECT`, so the delete is
      refused while a category still belongs to it; otherwise only the knowledge base goes. */
  function DeleteKnowledgeBase(db: Db, id: nat): (r: DeleteResult)
    ensures r.ProtectedError? <==> exists c :: c in db.categories && c.kb == id
    ensures r.Deleted? ==>
              && (forall k :: k in r.after.kbs <==> k in db.kbs && k.id != id)
              && r.after.(kbs := db.kbs) == db
  {
    var owned := Filter(db.categories, (c: Category) => c.kb == id);
    if owned != [] then
      assert owned[0] in owned;
      ProtectedError
    else
      Deleted(db.(kbs := Filter(db.kbs, (k: KnowledgeBase) => k.id != id)))
  }

  /** The ratings and comments of the articles whose ids are in `doomed` go
      (`Rating.article` and `Comment.article` are `CASCADE`). */
  function WithoutFeedbackOn(db: Db, doomed: set<nat>): (r: Db)
    ensures r.kbs == db.kbs && r.categories == db.categories && r.employees == db.employees
    ensures r.articles == db.articles
    ensures forall x :: x in r.ratings <==> x in db.ratings && x.article !in doomed
    ensures forall c :: c in r.comments <==> c in db.comments && c.article !in doomed
  {
    db.(ratings := Filter(db.ratings, (x: Rating) => x.article !in doomed),
        comments := Filter(db.comments, (c: Comment) => c.article !in doomed))
  }

  /** Deleting an article removes its ratings and comments. */
  function DeleteArticle(db: Db, id: nat): (r: Db)
    ensures r.kbs == db.kbs && r.categories == db.categories && r.employees == db.employees
    ensures forall a :: a in r.articles <==> a in db.articles && a.id != id
    ensures forall x :: x in r.ratings <==> x in db.ratings && x.article != id
    ensures forall c :: c in r.comments <==> c in db.comments && c.article != id
  {
    var d := WithoutFeedbackOn(db, {id});
    d.(articles := Filter(db.articles, (a: Article) => a.id != id))
  }

  function ArticlesInCategory(articles: seq<Article>, category: nat): set<nat>
  {
    set a | a in articles && a.category == category :: a.id
  }

  function ArticlesBy(articles: seq<Article>, author: nat): set<nat>
  {
    set a | a in articles && a.author == author :: a.id
  }

  /** Deleting a category: `Article.category` is `CASCADE`, so its articles go,
      and with them their ratings and comments. */
  function DeleteCategory(db: Db, id: nat): (r: Db)
    ensures r.kbs == db.kbs && r.employees == db.employees
    ensures forall c :: c in r.categories <==> c in db.categories && c.id != id
    ensures forall a :: a in r.articles <==> a in db.articles && a.category != id
    ensures forall x :: x in r.ratings <==>
              x in db.ratings && x.article !in ArticlesInCategory(db.articles, id)
    ensures forall c :: c in r.comments <==>
              c in db.comments && c.article !in ArticlesInCategory(db.articles, id)
  {
    var doomed := ArticlesInCategory(db.articles, id);
    var d := WithoutFeedbackOn(db, doomed);
    d.(categories := Filter(db.categories, (c: Category) => c.id != id),
       articles := Filter(db.articles, (a: Article) => a.category != id))
  }

  /** Deleting an employee: `Article.author`, `Rating.employee` and `Comment.commentator`
      are `CASCADE`, so the employee's articles (with their ratings and comments), ratings
      and comments all go. */
  function DeleteEmployee(db: Db, id: nat): (r: Db)
    ensures r.kbs == db.kbs && r.categories == db.categories
    ensures forall e :: e in r.employees <==> e in db.employees && e.id != id
    ensures forall a :: a in r.articles <==> a in db.articles && a.author != id
    ensures forall x :: x in r.ratings <==>
              x in db.ratings && x.employee != id && x.article !in ArticlesBy(db.articles, id)
    ensures forall c :: c in r.comments <==>
              c in db.comments && c.commentator != id && c.article !in ArticlesBy(db.articles, id)
  {
    var doomed := ArticlesBy(db.articles, id);
    var d := WithoutFeedbackOn(db, doomed);
    d.(articles := Filter(db.articles, (a: Article) => a.author != id),
       employees := Filter(db.employees, (e: Employee) => e.id != id),
       ratings := Filter(d.ratings, (x: Rating) => x.employee != id),
       comments := Filter(d.comments, (c: Comment) => c.commentator != id))
  }

  /** Deleting a comment touches nothing else. */
  function DeleteComment(db: Db, id: nat): (r: Db)
    ensures r.(comments := db.comments) == db
    ensures forall c :: c in r.comments <==> c in db.comments && c.id != id
  {
    db.(comments := Filter(db.comments, (c: Comment) => c.id != id))
  }
}

/** Every delete leaves a well-formed store well-formed: no key is duplicated and no
    foreign key is left pointing at a record that is gone. */
module DeleteInvariants {
  import opened Seqs
  import opened Entities

  lemma DeleteKnowledgeBaseKeepsWellFormed(db: Db, id: nat)
    requires WellFormed(db)
    ensures DeleteKnowledgeBase(db, id).Deleted? ==> WellFormed(DeleteKnowledgeBase(db, id).after)
  {
    var res := DeleteKnowledgeBase(db, id);
    if res.Deleted? {
      var r := res.after;
      FilterDistinct(db.kbs, (k: KnowledgeBase) => k.id != id, KbId);
      FilterDistinct(db.kbs, (k: KnowledgeBase) => k.id != id, KbTitle);
      forall c | c in r.categories ensures c.kb in KbIds(r.kbs) {
        var k :| k in db.kbs && k.id == c.kb;
        assert k in r.kbs;
      }
    }
  }

  lemma DeleteArticleKeepsWellFormed(db: Db, id: nat)
    requires WellFormed(db)
    ensures WellFormed(DeleteArticle(db, id))
  {
    var r := DeleteArticle(db, id);
    var doomed: set<nat> := {id};
    FilterDistinct(db.articles, (a: Article) => a.id != id, ArticleId);
    FilterDistinct(db.ratings, (x: Rating) => x.article !in doomed, RatingId);
    FilterDistinct(db.ratings, (x: Rating) => x.article !in doomed, RaterKey);
    FilterDistinct(db.comments, (c: Comment) => c.article !in doomed, CommentId);
    forall x | x in r.ratings ensures x.article in ArticleIds(r.articles) {
      var a :| a in db.articles && a.id == x.article;
      assert a in r.articles;
    }
    forall c | c in r.comments ensures c.article in ArticleIds(r.articles) {
      var a :| a in db.articles && a.id == c.article;
      assert a in r.articles;
    }
  }

  lemma DeleteCategoryKeepsWellFormed(db: Db, id: nat)
    requires WellFormed(db)
    ensures WellFormed(DeleteCategory(db, id))
  {
    var r := DeleteCategory(db, id);
    var doomed := ArticlesInCategory(db.articles, id);
    FilterDistinct(db.categories, (c: Category) => c.id != id, CategoryId);
    FilterDistinct(db.categories, (c: Category) => c.id != id, TopicKey);
    FilterDistinct(db.articles, (a: Article) => a.category != id, ArticleId);
    FilterDistinct(db.ratings, (x: Rating) => x.article !in doomed, RatingId);
    FilterDistinct(db.ratings, (x: Rating) => x.article !in doomed, RaterKey);
    FilterDistinct(db.comments, (c: Comment) => c.article !in doomed, CommentId);
    forall a | a in r.articles ensures a.category in CategoryIds(r.categories) {
      var c :| c in db.categories && c.id == a.category;
      assert c in r.categories;
    }
    forall x | x in r.ratings ensures x.article in ArticleIds(r.articles) {
      var a :| a in db.articles && a.id == x.article;
      assert a.category == id ==> a.id in doomed;
      assert a in r.articles;
    }
    forall c | c in r.comments ensures c.article in ArticleIds(r.articles) {
      var a :| a in db.articles && a.id == c.article;
      assert a.category == id ==> a.id in doomed;
      assert a in r.articles;
    }
  }

  /** No key is duplicated and every rating stays in range after the employee cascade. */
  lemma DeleteEmployeeKeepsKeys(db: Db, id: nat)
    requires WellFormed(db)
    ensures UniqueKeys(DeleteEmployee(db, id)) && RatingsInRange(DeleteEmployee(db, id).ratings)
  {
    var doomed := ArticlesBy(db.articles, id);
    var d := WithoutFeedbackOn(db, doomed);
    FilterDistinct(db.employees, (e: Employee) => e.id != id, EmployeeId);
    FilterDistinct(db.employees, (e: Employee) => e.id != id, Username);
    FilterDistinct(db.articles, (a: Article) => a.author != id, ArticleId);
    FilterDistinct(db.ratings, (x: Rating) => x.article !in doomed, RatingId);
    FilterDistinct(db.ratings, (x: Rating) => x.article !in doomed, RaterKey);
    FilterDistinct(db.comments, (c: Comment) => c.article !in doomed, CommentId);
    FilterDistinct(d.ratings, (x: Rating) => x.employee != id, RatingId);
    FilterDistinct(d.ratings, (x: Rating) => x.employee != id, RaterKey);
    FilterDistinct(d.comments, (c: Comment) => c.commentator != id, CommentId);
  }

  /** No surviving article names the deleted employee as author. */
  lemma DeleteEmployeeKeepsAuthors(db: Db, id: nat)
    requires ReferencesResolve(db)
    ensures var r := DeleteEmployee(db, id);
            forall a :: a in r.articles ==> a.author in EmployeeIds(r.employees)
  {
    var r := DeleteEmployee(db, id);
    forall a | a in r.articles ensures a.author in EmployeeIds(r.employees) {
      var e :| e in db.employees && e.id == a.author;
      assert e in r.employees;
    }
  }

  /** No surviving rating names the deleted employee or one of their articles. */
  lemma DeleteEmployeeKeepsRaters(db: Db, id: nat)
    requires ReferencesResolve(db)
    ensures var r := DeleteEmployee(db, id);
            forall x :: x in r.ratings ==> x.article in ArticleIds(r.articles) && x.employee in EmployeeIds(r.employees)
  {
    var r := DeleteEmployee(db, id);
    var doomed := ArticlesBy(db.articles, id);
    forall x | x in r.ratings
      ensures x.article in ArticleIds(r.articles) && x.employee in EmployeeIds(r.employees)
    {
      var a :| a in db.articles && a.id == x.article;
      assert a.author == id ==> a.id in doomed;
      assert a in r.articles;
      var e :| e in db.employees && e.id == x.employee;
      assert e in r.employees;
    }
  }

  /** No surviving comment names the deleted employee or one of their articles. */
  lemma DeleteEmployeeKeepsCommentators(db: Db, id: nat)
    requires ReferencesResolve(db)
    ensures var r := DeleteEmployee(db, id);
            forall c :: c in r.comments ==> c.article in ArticleIds(r.articles) && c.commentator in EmployeeIds(r.employees)
  {
    var r := DeleteEmployee(db, id);
    var doomed := ArticlesBy(db.articles, id);
    forall c | c in r.comments
      ensures c.article in ArticleIds(r.articles) && c.commentator in EmployeeIds(r.employees)
    {
      var a :| a in db.articles && a.id == c.article;
      assert a.author == id ==> a.id in doomed;
      assert a in r.articles;
      var e :| e in db.employees && e.id == c.commentator;
      assert e in r.employees;
    }
  }

  /** No article, rating or comment is left pointing at the employee or at their articles. */
  lemma DeleteEmployeeKeepsReferences(db: Db, id: nat)
    requires WellFormed(db)
    ensures ReferencesResolve(DeleteEmployee(db, id))
  {
    DeleteEmployeeKeepsAuthors(db, id);
    DeleteEmployeeKeepsRaters(db, id);
    DeleteEmployeeKeepsCommentators(db, id);
  }

  lemma DeleteEmployeeKeepsWellFormed(db: Db, id: nat)
    requires WellFormed(db)
    ensures WellFormed(DeleteEmployee(db, id))
  {
    DeleteEmployeeKeepsKeys(db, id);
    DeleteEmployeeKeepsReferences(db, id);
  }

  lemma DeleteCommentKeepsWellFormed(db: Db, id: nat)
    requires WellFormed(db)
    ensures WellFormed(DeleteComment(db, id))
  {
    FilterDistinct(db.comments, (c: Comment) => c.id != id, CommentId);
  }
}
