/**
 * The store as the request handlers change it: one object whose fields are the
 * six tables. Its methods are the writes the portal performs:
 * `Article.increment_views`, `Rating.objects.update_or_create`, saving a new
 * comment, a bulk `queryset.update(is_published=...)`, and deletes (whose
 * effect on the tables is given by the functions of `Entities`).
 */
module Store {
  import opened Seqs
  import opened Entities

  // ---------------------------------------------------------------------------
  // Specification of the writes

  /** The articles with `views_count` of the article `id` raised by `extra`. */
  function WithViews(articles: seq<Article>, id: nat, extra: nat): (r: seq<Article>)
    ensures |r| == |articles|
    ensures forall i :: 0 <= i < |r| ==> r[i].(viewsCount := articles[i].viewsCount) == articles[i]
    ensures forall i :: 0 <= i < |r| ==>
              r[i].viewsCount == articles[i].viewsCount + if articles[i].id == id then extra else 0
  {
    seq(|articles|, i requires 0 <= i < |articles| =>
      if articles[i].id == id then articles[i].(viewsCount := articles[i].viewsCount + extra) else articles[i])
  }

  /** Two fetches of the detail object bump the counter by two. */
  lemma ViewsAccumulate(articles: seq<Article>, id: nat, m: nat, n: nat)
    ensures WithViews(WithViews(articles, id, m), id, n) == WithViews(articles, id, m + n)
  {
  }

  /** The first position of `rs` holding the rating that `employee` gave `article`. */
  function RaterIndex(rs: seq<Rating>, article: nat, employee: nat): (r: Option<nat>)
    ensures r.Some? ==> r.value < |rs| && RaterKey(rs[r.value]) == (article, employee)
    ensures r.Some? ==> forall j :: 0 <= j < r.value ==> RaterKey(rs[j]) != (article, employee)
    ensures r.None? ==> forall x :: x in rs ==> RaterKey(x) != (article, employee)
  {
    if rs == [] then None
    else if RaterKey(rs[0]) == (article, employee) then Some(0)
    else
      assert rs == [rs[0]] + rs[1..];
      match RaterIndex(rs[1..], article, employee)
      case None => None
      case Some(i) => Some(i + 1)
  }

  /** An id that no rating has yet (the database's next primary key). */
  function NextRatingId(rs: seq<Rating>): (id: nat)
    ensures forall x :: x in rs ==> x.id < id
  {
    MaxKey(rs, RatingId) + 1
  }

  function NextCommentId(cs: seq<Comment>): (id: nat)
    ensures forall c :: c in cs ==> c.id < id
  {
    MaxKey(cs, CommentId) + 1
  }

  /** `update_or_create(article=..., employee=..., defaults={"rating": value})`: the
      pair's existing rating takes the new value; without one, a rating is added. */
  function Upserted(rs: seq<Rating>, article: nat, employee: nat, value: int): (r: seq<Rating>)
    ensures |rs| <= |r| <= |rs| + 1
    ensures exists x :: x in r && RaterKey(x) == (article, employee) && x.value == value
  {
    match RaterIndex(rs, article, employee)
    case Some(i) =>
      var r := rs[i := rs[i].(value := value)];
      assert r[i] in r;
      r
    case None =>
      var r := rs + [Rating(NextRatingId(rs), article, employee, value)];
      assert r[|rs|] in r;
      r
  }

  /** After the upsert the pair has exactly one rating, and it holds the submitted value. */
  lemma UpsertLeavesOneRating(rs: seq<Rating>, article: nat, employee: nat, value: int)
    requires Distinct(rs, RaterKey)
    ensures Distinct(Upserted(rs, article, employee, value), RaterKey)
    ensures exists x :: x in Upserted(rs, article, employee, value) && RaterKey(x) == (article, employee)
    ensures forall x :: x in Upserted(rs, article, employee, value) && RaterKey(x) == (article, employee) ==>
              x.value == value
  {
    var r := Upserted(rs, article, employee, value);
    match RaterIndex(rs, article, employee)
    case Some(i) =>
      assert r[i] in r;
      forall x | x in r && RaterKey(x) == (article, employee) ensures x.value == value {
        var j :| 0 <= j < |r| && r[j] == x;
      }
    case None =>
      assert r[|rs|] in r;
      forall x | x in r && RaterKey(x) == (article, employee) ensures x.value == value {
        var j :| 0 <= j < |r| && r[j] == x;
      }
      forall i, j | 0 <= i < j < |r| ensures RaterKey(r[i]) != RaterKey(r[j]) {
        if j == |rs| {
          assert rs[i] in rs;
        }
      }
  }

  /** Ratings of every other (article, employee) pair are exactly the ones there were. */
  lemma UpsertKeepsOtherRatings(rs: seq<Rating>, article: nat, employee: nat, value: int)
    ensures forall x :: RaterKey(x) != (article, employee) ==>
              (x in Upserted(rs, article, employee, value) <==> x in rs)
    ensures |Upserted(rs, article, employee, value)| ==
            if RaterIndex(rs, article, employee).Some? then |rs| else |rs| + 1
  {
    var r := Upserted(rs, article, employee, value);
    match RaterIndex(rs, article, employee)
    case Some(i) =>
      forall x | RaterKey(x) != (article, employee) ensures x in r <==> x in rs {
        if x in rs {
          var j :| 0 <= j < |rs| && rs[j] == x;
          assert r[j] == x;
        }
        if x in r {
          var j :| 0 <= j < |r| && r[j] == x;
          assert rs[j] == x;
        }
      }
    case None =>
  }

  /** Resubmitting replaces the earlier value instead of adding a second rating. */
  lemma ResubmissionUpdates(rs: seq<Rating>, article: nat, employee: nat, first: int, second: int)
    ensures Upserted(Upserted(rs, article, employee, first), article, employee, second) ==
            Upserted(rs, article, employee, second)
  {
    var once := Upserted(rs, article, employee, first);
    match RaterIndex(rs, article, employee)
    case Some(i) =>
      RaterIndexAgrees(rs, once, article, employee);
    case None =>
      assert once[..|rs|] == rs;
      RaterIndexAgrees(rs, once[..|rs|], article, employee);
      RaterIndexPastEnd(once, |rs|, article, employee);
  }

  /** Sequences with the same keys position by position give the same index. */
  lemma {:induction false} RaterIndexAgrees(rs: seq<Rating>, ts: seq<Rating>, article: nat, employee: nat)
    requires |rs| == |ts|
    requires forall i :: 0 <= i < |rs| ==> RaterKey(rs[i]) == RaterKey(ts[i])
    ensures RaterIndex(rs, article, employee) == RaterIndex(ts, article, employee)
  {
    if rs != [] {
      RaterIndexAgrees(rs[1..], ts[1..], article, employee);
    }
  }

  /** When no position before `n` holds the pair and position `n` does, the index is `n`. */
  lemma RaterIndexPastEnd(ts: seq<Rating>, n: nat, article: nat, employee: nat)
    requires n < |ts| && RaterKey(ts[n]) == (article, employee)
    requires RaterIndex(ts[..n], article, employee).None?
    ensures RaterIndex(ts, article, employee) == Some(n)
  {
    var r := RaterIndex(ts, article, employee);
    forall j | 0 <= j < n ensures RaterKey(ts[j]) != (article, employee) {
      assert ts[j] in ts[..n];
    }
  }

  /** A valid submission keeps the store well formed: one rating per pair, ratings in range. */
  lemma UpsertKeepsWellFormed(db: Db, article: nat, employee: nat, value: int)
    requires WellFormed(db)
    requires article in ArticleIds(db.articles) && employee in EmployeeIds(db.employees)
    requires MinRating <= value <= MaxRating
    ensures WellFormed(db.(ratings := Upserted(db.ratings, article, employee, value)))
  {
    var rs := db.ratings;
    var r := Upserted(rs, article, employee, value);
    UpsertLeavesOneRating(rs, article, employee, value);
    match RaterIndex(rs, article, employee)
    case Some(i) =>
      forall j | 0 <= j < |r| ensures RatingId(r[j]) == RatingId(rs[j]) && r[j].article == rs[j].article
        && r[j].employee == rs[j].employee
      {
      }
      assert forall j, k :: 0 <= j < k < |r| ==> RatingId(r[j]) != RatingId(r[k]) by {
        forall j, k | 0 <= j < k < |r| ensures RatingId(r[j]) != RatingId(r[k]) {
          assert RatingId(rs[j]) != RatingId(rs[k]);
        }
      }
      forall x | x in r ensures MinRating <= x.value <= MaxRating
        && x.article in ArticleIds(db.articles) && x.employee in EmployeeIds(db.employees)
      {
        var j :| 0 <= j < |r| && r[j] == x;
        assert rs[j] in rs;
      }
    case None =>
      var newId := NextRatingId(rs);
      forall j, k | 0 <= j < k < |r| ensures RatingId(r[j]) != RatingId(r[k]) {
        if k == |rs| {
          assert rs[j] in rs;
        }
      }
  }

  /** The articles with `is_published` set to `flag` on those whose ids are `selected`. */
  function WithPublished(articles: seq<Article>, selected: set<nat>, flag: bool): (r: seq<Article>)
    ensures |r| == |articles|
    ensures forall i :: 0 <= i < |r| ==>
              r[i] == if articles[i].id in selected then articles[i].(isPublished := flag) else articles[i]
  {
    seq(|articles|, i requires 0 <= i < |articles| =>
      if articles[i].id in selected then articles[i].(isPublished := flag) else articles[i])
  }

  /** Changing the published flag keeps every key and every reference. */
  lemma PublishKeepsWellFormed(db: Db, selected: set<nat>, flag: bool)
    requires WellFormed(db)
    ensures WellFormed(db.(articles := WithPublished(db.articles, selected, flag)))
  {
    var r := WithPublished(db.articles, selected, flag);
    assert ArticleIds(r) == ArticleIds(db.articles) by {
      forall x | x in ArticleIds(db.articles) ensures x in ArticleIds(r) {
        var a :| a in db.articles && a.id == x;
        var j :| 0 <= j < |db.articles| && db.articles[j] == a;
        assert r[j].id == x;
      }
    }
    forall j, k | 0 <= j < k < |r| ensures ArticleId(r[j]) != ArticleId(r[k]) {
      assert ArticleId(db.articles[j]) != ArticleId(db.articles[k]);
    }
    forall a | a in r ensures a.author in EmployeeIds(db.employees) && a.category in CategoryIds(db.categories) {
      var j :| 0 <= j < |r| && r[j] == a;
      assert db.articles[j] in db.articles;
    }
  }

  /** One pass over the table: flips the flag on each selected row and counts the rows matched. */
  method SetPublished(articles: seq<Article>, selected: set<nat>, flag: bool)
    returns (next: seq<Article>, updated: nat)
    ensures next == WithPublished(articles, selected, flag)
    ensures updated == |Filter(articles, (a: Article) => a.id in selected)|
  {
    next := articles;
    var i := 0;
    updated := 0;
    while i < |articles|
      invariant 0 <= i <= |articles| == |next|
      invariant forall j :: 0 <= j < i ==>
                  next[j] == if articles[j].id in selected then articles[j].(isPublished := flag) else articles[j]
      invariant forall j :: i <= j < |articles| ==> next[j] == articles[j]
      invariant updated == Count(articles[..i], (a: Article) => a.id in selected)
    {
      assert articles[..i + 1] == articles[..i] + [articles[i]];
      CountSnoc(articles[..i], articles[i], (a: Article) => a.id in selected);
      if articles[i].id in selected {
        next := next[i := articles[i].(isPublished := flag)];
        updated := updated + 1;
      }
      i := i + 1;
    }
    assert articles[..i] == articles;
    CountIsFilterLength(articles, (a: Article) => a.id in selected);
    var w := WithPublished(articles, selected, flag);
    assert |next| == |w| && forall j :: 0 <= j < |w| ==> next[j] == w[j];
  }

  /** The fields `EmployeeUpdateForm` edits. */
  datatype Profile = Profile(
    username: string,
    email: string,
    firstName: string,
    lastName: string,
    level: string,
    project: string,
    position: string)

  function WithProfile(e: Employee, p: Profile): (r: Employee)
    ensures r.id == e.id && r.isSuperuser == e.isSuperuser
    ensures r.username == p.username && r.firstName == p.firstName && r.lastName == p.lastName
  {
    e.(username := p.username, email := p.email, firstName := p.firstName, lastName := p.lastName,
       level := p.level, project := p.project, position := p.position)
  }

  /** The comments with the commentary of comment `id` replaced by `text`. */
  function WithCommentary(comments: seq<Comment>, id: nat, text: string): (r: seq<Comment>)
    ensures |r| == |comments|
    ensures forall i :: 0 <= i < |r| ==>
              r[i] == if comments[i].id == id then comments[i].(commentary := text) else comments[i]
  {
    seq(|comments|, i requires 0 <= i < |comments| =>
      if comments[i].id == id then comments[i].(commentary := text) else comments[i])
  }

  /** The employees with the profile of employee `id` replaced by `p`. */
  function WithProfileOf(employees: seq<Employee>, id: nat, p: Profile): (r: seq<Employee>)
    ensures |r| == |employees|
    ensures forall i :: 0 <= i < |r| ==>
              r[i] == if employees[i].id == id then WithProfile(employees[i], p) else employees[i]
  {
    seq(|employees|, i requires 0 <= i < |employees| =>
      if employees[i].id == id then WithProfile(employees[i], p) else employees[i])
  }

  /** Raising one article's counter is `WithViews` and keeps the store well formed. */
  lemma ViewBumpKeepsWellFormed(db: Db, i: nat)
    requires WellFormed(db) && i < |db.articles|
    ensures var next := db.articles[i := db.articles[i].(viewsCount := db.articles[i].viewsCount + 1)];
            next == WithViews(db.articles, db.articles[i].id, 1) && WellFormed(db.(articles := next))
  {
    var before := db.articles;
    var next := before[i := before[i].(viewsCount := before[i].viewsCount + 1)];
    forall j | 0 <= j < |before| ensures next[j] == WithViews(before, before[i].id, 1)[j] {
      if j != i {
        assert ArticleId(before[i]) != ArticleId(before[j]);
      }
    }
    assert ArticleIds(next) == ArticleIds(before) by {
      forall x | x in ArticleIds(before) ensures x in ArticleIds(next) {
        var a :| a in before && a.id == x;
        var j :| 0 <= j < |before| && before[j] == a;
        assert next[j].id == x;
      }
    }
  }

  /** Editing one comment's text is `WithCommentary` and keeps the store well formed. */
  lemma CommentaryKeepsWellFormed(db: Db, i: nat, text: string)
    requires WellFormed(db) && i < |db.comments|
    ensures var next := db.comments[i := db.comments[i].(commentary := text)];
            next == WithCommentary(db.comments, db.comments[i].id, text) && WellFormed(db.(comments := next))
  {
    var before := db.comments;
    var next := before[i := before[i].(commentary := text)];
    forall j | 0 <= j < |before| ensures next[j] == WithCommentary(before, before[i].id, text)[j] {
      if j != i {
        assert CommentId(before[i]) != CommentId(before[j]);
      }
    }
    forall j, k | 0 <= j < k < |next| ensures CommentId(next[j]) != CommentId(next[k]) {
      assert CommentId(before[j]) != CommentId(before[k]);
    }
    forall c | c in next
      ensures c.article in ArticleIds(db.articles) && c.commentator in EmployeeIds(db.employees)
    {
      var j :| 0 <= j < |next| && next[j] == c;
      assert before[j] in before;
    }
  }

  /** Saving one employee's profile is `WithProfileOf` and, when no other employee holds the
      new username, keeps the store well formed. */
  lemma ProfileKeepsWellFormed(db: Db, i: nat, p: Profile)
    requires WellFormed(db) && i < |db.employees|
    requires forall e :: e in db.employees && e.id != db.employees[i].id ==> e.username != p.username
    ensures var next := db.employees[i := WithProfile(db.employees[i], p)];
            next == WithProfileOf(db.employees, db.employees[i].id, p) && WellFormed(db.(employees := next))
  {
    var before := db.employees;
    var next := before[i := WithProfile(before[i], p)];
    forall j | 0 <= j < |before| ensures next[j] == WithProfileOf(before, before[i].id, p)[j] {
      if j != i {
        assert EmployeeId(before[i]) != EmployeeId(before[j]);
      }
    }
    forall j, k | 0 <= j < k < |next|
      ensures EmployeeId(next[j]) != EmployeeId(next[k])
      ensures Username(next[j]) != Username(next[k])
    {
      assert EmployeeId(before[j]) != EmployeeId(before[k]);
      assert Username(before[j]) != Username(before[k]);
      if j == i { assert before[k] in before; }
      if k == i { assert before[j] in before; }
    }
    assert EmployeeIds(next) == EmployeeIds(before) by {
      forall x | x in EmployeeIds(before) ensures x in EmployeeIds(next) {
        var e :| e in before && e.id == x;
        var j :| 0 <= j < |before| && before[j] == e;
        assert next[j].id == x;
      }
    }
  }

  // ---------------------------------------------------------------------------
  // The store object

  class EntityStore {
    var kbs: seq<KnowledgeBase>
    var categories: seq<Category>
    var employees: seq<Employee>
    var articles: seq<Article>
    var ratings: seq<Rating>
    var comments: seq<Comment>

    function Snapshot(): Db
      reads this
    {
      Db(kbs, categories, employees, articles, ratings, comments)
    }

    ghost predicate Valid()
      reads this
    {
      WellFormed(Snapshot())
    }

    constructor (db: Db)
      requires WellFormed(db)
      ensures Snapshot() == db && Valid()
    {
      kbs, categories, employees := db.kbs, db.categories, db.employees;
      articles, ratings, comments := db.articles, db.ratings, db.comments;
    }

    /** The position of the article with primary key `id` (`get_object`'s lookup). */
    method FindArticle(id: nat) returns (r: Option<nat>)
      ensures r.Some? ==> r.value < |articles| && articles[r.value].id == id
      ensures r.None? <==> id !in ArticleIds(articles)
    {
      var i := 0;
      while i < |articles|
        invariant 0 <= i <= |articles|
        invariant forall j :: 0 <= j < i ==> articles[j].id != id
      {
        if articles[i].id == id {
          return Some(i);
        }
        i := i + 1;
      }
      r := None;
    }

    /** The position of the comment with primary key `id`. */
    method FindComment(id: nat) returns (r: Option<nat>)
      ensures r.Some? ==> r.value < |comments| && comments[r.value].id == id
      ensures r.None? <==> forall c :: c in comments ==> c.id != id
    {
      var i := 0;
      while i < |comments|
        invariant 0 <= i <= |comments|
        invariant forall j :: 0 <= j < i ==> comments[j].id != id
      {
        if comments[i].id == id {
          return Some(i);
        }
        i := i + 1;
      }
      r := None;
    }

    /** The position of the employee with primary key `id`. */
    method FindEmployee(id: nat) returns (r: Option<nat>)
      ensures r.Some? ==> r.value < |employees| && employees[r.value].id == id
      ensures r.None? <==> id !in EmployeeIds(employees)
    {
      var i := 0;
      while i < |employees|
        invariant 0 <= i <= |employees|
        invariant forall j :: 0 <= j < i ==> employees[j].id != id
      {
        if employees[i].id == id {
          return Some(i);
        }
        i := i + 1;
      }
      r := None;
    }

    /** `Article.increment_views`: `views_count` of that one article goes up by one;
        no other field and no other record changes. */
    method IncrementViews(i: nat)
      requires Valid() && i < |articles|
      modifies this
      ensures Valid()
      ensures articles == WithViews(old(articles), old(articles[i].id), 1)
      ensures Snapshot() == old(Snapshot()).(articles := articles)
    {
      ViewBumpKeepsWellFormed(Snapshot(), i);
      articles := articles[i := articles[i].(viewsCount := articles[i].viewsCount + 1)];
    }

    /** `Rating.objects.update_or_create(article=..., employee=..., defaults={"rating": value})`. */
    method UpdateOrCreateRating(article: nat, employee: nat, value: int) returns (created: bool)
      requires Valid()
      requires article in ArticleIds(articles) && employee in EmployeeIds(employees)
      requires MinRating <= value <= MaxRating
      modifies this
      ensures Valid()
      ensures created <==> RaterIndex(old(ratings), article, employee).None?
      ensures ratings == Upserted(old(ratings), article, employee, value)
      ensures Snapshot() == old(Snapshot()).(ratings := ratings)
    {
      UpsertKeepsWellFormed(Snapshot(), article, employee, value);
      var i := 0;
      while i < |ratings|
        invariant 0 <= i <= |ratings|
        invariant forall j :: 0 <= j < i ==> RaterKey(ratings[j]) != (article, employee)
      {
        if ratings[i].article == article && ratings[i].employee == employee {
          assert ratings[i] in ratings;
          ratings := ratings[i := ratings[i].(value := value)];
          return false;
        }
        i := i + 1;
      }
      ratings := ratings + [Rating(NextRatingId(ratings), article, employee, value)];
      created := true;
    }

    /** Saves a new comment by `commentator` on `article`, stamped `now`. */
    method AddComment(article: nat, commentator: nat, commentary: string, now: int) returns (c: Comment)
      requires Valid()
      requires article in ArticleIds(articles) && commentator in EmployeeIds(employees)
      modifies this
      ensures Valid()
      ensures c == Comment(NextCommentId(old(comments)), article, commentator, commentary, now)
      ensures c.id !in set x | x in old(comments) :: x.id
      ensures comments == old(comments) + [c]
      ensures Snapshot() == old(Snapshot()).(comments := comments)
    {
      c := Comment(NextCommentId(comments), article, commentator, commentary, now);
      ghost var before := comments;
      comments := comments + [c];
      forall j, k | 0 <= j < k < |comments| ensures CommentId(comments[j]) != CommentId(comments[k]) {
        if k == |before| {
          assert before[j] in before;
        }
      }
    }

    /** `queryset.update(is_published=flag)` over the articles whose ids are `selected`;
        the count it returns is the number of rows matched. */
    method UpdatePublished(selected: set<nat>, flag: bool) returns (updated: nat)
      requires Valid()
      modifies this
      ensures Valid()
      ensures articles == WithPublished(old(articles), selected, flag)
      ensures updated == |Filter(old(articles), (a: Article) => a.id in selected)|
      ensures Snapshot() == old(Snapshot()).(articles := articles)
    {
      PublishKeepsWellFormed(Snapshot(), selected, flag);
      articles, updated := SetPublished(articles, selected, flag);
    }

    /** Saves an edited `commentary` on the comment at position `i`; its article, its
        commentator and every other record stay as they were. */
    method SetCommentary(i: nat, text: string)
      requires Valid() && i < |comments|
      modifies this
      ensures Valid()
      ensures comments == WithCommentary(old(comments), old(comments[i].id), text)
      ensures Snapshot() == old(Snapshot()).(comments := comments)
    {
      CommentaryKeepsWellFormed(Snapshot(), i, text);
      comments := comments[i := comments[i].(commentary := text)];
    }

    /** Saves the edited profile fields of the employee at position `i`. The caller has made
        sure that no other employee holds the new username. */
    method SetProfile(i: nat, p: Profile)
      requires Valid() && i < |employees|
      requires forall e :: e in employees && e.id != employees[i].id ==> e.username != p.username
      modifies this
      ensures Valid()
      ensures employees == WithProfileOf(old(employees), old(employees[i].id), p)
      ensures Snapshot() == old(Snapshot()).(employees := employees)
    {
      ProfileKeepsWellFormed(Snapshot(), i, p);
      employees := employees[i := WithProfile(employees[i], p)];
    }

    /** Replaces the tables with the outcome of a delete. */
    method Commit(next: Db)
      requires WellFormed(next)
      modifies this
      ensures Valid() && Snapshot() == next
    {
      kbs, categories, employees := next.kbs, next.categories, next.employees;
      articles, ratings, comments := next.articles, next.ratings, next.comments;
    }
  }
}
