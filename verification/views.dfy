/**
 * The request handlers of catalog/views.py that read or change the store:
 * the split of the site statistics between the home page and the
 * knowledge-base list, the article detail page (each fetch of the article
 * bumps its view counter; a POST saves a comment and a rating), the
 * ownership and superuser checks of the comment and employee views, and the
 * querysets of the employee list and of the per-category article and author
 * lists.
 *
 * Every handler runs for a logged-in `user` (`LoginRequiredMixin`). A form's
 * verdict on its own input is a parameter: the form classes are not part of
 * this model, except that a rating is valid exactly when it is one of the
 * five choices.
 */
module Views {
  import opened Seqs
  import opened Text
  import opened Entities
  import opened Store
  import opened Statistics
  import DeleteInvariants

  // ---------------------------------------------------------------------------
  // HomeView and get_second_half_stats

  /** `islice(items, start, stop)`: the entries from position `start` up to, not including,
      position `stop`, or to the end when `stop` is `None`. */
  function Islice<T>(s: seq<T>, start: nat, stop: Option<nat>): (r: seq<T>)
    ensures var end := if stop.None? || stop.value > |s| then |s| else stop.value;
            |r| == (if start < end then end - start else 0)
    ensures forall i :: 0 <= i < |r| ==> start + i < |s| && r[i] == s[start + i]
  {
    var end := if stop.None? || stop.value > |s| then |s| else stop.value;
    if start < end then s[start..end] else []
  }

  /** `HomeView`: the first three entries of the statistics. */
  function HomeSiteStats(stats: seq<Stat>): (r: seq<Stat>)
    ensures r <= stats
    ensures |r| == if |stats| < 3 then |stats| else 3
  {
    Islice(stats, 0, Some(3))
  }

  /** `get_second_half_stats(stats_dict, skip)`: every entry after the first `skip`. */
  function SecondHalfStats(stats: seq<Stat>, skip: nat): (r: seq<Stat>)
    ensures skip <= |stats| ==> stats == stats[..skip] + r
    ensures skip >= |stats| ==> r == []
  {
    var r := Islice(stats, skip, None);
    assert skip <= |stats| ==> stats == stats[..skip] + r by {
      if skip <= |stats| {
        assert r == stats[skip..];
      }
    }
    r
  }

  /** The home page and the knowledge-base list (which skips three) together show every
      entry exactly once, in order. */
  lemma StatsPartition(stats: seq<Stat>)
    ensures HomeSiteStats(stats) + SecondHalfStats(stats, 3) == stats
  {
    if |stats| < 3 {
      assert HomeSiteStats(stats) == stats;
    }
  }

  /** For the site statistics the home page gets the knowledge-base, category and article
      counts and the list page the comment, author and employee counts. */
  lemma SiteStatsSplit(db: Db)
    ensures var home := HomeSiteStats(SiteStatistics(db));
            |home| == 3 && forall i :: 0 <= i < 3 ==> home[i].key == StatKeys[i]
    ensures var rest := SecondHalfStats(SiteStatistics(db), 3);
            |rest| == 3 && forall i :: 0 <= i < 3 ==> rest[i].key == StatKeys[i + 3]
  {
    var stats := SiteStatistics(db);
    var rest := SecondHalfStats(stats, 3);
    assert stats == stats[..3] + rest;
    forall i | 0 <= i < 3 ensures rest[i].key == StatKeys[i + 3] {
      assert rest[i] == stats[i + 3];
    }
  }

  // ---------------------------------------------------------------------------
  // Handler outcomes and the test_func predicates

  /** `Done`: the request took effect; `Invalid`: a form rejected its input and the page is
      shown again; `Forbidden`: 403; `NotFound`: 404. */
  datatype Status = Done | Invalid | Forbidden | NotFound

  /** `CommentaryUpdateView.test_func` and `CommentaryDeleteView.test_func`. */
  predicate MayEditComment(user: Employee, c: Comment)
  {
    c.commentator == user.id
  }

  /** `EmployeeUpdateView.test_func`. */
  predicate MayUpdateEmployee(user: Employee, target: Employee)
  {
    user.id == target.id
  }

  /** `EmployeeDeleteView.test_func`. */
  predicate MayDeleteEmployee(user: Employee)
  {
    user.isSuperuser
  }

  /** Only the comment's own commentator may edit or delete it: being a superuser grants
      nothing more, and no two different employees both pass for one comment. */
  lemma CommentEditRule(user: Employee, other: Employee, c: Comment)
    ensures MayEditComment(user, c) <==> MayEditComment(user.(isSuperuser := !user.isSuperuser), c)
    ensures MayEditComment(user, c) && MayEditComment(other, c) ==> user.id == other.id
  {
  }

  /** Every employee may edit their own profile and nobody else's, superuser or not. */
  lemma EmployeeUpdateRule(user: Employee, target: Employee)
    ensures MayUpdateEmployee(user, user)
    ensures target.id != user.id ==> !MayUpdateEmployee(user, target)
    ensures MayUpdateEmployee(user, target) <==>
            MayUpdateEmployee(user.(isSuperuser := !user.isSuperuser), target)
  {
  }

  /** Deleting looks at the requesting user alone: a superuser may delete every employee,
      their own account included, and everybody else may delete none. */
  lemma EmployeeDeleteRule(user: Employee, target: Employee)
    ensures user.isSuperuser ==> MayDeleteEmployee(user) && MayDeleteEmployee(user.(id := target.id))
    ensures !user.isSuperuser ==> !MayDeleteEmployee(user)
  {
  }

  // ---------------------------------------------------------------------------
  // ArticleDetailsView

  /** `ArticleDetailsView.get_object`: the article with primary key `id` once its
      `views_count` has gone up by one; 404 when there is none. */
  method GetArticle(store: EntityStore, id: nat) returns (r: Option<Article>)
    requires store.Valid()
    modifies store
    ensures store.Valid()
    ensures r.None? <==> id !in ArticleIds(old(store.articles))
    ensures r.None? ==> store.Snapshot() == old(store.Snapshot())
    ensures r.Some? ==> r.value.id == id && r.value in store.articles
    ensures r.Some? ==> store.articles == WithViews(old(store.articles), id, 1)
    ensures r.Some? ==> store.Snapshot() == old(store.Snapshot()).(articles := store.articles)
  {
    var k := store.FindArticle(id);
    if k.None? {
      return None;
    }
    store.IncrementViews(k.value);
    r := Some(store.articles[k.value]);
  }

  /** What a comment form received: the cleaned commentary and the form's verdict on it. */
  datatype CommentSubmission = CommentSubmission(commentary: string, valid: bool)

  /** `RatingForm` accepts exactly the five rating choices. */
  function RatingFormValid(value: int): (ok: bool)
    ensures ok <==> value in RatingChoices
  {
    MinRating <= value <= MaxRating
  }

  /** `ArticleDetailsView.post`. `get_object` runs twice, so the article's views go up by two.
      A valid comment is appended with the article and the user filled in; a valid rating is
      upserted for (article, user). An invalid form changes nothing. */
  method ArticleDetailPost(
    store: EntityStore, user: Employee, id: nat,
    comment: Option<CommentSubmission>, rating: Option<int>, now: int)
    returns (status: Status)
    requires store.Valid() && user.id in EmployeeIds(store.employees)
    modifies store
    ensures store.Valid()
    ensures status == Done || status == NotFound
    ensures status == NotFound <==> id !in ArticleIds(old(store.articles))
    ensures status == NotFound ==> store.Snapshot() == old(store.Snapshot())
    ensures status == Done ==> store.articles == WithViews(old(store.articles), id, 2)
    ensures status == Done ==>
              store.comments == old(store.comments) +
                if comment.Some? && comment.value.valid
                then [Comment(NextCommentId(old(store.comments)), id, user.id, comment.value.commentary, now)]
                else []
    ensures status == Done ==>
              store.ratings ==
                if rating.Some? && RatingFormValid(rating.value)
                then Upserted(old(store.ratings), id, user.id, rating.value)
                else old(store.ratings)
    ensures store.kbs == old(store.kbs) && store.categories == old(store.categories)
    ensures store.employees == old(store.employees)
  {
    ghost var before := store.Snapshot();
    var first := GetArticle(store, id);
    if first.None? {
      return NotFound;
    }
    var again := GetArticle(store, id);
    ViewsAccumulate(before.articles, id, 1, 1);
    ghost var viewed := store.Snapshot();
    assert viewed == before.(articles := WithViews(before.articles, id, 2));
    SubmitComment(store, user, id, comment, now);
    ghost var commented := store.Snapshot();
    assert commented == viewed.(comments := store.comments);
    SubmitRating(store, user, id, rating);
    status := Done;
  }

  /** The comment half of the POST: only the comments table changes. */
  method SubmitComment(store: EntityStore, user: Employee, id: nat, comment: Option<CommentSubmission>, now: int)
    requires store.Valid() && user.id in EmployeeIds(store.employees) && id in ArticleIds(store.articles)
    modifies store
    ensures store.Valid()
    ensures store.comments == old(store.comments) +
              if comment.Some? && comment.value.valid
              then [Comment(NextCommentId(old(store.comments)), id, user.id, comment.value.commentary, now)]
              else []
    ensures store.Snapshot() == old(store.Snapshot()).(comments := store.comments)
  {
    if comment.Some? && comment.value.valid {
      var c := store.AddComment(id, user.id, comment.value.commentary, now);
    }
  }

  /** The rating half of the POST: only the ratings table changes. */
  method SubmitRating(store: EntityStore, user: Employee, id: nat, rating: Option<int>)
    requires store.Valid() && user.id in EmployeeIds(store.employees) && id in ArticleIds(store.articles)
    modifies store
    ensures store.Valid()
    ensures store.ratings ==
              if rating.Some? && RatingFormValid(rating.value)
              then Upserted(old(store.ratings), id, user.id, rating.value)
              else old(store.ratings)
    ensures store.Snapshot() == old(store.Snapshot()).(ratings := store.ratings)
  {
    if rating.Some? && RatingFormValid(rating.value) {
      var created := store.UpdateOrCreateRating(id, user.id, rating.value);
    }
  }

  // ---------------------------------------------------------------------------
  // Comment update and delete: 404 when the comment is missing, then 403 unless the
  // user wrote it

  /** Looks up comment `id` and applies the ownership test; the comment is found by its
      primary key alone. */
  method CheckCommentOwner(store: EntityStore, user: Employee, id: nat) returns (status: Status, k: nat)
    requires store.Valid()
    ensures status == Done || status == Forbidden || status == NotFound
    ensures status == NotFound <==> forall c :: c in store.comments ==> c.id != id
    ensures status == Forbidden <==>
              exists c :: c in store.comments && c.id == id && !MayEditComment(user, c)
    ensures status == Done ==> k < |store.comments| && store.comments[k].id == id
    ensures status == Done ==> forall c :: c in store.comments && c.id == id ==> MayEditComment(user, c)
  {
    var found := store.FindComment(id);
    k := 0;
    if found.None? {
      return NotFound, 0;
    }
    k := found.value;
    forall c | c in store.comments && c.id == id ensures c == store.comments[k] {
      var j :| 0 <= j < |store.comments| && store.comments[j] == c;
    }
    if !MayEditComment(user, store.comments[k]) {
      assert store.comments[k] in store.comments;
      return Forbidden, k;
    }
    status := Done;
  }

  /** `CommentaryUpdateView`: the commentator saves a new commentary. */
  method CommentaryUpdate(store: EntityStore, user: Employee, id: nat, text: string, formValid: bool)
    returns (status: Status)
    requires store.Valid()
    modifies store
    ensures store.Valid()
    ensures status == NotFound <==> forall c :: c in old(store.comments) ==> c.id != id
    ensures status == Forbidden <==>
              exists c :: c in old(store.comments) && c.id == id && !MayEditComment(user, c)
    ensures status == Invalid <==>
              (exists c :: c in old(store.comments) && c.id == id) && !formValid && status != Forbidden
    ensures status != Done ==> store.Snapshot() == old(store.Snapshot())
    ensures status == Done ==>
              store.Snapshot() == old(store.Snapshot()).(comments := WithCommentary(old(store.comments), id, text))
  {
    var k;
    status, k := CheckCommentOwner(store, user, id);
    if status != Done {
      return;
    }
    assert store.comments[k] in store.comments;
    if !formValid {
      return Invalid;
    }
    store.SetCommentary(k, text);
  }

  /** `CommentaryDeleteView`: the commentator deletes the comment. */
  method CommentaryDelete(store: EntityStore, user: Employee, id: nat) returns (status: Status)
    requires store.Valid()
    modifies store
    ensures store.Valid()
    ensures status != Invalid
    ensures status == NotFound <==> forall c :: c in old(store.comments) ==> c.id != id
    ensures status == Forbidden <==>
              exists c :: c in old(store.comments) && c.id == id && !MayEditComment(user, c)
    ensures status != Done ==> store.Snapshot() == old(store.Snapshot())
    ensures status == Done ==> store.Snapshot() == DeleteComment(old(store.Snapshot()), id)
  {
    var k;
    status, k := CheckCommentOwner(store, user, id);
    if status != Done {
      return;
    }
    DeleteInvariants.DeleteCommentKeepsWellFormed(store.Snapshot(), id);
    store.Commit(DeleteComment(store.Snapshot(), id));
  }

  // ---------------------------------------------------------------------------
  // Employee update and delete

  /** The model form's uniqueness check: no other employee holds `name`. */
  predicate UsernameFree(employees: seq<Employee>, id: nat, name: string)
  {
    forall e :: e in employees && e.id != id ==> e.username != name
  }

  /** The uniqueness check is exactly what keeps usernames unique: in a table with distinct
      ids and usernames, saving a profile leaves the usernames distinct if and only if no
      other employee holds the new one. */
  lemma UsernameFreeKeepsUnique(employees: seq<Employee>, k: nat, p: Profile)
    requires k < |employees| && Distinct(employees, EmployeeId) && Distinct(employees, Username)
    ensures UsernameFree(employees, employees[k].id, p.username) <==>
            Distinct(WithProfileOf(employees, employees[k].id, p), Username)
  {
    var id := employees[k].id;
    var next := WithProfileOf(employees, id, p);
    forall j | 0 <= j < |employees| && j != k ensures next[j] == employees[j] {
      assert EmployeeId(employees[j]) != EmployeeId(employees[k]);
    }
    if UsernameFree(employees, id, p.username) {
      forall i, j | 0 <= i < j < |next| ensures Username(next[i]) != Username(next[j]) {
        assert Username(employees[i]) != Username(employees[j]);
        if i == k { assert employees[j] in employees; }
        if j == k { assert employees[i] in employees; }
      }
    } else {
      var e :| e in employees && e.id != id && e.username == p.username;
      var j :| 0 <= j < |employees| && employees[j] == e;
      assert next[j] == e && next[k].username == p.username;
      if j < k {
        assert Username(next[j]) == Username(next[k]);
      } else {
        assert Username(next[k]) == Username(next[j]);
      }
    }
  }

  /** `EmployeeUpdateView`: 404 when the employee is missing, then 403 unless it is the user's
      own profile; the edit is saved when the form accepts it. */
  method EmployeeUpdate(store: EntityStore, user: Employee, id: nat, p: Profile, formValid: bool)
    returns (status: Status)
    requires store.Valid()
    modifies store
    ensures store.Valid()
    ensures status == NotFound <==> id !in EmployeeIds(old(store.employees))
    ensures status == Forbidden <==> id in EmployeeIds(old(store.employees)) && user.id != id
    ensures status == Invalid <==>
              id in EmployeeIds(old(store.employees)) && user.id == id &&
              !(formValid && UsernameFree(old(store.employees), id, p.username))
    ensures status != Done ==> store.Snapshot() == old(store.Snapshot())
    ensures status == Done ==>
              store.Snapshot() == old(store.Snapshot()).(employees := WithProfileOf(old(store.employees), id, p))
  {
    var found := store.FindEmployee(id);
    if found.None? {
      return NotFound;
    }
    var k := found.value;
    if !MayUpdateEmployee(user, store.employees[k]) {
      return Forbidden;
    }
    if !formValid {
      return Invalid;
    }
    var free := true;
    var i := 0;
    while i < |store.employees|
      invariant 0 <= i <= |store.employees|
      invariant free <==> forall j :: 0 <= j < i && store.employees[j].id != id ==> store.employees[j].username != p.username
    {
      if store.employees[i].id != id && store.employees[i].username == p.username {
        free := false;
      }
      i := i + 1;
    }
    if !free {
      return Invalid;
    }
    store.SetProfile(k, p);
    status := Done;
  }

  /** `EmployeeDeleteView`: 403 unless the user is a superuser, then 404 when the employee is
      missing; the delete cascades to the employee's articles, ratings and comments. */
  method EmployeeDelete(store: EntityStore, user: Employee, id: nat) returns (status: Status)
    requires store.Valid()
    modifies store
    ensures store.Valid()
    ensures status != Invalid
    ensures status == Forbidden <==> !MayDeleteEmployee(user)
    ensures status == NotFound <==> MayDeleteEmployee(user) && id !in EmployeeIds(old(store.employees))
    ensures status != Done ==> store.Snapshot() == old(store.Snapshot())
    ensures status == Done ==> store.Snapshot() == DeleteEmployee(old(store.Snapshot()), id)
  {
    if !MayDeleteEmployee(user) {
      return Forbidden;
    }
    var found := store.FindEmployee(id);
    if found.None? {
      return NotFound;
    }
    DeleteInvariants.DeleteEmployeeKeepsWellFormed(store.Snapshot(), id);
    store.Commit(DeleteEmployee(store.Snapshot(), id));
    status := Done;
  }

  // ---------------------------------------------------------------------------
  // EmployeesListView

  /** `EmployeeSearchForm.query` accepts at most this many characters. */
  const QueryMaxLength := 255

  /** The name query filters only when the form accepts it and it is not empty. */
  predicate QueryApplies(query: string)
  {
    query != [] && |query| <= QueryMaxLength
  }

  predicate NameMatches(e: Employee, query: string)
  {
    ContainsIgnoringCase(e.firstName, query) || ContainsIgnoringCase(e.lastName, query)
  }

  /** `order_by("last_name", "first_name")`. */
  predicate NameLe(a: Employee, b: Employee)
  {
    if a.lastName != b.lastName then StrLe(a.lastName, b.lastName) else StrLe(a.firstName, b.firstName)
  }

  lemma NameLeOrder()
    ensures Total(NameLe) && Transitive(NameLe)
  {
    forall a: Employee, b: Employee ensures NameLe(a, b) || NameLe(b, a) {
      StrLeTotal(a.lastName, b.lastName);
      StrLeTotal(a.firstName, b.firstName);
    }
    forall a: Employee, b: Employee, c: Employee | NameLe(a, b) && NameLe(b, c) ensures NameLe(a, c) {
      if a.lastName == b.lastName && b.lastName == c.lastName {
        StrLeTransitive(a.firstName, b.firstName, c.firstName);
      } else if a.lastName != b.lastName && b.lastName != c.lastName {
        StrLeTransitive(a.lastName, b.lastName, c.lastName);
        if a.lastName == c.lastName {
          StrLeAntisymmetric(a.lastName, b.lastName);
        }
      }
    }
  }

  /** Sorted by `NameLe`, the list is ordered by last name, and by first name among equal
      last names. */
  lemma NameSorted(r: seq<Employee>)
    requires SortedBy(r, NameLe)
    ensures forall i, j :: 0 <= i < j < |r| ==> StrLe(r[i].lastName, r[j].lastName)
    ensures forall i, j :: 0 <= i < j < |r| && r[i].lastName == r[j].lastName ==>
              StrLe(r[i].firstName, r[j].firstName)
  {
    NameLeOrder();
    SortedAllPairs(r, NameLe);
    forall i, j | 0 <= i < j < |r| ensures StrLe(r[i].lastName, r[j].lastName) {
      StrLeReflexive(r[i].lastName);
    }
  }

  /** The two filters of `EmployeesListView.get_queryset`, before ordering: each employee
      they keep, they keep as often as the table holds it. */
  function MatchingEmployees(db: Db, filterType: Option<string>, query: string): (r: seq<Employee>)
    ensures forall e :: e in r <==>
              && e in db.employees
              && (filterType == Some("authors") ==> PublishedArticlesCount(db.articles, e.id) > 0)
              && (QueryApplies(query) ==> NameMatches(e, query))
    ensures multiset(r) <= multiset(db.employees)
    ensures forall e :: e in r ==> multiset(r)[e] == multiset(db.employees)[e]
  {
    var authors :=
      if filterType == Some("authors")
      then Filter(db.employees, (e: Employee) => PublishedArticlesCount(db.articles, e.id) > 0)
      else db.employees;
    FilterKeepsMultiplicities(db.employees, (e: Employee) => PublishedArticlesCount(db.articles, e.id) > 0);
    FilterKeepsMultiplicities(authors, (e: Employee) => NameMatches(e, query));
    if QueryApplies(query) then Filter(authors, (e: Employee) => NameMatches(e, query)) else authors
  }

  /** `EmployeesListView.get_queryset`: `filter=authors` keeps the employees with a published
      article, a name query keeps those whose first or last name contains it ignoring case,
      and the result is ordered by last name, then first name. */
  function EmployeesList(db: Db, filterType: Option<string>, query: string): (r: seq<Employee>)
    ensures forall e :: e in r <==>
              && e in db.employees
              && (filterType == Some("authors") ==> PublishedArticlesCount(db.articles, e.id) > 0)
              && (QueryApplies(query) ==> NameMatches(e, query))
    ensures multiset(r) <= multiset(db.employees)
    ensures forall e :: e in r ==> multiset(r)[e] == multiset(db.employees)[e]
    ensures forall i, j :: 0 <= i < j < |r| ==> StrLe(r[i].lastName, r[j].lastName)
    ensures forall i, j :: 0 <= i < j < |r| && r[i].lastName == r[j].lastName ==>
              StrLe(r[i].firstName, r[j].firstName)
  {
    var matched := MatchingEmployees(db, filterType, query);
    NameLeOrder();
    var r := SortBy(matched, NameLe);
    NameSorted(r);
    r
  }

  // ---------------------------------------------------------------------------
  // ArticleByCategoryView and AuthorsByCategoryView

  /** `order_by("-created_at")`. */
  predicate NewerOrSame(a: Article, b: Article)
  {
    a.createdAt >= b.createdAt
  }

  /** `ArticleByCategoryView.get_queryset`: 404 for a missing category; otherwise the
      category's published articles, newest first. */
  function ArticlesByCategory(db: Db, category: nat): (r: Option<seq<Article>>)
    ensures r.None? <==> category !in CategoryIds(db.categories)
    ensures r.Some? ==> forall a :: a in r.value <==> a in db.articles && a.category == category && a.isPublished
    ensures r.Some? ==> multiset(r.value) <= multiset(db.articles)
    ensures r.Some? ==> |r.value| == CategoryPublishedCount(db.articles, category)
    ensures r.Some? ==> forall i, j :: 0 <= i < j < |r.value| ==> r.value[i].createdAt >= r.value[j].createdAt
  {
    if category !in CategoryIds(db.categories) then None
    else
      var r := SortBy(PublishedIn(db.articles, category), NewerOrSame);
      SortedAllPairs(r, NewerOrSame);
      Some(r)
  }

  /** The authors of the published articles in `category`. */
  function AuthorIdsIn(articles: seq<Article>, category: nat): set<nat>
  {
    set a | a in articles && a.category == category && a.isPublished :: a.author
  }

  /** `Employee.Meta.ordering = ["username"]`, which the author list keeps. */
  predicate UsernameLe(a: Employee, b: Employee)
  {
    StrLe(a.username, b.username)
  }

  lemma UsernameLeOrder()
    ensures Total(UsernameLe) && Transitive(UsernameLe)
  {
    forall a: Employee, b: Employee ensures UsernameLe(a, b) || UsernameLe(b, a) {
      StrLeTotal(a.username, b.username);
    }
    forall a: Employee, b: Employee, c: Employee | UsernameLe(a, b) && UsernameLe(b, c)
      ensures UsernameLe(a, c)
    {
      StrLeTransitive(a.username, b.username, c.username);
    }
  }

  function AuthorsOf(db: Db, category: nat): seq<Employee>
  {
    Filter(db.employees, (e: Employee) => e.id in AuthorIdsIn(db.articles, category))
  }

  /** `AuthorsByCategoryView.get_queryset`: 404 for a missing category; otherwise the
      employees with a published article in it, ordered by username. */
  function AuthorsByCategory(db: Db, category: nat): (r: Option<seq<Employee>>)
    ensures r.None? <==> category !in CategoryIds(db.categories)
    ensures r.Some? ==> forall e :: e in r.value <==>
              e in db.employees &&
              exists a :: a in db.articles && a.author == e.id && a.category == category && a.isPublished
    ensures r.Some? ==> multiset(r.value) == multiset(AuthorsOf(db, category))
    ensures r.Some? ==> forall i, j :: 0 <= i < j < |r.value| ==> StrLe(r.value[i].username, r.value[j].username)
  {
    if category !in CategoryIds(db.categories) then None
    else
      UsernameLeOrder();
      var r := SortBy(AuthorsOf(db, category), UsernameLe);
      SortedAllPairs(r, UsernameLe);
      Some(r)
  }

  /** `.distinct()`: in a well-formed store each author appears once. */
  lemma AuthorsByCategoryOnce(db: Db, category: nat)
    requires WellFormed(db)
    ensures AuthorsByCategory(db, category).Some? ==>
              forall e :: multiset(AuthorsByCategory(db, category).value)[e] <= 1
  {
    DistinctOccursOnce(db.employees, EmployeeId);
  }
}
