# knowledge-hub entity store, in Dafny

This project models the core of the knowledge-hub portal. Employees write articles, file them under categories of knowledge bases, and rate and comment on them. The database is modelled as an entity store: one sequence of records per table (knowledge bases, categories, employees, articles, ratings, comments), with records referring to each other by primary key. On top of that store the model covers:

- the schema's rules and the models' derived values (`catalog/models.py`):
  - the unique keys and the rating choices 1..5;
  - what each delete does (`PROTECT` refuses, `CASCADE` removes the dependants);
  - the view counter;
  - average rating, rating and review counts, the author's rating and published-article count;
  - the display name;
- the site statistics (`catalog/utils.py`): six counts in a fixed order, and four "first by descending score" picks;
- the request handlers (`catalog/views.py`):
  - the article detail page: every fetch bumps the view counter, and a POST appends a comment and upserts a rating;
  - the ownership and superuser checks;
  - the split of the statistics between two pages;
  - the employee list and the per-category article and author lists;
- the admin helpers (`catalog/admin.py`): text shortening, per-parent counts, bulk publish/unpublish, and the rating admin's permissions.

Layout:

- `seqs.dfy` (`Seqs`): filter, arg-max and sort over sequences. These stand in for `filter`, `count`, `order_by` and `first`.
- `text.dfy` (`Text`): case-insensitive containment and the string order.
- `entities.dfy`:
  - `Entities`: the records, the store invariant `WellFormed`, the derived values and the deletes;
  - `DeleteInvariants`: each delete keeps the store well formed.
- `store.dfy` (`Store`): the `EntityStore` class, whose six `seq` fields the writes reassign in place. Each write is specified by a function of the old tables.
- `statistics.dfy` (`Statistics`), `views.dfy` (`Views`), `admin.dfy` (`Admin`): the three source files of the same names.
- `fixtures.dfy` (`Fixtures`): the stores the repository's test cases build, and the values the model computes on them.

The model follows the code in these points. Where the repository's tests expect something else, the test is cited:

- Deleting a category cascades to its articles. `Article.category` is `CASCADE` (catalog/models.py:137-141), and `catalog/views.py` defines no category delete view that could refuse it. The test at catalog/tests/test_views.py:392-413 expects a category with an article to survive, but it posts to the knowledge-base delete URL.
- `reading_time` is a plain field with default 0 (catalog/models.py:147). Nothing computes it. The test at catalog/tests/test_models.py:127-145 expects 6 for 360 words.
- Only the commentator passes the comment views' checks, and a superuser is not exempt (catalog/views.py:445-447, 460-462). Only the owner passes the profile update check (catalog/views.py:473-474), and only a superuser passes the employee delete check (catalog/views.py:486-487).
- The models have no `created_by` field. The tests pass one, for example at catalog/tests/test_admin.py:80 and catalog/tests/test_utils.py:24.

## Model

| member | source | states |
|---|---|---|
| Entities.FullName | catalog/models.py:84-95 | "first last" when both names are non-empty (length adds up), otherwise the username |
| Entities.FullNameSplits | catalog/models.py:89-95 | the display name splits back at its first space into first and last name when the first name has no space |
| Entities.PublishedArticlesCount | catalog/models.py:97-101 | at most the table size; zero exactly when the employee has no published article |
| Entities.PublishedArticlesCountIsIds | catalog/models.py:97-101 | with distinct primary keys, the count is the number of ids of the employee's published articles |
| Entities.AuthorRating | catalog/models.py:103-117 | 0 when no rating sits on one of the employee's published articles; otherwise between 1 and 5 when ratings are in range |
| Entities.AuthorRatingIsMean | catalog/models.py:103-117 | the author rating times the number of ratings on the employee's published articles is the sum of their values |
| Entities.AverageRating | catalog/models.py:157-163 | 0 for an article without ratings; otherwise between 1 and 5 when ratings are in range |
| Entities.AverageRatingIsMean | catalog/models.py:157-163 | the average rating times `rating_count` is the sum of the article's rating values |
| Entities.MeanRating | catalog/models.py:161-163 | the mean times the number of ratings is their sum; 0 for no ratings; in 1..5 for ratings in range |
| Entities.RatingCount | catalog/models.py:165-169 | at most the table size; zero exactly when no rating refers to the article |
| Entities.RatingCountIsIds | catalog/models.py:165-169 | with distinct primary keys, the count is the number of ids of ratings on the article |
| Entities.ReviewCount | catalog/models.py:171-175 | at most the table size; zero exactly when no comment refers to the article |
| Entities.ReviewCountIsIds | catalog/models.py:171-175 | with distinct primary keys, the count is the number of ids of comments on the article |
| Entities.SumRatingsBounds | catalog/models.py:191-213 | ratings in 1..5 sum to between the count and five times the count |
| Entities.TitleIdentifiesKnowledgeBase | catalog/models.py:12-16 | in a well-formed store two knowledge bases with the same title are the same one |
| Entities.TopicIdentifiesCategory | catalog/models.py:36-49 | two categories with the same topic in the same knowledge base are the same one |
| Entities.UsernameIdentifiesEmployee | catalog/models.py:56 | two employees with the same username are the same one |
| Entities.OneRatingPerRater | catalog/models.py:191-219 | an employee holds at most one rating of an article, and its value is one of the five choices |
| Entities.ArticleParentsExist | catalog/models.py:131-141 | every article's author and category exist |
| Entities.FeedbackParentsExist | catalog/models.py:199-241 | every rating's and every comment's article and employee exist |
| Entities.CategoryParentExists | catalog/models.py:38-42 | every category's knowledge base exists |
| Entities.DeleteKnowledgeBase | catalog/models.py:39-43 | refused exactly when a category still belongs to the knowledge base; otherwise only that knowledge base goes |
| Entities.WithoutFeedbackOn | catalog/models.py:231-235 | the ratings and comments of the doomed articles go and nothing else changes |
| Entities.DeleteArticle | catalog/models.py:199-203 | the article goes with exactly its ratings and comments |
| Entities.DeleteCategory | catalog/models.py:137-141 | the category goes with its articles and their ratings and comments; knowledge bases and employees stay |
| Entities.DeleteEmployee | catalog/models.py:131-135 | the employee goes with their articles (and those articles' feedback), their ratings and their comments |
| Entities.DeleteComment | catalog/views.py:449-455 | only that comment goes |
| DeleteInvariants.DeleteKnowledgeBaseKeepsWellFormed | catalog/models.py:39-43 | a permitted knowledge-base delete leaves keys unique and every reference resolving |
| DeleteInvariants.DeleteArticleKeepsWellFormed | catalog/models.py:199-203 | deleting an article leaves no rating or comment pointing at it |
| DeleteInvariants.DeleteCategoryKeepsWellFormed | catalog/models.py:137-141 | the category cascade leaves no dangling article, rating or comment |
| DeleteInvariants.DeleteEmployeeKeepsWellFormed | catalog/models.py:131-135 | the employee cascade leaves no dangling article, rating or comment |
| DeleteInvariants.DeleteCommentKeepsWellFormed | catalog/models.py:231-241 | deleting a comment keeps the store well formed |
| Store.EntityStore.IncrementViews | catalog/models.py:178-182 | `views_count` of that one article rises by one; no other field, record or table changes; the invariant holds |
| Store.WithViews | catalog/models.py:178-182 | only `views_count` changes, and only on the article with that key, where it rises by the given amount |
| Store.ViewsAccumulate | catalog/views.py:338-340 | two bumps of the same article add up to one bump by two |
| Store.RaterIndex | catalog/views.py:358-362 | the first position holding the (article, employee) pair, or none when no rating holds it |
| Store.Upserted | catalog/views.py:358-362 | the pair ends up with a rating holding the submitted value; the table grows by at most one |
| Store.UpsertLeavesOneRating | catalog/views.py:354-362 | after the upsert the pair has exactly one rating, holding the submitted value |
| Store.UpsertKeepsOtherRatings | catalog/views.py:358-362 | ratings of other pairs are exactly those there were; the table grows only when the pair had no rating |
| Store.ResubmissionUpdates | catalog/views.py:358-362 | a second submission for the same pair gives the same table as submitting only the second value |
| Store.UpsertKeepsWellFormed | catalog/models.py:211-219 | a valid submission keeps ratings in 1..5, one per pair, and every reference resolving |
| Store.EntityStore.UpdateOrCreateRating | catalog/views.py:358-362 | the ratings become the upsert of the pair; `created` exactly when the pair had no rating |
| Store.EntityStore.AddComment | catalog/views.py:343-349 | appends one comment with a fresh id, this article and this commentator; nothing else changes |
| Store.EntityStore.FindArticle | catalog/views.py:317-318 | a position holding the primary key, or none exactly when no article has it |
| Store.EntityStore.FindComment | catalog/views.py:445-447 | a position holding the comment's primary key, or none exactly when no comment has it |
| Store.EntityStore.FindEmployee | catalog/views.py:473-474 | a position holding the employee's primary key, or none exactly when no employee has it |
| Store.EntityStore.SetCommentary | catalog/views.py:433-441 | only that comment's text changes; the invariant holds |
| Store.EntityStore.SetProfile | catalog/views.py:465-468 | only that employee's profile fields change; id and superuser flag stay; usernames stay unique |
| Store.SetPublished | catalog/admin.py:124 | sets the flag on every selected article and counts the selected rows |
| Store.PublishKeepsWellFormed | catalog/admin.py:121-138 | changing the published flag keeps every key and reference |
| Store.EntityStore.UpdatePublished | catalog/admin.py:124 | the articles become the flagged table; the count is the number of selected rows; other tables stay |
| Statistics.TotalArticles | catalog/utils.py:13 | at most the number of articles; zero exactly when nothing is published |
| Statistics.TotalArticlesIsIds | catalog/utils.py:13 | with distinct primary keys, `total_articles` is the number of ids of published articles |
| Statistics.AuthorsInBound | catalog/utils.py:15 | there are never more distinct authors than articles |
| Statistics.TotalAuthors | catalog/utils.py:15 | the distinct authors of published articles; never above `total_articles`; zero exactly when it is |
| Statistics.SiteStatistics | catalog/utils.py:5-23 | keys in the order kbs, categories, articles, comments, authors, employees, with the counts those names promise |
| Statistics.UnpublishedNotCounted | catalog/utils.py:13 | adding an unpublished article anywhere leaves every statistic unchanged |
| Statistics.CommentsIgnorePublishing | catalog/utils.py:14 | publishing or unpublishing leaves `total_comments` and the other table counts unchanged |
| Statistics.AsWrittenKeepsOtherCounts | catalog/utils.py:8-16 | the queries as written: same keys in the same order, and the same values except the two joined counts |
| Statistics.JoinedKnowledgeBaseCount | catalog/utils.py:8-11 | the query as written: at least the number of knowledge bases, and equal to it when none has two categories |
| Statistics.JoinedPublishedArticleCount | catalog/utils.py:12-16 | the query as written: at least the number of published articles, and equal to it when none has two comments |
| Statistics.JoinedCountsNeverLower | catalog/utils.py:8-16 | as written the counts never fall below the intended ones, and match them without fan-out |
| Statistics.FanOutExample | catalog/utils.py:8-16 | one knowledge base and one published article |
| Statistics.FanOutExampleWellFormed | catalog/utils.py:8-16 | that store is well formed |
| Statistics.FanOutKnowledgeBases | catalog/utils.py:8-11 | on it the knowledge-base query counts 2 |
| Statistics.FanOutArticles | catalog/utils.py:12-16 | on it the article query counts 2 where 1 article is published |
| Statistics.JoinedCountCounterexample | catalog/utils.py:8-16 | a well-formed store where the queries report 2 knowledge bases and 2 articles for 1 of each |
| Statistics.MostViewedArticle | catalog/utils.py:29-33 | absent exactly when nothing is published; otherwise a published article with views at least those of every published article |
| Statistics.TopRatedArticle | catalog/utils.py:35-42 | absent exactly when no published article is rated; otherwise a published rated article whose mean no other one exceeds |
| Statistics.MostActiveAuthor | catalog/utils.py:44-52 | absent exactly when no employee has a published article; otherwise one with at least 1, and no employee has more |
| Statistics.MostActiveAuthorPresent | catalog/utils.py:44-52 | in a well-formed store the author is present exactly when something is published |
| Statistics.CategoryPublishedCount | catalog/utils.py:54-60 | zero exactly when the category has no published article |
| Statistics.LargestCategory | catalog/utils.py:54-60 | ranges over all categories; absent only without categories; no category has more published articles |
| Statistics.GetTopStatistics | catalog/utils.py:26-61 | with nothing published only the largest category can be present; with something published the most viewed article is |
| Views.Islice | catalog/views.py:50-51 | the entries from `start` to `stop`, position by position |
| Views.HomeSiteStats | catalog/views.py:44 | a prefix of the statistics of length min(3, size) |
| Views.SecondHalfStats | catalog/views.py:50-51 | what follows the first `skip` entries; empty when `skip` reaches the end |
| Views.StatsPartition | catalog/views.py:89 | home entries followed by the list page's entries are exactly the statistics |
| Views.SiteStatsSplit | catalog/views.py:42-44 | home shows the knowledge-base, category and article counts; the list page the comment, author and employee counts |
| Views.CommentEditRule | catalog/views.py:445-462 | only the comment's commentator passes; the superuser flag changes nothing; no two different employees both pass |
| Views.EmployeeUpdateRule | catalog/views.py:473-474 | every employee passes for their own profile and for nobody else's, superuser or not |
| Views.EmployeeDeleteRule | catalog/views.py:486-487 | a superuser passes for every employee, their own account included; nobody else passes |
| Views.RatingFormValid | catalog/forms.py:75-83 | accepts a value exactly when it is one of the five `RATING_CHOICES` |
| Views.UsernameFreeKeepsUnique | catalog/forms.py:107-119 | the form's uniqueness check passes exactly when saving the profile keeps usernames unique |
| Views.GetArticle | catalog/views.py:317-320 | 404 exactly when the article is missing, with nothing changed; otherwise the article after its views rose by one |
| Views.ArticleDetailPost | catalog/views.py:338-367 | 404 with nothing changed for a missing article; otherwise views rise by two, a valid comment is appended, a valid rating upserted, other tables kept |
| Views.SubmitComment | catalog/views.py:343-352 | a valid comment adds one comment for this article and user; an invalid one changes nothing |
| Views.SubmitRating | catalog/views.py:354-365 | a rating in 1..5 is upserted for (article, user); any other value changes nothing |
| Views.CheckCommentOwner | catalog/views.py:445-447 | 404 exactly when no comment has the key, 403 exactly when it exists and the user did not write it |
| Views.CommentaryUpdate | catalog/views.py:433-447 | 404, then 403 unless the user wrote the comment, with nothing changed; otherwise only its text changes |
| Views.CommentaryDelete | catalog/views.py:449-462 | 404, then 403 unless the user wrote the comment, with nothing changed; otherwise only that comment goes |
| Views.EmployeeUpdate | catalog/views.py:465-474 | 404, then 403 unless it is the user's own profile; a form or username clash changes nothing; otherwise only that profile changes |
| Views.EmployeeDelete | catalog/views.py:477-487 | 403 exactly for a non-superuser, then 404; otherwise the employee delete cascades |
| Views.NameLeOrder | catalog/views.py:398 | ordering by last name then first name is total and transitive |
| Views.NameSorted | catalog/views.py:398 | a list sorted that way is ordered by last name, and by first name among equal last names |
| Text.ContainsIgnoringCase | catalog/views.py:394-397 | true exactly when the lower-cased query occurs at some position of the lower-cased string; so the empty query and any same-case occurrence match, and a match is never longer than the string |
| Text.CaseDoesNotMatter | catalog/views.py:394-397 | folding the string or the query to lower case first gives the same answer |
| Views.MatchingEmployees | catalog/views.py:385-397 | exactly the employees passing the authors filter and the name query, each as often as in the table |
| Views.EmployeesList | catalog/views.py:376-398 | exactly the employees passing the authors filter and the name query, each as often as in the table, ordered by last then first name |
| Views.ArticlesByCategory | catalog/views.py:275-280 | 404 for a missing category; otherwise exactly its published articles, as many as its published count, newest first |
| Views.UsernameLeOrder | catalog/models.py:80 | ordering by username is total and transitive |
| Views.AuthorsByCategory | catalog/views.py:294-299 | 404 for a missing category; otherwise exactly the employees with a published article in it, ordered by username |
| Views.AuthorsByCategoryOnce | catalog/views.py:296-299 | in a well-formed store each such author appears once |
| Admin.ShortText | catalog/admin.py:117 | at most 53 characters; text of at most 50 unchanged; longer text is its first 50 characters then "..." |
| Admin.ShortTextKeepsPrefix | catalog/admin.py:117 | the output starts with a prefix of the input (all of it, or 50 characters) |
| Admin.ShortTextIdempotent | catalog/admin.py:117 | shortening twice is shortening once |
| Admin.GetShortContent | catalog/admin.py:114-117 | the article's content under the 50-character rule |
| Admin.GetShortCommentary | catalog/admin.py:201-204 | the comment's text under the 50-character rule |
| Admin.CategoriesCount | catalog/admin.py:37-40 | at most the number of categories; zero exactly when deleting the knowledge base is permitted |
| Admin.CategoriesCountIsIds | catalog/admin.py:37-40 | with distinct primary keys, the count is the number of ids of the knowledge base's categories |
| Admin.ArticlesCount | catalog/admin.py:53-56 | published plus unpublished articles of the category; zero exactly when it has none |
| Admin.PublishedFlagSet | catalog/admin.py:121-138 | every selected article carries the flag, unselected ones are untouched, ids unchanged |
| Admin.RepeatedUpdateOverrides | catalog/admin.py:121-138 | a second update over the same selection overrides the first |
| Admin.PublishingMovesTotal | catalog/admin.py:121-138 | publishing never lowers the published count; unpublishing never raises it |
| Admin.PublishingMovesSiteTotal | catalog/admin.py:121-138 | the same for the site's `total_articles` |
| Admin.PublishArticles | catalog/admin.py:121-129 | the selected articles become published, the rest and the other tables stay; the reported count is the selected rows |
| Admin.UnpublishArticles | catalog/admin.py:131-139 | the selected articles become unpublished, the rest stay; the reported count is the selected rows |
| Admin.HasAddPermission | catalog/admin.py:168-169 | adding a rating through the admin is never permitted |
| Admin.HasDeletePermission | catalog/admin.py:171-172 | deleting a rating through the admin is never permitted |
| Fixtures.UtilsCaseWellFormed | catalog/tests/test_utils.py:22-56 | the statistics test's store is well formed |
| Fixtures.UtilsCaseSiteStatistics | catalog/tests/test_utils.py:58-65 | counts 1, 1, 2, 1, 1, 1; the queries as written agree on this store |
| Fixtures.UtilsCaseAverages | catalog/tests/test_utils.py:55-56 | BMW averages 5 and AUDI 3, one rating each |
| Fixtures.UtilsCaseTopStatistics | catalog/tests/test_utils.py:67-73 | most viewed AUDI, top rated BMW, the employee most active, the category largest |
| Fixtures.ArticleAverageCase | catalog/tests/test_admin.py:228-234 | ratings 4 and 5 average 4.5 over a count of 2 |
| Fixtures.AuthorRatingCase | catalog/tests/test_models.py:147-186 | published articles rated 3 and 5 give an author rating of 4 |
| Fixtures.CategoriesCountCase | catalog/tests/test_admin.py:95-102 | two categories give a count of 2 |
| Fixtures.ArticlesCountCase | catalog/tests/test_admin.py:152-159 | three unpublished articles give a count of 3, none published |

## Left out

- `round(..., 1)`: averages are exact rational means (`real`). Rounding to one decimal is not modelled, so `AverageRating` and `AuthorRating` are the unrounded values.
- The ORM, SQL, HTTP, templates, sessions, messages, redirects and URL routing. Querysets are filters, counts and sorts over sequences. The request user is a parameter and is assumed logged in.
- Pagination (`paginate_by`), which Django's paginator does.
- Form validation (`catalog/forms.py`). The comment form's verdict and cleaned text are inputs, and so is the employee form's verdict. The rating form is valid exactly for the five choices. The employee form's username-uniqueness check is modelled by `UsernameFree`.
- Timestamps (`auto_now`, `auto_now_add`, `timezone.now()`). A creation time is an integer the caller passes in; `recent_articles_count` and `updated_at` are not modelled.
- Concurrency: the race inside `update_or_create` and lost view-count updates.
- `Store.EntityStore.IncrementViews`: `PositiveIntegerField`'s database upper bound is not modelled; the counter is an unbounded `nat`.
- `Text.ContainsIgnoringCase` and `Text.StrLe`: case folding covers ASCII letters only, and strings are ordered by character code. The database's collation and Unicode case folding are not modelled.
- `Views.EmployeesList`: the search text is taken after the form has stripped it. Whitespace stripping is not modelled.
- The tie-break of `order_by(...).first()` and of sorting among equal keys. Any maximal element, or any order consistent with the keys, is allowed.
- The knowledge-base, category and article create/update/delete views. `catalog/urls.py` imports them, but `catalog/views.py` does not define them.
- `created_by`, and a computed `reading_time`. The tests expect them, but the models do not have them.
- `Category.__str__`, `Article.__str__`, `Rating.__str__` and `Comment.__str__`: display strings outside the modelled core.
- Annotated counts of the list pages that the core does not name (`KnowledgeBaseListView`, `CategoryListView`, `CategoriesByKnowledgeBaseView`, `CategoryDetailsView`, `EmployeeDetailsView`), and `RegisterView`.
- `Store.NextRatingId` and `Store.NextCommentId`: a new id is one more than the largest id present, so an id freed by deleting the newest row can come back; the database sequence never reuses ids. The model relies only on the new id being fresh.
- `Entities.WellFormed` includes the rating range 1..5, which only the forms enforce; the database column accepts any non-negative integer.

## Findings

| source | as written | input that shows it | evidently intended | confidence | as-written member | corrected member |
|---|---|---|---|---|---|---|
| catalog/utils.py:8-16 | `Count("id")` is aggregated in the same query as `Count("categories")` (and `Count("comments")`), so it counts the rows of a left join: a knowledge base once per category, a published article once per comment | one knowledge base with two categories, and one published article with two comments: `total_knowledge_bases` is 2 and `total_articles` is 2 | one per knowledge base and one per published article | likely; not executed | Statistics.JoinedCountCounterexample | Statistics.SiteStatistics |
