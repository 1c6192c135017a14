/**
 * The helpers of catalog/admin.py: the shortened text shown in the article
 * and comment lists, the per-parent counts shown in the knowledge-base and
 * category lists, the bulk publish and unpublish actions, and the rating
 * admin's refusal to add or delete ratings.
 */
module Admin {
  import opened Seqs
  import opened Entities
  import opened Store
  import opened Statistics

  /** How many characters of a long text the lists show, and what marks the cut. */
  const ShortLength := 50
  const Ellipsis := "..."

  /** `text[:50] + '...' if len(text) > 50 else text`. */
  function ShortText(text: string): (r: string)
    ensures |r| <= ShortLength + |Ellipsis|
    ensures |text| <= ShortLength ==> r == text
    ensures |text| > ShortLength ==> |r| == ShortLength + |Ellipsis| && r[..ShortLength] == text[..ShortLength]
    ensures |text| > ShortLength ==> r[ShortLength..] == Ellipsis
  {
    if |text| > ShortLength then text[..ShortLength] + Ellipsis else text
  }

  /** Whatever the input, the shown text starts with a piece of it: all of it when it is short,
      its first 50 characters otherwise. */
  lemma ShortTextKeepsPrefix(text: string)
    ensures var r := ShortText(text);
            var n := if |text| <= ShortLength then |text| else ShortLength;
            r[..n] <= text && (|text| > ShortLength ==> |r| == n + 3)
  {
  }

  /** Shortening an already shortened text changes nothing. */
  lemma ShortTextIdempotent(text: string)
    ensures ShortText(ShortText(text)) == ShortText(text)
  {
    if |text| > ShortLength {
      var r := ShortText(text);
      assert r[..ShortLength] == text[..ShortLength];
    }
  }

  /** `ArticleAdmin.get_short_content`. */
  function GetShortContent(a: Article): (r: string)
    ensures |r| <= ShortLength + |Ellipsis|
    ensures |a.content| <= ShortLength ==> r == a.content
    ensures |a.content| > ShortLength ==> r == a.content[..ShortLength] + Ellipsis
  {
    ShortText(a.content)
  }

  /** `CommentAdmin.get_short_commentary`. */
  function GetShortCommentary(c: Comment): (r: string)
    ensures |r| <= ShortLength + |Ellipsis|
    ensures |c.commentary| <= ShortLength ==> r == c.commentary
    ensures |c.commentary| > ShortLength ==> r == c.commentary[..ShortLength] + Ellipsis
  {
    ShortText(c.commentary)
  }

  /** `KnowledgeBaseAdmin.categories_count`: the categories of the knowledge base; it is zero
      exactly when the knowledge base can be deleted. */
  function CategoriesCount(db: Db, kb: nat): (n: nat)
    ensures n <= |db.categories|
    ensures n == 0 <==> DeleteKnowledgeBase(db, kb).Deleted?
  {
    var cs := CategoriesOf(db.categories, kb);
    assert cs != [] ==> cs[0] in cs;
    |cs|
  }

  /** With distinct primary keys, `categories_count` is the number of the knowledge base's
      categories, counted by id. */
  lemma CategoriesCountIsIds(db: Db, kb: nat)
    requires Distinct(db.categories, CategoryId)
    ensures CategoriesCount(db, kb) == |set c | c in db.categories && c.kb == kb :: c.id|
  {
    var cs := CategoriesOf(db.categories, kb);
    FilterDistinct(db.categories, (c: Category) => c.kb == kb, CategoryId);
    DistinctKeyCount(cs, CategoryId);
    assert KeysOf(cs, CategoryId) == set c | c in db.categories && c.kb == kb :: c.id;
  }

  function UnpublishedIn(articles: seq<Article>, id: nat): seq<Article>
  {
    Filter(articles, (a: Article) => a.category == id && !a.isPublished)
  }

  /** `obj.articles`: every article of the category, published or not. */
  function InCategory(articles: seq<Article>, id: nat): seq<Article>
  {
    Filter(articles, (a: Article) => a.category == id)
  }

  /** The category's articles split into its published and its unpublished ones. */
  lemma InCategorySplit(articles: seq<Article>, id: nat)
    ensures |InCategory(articles, id)| == |PublishedIn(articles, id)| + |UnpublishedIn(articles, id)|
  {
    FilterSplit(articles, (a: Article) => a.category == id,
                (a: Article) => a.category == id && a.isPublished,
                (a: Article) => a.category == id && !a.isPublished);
  }

  /** The category has no articles exactly when no article id refers to it. */
  lemma InCategoryEmpty(articles: seq<Article>, id: nat)
    ensures InCategory(articles, id) == [] <==> ArticlesInCategory(articles, id) == {}
  {
    var all := InCategory(articles, id);
    if all != [] {
      assert all[0] in all;
      assert all[0].id in ArticlesInCategory(articles, id);
    }
    if ArticlesInCategory(articles, id) != {} {
      var x :| x in ArticlesInCategory(articles, id);
      var a :| a in articles && a.category == id && a.id == x;
      assert a in all;
    }
  }

  /** `CategoryAdmin.articles_count`: every article of the category, published or not. */
  function ArticlesCount(db: Db, category: nat): (n: nat)
    ensures n == CategoryPublishedCount(db.articles, category) + |UnpublishedIn(db.articles, category)|
    ensures n >= CategoryPublishedCount(db.articles, category)
    ensures n == 0 <==> ArticlesInCategory(db.articles, category) == {}
  {
    InCategorySplit(db.articles, category);
    InCategoryEmpty(db.articles, category);
    |InCategory(db.articles, category)|
  }

  // ---------------------------------------------------------------------------
  // Bulk actions

  /** After the update every selected article carries the flag and every other article is
      one of those there were. */
  lemma {:induction false} PublishedFlagSet(articles: seq<Article>, selected: set<nat>, flag: bool)
    ensures forall a :: a in WithPublished(articles, selected, flag) && a.id in selected ==> a.isPublished == flag
    ensures forall a :: a in WithPublished(articles, selected, flag) && a.id !in selected ==> a in articles
    ensures forall a :: a in articles && a.id !in selected ==> a in WithPublished(articles, selected, flag)
    ensures ArticleIds(WithPublished(articles, selected, flag)) == ArticleIds(articles)
  {
    var r := WithPublished(articles, selected, flag);
    forall a | a in r ensures (a.id in selected ==> a.isPublished == flag) && (a.id !in selected ==> a in articles)
    {
      var i :| 0 <= i < |r| && r[i] == a;
    }
    forall a | a in articles ensures a.id in ArticleIds(r) && (a.id !in selected ==> a in r) {
      var i :| 0 <= i < |articles| && articles[i] == a;
      assert r[i] in r;
    }
  }

  /** A second bulk update over the same selection overrides the first. */
  lemma RepeatedUpdateOverrides(articles: seq<Article>, selected: set<nat>, first: bool, second: bool)
    ensures WithPublished(WithPublished(articles, selected, first), selected, second) ==
            WithPublished(articles, selected, second)
  {
  }

  /** Publishing never lowers the number of published articles and unpublishing never
      raises it. */
  lemma {:induction false} PublishingMovesTotal(articles: seq<Article>, selected: set<nat>, flag: bool)
    ensures flag ==> |Published(WithPublished(articles, selected, flag))| >= |Published(articles)|
    ensures !flag ==> |Published(WithPublished(articles, selected, flag))| <= |Published(articles)|
  {
    if articles != [] {
      var t := articles[1..];
      PublishingMovesTotal(t, selected, flag);
      var w := WithPublished(articles, selected, flag);
      assert w[1..] == WithPublished(t, selected, flag);
      assert |Published(articles)| == (if articles[0].isPublished then 1 else 0) + |Published(t)|;
      assert |Published(w)| == (if w[0].isPublished then 1 else 0) + |Published(w[1..])|;
    }
  }

  /** The same for `total_articles` of the whole store. */
  lemma PublishingMovesSiteTotal(db: Db, selected: set<nat>)
    ensures TotalArticles(db.(articles := WithPublished(db.articles, selected, true))) >= TotalArticles(db)
    ensures TotalArticles(db.(articles := WithPublished(db.articles, selected, false))) <= TotalArticles(db)
  {
    PublishingMovesTotal(db.articles, selected, true);
    PublishingMovesTotal(db.articles, selected, false);
  }

  /** `ArticleAdmin.publish_articles`: `queryset.update(is_published=True)` over the selected
      articles; the count in the message is the number of selected rows. */
  method PublishArticles(store: EntityStore, selected: set<nat>) returns (updated: nat)
    requires store.Valid()
    modifies store
    ensures store.Valid()
    ensures store.articles == WithPublished(old(store.articles), selected, true)
    ensures updated == |Filter(old(store.articles), (a: Article) => a.id in selected)|
    ensures store.Snapshot() == old(store.Snapshot()).(articles := store.articles)
  {
    updated := store.UpdatePublished(selected, true);
  }

  /** `ArticleAdmin.unpublish_articles`: the same with `is_published=False`. */
  method UnpublishArticles(store: EntityStore, selected: set<nat>) returns (updated: nat)
    requires store.Valid()
    modifies store
    ensures store.Valid()
    ensures store.articles == WithPublished(old(store.articles), selected, false)
    ensures updated == |Filter(old(store.articles), (a: Article) => a.id in selected)|
    ensures store.Snapshot() == old(store.Snapshot()).(articles := store.articles)
  {
    updated := store.UpdatePublished(selected, false);
  }

  // ---------------------------------------------------------------------------
  // RatingAdmin

  /** `RatingAdmin.has_add_permission`: ratings are never added through the admin. */
  function HasAddPermission(user: Employee): (allowed: bool)
    ensures !allowed
  {
    false
  }

  /** `RatingAdmin.has_delete_permission`: ratings are never deleted through the admin, not
      even by a superuser. */
  function HasDeletePermission(user: Employee, r: Option<Rating>): (allowed: bool)
    ensures !allowed
  {
    false
  }
}
