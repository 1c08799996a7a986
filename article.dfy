/** app/services/article.ts: articles hang on second-level categories. Adding,
    updating and deleting change the article table in place (class
    `Articles`); reading one article and listing articles by category and
    keyword are queries over the article and category tables. */
module ArticleService {
  import opened Wrappers
  import opened Types
  import opened Strings
  import opened Store
  import opened CategoryService

  /** An article record: the request's fields plus the two timestamps. */
  datatype Article = Article(
    title: string,
    desc: string,
    content: string,
    pid: Id,
    creTime: string,
    updateTime: string)

  /** The fields addArticle and updateArticle take. */
  datatype ArticleAddCredentials = ArticleAddCredentials(
    title: string,
    desc: string,
    content: string,
    pid: Id)

  /** `findOne({title, pid})`: an article with this title under this
      category already exists. */
  predicate TitleTaken(t: Table<Article>, title: string, pid: Id) {
    exists k :: k in t.docs && t.docs[k].title == title && t.docs[k].pid == pid
  }

  /** No two articles share both title and category. */
  ghost predicate UniqueTitles(t: Table<Article>) {
    forall j, k :: j in t.docs && k in t.docs && t.docs[j].title == t.docs[k].title && t.docs[j].pid == t.docs[k].pid
      ==> j == k
  }

  // ----------------------------------------------------------------- getArticle

  /** getArticle(id): the record, or 500 when the id is unknown. */
  function GetArticle(t: Table<Article>, id: Id): (r: ResponseInfo<WithId<Article>>)
    ensures r.code == 200 <==> id in t.docs
    ensures id in t.docs ==> r.data == Some(WithId(id, t.docs[id]))
    ensures id !in t.docs ==> r == Fail(500, ArticleMissing)
  {
    if id in t.docs then Found(WithId(id, t.docs[id])) else Fail(500, ArticleMissing)
  }

  // ---------------------------------------------------------------- articleList

  /** `$or: [{title: {$regex: kw}}, {desc: {$regex: kw}}]`. */
  predicate Matches(a: Article, kw: string) {
    Contains(a.title, kw) || Contains(a.desc, kw)
  }

  /** The filter of the direct search: the keyword, and the category only
      when `pid` is truthy (otherwise the `pid` key is deleted). */
  predicate Selected(a: Article, pid: Id, kw: string) {
    (pid != "" ==> a.pid == pid) && Matches(a, kw)
  }

  /** The direct search of articleList, in natural order. */
  function LeafSearch(arts: Table<Article>, pid: Id, kw: string): (r: seq<WithId<Article>>)
    ensures forall x :: x in r ==> x.id in arts.docs && x.doc == arts.docs[x.id] && Selected(x.doc, pid, kw)
    ensures arts.Valid() ==> forall k :: k in arts.docs && Selected(arts.docs[k], pid, kw) ==> WithId(k, arts.docs[k]) in r
  {
    arts.Find((a: Article) => Selected(a, pid, kw))
  }

  /** The per-child results of a root concatenated in the children's order
      (`res.reduce((pre, cur) => [...pre, ...cur], [])`). */
  function FanOut(arts: Table<Article>, children: seq<WithId<Category>>, kw: string): (r: seq<WithId<Article>>)
    ensures forall x :: x in r <==> exists c :: c in children && x in LeafSearch(arts, c.id, kw)
    decreases |children|
  {
    if children == [] then []
    else
      var init := children[..|children| - 1];
      var last := children[|children| - 1];
      var r := FanOut(arts, init, kw) + LeafSearch(arts, last.id, kw);
      assert forall c :: c in init ==> c in children;
      assert forall c :: c in children ==> c in init || c == last by {
        forall c | c in children ensures c in init || c == last {
          var i :| 0 <= i < |children| && children[i] == c;
          if i < |children| - 1 { assert init[i] == c; }
        }
      }
      r
  }

  /** articleList(pid, keyword) (both default to ""). With a truthy `pid`:
      an unknown category gives an empty list with a message; a root gives
      the articles of its children, child by child in categoryList order;
      any other category gives its own articles. A falsy `pid` searches
      every article. Each search keeps only articles whose title or
      description contains the keyword. */
  function ArticleList(arts: Table<Article>, cats: Table<Category>, pid: Id, kw: string): (r: ResponseInfo<seq<WithId<Article>>>)
    ensures r.code == 200 && r.data.Some?
    ensures pid != "" && pid !in cats.docs ==> r == ResponseInfo(200, Some(CategoryMissing), Some([]))
    ensures (pid == "" || pid in cats.docs) ==> r.msg.None?
    ensures forall x :: x in r.data.value ==> x.id in arts.docs && x.doc == arts.docs[x.id] && Matches(x.doc, kw)
  {
    if pid != "" then
      if pid !in cats.docs then ResponseInfo(200, Some(CategoryMissing), Some([]))
      else if cats.docs[pid].pid == ROOT then
        var children := CategoryList(cats, Some(pid)).data.value;
        if |children| > 0 then Found(FanOut(arts, children, kw)) else Found([])
      else Found(LeafSearch(arts, pid, kw))
    else Found(LeafSearch(arts, pid, kw))
  }

  /** The source recurses into articleList for each child of a root; for a
      child that recursive call is the direct search on the child, and never
      fails: the child is a stored, non-root category with a truthy id. */
  lemma ChildCallIsLeafSearch(arts: Table<Article>, cats: Table<Category>, root: Id, kw: string, c: WithId<Category>)
    requires ValidCategories(cats) && root in cats.docs && cats.docs[root].pid == ROOT
    requires c in CategoryList(cats, Some(root)).data.value
    ensures ArticleList(arts, cats, c.id, kw) == Found(LeafSearch(arts, c.id, kw))
  {
    assert c.id in cats.docs && c.doc.pid == root;
    ObjectIdShape(c.id);
    ObjectIdShape(root);
  }

  /** Listing a root gives exactly the matching articles whose category is
      a child of that root. */
  lemma {:induction false} RootListing(arts: Table<Article>, cats: Table<Category>, root: Id, kw: string, x: WithId<Article>)
    requires ValidCategories(cats) && arts.Valid()
    requires root in cats.docs && cats.docs[root].pid == ROOT
    ensures x in ArticleList(arts, cats, root, kw).data.value <==>
      && x.id in arts.docs && x.doc == arts.docs[x.id] && Matches(x.doc, kw)
      && x.doc.pid in cats.docs && cats.docs[x.doc.pid].pid == root
  {
    var children := CategoryList(cats, Some(root)).data.value;
    ObjectIdShape(root);
    if x.id in arts.docs && x.doc == arts.docs[x.id] && Matches(x.doc, kw)
       && x.doc.pid in cats.docs && cats.docs[x.doc.pid].pid == root {
      var c := WithId(x.doc.pid, cats.docs[x.doc.pid]);
      assert c in children;
      ObjectIdShape(c.id);
      assert Selected(arts.docs[x.id], c.id, kw);
      assert x in LeafSearch(arts, c.id, kw);
      assert x in FanOut(arts, children, kw);
    }
    if x in ArticleList(arts, cats, root, kw).data.value {
      assert |children| > 0;
      var c :| c in children && x in LeafSearch(arts, c.id, kw);
      assert c.id in cats.docs && cats.docs[c.id].pid == root;
      ObjectIdShape(c.id);
    }
  }

  /** Listing a category that is not a root gives exactly its own matching
      articles. */
  lemma LeafListing(arts: Table<Article>, cats: Table<Category>, pid: Id, kw: string, x: WithId<Article>)
    requires arts.Valid()
    requires pid in cats.docs && cats.docs[pid].pid != ROOT && pid != ""
    ensures x in ArticleList(arts, cats, pid, kw).data.value <==>
      x.id in arts.docs && x.doc == arts.docs[x.id] && Matches(x.doc, kw) && x.doc.pid == pid
  {
  }

  /** With no category and no keyword, every article is listed. */
  lemma {:induction false} ListAllArticles(arts: Table<Article>, cats: Table<Category>, k: Id)
    requires arts.Valid() && k in arts.docs
    ensures WithId(k, arts.docs[k]) in ArticleList(arts, cats, "", "").data.value
  {
    EmptyKeywordMatches(arts.docs[k].title);
  }

  // --------------------------------------------------------- the table class

  /** The article collection, with the category collection it consults. */
  class Articles {
    var table: Table<Article>
    const categories: Categories

    /** A valid table in which no (title, category) pair recurs: the
        duplicate checks of add and update keep it so. */
    ghost predicate Valid()
      reads this, categories
    {
      table.Valid() && UniqueTitles(table) && categories.Valid()
    }

    constructor (categories: Categories)
      requires categories.Valid()
      ensures Valid() && table.docs == map[] && this.categories == categories
    {
      table := Table([], map[]);
      this.categories := categories;
    }

    /** addArticle(data) with generated `id` and clock reading `now`: fails
        when the (title, pid) pair is taken, when the category does not
        exist, and when it is a root; otherwise inserts exactly the request's
        fields with both timestamps `now`. The category table is untouched
        (the article counters are not raised). */
    method AddArticle(data: ArticleAddCredentials, id: Id, now: string) returns (r: ResponseInfo<()>)
      requires Valid() && IsObjectId(id) && id !in table.docs
      modifies this
      ensures Valid() && categories.table == old(categories.table)
      ensures TitleTaken(old(table), data.title, data.pid) ==> r == Fail(500, ArticleExists) && table == old(table)
      ensures !TitleTaken(old(table), data.title, data.pid) && data.pid !in categories.table.docs
        ==> r == Fail(500, CategoryMissing) && table == old(table)
      ensures !TitleTaken(old(table), data.title, data.pid) && data.pid in categories.table.docs
        && categories.table.docs[data.pid].pid == ROOT
        ==> r == Fail(500, RootAttachment) && table == old(table)
      ensures !TitleTaken(old(table), data.title, data.pid) && data.pid in categories.table.docs
        && categories.table.docs[data.pid].pid != ROOT
        ==> r == Done() && table == old(table).Insert(id, Article(data.title, data.desc, data.content, data.pid, now, now))
    {
      if TitleTaken(table, data.title, data.pid) {
        return Fail(500, ArticleExists);
      }
      var parentInfo := GetCategory(categories.table, data.pid);
      if parentInfo.code != 200 {
        return Fail(parentInfo.code, CategoryMissing);
      }
      if parentInfo.data.value.doc.pid == ROOT {
        return Fail(500, RootAttachment);
      }
      table := table.Insert(id, Article(data.title, data.desc, data.content, data.pid, now, now));
      r := Done();
    }

    /** deleteArticle(id): fails on an unknown id, otherwise removes exactly
        that record. */
    method DeleteArticle(id: Id) returns (r: ResponseInfo<WithId<Article>>)
      requires Valid()
      modifies this
      ensures Valid() && categories.table == old(categories.table)
      ensures id !in old(table).docs ==> r == Fail(500, ArticleMissing) && table == old(table)
      ensures id in old(table).docs ==> r == Done() && table == old(table).Delete(id)
    {
      var info := GetArticle(table, id);
      if info.code != 200 {
        return info;
      }
      table := table.Delete(id);
      r := Done();
    }

    /** updateArticle(id, data): fails on an unknown id and whenever any
        article (the edited one included) already has the requested title
        and category; otherwise record `id` gets the new title, description,
        content and category and the new update time, keeping its creation
        time. The category is not checked. */
    method UpdateArticle(id: Id, data: ArticleAddCredentials, now: string) returns (r: ResponseInfo<WithId<Article>>)
      requires Valid()
      modifies this
      ensures Valid() && categories.table == old(categories.table)
      ensures id !in old(table).docs ==> r == Fail(500, ArticleMissing) && table == old(table)
      ensures id in old(table).docs && TitleTaken(old(table), data.title, data.pid)
        ==> r == Fail(500, ArticleExists) && table == old(table)
      ensures id in old(table).docs && !TitleTaken(old(table), data.title, data.pid)
        ==> r == Done() && table == old(table).Put(id, Edited(old(table).docs[id], data, now))
    {
      var info := GetArticle(table, id);
      if info.code != 200 {
        return info;
      }
      if TitleTaken(table, data.title, data.pid) {
        return Fail(500, ArticleExists);
      }
      table := table.Put(id, Edited(info.data.value.doc, data, now));
      r := Done();
    }
  }

  /** The record updateArticle writes over `a`. */
  function Edited(a: Article, data: ArticleAddCredentials, now: string): (e: Article)
    ensures e.title == data.title && e.desc == data.desc && e.content == data.content && e.pid == data.pid
    ensures e.creTime == a.creTime && e.updateTime == now
  {
    Article(data.title, data.desc, data.content, data.pid, a.creTime, now)
  }

  /** Because the duplicate query does not exclude the edited article itself,
      an update that keeps an article's title and category is always refused,
      whatever it changes in the description or content. */
  lemma KeepingTitleIsRefused(t: Table<Article>, id: Id, data: ArticleAddCredentials)
    requires id in t.docs && data.title == t.docs[id].title && data.pid == t.docs[id].pid
    ensures TitleTaken(t, data.title, data.pid)
  {
  }

  /** An added article is found under its id, with its own fields. */
  lemma AddThenGet(t: Table<Article>, id: Id, data: ArticleAddCredentials, now: string)
    requires id !in t.docs
    ensures GetArticle(t.Insert(id, Article(data.title, data.desc, data.content, data.pid, now, now)), id)
      == Found(WithId(id, Article(data.title, data.desc, data.content, data.pid, now, now)))
  {
  }

  /** A deleted article is no longer found, and no other article moves. */
  lemma DeleteThenGet(t: Table<Article>, id: Id, other: Id)
    requires other != id
    ensures GetArticle(t.Delete(id), id) == Fail(500, ArticleMissing)
    ensures GetArticle(t.Delete(id), other) == GetArticle(t, other)
  {
  }
}
