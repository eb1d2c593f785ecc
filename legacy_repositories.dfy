/**
 * The repositories of the older layer: an in-memory mock seeded with four
 * articles, and a read-only MySQL repository whose article table has no title
 * column, so that every title it returns is derived from the body.
 */
module LegacyRepositories {
  import opened Wrappers
  import opened Entities
  import opened Ordering
  import opened TitleExtractor

  /** The test `a.id === id` of `articles.find`. */
  function IdIs(id: Id): Article -> bool {
    (a: Article) => a.id == id
  }

  /** `articles.find(a => a.id === id) || null`. */
  function Lookup(articles: seq<Article>, id: Id): (r: Option<Article>)
    ensures r.None? <==> forall i | 0 <= i < |articles| :: articles[i].id != id
    ensures r.Some? ==> r.value in articles && r.value.id == id
  {
    Find(articles, IdIs(id))
  }

  /**
   * After appending an article, a lookup finds what it found before; only an id
   * that was missing now finds the appended article. With a duplicate id the
   * earlier article keeps winning.
   */
  lemma LookupAfterAppend(articles: seq<Article>, article: Article, x: Id)
    ensures Lookup(articles + [article], x)
         == if Lookup(articles, x).Some? || article.id != x then Lookup(articles, x) else Some(article)
  {
    if Lookup(articles, x).Some? {
      FindIgnoresLaterElements(articles, [article], IdIs(x));
    } else {
      FindInAppended(articles, [article], IdIs(x));
    }
  }

  /** The four articles the mock starts with; dates are written as yyyymmdd. */
  const SeedArticles: seq<Article> := [
    Article("1", "https://example.com/ai-education",
      "Artificial intelligence is transforming the educational landscape in unprecedented ways. From personalized learning experiences to automated grading systems, AI is making education more accessible and effective for students worldwide.",
      "The Future of Artificial Intelligence in Education", 20250115, Some(20250115), Some(20250115)),
    Article("2", "https://example.com/climate-data",
      "Climate change is one of the most pressing issues of our time. Through data visualization, we can better understand the patterns and trends that are shaping our planet.",
      "Understanding Climate Change Through Data Visualization", 20250108, Some(20250108), Some(20250108)),
    Article("3", "https://example.com/tech-healthcare",
      "Technology is revolutionizing healthcare delivery, from telemedicine to AI-powered diagnostics. These innovations are making healthcare more accessible and efficient.",
      "How Technology is Transforming Modern Healthcare", 20241222, Some(20241222), Some(20241222)),
    Article("4", "https://example.com/sustainable-energy",
      "Sustainable energy solutions are becoming increasingly important as we work to reduce our carbon footprint. Solar, wind, and other renewable sources are leading the way.",
      "The Rise of Sustainable Energy Solutions", 20241215, Some(20241215), Some(20241215))
  ]

  /** The seed is listed newest first and its ids are distinct. */
  lemma SeedIsNewestFirst()
    ensures |SeedArticles| == 4
    ensures SeedArticles[0].id == "1" && SeedArticles[1].id == "2" && SeedArticles[2].id == "3" && SeedArticles[3].id == "4"
    ensures forall i, j | 0 <= i < j < |SeedArticles| ::
              SeedArticles[i].studiedAt > SeedArticles[j].studiedAt && SeedArticles[i].id != SeedArticles[j].id
  {
  }

  class MockArticleRepository {
    var articles: seq<Article>

    constructor ()
      ensures articles == SeedArticles
    {
      articles := SeedArticles;
    }

    /** `findAll`: the stored list itself, in insertion order (not sorted). */
    function FindAll(): (r: seq<Article>)
      reads this
      ensures r == articles
    {
      articles
    }

    /** `findById`: the first stored article with the id, or null. */
    function FindById(id: Id): (r: Option<Article>)
      reads this
      ensures r.None? <==> forall i | 0 <= i < |articles| :: articles[i].id != id
      ensures r.Some? ==> r.value in articles && r.value.id == id
    {
      Lookup(articles, id)
    }

    /** `findByIdWithQuestions`: the article found by id with no questions, since the mock stores none. */
    function FindByIdWithQuestions(id: Id): (r: Option<ArticleDetail>)
      reads this
      ensures r.None? <==> FindById(id).None?
      ensures r.Some? ==> Some(r.value.article) == FindById(id) && r.value.questions == []
    {
      match FindById(id)
      case None => None
      case Some(a) => Some(ArticleDetail(a, []))
    }

    /** `create`: appends the article and drops the questions. */
    method Create(article: Article, qs: seq<Question>)
      modifies this
      ensures articles == old(articles) + [article]
    {
      articles := articles + [article];
    }
  }

  /** A row of the older article table: it has no title column. */
  datatype LegacyArticleRow = LegacyArticleRow(
    id: Id,
    url: string,
    body: string,
    studiedAt: Time,
    createdAt: Time,
    updatedAt: Time)

  /** The record made from a row, with the title derived from the body. */
  function LegacyArticle(row: LegacyArticleRow): (a: Article)
    ensures a.id == row.id && a.url == row.url && a.body == row.body && a.studiedAt == row.studiedAt
    ensures a.title == ExtractTitle(row.body)
    ensures a.createdAt == Some(row.createdAt) && a.updatedAt == Some(row.updatedAt)
  {
    Article(row.id, row.url, row.body, ExtractTitle(row.body), row.studiedAt, Some(row.createdAt), Some(row.updatedAt))
  }

  function LegacyArticles(rows: seq<LegacyArticleRow>): (r: seq<Article>)
    ensures |r| == |rows|
  {
    seq(|rows|, i requires 0 <= i < |rows| => LegacyArticle(rows[i]))
  }

  /** Reordering the records of the older table keeps every title derived from its body. */
  lemma TitledFromBodyKept(articles: seq<Article>, reordered: seq<Article>)
    requires forall a | a in articles :: a.title == ExtractTitle(a.body)
    requires multiset(reordered) == multiset(articles)
    ensures forall a | a in reordered :: a.title == ExtractTitle(a.body)
  {
    forall a | a in reordered ensures a.title == ExtractTitle(a.body) {
      assert a in multiset(reordered);
      assert a in articles;
    }
  }

  class LegacyMySqlArticleRepository {
    var rows: seq<LegacyArticleRow>

    constructor (rows: seq<LegacyArticleRow>)
      ensures this.rows == rows
    {
      this.rows := rows;
    }

    /** `findAll`: every row as an article, most recently studied first, each titled from its body. */
    function FindAll(): (r: seq<Article>)
      reads this
      ensures |r| == |rows|
      ensures forall i, j | 0 <= i < j < |r| :: r[i].studiedAt >= r[j].studiedAt
      ensures multiset(r) == multiset(LegacyArticles(rows))
      ensures forall a | a in r :: a.title == ExtractTitle(a.body)
    {
      var articles := LegacyArticles(rows);
      var sorted := OrderBy(articles, (a: Article) => -a.studiedAt);
      assert forall i, j | 0 <= i < j < |sorted| :: -sorted[i].studiedAt <= -sorted[j].studiedAt;
      TitledFromBodyKept(articles, sorted);
      sorted
    }

    /** `findById`: null when no row has the id, else the first row that does, titled from its body. */
    function FindById(id: Id): (r: Option<Article>)
      reads this
      ensures r.None? <==> forall i | 0 <= i < |rows| :: rows[i].id != id
      ensures r.Some? ==> r.value.id == id && r.value.title == ExtractTitle(r.value.body)
      ensures r.Some? ==> exists k | 0 <= k < |rows| :: rows[k].id == id && r.value == LegacyArticle(rows[k])
    {
      var k := IndexWhere(rows, (row: LegacyArticleRow) => row.id == id);
      if k < |rows| then Some(LegacyArticle(rows[k])) else None
    }
  }

  /** The repositories behind the older use cases. */
  datatype LegacyRepository =
    | Mock(mock: MockArticleRepository)
    | MySql(mysql: LegacyMySqlArticleRepository)
  {
    function Objects(): set<object> {
      match this
      case Mock(m) => {m}
      case MySql(s) => {s}
    }

    function FindAll(): (r: seq<Article>)
      reads Objects()
      ensures Mock? ==> r == mock.articles
      ensures MySql? ==> r == mysql.FindAll()
      ensures MySql? ==> forall i, j | 0 <= i < j < |r| :: r[i].studiedAt >= r[j].studiedAt
      ensures MySql? ==> forall a | a in r :: a.title == ExtractTitle(a.body)
    {
      match this
      case Mock(m) => m.FindAll()
      case MySql(s) => s.FindAll()
    }

    function FindById(id: Id): (r: Option<Article>)
      reads Objects()
      ensures r.Some? ==> r.value.id == id
      ensures MySql? && r.Some? ==> r.value.title == ExtractTitle(r.value.body)
      ensures Mock? ==> r == mock.FindById(id)
      ensures MySql? ==> r == mysql.FindById(id)
    {
      match this
      case Mock(m) => m.FindById(id)
      case MySql(s) => s.FindById(id)
    }
  }
}
