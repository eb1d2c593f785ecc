/**
 * The use cases of the layered application: create, update, delete and read
 * articles through the two-table store, and scrape an article page through a
 * scraper service.
 *
 * Fresh identifiers (`randomUUID`) and the current time (`new Date()`) are
 * parameters, and the store is the in-memory SQLite repository.
 */
module ArticleUseCases {
  import opened Wrappers
  import opened Entities
  import opened TitleExtractor
  import opened ArticleTables
  import opened TableProperties
  import opened SqliteRepository

  /** What the article form submits for a new article. */
  datatype CreateArticleInput = CreateArticleInput(
    url: string,
    body: string,
    studiedAt: Time,
    questions: seq<Question>)

  /** What the article form submits for an existing article. */
  datatype UpdateArticleInput = UpdateArticleInput(
    url: string,
    body: string,
    studiedAt: Time,
    questions: seq<Question>)

  /** The answer to a successful create. */
  datatype Created = Created(id: Id, message: string)

  /** The article a create stores: titled from the body, created and updated now. */
  function NewArticle(input: CreateArticleInput, id: Id, now: Time): Article {
    Article(id, input.url, input.body, ExtractTitle(input.body), input.studiedAt, Some(now), Some(now))
  }

  /** The article an update hands to the repository: it keeps the existing `createdAt`. */
  function RevisedArticle(existing: Article, id: Id, input: UpdateArticleInput, now: Time): Article {
    Article(id, input.url, input.body, ExtractTitle(input.body), input.studiedAt, existing.createdAt, Some(now))
  }

  /**
   * `createCreateArticleUseCase(...).execute`: builds the article under the
   * fresh id and stores it with the supplied questions. On success the new
   * article reads back as built, with exactly the supplied questions that point
   * to it, and no other article changes.
   */
  method CreateArticle(repository: SqliteArticleRepository, input: CreateArticleInput, newId: Id, now: Time)
    returns (r: Result<Created, AppError>)
    requires repository.Valid()
    modifies repository
    ensures repository.Valid()
    ensures r.Success? <==>
              CreateAccepted(old(repository.articles), old(repository.questions), NewArticle(input, newId, now), input.questions)
    ensures r.Success? ==>
              && r.value == Created(newId, ArticleCreated)
              && repository.articles == old(repository.articles) + [ArticleRowOf(NewArticle(input, newId, now))]
              && repository.questions == old(repository.questions) + QuestionRows(input.questions)
              && repository.FindById(newId)
                 == Some(Article(newId, input.url, input.body, ExtractTitle(input.body), input.studiedAt, Some(now), Some(now)))
              && multiset(SelectQuestions(repository.questions, newId)) == multiset(SuppliedFor(input.questions, newId))
              && (forall x | x != newId :: repository.FindById(x) == old(repository.FindById(x)))
              && (forall x | x != newId ::
                    multiset(SelectQuestions(repository.questions, x))
                    == multiset(SelectQuestions(old(repository.questions), x)) + multiset(SuppliedFor(input.questions, x)))
    ensures r.Failure? ==>
              && r.error == StorageFailure
              && repository.articles == old(repository.articles) && repository.questions == old(repository.questions)
  {
    ghost var articles, questions := repository.articles, repository.questions;
    var article := NewArticle(input, newId, now);
    var stored := repository.Create(article, input.questions);
    if stored.Fail? {
      return Failure(stored.error);
    }
    CreateReadBack(articles, questions, article, input.questions);
    forall x | x != newId
      ensures SelectById(repository.articles, x) == SelectById(articles, x)
      ensures multiset(SelectQuestions(repository.questions, x))
           == multiset(SelectQuestions(questions, x)) + multiset(SuppliedFor(input.questions, x))
    {
      CreateKeepsOthers(articles, questions, article, input.questions, x);
    }
    return Success(Created(newId, ArticleCreated));
  }

  /**
   * `createUpdateArticleUseCase(...).execute`: fails with "Article not found"
   * when the id is unknown; otherwise replaces the article's url, body, title
   * (derived from the body) and studied date and all of its questions. On
   * success the article reads back with those fields and `updatedAt` set to
   * now, and no other article changes.
   */
  method UpdateArticle(repository: SqliteArticleRepository, id: Id, input: UpdateArticleInput, now: Time)
    returns (r: Result<string, AppError>)
    requires repository.Valid()
    modifies repository
    ensures repository.Valid()
    ensures old(repository.FindById(id)).None? ==> r == Failure(ArticleNotFound)
    ensures r == Failure(ArticleNotFound) <==> old(repository.FindById(id)).None?
    ensures old(repository.FindById(id)).Some? ==>
              (r.Success? <==>
                 UpdateAccepted(old(repository.articles), old(repository.questions), id,
                                RevisedArticle(old(repository.FindById(id)).value, id, input, now), input.questions, now))
    ensures r.Success? ==>
              && r.value == ArticleUpdated
              && repository.questions == WithoutQuestionsOf(old(repository.questions), id) + QuestionRows(input.questions)
              && repository.FindById(id)
                 == Some(old(repository.FindById(id)).value.(url := input.url, body := input.body,
                                                            title := ExtractTitle(input.body),
                                                            studiedAt := input.studiedAt, updatedAt := Some(now)))
              && multiset(SelectQuestions(repository.questions, id)) == multiset(SuppliedFor(input.questions, id))
              && (forall x | x != id :: repository.FindById(x) == old(repository.FindById(x)))
              && (forall x | x != id ::
                    multiset(SelectQuestions(repository.questions, x))
                    == multiset(SelectQuestions(old(repository.questions), x)) + multiset(SuppliedFor(input.questions, x)))
    ensures r.Failure? ==>
              && (r.error == ArticleNotFound || r.error == StorageFailure)
              && repository.articles == old(repository.articles) && repository.questions == old(repository.questions)
  {
    ghost var articles, questions := repository.articles, repository.questions;
    var existing := repository.FindById(id);
    if existing.None? {
      return Failure(ArticleNotFound);
    }
    var article := RevisedArticle(existing.value, id, input, now);
    var stored := repository.Update(id, article, input.questions, now);
    if stored.Fail? {
      return Failure(stored.error);
    }
    UpdateReadBack(articles, questions, id, article, input.questions, now);
    forall x | x != id
      ensures SelectById(repository.articles, x) == SelectById(articles, x)
      ensures multiset(SelectQuestions(repository.questions, x))
           == multiset(SelectQuestions(questions, x)) + multiset(SuppliedFor(input.questions, x))
    {
      UpdateKeepsOthers(articles, questions, id, article, input.questions, now, x);
    }
    return Success(ArticleUpdated);
  }

  /**
   * `createDeleteArticleUseCase(...).execute`: fails with "Article not found"
   * when the id is unknown; otherwise the article and its questions are gone
   * and every other article reads back as before.
   */
  method DeleteArticle(repository: SqliteArticleRepository, id: Id) returns (r: Result<string, AppError>)
    requires repository.Valid()
    modifies repository
    ensures repository.Valid()
    ensures r.Success? <==> old(repository.FindById(id)).Some?
    ensures r.Success? ==>
              && r.value == ArticleDeleted
              && repository.FindByIdWithQuestions(id).None?
              && SelectQuestions(repository.questions, id) == []
              && (forall x | x != id :: repository.FindByIdWithQuestions(x) == old(repository.FindByIdWithQuestions(x)))
    ensures r.Failure? ==>
              && r.error == ArticleNotFound
              && repository.articles == old(repository.articles) && repository.questions == old(repository.questions)
  {
    ghost var articles, questions := repository.articles, repository.questions;
    var existing := repository.FindById(id);
    if existing.None? {
      return Failure(ArticleNotFound);
    }
    repository.Delete(id);
    DeleteCascades(articles, questions, id, id);
    forall x | x != id
      ensures SelectWithQuestions(repository.articles, repository.questions, x)
           == SelectWithQuestions(articles, questions, x)
    {
      DeleteCascades(articles, questions, id, x);
    }
    return Success(ArticleDeleted);
  }

  /** `GetArticleUseCase`: one article with its questions, or null. */
  class GetArticleUseCase {
    const repository: SqliteArticleRepository

    constructor (repository: SqliteArticleRepository)
      ensures this.repository == repository
    {
      this.repository := repository;
    }

    function Execute(id: Id): (r: Option<ArticleDetail>)
      reads repository
      ensures r == repository.FindByIdWithQuestions(id)
      ensures r.None? <==> !HasArticle(repository.articles, id)
      ensures r.Some? ==> r.value.article.id == id
      ensures r.Some? ==> forall i, j | 0 <= i < j < |r.value.questions| ::
                            r.value.questions[i].sort <= r.value.questions[j].sort
    {
      repository.FindByIdWithQuestions(id)
    }
  }

  /** `GetArticlesUseCase`: every article, most recently studied first. */
  class GetArticlesUseCase {
    const repository: SqliteArticleRepository

    constructor (repository: SqliteArticleRepository)
      ensures this.repository == repository
    {
      this.repository := repository;
    }

    function Execute(): (r: seq<Article>)
      reads repository
      ensures r == repository.FindAll()
      ensures |r| == |repository.articles|
      ensures forall i, j | 0 <= i < j < |r| :: r[i].studiedAt >= r[j].studiedAt
      ensures multiset(r) == multiset(ArticlesOf(repository.articles))
    {
      repository.FindAll()
    }
  }

  /** What the scraper extracts from an article page. */
  datatype ScrapedArticleData = ScrapedArticleData(
    url: string,
    title: string,
    body: string,
    questions: seq<string>)

  /** The text every DMM Eikaiwa daily-news article URL contains. */
  const ArticleUrlMarker: string := "eikaiwa.dmm.com/app/daily-news/article/"

  /** `part` occurs in `s` starting at index `i`. */
  predicate OccursAt(s: string, part: string, i: nat) {
    i + |part| <= |s| && s[i..i + |part|] == part
  }

  /** `s.includes(part)`, by scanning from the left. */
  function Contains(s: string, part: string): bool
    decreases |s|
  {
    |part| <= |s| && (s[..|part|] == part || Contains(s[1..], part))
  }

  /** The scan finds `part` exactly when it occurs somewhere in `s`. */
  lemma {:induction false} ContainsIff(s: string, part: string)
    ensures Contains(s, part) <==> exists i: nat :: OccursAt(s, part, i)
    decreases |s|
  {
    if |part| <= |s| && s[..|part|] == part {
      assert OccursAt(s, part, 0);
    } else if |part| <= |s| {
      var rest := s[1..];
      ContainsIff(rest, part);
      if Contains(rest, part) {
        var i: nat :| OccursAt(rest, part, i);
        assert s[i + 1..i + 1 + |part|] == rest[i..i + |part|];
        assert OccursAt(s, part, i + 1);
      }
      forall i: nat | 0 < i && OccursAt(s, part, i) ensures Contains(rest, part) {
        assert forall k | 0 <= k < |part| :: part[k] == s[i + k] == rest[i - 1 + k];
        assert rest[i - 1..i - 1 + |part|] == part;
        assert OccursAt(rest, part, i - 1);
      }
    }
  }

  predicate IsArticleUrl(url: string) {
    Contains(url, ArticleUrlMarker)
  }

  /** Any URL with the marker somewhere in it passes the check, whatever surrounds it. */
  lemma ArticleUrlAccepted(prefix: string, suffix: string)
    ensures IsArticleUrl(prefix + ArticleUrlMarker + suffix)
  {
    var url := prefix + ArticleUrlMarker + suffix;
    assert url[|prefix|..|prefix| + |ArticleUrlMarker|] == ArticleUrlMarker;
    assert OccursAt(url, ArticleUrlMarker, |prefix|);
    ContainsIff(url, ArticleUrlMarker);
  }

  /** A URL shorter than the marker never passes the check. */
  lemma ShortUrlRejected(url: string)
    requires |url| < |ArticleUrlMarker|
    ensures !IsArticleUrl(url)
  {
  }

  /**
   * The checks on scraped data, in order: a title and a body must be present
   * (non-empty), then at least one discussion question.
   */
  function CheckScraped(data: ScrapedArticleData): (r: Result<ScrapedArticleData, AppError>)
    ensures r.Success? <==> data.title != "" && data.body != "" && |data.questions| > 0
    ensures r.Success? ==> r.value == data
    ensures r.Failure? && (data.title == "" || data.body == "") ==> r.error == MissingTitleOrBody
    ensures r.Failure? && data.title != "" && data.body != "" ==> r.error == NoDiscussionQuestions
  {
    if data.title == "" || data.body == "" then Failure(MissingTitleOrBody)
    else if |data.questions| == 0 then Failure(NoDiscussionQuestions)
    else Success(data)
  }

  /**
   * The scraping service. What a page yields is fixed per URL by `respond`
   * (None when scraping throws); the object records which URLs it was asked for
   * and whether it was closed.
   */
  class ArticleScraper {
    const respond: string -> Option<ScrapedArticleData>
    var requested: seq<string>
    var closed: bool

    constructor (respond: string -> Option<ScrapedArticleData>)
      ensures this.respond == respond && requested == [] && !closed
    {
      this.respond := respond;
      requested, closed := [], false;
    }

    method ScrapeArticle(url: string) returns (r: Option<ScrapedArticleData>)
      modifies this
      ensures r == respond(url)
      ensures requested == old(requested) + [url] && closed == old(closed)
    {
      requested := requested + [url];
      r := respond(url);
    }

    method Close()
      modifies this
      ensures closed && requested == old(requested)
    {
      closed := true;
    }
  }

  class ScrapeArticleUseCase {
    const scraper: ArticleScraper

    constructor (scraper: ArticleScraper)
      ensures this.scraper == scraper
    {
      this.scraper := scraper;
    }

    /**
     * `execute`: rejects a URL that is not a daily-news article without asking
     * the scraper, then scrapes the page and returns its data only when it has a
     * title, a body and at least one question.
     */
    method Execute(url: string) returns (r: Result<ScrapedArticleData, AppError>)
      modifies scraper
      ensures scraper.closed == old(scraper.closed)
      ensures !IsArticleUrl(url) ==> r == Failure(InvalidArticleUrl) && scraper.requested == old(scraper.requested)
      ensures IsArticleUrl(url) ==> scraper.requested == old(scraper.requested) + [url]
      ensures IsArticleUrl(url) && scraper.respond(url).None? ==> r == Failure(ScraperFailure)
      ensures IsArticleUrl(url) && scraper.respond(url).Some? ==> r == CheckScraped(scraper.respond(url).value)
      ensures r.Success? ==>
                && scraper.respond(url) == Some(r.value)
                && r.value.title != "" && r.value.body != "" && |r.value.questions| > 0
    {
      if !IsArticleUrl(url) {
        return Failure(InvalidArticleUrl);
      }
      var scraped := scraper.ScrapeArticle(url);
      if scraped.None? {
        return Failure(ScraperFailure);
      }
      r := CheckScraped(scraped.value);
    }

    /** `cleanup`: closes the scraper. */
    method Cleanup()
      modifies scraper
      ensures scraper.closed && scraper.requested == old(scraper.requested)
    {
      scraper.Close();
    }
  }
}
