/** The records the article store keeps and returns, and the errors its users see. */
module Entities {
  import opened Wrappers

  /** Article and question identifiers are opaque strings (UUIDs in practice). */
  type Id = string

  /**
   * Calendar dates and timestamps are integers ordered like the instants they
   * stand for; parsing and formatting dates is not part of this model.
   */
  type Time = int

  /** An article; `createdAt` and `updatedAt` are optional fields of the record type. */
  datatype Article = Article(
    id: Id,
    url: string,
    body: string,
    title: string,
    studiedAt: Time,
    createdAt: Option<Time>,
    updatedAt: Option<Time>)

  /** A comprehension question of one article; `sort` is its display position. */
  datatype Question = Question(
    id: Id,
    articleId: Id,
    sort: int,
    body: string,
    answer: string,
    createdAt: Option<Time>,
    updatedAt: Option<Time>)

  /** An article together with its questions. */
  datatype ArticleDetail = ArticleDetail(article: Article, questions: seq<Question>)

  /** What an operation can fail with. */
  datatype AppError =
    | ArticleNotFound
    | StorageFailure
    | InvalidArticleUrl
    | MissingTitleOrBody
    | NoDiscussionQuestions
    | ScraperFailure

  /**
   * The text of the errors the use cases raise themselves; storage and scraper
   * failures carry whatever text the database or the scraper produced.
   */
  function Message(e: AppError): (text: Option<string>)
    ensures text.None? <==> e in {StorageFailure, ScraperFailure}
  {
    match e
    case ArticleNotFound => Some("Article not found")
    case InvalidArticleUrl => Some("Invalid DMM Eikaiwa article URL")
    case MissingTitleOrBody => Some("Failed to scrape article: missing title or body")
    case NoDiscussionQuestions => Some("Failed to scrape article: no discussion questions found")
    case StorageFailure => None
    case ScraperFailure => None
  }

  const ArticleCreated: string := "Article created successfully"
  const ArticleUpdated: string := "Article updated successfully"
  const ArticleDeleted: string := "Article deleted successfully"
}
