/**
 * The two tables behind every repository: `articles` and `questions`, with the
 * `questions.article_id` foreign key. Rows are kept in insertion order. This
 * module gives the queries (`SELECT ... ORDER BY`), the row changes each write
 * makes, the constraints a write must pass, and what a later read sees.
 */
module ArticleTables {
  import opened Wrappers
  import opened Entities
  import opened Ordering

  /** A row of `articles`: every column is NOT NULL. */
  datatype ArticleRow = ArticleRow(
    id: Id,
    url: string,
    title: string,
    body: string,
    studiedAt: Time,
    createdAt: Time,
    updatedAt: Time)

  /** A row of `questions`: every column is NOT NULL. */
  datatype QuestionRow = QuestionRow(
    id: Id,
    articleId: Id,
    sort: int,
    body: string,
    answer: string,
    createdAt: Time,
    updatedAt: Time)

  // ---------------------------------------------------------------- rows and records

  /** The row-to-record `map` of the read queries. */
  function ToArticle(row: ArticleRow): Article {
    Article(row.id, row.url, row.body, row.title, row.studiedAt, Some(row.createdAt), Some(row.updatedAt))
  }

  function ToQuestion(row: QuestionRow): Question {
    Question(row.id, row.articleId, row.sort, row.body, row.answer, Some(row.createdAt), Some(row.updatedAt))
  }

  function ArticlesOf(rows: seq<ArticleRow>): (r: seq<Article>)
    ensures |r| == |rows|
  {
    seq(|rows|, i requires 0 <= i < |rows| => ToArticle(rows[i]))
  }

  function QuestionsFromRows(rows: seq<QuestionRow>): (r: seq<Question>)
    ensures |r| == |rows|
  {
    seq(|rows|, i requires 0 <= i < |rows| => ToQuestion(rows[i]))
  }

  /** A record can be written only when its timestamps are present (`toISOString` of a missing date throws). */
  predicate IsStamped(a: Article) {
    a.createdAt.Some? && a.updatedAt.Some?
  }

  predicate IsStampedQuestion(q: Question) {
    q.createdAt.Some? && q.updatedAt.Some?
  }

  predicate AllStamped(qs: seq<Question>) {
    forall q | q in qs :: IsStampedQuestion(q)
  }

  /** The row an INSERT writes; reading it back gives the same record. */
  function ArticleRowOf(a: Article): (row: ArticleRow)
    requires IsStamped(a)
    ensures ToArticle(row) == a
  {
    ArticleRow(a.id, a.url, a.title, a.body, a.studiedAt, a.createdAt.value, a.updatedAt.value)
  }

  function QuestionRowOf(q: Question): (row: QuestionRow)
    requires IsStampedQuestion(q)
    ensures ToQuestion(row) == q
  {
    QuestionRow(q.id, q.articleId, q.sort, q.body, q.answer, q.createdAt.value, q.updatedAt.value)
  }

  /** The rows the insert loop writes, one per supplied question, in order; they read back as the questions. */
  function QuestionRows(qs: seq<Question>): (rows: seq<QuestionRow>)
    requires AllStamped(qs)
    ensures |rows| == |qs|
    ensures QuestionsFromRows(rows) == qs
  {
    seq(|qs|, i requires 0 <= i < |qs| => QuestionRowOf(qs[i]))
  }

  // ---------------------------------------------------------------- constraints

  predicate HasArticle(articles: seq<ArticleRow>, id: Id) {
    exists row | row in articles :: row.id == id
  }

  predicate HasQuestion(questions: seq<QuestionRow>, id: Id) {
    exists row | row in questions :: row.id == id
  }

  /** PRIMARY KEY on `articles.id`. */
  predicate UniqueArticleIds(articles: seq<ArticleRow>) {
    forall i, j | 0 <= i < j < |articles| :: articles[i].id != articles[j].id
  }

  /** PRIMARY KEY on `questions.id`. */
  predicate UniqueQuestionIds(questions: seq<QuestionRow>) {
    forall i, j | 0 <= i < j < |questions| :: questions[i].id != questions[j].id
  }

  /** Both primary keys and the foreign key from `questions.article_id` to `articles.id`. */
  predicate Consistent(articles: seq<ArticleRow>, questions: seq<QuestionRow>) {
    && UniqueArticleIds(articles)
    && UniqueQuestionIds(questions)
    && forall q | q in questions :: HasArticle(articles, q.articleId)
  }

  // ---------------------------------------------------------------- queries

  /** `SELECT * FROM articles ORDER BY studied_at DESC`: every article once, most recently studied first. */
  function SelectAll(articles: seq<ArticleRow>): (r: seq<Article>)
    ensures |r| == |articles|
    ensures forall i, j | 0 <= i < j < |r| :: r[i].studiedAt >= r[j].studiedAt
    ensures multiset(r) == multiset(ArticlesOf(articles))
  {
    var sorted := OrderBy(ArticlesOf(articles), (a: Article) => -a.studiedAt);
    assert forall i, j | 0 <= i < j < |sorted| :: -sorted[i].studiedAt <= -sorted[j].studiedAt;
    sorted
  }

  /** `SELECT * FROM articles WHERE id = ?`, first row: nothing exactly when no row has that id. */
  function SelectById(articles: seq<ArticleRow>, id: Id): (r: Option<Article>)
    ensures r.None? <==> !HasArticle(articles, id)
    ensures r.Some? ==> r.value.id == id && exists row | row in articles :: r.value == ToArticle(row)
  {
    match Find(articles, (row: ArticleRow) => row.id == id)
    case None =>
      assert forall row | row in articles :: row.id != id by {
        forall row | row in articles ensures row.id != id {
          var i :| 0 <= i < |articles| && articles[i] == row;
        }
      }
      None
    case Some(row) => Some(ToArticle(row))
  }

  /** `WHERE article_id = ?`: the question rows of one article, in table order. */
  function QuestionsOf(questions: seq<QuestionRow>, id: Id): (r: seq<QuestionRow>)
    ensures forall row :: row in r <==> row in questions && row.articleId == id
    ensures forall row :: multiset(r)[row] == if row.articleId == id then multiset(questions)[row] else 0
    ensures |r| <= |questions|
  {
    if questions == [] then []
    else
      assert questions == [questions[0]] + questions[1..];
      (if questions[0].articleId == id then [questions[0]] else []) + QuestionsOf(questions[1..], id)
  }

  /** `SELECT * FROM questions WHERE article_id = ? ORDER BY sort ASC`: exactly that article's questions, by `sort`. */
  function SelectQuestions(questions: seq<QuestionRow>, id: Id): (r: seq<Question>)
    ensures forall i, j | 0 <= i < j < |r| :: r[i].sort <= r[j].sort
    ensures multiset(r) == multiset(QuestionsFromRows(QuestionsOf(questions, id)))
  {
    var sorted := OrderBy(QuestionsFromRows(QuestionsOf(questions, id)), (q: Question) => q.sort);
    assert forall i, j | 0 <= i < j < |sorted| :: sorted[i].sort <= sorted[j].sort;
    sorted
  }

  /** `findByIdWithQuestions`: nothing for a missing article, otherwise the article and its questions by `sort`. */
  function SelectWithQuestions(articles: seq<ArticleRow>, questions: seq<QuestionRow>, id: Id): (r: Option<ArticleDetail>)
    ensures r.None? <==> !HasArticle(articles, id)
    ensures r.Some? ==> Some(r.value.article) == SelectById(articles, id) && r.value.article.id == id
    ensures r.Some? ==> r.value.questions == SelectQuestions(questions, id)
  {
    match SelectById(articles, id)
    case None => None
    case Some(article) => Some(ArticleDetail(article, SelectQuestions(questions, id)))
  }

  // ---------------------------------------------------------------- writes

  /**
   * The question INSERTs of one transaction, run in order against the growing
   * table: each needs its timestamps, a fresh primary key and an existing article.
   */
  predicate Insertable(articles: seq<ArticleRow>, questions: seq<QuestionRow>, qs: seq<Question>)
    decreases |qs|
  {
    || qs == []
    || (&& IsStampedQuestion(qs[0])
        && !HasQuestion(questions, qs[0].id)
        && HasArticle(articles, qs[0].articleId)
        && Insertable(articles, questions + [QuestionRowOf(qs[0])], qs[1..]))
  }

  /** `create` commits exactly when the article row and then every question row can be inserted. */
  predicate CreateAccepted(articles: seq<ArticleRow>, questions: seq<QuestionRow>, a: Article, qs: seq<Question>) {
    && IsStamped(a)
    && AllStamped(qs)
    && !HasArticle(articles, a.id)
    && Insertable(articles + [ArticleRowOf(a)], questions, qs)
  }

  /**
   * `UPDATE articles SET url, title, body, studied_at[, updated_at] WHERE id = ?`:
   * `id` and `created_at` stay; `updated_at` becomes `touched` when one is given.
   */
  function Overwrite(row: ArticleRow, a: Article, touched: Option<Time>): ArticleRow {
    row.(url := a.url, title := a.title, body := a.body, studiedAt := a.studiedAt,
         updatedAt := if touched.Some? then touched.value else row.updatedAt)
  }

  function UpdateArticles(articles: seq<ArticleRow>, id: Id, a: Article, touched: Option<Time>): (r: seq<ArticleRow>)
    ensures |r| == |articles|
    ensures forall k | 0 <= k < |r| :: r[k].id == articles[k].id && r[k].createdAt == articles[k].createdAt
    ensures forall k | 0 <= k < |r| && articles[k].id != id :: r[k] == articles[k]
  {
    seq(|articles|, k requires 0 <= k < |articles| =>
      if articles[k].id == id then Overwrite(articles[k], a, touched) else articles[k])
  }

  /** `DELETE FROM questions WHERE article_id = ?`: the other rows stay, in order. */
  function WithoutQuestionsOf(questions: seq<QuestionRow>, id: Id): (r: seq<QuestionRow>)
    ensures forall row :: row in r <==> row in questions && row.articleId != id
  {
    if questions == [] then []
    else (if questions[0].articleId != id then [questions[0]] else []) + WithoutQuestionsOf(questions[1..], id)
  }

  /** `DELETE FROM articles WHERE id = ?`. */
  function WithoutArticle(articles: seq<ArticleRow>, id: Id): (r: seq<ArticleRow>)
    ensures forall row :: row in r <==> row in articles && row.id != id
  {
    if articles == [] then []
    else (if articles[0].id != id then [articles[0]] else []) + WithoutArticle(articles[1..], id)
  }

  /** `update` commits exactly when every replacement question can be inserted after the old ones are deleted. */
  predicate UpdateAccepted(articles: seq<ArticleRow>, questions: seq<QuestionRow>, id: Id, a: Article,
                           qs: seq<Question>, now: Time) {
    && AllStamped(qs)
    && Insertable(UpdateArticles(articles, id, a, Some(now)), WithoutQuestionsOf(questions, id), qs)
  }
}
