/**
 * The in-memory SQLite repository used by the integration tests: the two tables
 * with their primary keys and cascading foreign key, reads that are a query
 * followed by a row-to-record map, and `create`/`update` that each run in one
 * transaction, so that they commit every row or none.
 */
module SqliteRepository {
  import opened Wrappers
  import opened Entities
  import opened ArticleTables
  import opened TableProperties

  /**
   * The `questions.forEach(q => insertQuestion.run(...))` loop inside a
   * transaction: inserts the supplied questions one by one into a working copy
   * of the table and stops at the first insert that throws (a missing
   * timestamp, a duplicate primary key, an article id with no article).
   */
  method InsertQuestions(articles: seq<ArticleRow>, questions: seq<QuestionRow>, qs: seq<Question>)
    returns (ok: bool, inserted: seq<QuestionRow>)
    ensures ok == Insertable(articles, questions, qs)
    ensures ok ==> AllStamped(qs) && inserted == questions + QuestionRows(qs)
  {
    inserted := questions;
    var i := 0;
    assert qs[i..] == qs;
    while i < |qs|
      invariant 0 <= i <= |qs|
      invariant AllStamped(qs[..i])
      invariant inserted == questions + QuestionRows(qs[..i])
      invariant Insertable(articles, questions, qs) == Insertable(articles, inserted, qs[i..])
    {
      var q := qs[i];
      if !IsStampedQuestion(q) || HasQuestion(inserted, q.id) || !HasArticle(articles, q.articleId) {
        return false, questions;
      }
      assert qs[i..][1..] == qs[i + 1..];
      assert qs[..i + 1] == qs[..i] + [q];
      inserted := inserted + [QuestionRowOf(q)];
      i := i + 1;
    }
    assert qs[..i] == qs;
    ok := true;
  }

  class SqliteArticleRepository {
    var articles: seq<ArticleRow>
    var questions: seq<QuestionRow>

    /** The schema's constraints: both primary keys and the foreign key. */
    ghost predicate Valid()
      reads this
    {
      Consistent(articles, questions)
    }

    /** A fresh database after `initializeSchema`: both tables exist and are empty. */
    constructor ()
      ensures Valid() && articles == [] && questions == []
    {
      articles, questions := [], [];
    }

    /** `findAll`: every stored article once, most recently studied first. */
    function FindAll(): (r: seq<Article>)
      reads this
      ensures |r| == |articles|
      ensures forall i, j | 0 <= i < j < |r| :: r[i].studiedAt >= r[j].studiedAt
      ensures multiset(r) == multiset(ArticlesOf(articles))
    {
      SelectAll(articles)
    }

    /** `findById`: null exactly when no article row has the id. */
    function FindById(id: Id): (r: Option<Article>)
      reads this
      ensures r.None? <==> !HasArticle(articles, id)
      ensures r.Some? ==> r.value.id == id && exists row | row in articles :: r.value == ToArticle(row)
    {
      SelectById(articles, id)
    }

    /** `findByIdWithQuestions`: null for a missing article, else the article and exactly its questions by `sort`. */
    function FindByIdWithQuestions(id: Id): (r: Option<ArticleDetail>)
      reads this
      ensures r.None? <==> !HasArticle(articles, id)
      ensures r.Some? ==> Some(r.value.article) == FindById(id)
      ensures r.Some? ==> forall i, j | 0 <= i < j < |r.value.questions| ::
                            r.value.questions[i].sort <= r.value.questions[j].sort
      ensures r.Some? ==> multiset(r.value.questions) == multiset(QuestionsFromRows(QuestionsOf(questions, id)))
    {
      SelectWithQuestions(articles, questions, id)
    }

    /**
     * `create`: inserts the article row, then each question row in order, in one
     * transaction. It commits all of them or, when any insert throws, none.
     */
    method Create(article: Article, qs: seq<Question>) returns (result: Outcome<AppError>)
      requires Valid()
      modifies this
      ensures Valid()
      ensures result.Pass? <==> CreateAccepted(old(articles), old(questions), article, qs)
      ensures result.Pass? ==>
                && IsStamped(article) && AllStamped(qs)
                && articles == old(articles) + [ArticleRowOf(article)]
                && questions == old(questions) + QuestionRows(qs)
      ensures result.Fail? ==>
                result.error == StorageFailure && articles == old(articles) && questions == old(questions)
    {
      if !IsStamped(article) || HasArticle(articles, article.id) {
        return Fail(StorageFailure);
      }
      var stagedArticles := articles + [ArticleRowOf(article)];
      var ok, stagedQuestions := InsertQuestions(stagedArticles, questions, qs);
      if !ok {
        return Fail(StorageFailure);
      }
      CreateKeepsConsistency(articles, questions, article, qs);
      articles, questions := stagedArticles, stagedQuestions;
      return Pass;
    }

    /**
     * `update`: in one transaction, overwrites the article's url, title, body and
     * studied_at, sets its updated_at to `now` (the supplied record's own
     * timestamps are ignored), deletes all its questions and inserts the supplied
     * ones. It commits all of it or nothing.
     */
    method Update(id: Id, article: Article, qs: seq<Question>, now: Time) returns (result: Outcome<AppError>)
      requires Valid()
      modifies this
      ensures Valid()
      ensures result.Pass? <==> UpdateAccepted(old(articles), old(questions), id, article, qs, now)
      ensures result.Pass? ==>
                && AllStamped(qs)
                && articles == UpdateArticles(old(articles), id, article, Some(now))
                && questions == WithoutQuestionsOf(old(questions), id) + QuestionRows(qs)
      ensures result.Fail? ==>
                result.error == StorageFailure && articles == old(articles) && questions == old(questions)
    {
      var stagedArticles := UpdateArticles(articles, id, article, Some(now));
      var kept := WithoutQuestionsOf(questions, id);
      var ok, stagedQuestions := InsertQuestions(stagedArticles, kept, qs);
      if !ok {
        return Fail(StorageFailure);
      }
      UpdateKeepsConsistency(articles, questions, id, article, qs, now);
      articles, questions := stagedArticles, stagedQuestions;
      return Pass;
    }

    /**
     * Removing an article together with its questions, as the cascading foreign
     * key does when an article row is deleted.
     */
    method Delete(id: Id)
      requires Valid()
      modifies this
      ensures Valid()
      ensures articles == WithoutArticle(old(articles), id)
      ensures questions == WithoutQuestionsOf(old(questions), id)
    {
      DeleteKeepsConsistency(articles, questions, id);
      articles, questions := WithoutArticle(articles, id), WithoutQuestionsOf(questions, id);
    }

    /** `clearAll`: deletes every question, then every article. */
    method ClearAll()
      modifies this
      ensures Valid() && articles == [] && questions == []
    {
      questions := [];
      articles := [];
    }
  }
}
