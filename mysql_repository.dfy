/**
 * The MySQL repository of the layered application: reads are single queries
 * mapped to records; `create` and `update` take a pooled connection, run their
 * statements in one transaction, roll back on the first failing statement and
 * always give the connection back.
 *
 * The table definitions are not part of this model, so which statement fails is
 * not derived from constraints: the caller names it as a step index (`fault`).
 * The columns the inserts leave out take the database's default timestamp,
 * given here as `defaultTime`.
 */
module MySqlRepository {
  import opened Wrappers
  import opened Entities
  import opened ArticleTables

  /** The row an `INSERT INTO articles (id, url, title, body, memo, studied_at)` produces. */
  function WrittenArticleRow(a: Article, defaultTime: Time): (row: ArticleRow)
    ensures ToArticle(row) == a.(createdAt := Some(defaultTime), updatedAt := Some(defaultTime))
  {
    ArticleRow(a.id, a.url, a.title, a.body, a.studiedAt, defaultTime, defaultTime)
  }

  /** The row an `INSERT INTO questions (id, article_id, sort, body, answer)` produces. */
  function WrittenQuestionRow(q: Question, defaultTime: Time): (row: QuestionRow)
    ensures ToQuestion(row) == q.(createdAt := Some(defaultTime), updatedAt := Some(defaultTime))
  {
    QuestionRow(q.id, q.articleId, q.sort, q.body, q.answer, defaultTime, defaultTime)
  }

  function WrittenQuestionRows(qs: seq<Question>, defaultTime: Time): (rows: seq<QuestionRow>)
    ensures |rows| == |qs|
  {
    seq(|qs|, i requires 0 <= i < |qs| => WrittenQuestionRow(qs[i], defaultTime))
  }

  /** Whether the injected failure hits one of the steps `first .. first + count - 1`. */
  predicate FailsAmong(fault: Option<nat>, first: nat, count: nat) {
    fault.Some? && first <= fault.value < first + count
  }

  /**
   * The `for (const question of questions)` loop: step `first + k` inserts the
   * k-th question; the loop stops at the step that fails.
   */
  method InsertQuestions(questions: seq<QuestionRow>, qs: seq<Question>, defaultTime: Time, fault: Option<nat>, first: nat)
    returns (failed: bool, inserted: seq<QuestionRow>)
    ensures failed <==> FailsAmong(fault, first, |qs|)
    ensures !failed ==> inserted == questions + WrittenQuestionRows(qs, defaultTime)
  {
    inserted := questions;
    failed := false;
    var i := 0;
    while i < |qs| && !failed
      invariant 0 <= i <= |qs|
      invariant failed ==> i < |qs| && fault == Some(first + i)
      invariant !failed ==> !FailsAmong(fault, first, i)
      invariant inserted == questions + WrittenQuestionRows(qs[..i], defaultTime)
      decreases |qs| - i, if failed then 0 else 1
    {
      if fault == Some(first + i) {
        failed := true;
      } else {
        assert WrittenQuestionRows(qs[..i + 1], defaultTime)
            == WrittenQuestionRows(qs[..i], defaultTime) + [WrittenQuestionRow(qs[i], defaultTime)];
        inserted := inserted + [WrittenQuestionRow(qs[i], defaultTime)];
        i := i + 1;
      }
    }
    assert !failed ==> qs[..i] == qs;
  }

  class MySqlArticleRepository {
    var articles: seq<ArticleRow>
    var questions: seq<QuestionRow>
    /** Connections taken from the pool and not yet released. */
    var leasedConnections: nat

    constructor (articles: seq<ArticleRow>, questions: seq<QuestionRow>)
      ensures this.articles == articles && this.questions == questions && leasedConnections == 0
    {
      this.articles, this.questions, leasedConnections := articles, questions, 0;
    }

    /** `findAll`: every article row as a record, most recently studied first. */
    function FindAll(): (r: seq<Article>)
      reads this
      ensures |r| == |articles|
      ensures forall i, j | 0 <= i < j < |r| :: r[i].studiedAt >= r[j].studiedAt
      ensures multiset(r) == multiset(ArticlesOf(articles))
    {
      SelectAll(articles)
    }

    /** `findById`: null when no row has the id, else the first row that does. */
    function FindById(id: Id): (r: Option<Article>)
      reads this
      ensures r.None? <==> !HasArticle(articles, id)
      ensures r.Some? ==> r.value.id == id && exists row | row in articles :: r.value == ToArticle(row)
    {
      SelectById(articles, id)
    }

    /** `findByIdWithQuestions`: null for a missing article, else it and its questions by `sort`. */
    function FindByIdWithQuestions(id: Id): (r: Option<ArticleDetail>)
      reads this
      ensures r.None? <==> !HasArticle(articles, id)
      ensures r.Some? ==> Some(r.value.article) == FindById(id)
      ensures r.Some? ==> forall i, j | 0 <= i < j < |r.value.questions| ::
                            r.value.questions[i].sort <= r.value.questions[j].sort
      ensures r.Some? ==> multiset(r.value.questions) == multiset(QuestionsFromRows(QuestionsOf(questions, id)))
    {
      SelectWithQuestions(articles, questions, id)
    }

    /**
     * `create`. Steps: 0 begin, 1 insert the article, 2 .. |qs| + 1 insert the
     * questions, |qs| + 2 commit. A failing step rolls everything back.
     */
    method Create(article: Article, qs: seq<Question>, defaultTime: Time, fault: Option<nat>)
      returns (result: Outcome<AppError>)
      modifies this
      ensures leasedConnections == old(leasedConnections)
      ensures result.Pass? <==> !FailsAmong(fault, 0, |qs| + 3)
      ensures result.Pass? ==>
                && articles == old(articles) + [WrittenArticleRow(article, defaultTime)]
                && questions == old(questions) + WrittenQuestionRows(qs, defaultTime)
      ensures result.Fail? ==>
                result.error == StorageFailure && articles == old(articles) && questions == old(questions)
    {
      leasedConnections := leasedConnections + 1;
      var failed := FailsAmong(fault, 0, 2);
      var stagedArticles, stagedQuestions := articles, questions;
      if !failed {
        stagedArticles := stagedArticles + [WrittenArticleRow(article, defaultTime)];
        failed, stagedQuestions := InsertQuestions(questions, qs, defaultTime, fault, 2);
        failed := failed || fault == Some(|qs| + 2);
      }
      if failed {
        result := Fail(StorageFailure);
      } else {
        articles, questions := stagedArticles, stagedQuestions;
        result := Pass;
      }
      leasedConnections := leasedConnections - 1;
    }

    /**
     * `update`. Steps: 0 begin, 1 update the article's url, title, body and
     * studied_at (its updated_at is left as it was), 2 delete its questions,
     * 3 .. |qs| + 2 insert the supplied questions, |qs| + 3 commit. A failing
     * step rolls everything back.
     */
    method Update(id: Id, article: Article, qs: seq<Question>, defaultTime: Time, fault: Option<nat>)
      returns (result: Outcome<AppError>)
      modifies this
      ensures leasedConnections == old(leasedConnections)
      ensures result.Pass? <==> !FailsAmong(fault, 0, |qs| + 4)
      ensures result.Pass? ==>
                && articles == UpdateArticles(old(articles), id, article, None)
                && questions == WithoutQuestionsOf(old(questions), id) + WrittenQuestionRows(qs, defaultTime)
      ensures result.Fail? ==>
                result.error == StorageFailure && articles == old(articles) && questions == old(questions)
    {
      leasedConnections := leasedConnections + 1;
      var failed := FailsAmong(fault, 0, 3);
      var stagedArticles, stagedQuestions := articles, questions;
      if !failed {
        stagedArticles := UpdateArticles(stagedArticles, id, article, None);
        var kept := WithoutQuestionsOf(stagedQuestions, id);
        failed, stagedQuestions := InsertQuestions(kept, qs, defaultTime, fault, 3);
        failed := failed || fault == Some(|qs| + 3);
      }
      if failed {
        result := Fail(StorageFailure);
      } else {
        articles, questions := stagedArticles, stagedQuestions;
        result := Pass;
      }
      leasedConnections := leasedConnections - 1;
    }
  }
}
