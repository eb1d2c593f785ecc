/**
 * What the table writes guarantee to later reads: the constraints survive every
 * committed write, a created article reads back with exactly its questions, an
 * update replaces the question set instead of merging into it, and a delete
 * cascades. All of it is stated on the pure table functions, so the repository
 * methods that commit those tables inherit it.
 */
module TableProperties {
  import opened Wrappers
  import opened Entities
  import opened Ordering
  import opened ArticleTables

  /** The insert loop's condition stated all at once: stamps, fresh and distinct ids, existing articles. */
  predicate InsertsValid(articles: seq<ArticleRow>, questions: seq<QuestionRow>, qs: seq<Question>) {
    && (forall k | 0 <= k < |qs| ::
          IsStampedQuestion(qs[k]) && !HasQuestion(questions, qs[k].id) && HasArticle(articles, qs[k].articleId))
    && (forall k, j | 0 <= k < j < |qs| :: qs[k].id != qs[j].id)
  }

  lemma HasQuestionAppend(questions: seq<QuestionRow>, row: QuestionRow, id: Id)
    ensures HasQuestion(questions + [row], id) <==> HasQuestion(questions, id) || row.id == id
  {
    if row.id == id {
      assert row in questions + [row];
    }
    if HasQuestion(questions, id) {
      var r :| r in questions && r.id == id;
      assert r in questions + [row];
    }
  }

  /** Running the inserts one by one succeeds exactly when the all-at-once condition holds. */
  lemma {:induction false} InsertableIff(articles: seq<ArticleRow>, questions: seq<QuestionRow>, qs: seq<Question>)
    ensures Insertable(articles, questions, qs) <==> InsertsValid(articles, questions, qs)
    decreases |qs|
  {
    if qs != [] && IsStampedQuestion(qs[0]) {
      var row := QuestionRowOf(qs[0]);
      var tail := qs[1..];
      InsertableIff(articles, questions + [row], tail);
      forall k | 0 <= k < |tail|
        ensures HasQuestion(questions + [row], tail[k].id) <==> HasQuestion(questions, tail[k].id) || qs[0].id == tail[k].id
      {
        HasQuestionAppend(questions, row, tail[k].id);
      }
      if InsertsValid(articles, questions, qs) {
        forall k, j | 0 <= k < j < |tail| ensures tail[k].id != tail[j].id {
          assert tail[k] == qs[k + 1] && tail[j] == qs[j + 1];
        }
        forall k | 0 <= k < |tail| ensures qs[0].id != tail[k].id {
          assert tail[k] == qs[k + 1];
        }
        assert InsertsValid(articles, questions + [row], tail);
      }
      if InsertsValid(articles, questions + [row], tail) && !HasQuestion(questions, qs[0].id)
          && HasArticle(articles, qs[0].articleId) {
        forall k | 0 <= k < |qs|
          ensures IsStampedQuestion(qs[k]) && !HasQuestion(questions, qs[k].id) && HasArticle(articles, qs[k].articleId)
        {
          if k > 0 {
            assert qs[k] == tail[k - 1];
          }
        }
        forall k, j | 0 <= k < j < |qs| ensures qs[k].id != qs[j].id {
          assert qs[j] == tail[j - 1];
          if k > 0 {
            assert qs[k] == tail[k - 1];
          }
        }
      }
    }
  }

  // ---------------------------------------------------------------- the constraints survive every write

  lemma InsertOneKeepsConsistency(articles: seq<ArticleRow>, questions: seq<QuestionRow>, row: QuestionRow)
    requires Consistent(articles, questions)
    requires !HasQuestion(questions, row.id) && HasArticle(articles, row.articleId)
    ensures Consistent(articles, questions + [row])
  {
    var grown := questions + [row];
    forall i, j | 0 <= i < j < |grown| ensures grown[i].id != grown[j].id {
      assert grown[i] == questions[i];
      if j < |questions| {
        assert grown[j] == questions[j];
      } else {
        assert questions[i] in questions;
      }
    }
  }

  lemma QuestionRowsCons(qs: seq<Question>)
    requires qs != [] && AllStamped(qs)
    ensures QuestionRows(qs) == [QuestionRowOf(qs[0])] + QuestionRows(qs[1..])
  {
    assert qs[0] in qs;
  }

  /** A committed run of question inserts keeps both primary keys and the foreign key. */
  lemma {:induction false} InsertsKeepConsistency(articles: seq<ArticleRow>, questions: seq<QuestionRow>, qs: seq<Question>)
    requires Consistent(articles, questions) && AllStamped(qs) && Insertable(articles, questions, qs)
    ensures Consistent(articles, questions + QuestionRows(qs))
    decreases |qs|
  {
    if qs != [] {
      var row := QuestionRowOf(qs[0]);
      InsertOneKeepsConsistency(articles, questions, row);
      InsertsKeepConsistency(articles, questions + [row], qs[1..]);
      QuestionRowsCons(qs);
      assert questions + [row] + QuestionRows(qs[1..]) == questions + QuestionRows(qs);
    }
  }

  lemma HasArticleAppend(articles: seq<ArticleRow>, row: ArticleRow, id: Id)
    ensures HasArticle(articles + [row], id) <==> HasArticle(articles, id) || row.id == id
  {
    if row.id == id {
      assert row in articles + [row];
    }
    if HasArticle(articles, id) {
      var r :| r in articles && r.id == id;
      assert r in articles + [row];
    }
  }

  /** A committed `create` keeps both primary keys and the foreign key. */
  lemma CreateKeepsConsistency(articles: seq<ArticleRow>, questions: seq<QuestionRow>, a: Article, qs: seq<Question>)
    requires Consistent(articles, questions) && CreateAccepted(articles, questions, a, qs)
    ensures Consistent(articles + [ArticleRowOf(a)], questions + QuestionRows(qs))
  {
    var row := ArticleRowOf(a);
    var grown := articles + [row];
    forall i, j | 0 <= i < j < |grown| ensures grown[i].id != grown[j].id {
      assert grown[i] == articles[i];
      if j < |articles| {
        assert grown[j] == articles[j];
      } else {
        assert articles[i] in articles;
      }
    }
    forall q | q in questions ensures HasArticle(grown, q.articleId) {
      HasArticleAppend(articles, row, q.articleId);
    }
    InsertsKeepConsistency(grown, questions, qs);
  }

  /** Two article tables with the same ids at the same positions hold the same ids. */
  lemma SameIdsSameArticles(articles: seq<ArticleRow>, other: seq<ArticleRow>, id: Id)
    requires |other| == |articles|
    requires forall k | 0 <= k < |articles| :: other[k].id == articles[k].id
    ensures HasArticle(other, id) <==> HasArticle(articles, id)
  {
    if HasArticle(articles, id) {
      var r :| r in articles && r.id == id;
      var k :| 0 <= k < |articles| && articles[k] == r;
      assert other[k] in other;
    }
    if HasArticle(other, id) {
      var r :| r in other && r.id == id;
      var k :| 0 <= k < |other| && other[k] == r;
      assert articles[k] in articles;
    }
  }

  lemma {:induction false} WithoutQuestionsKeepsUnique(questions: seq<QuestionRow>, id: Id)
    requires UniqueQuestionIds(questions)
    ensures UniqueQuestionIds(WithoutQuestionsOf(questions, id))
    decreases |questions|
  {
    if questions != [] {
      var tail := questions[1..];
      WithoutQuestionsKeepsUnique(tail, id);
      var rest := WithoutQuestionsOf(tail, id);
      var r := WithoutQuestionsOf(questions, id);
      if questions[0].articleId != id {
        assert r == [questions[0]] + rest;
        forall j | 0 <= j < |rest| ensures rest[j].id != questions[0].id {
          assert rest[j] in rest;
          var m :| 0 <= m < |tail| && tail[m] == rest[j];
          assert questions[m + 1] == tail[m];
        }
        forall i, j | 0 <= i < j < |r| ensures r[i].id != r[j].id {
          assert r[j] == rest[j - 1];
          if i > 0 {
            assert r[i] == rest[i - 1];
          }
        }
      } else {
        assert r == rest;
      }
    }
  }

  lemma {:induction false} WithoutArticleKeepsUnique(articles: seq<ArticleRow>, id: Id)
    requires UniqueArticleIds(articles)
    ensures UniqueArticleIds(WithoutArticle(articles, id))
    decreases |articles|
  {
    if articles != [] {
      var tail := articles[1..];
      WithoutArticleKeepsUnique(tail, id);
      var rest := WithoutArticle(tail, id);
      var r := WithoutArticle(articles, id);
      if articles[0].id != id {
        assert r == [articles[0]] + rest;
        forall j | 0 <= j < |rest| ensures rest[j].id != articles[0].id {
          assert rest[j] in rest;
          var m :| 0 <= m < |tail| && tail[m] == rest[j];
          assert articles[m + 1] == tail[m];
        }
        forall i, j | 0 <= i < j < |r| ensures r[i].id != r[j].id {
          assert r[j] == rest[j - 1];
          if i > 0 {
            assert r[i] == rest[i - 1];
          }
        }
      } else {
        assert r == rest;
      }
    }
  }

  /** A committed `update` keeps both primary keys and the foreign key. */
  lemma UpdateKeepsConsistency(articles: seq<ArticleRow>, questions: seq<QuestionRow>, id: Id, a: Article,
                               qs: seq<Question>, now: Time)
    requires Consistent(articles, questions) && UpdateAccepted(articles, questions, id, a, qs, now)
    ensures Consistent(UpdateArticles(articles, id, a, Some(now)), WithoutQuestionsOf(questions, id) + QuestionRows(qs))
  {
    var updated := UpdateArticles(articles, id, a, Some(now));
    var kept := WithoutQuestionsOf(questions, id);
    WithoutQuestionsKeepsUnique(questions, id);
    forall q | q in kept ensures HasArticle(updated, q.articleId) {
      SameIdsSameArticles(articles, updated, q.articleId);
    }
    InsertsKeepConsistency(updated, kept, qs);
  }

  /** The cascading delete keeps both primary keys and the foreign key. */
  lemma DeleteKeepsConsistency(articles: seq<ArticleRow>, questions: seq<QuestionRow>, id: Id)
    requires Consistent(articles, questions)
    ensures Consistent(WithoutArticle(articles, id), WithoutQuestionsOf(questions, id))
  {
    WithoutArticleKeepsUnique(articles, id);
    WithoutQuestionsKeepsUnique(questions, id);
    forall q | q in WithoutQuestionsOf(questions, id) ensures HasArticle(WithoutArticle(articles, id), q.articleId) {
      var r :| r in articles && r.id == q.articleId;
      assert r in WithoutArticle(articles, id);
    }
  }

  // ---------------------------------------------------------------- what a later read sees

  /** The supplied questions addressed to article `id`, in the order they were supplied. */
  function SuppliedFor(qs: seq<Question>, id: Id): (r: seq<Question>)
    ensures forall q :: q in r <==> q in qs && q.articleId == id
  {
    if qs == [] then []
    else (if qs[0].articleId == id then [qs[0]] else []) + SuppliedFor(qs[1..], id)
  }

  lemma {:induction false} QuestionsOfConcat(questions: seq<QuestionRow>, more: seq<QuestionRow>, id: Id)
    ensures QuestionsOf(questions + more, id) == QuestionsOf(questions, id) + QuestionsOf(more, id)
    decreases |questions|
  {
    if questions == [] {
      assert questions + more == more;
    } else {
      assert (questions + more)[1..] == questions[1..] + more;
      QuestionsOfConcat(questions[1..], more, id);
    }
  }

  lemma QuestionsFromRowsConcat(rows: seq<QuestionRow>, more: seq<QuestionRow>)
    ensures QuestionsFromRows(rows + more) == QuestionsFromRows(rows) + QuestionsFromRows(more)
  {
  }

  /** The rows written for the supplied questions, filtered by article, read back as the supplied questions. */
  lemma {:induction false} SuppliedRoundTrip(qs: seq<Question>, id: Id)
    requires AllStamped(qs)
    ensures QuestionsFromRows(QuestionsOf(QuestionRows(qs), id)) == SuppliedFor(qs, id)
    decreases |qs|
  {
    if qs != [] {
      var rows := QuestionRows(qs);
      QuestionRowsCons(qs);
      var tail := rows[1..];
      assert tail == QuestionRows(qs[1..]);
      SuppliedRoundTrip(qs[1..], id);
      if qs[0].articleId == id {
        assert QuestionsOf(rows, id) == [rows[0]] + QuestionsOf(tail, id);
        QuestionsFromRowsConcat([rows[0]], QuestionsOf(tail, id));
        assert QuestionsFromRows([rows[0]]) == [qs[0]];
        assert SuppliedFor(qs, id) == [qs[0]] + SuppliedFor(qs[1..], id);
      } else {
        assert QuestionsOf(rows, id) == QuestionsOf(tail, id);
        assert SuppliedFor(qs, id) == SuppliedFor(qs[1..], id);
      }
    }
  }

  /** After inserting question rows, an article's questions are its old ones plus the new ones addressed to it. */
  lemma InsertedQuestionsReadBack(questions: seq<QuestionRow>, qs: seq<Question>, id: Id)
    requires AllStamped(qs)
    ensures multiset(SelectQuestions(questions + QuestionRows(qs), id))
         == multiset(SelectQuestions(questions, id)) + multiset(SuppliedFor(qs, id))
  {
    QuestionsOfConcat(questions, QuestionRows(qs), id);
    QuestionsFromRowsConcat(QuestionsOf(questions, id), QuestionsOf(QuestionRows(qs), id));
    SuppliedRoundTrip(qs, id);
  }

  /** An article nobody's questions point to has no questions. */
  lemma NoQuestionsOf(questions: seq<QuestionRow>, id: Id)
    requires forall q | q in questions :: q.articleId != id
    ensures SelectQuestions(questions, id) == []
  {
  }

  /** With unique ids, looking up a stored row's id finds that very row. */
  lemma SelectByIdFindsRow(articles: seq<ArticleRow>, k: nat)
    requires UniqueArticleIds(articles) && k < |articles|
    ensures SelectById(articles, articles[k].id) == Some(ToArticle(articles[k]))
  {
    assert articles[k] in articles;
    var r := SelectById(articles, articles[k].id);
    var row :| row in articles && r.value == ToArticle(row);
    var j :| 0 <= j < |articles| && articles[j] == row;
  }

  /** Two unique tables that agree on the row with id `x`, or both lack it, answer `findById(x)` alike. */
  lemma SameRowSameLookup(articles: seq<ArticleRow>, other: seq<ArticleRow>, x: Id)
    requires UniqueArticleIds(articles) && UniqueArticleIds(other)
    requires forall row | row in articles && row.id == x :: row in other
    requires forall row | row in other && row.id == x :: row in articles
    ensures SelectById(other, x) == SelectById(articles, x)
  {
    if HasArticle(articles, x) {
      var row :| row in articles && row.id == x;
      var k :| 0 <= k < |articles| && articles[k] == row;
      var m :| 0 <= m < |other| && other[m] == row;
      SelectByIdFindsRow(articles, k);
      SelectByIdFindsRow(other, m);
    }
  }

  /**
   * After a committed `create`, `findByIdWithQuestions` of the new id returns the
   * article as supplied and exactly the supplied questions that point to it.
   */
  lemma CreateReadBack(articles: seq<ArticleRow>, questions: seq<QuestionRow>, a: Article, qs: seq<Question>)
    requires Consistent(articles, questions) && CreateAccepted(articles, questions, a, qs)
    ensures SelectById(articles + [ArticleRowOf(a)], a.id) == Some(a)
    ensures multiset(SelectQuestions(questions + QuestionRows(qs), a.id)) == multiset(SuppliedFor(qs, a.id))
  {
    CreateKeepsConsistency(articles, questions, a, qs);
    SelectByIdFindsRow(articles + [ArticleRowOf(a)], |articles|);
    forall q | q in questions ensures q.articleId != a.id {
      var r :| r in articles && r.id == q.articleId;
    }
    NoQuestionsOf(questions, a.id);
    InsertedQuestionsReadBack(questions, qs, a.id);
  }

  /** A committed `create` leaves every other article as it was and adds to it only the supplied questions pointing to it. */
  lemma CreateKeepsOthers(articles: seq<ArticleRow>, questions: seq<QuestionRow>, a: Article, qs: seq<Question>, x: Id)
    requires Consistent(articles, questions) && CreateAccepted(articles, questions, a, qs) && x != a.id
    ensures SelectById(articles + [ArticleRowOf(a)], x) == SelectById(articles, x)
    ensures multiset(SelectQuestions(questions + QuestionRows(qs), x))
         == multiset(SelectQuestions(questions, x)) + multiset(SuppliedFor(qs, x))
  {
    CreateKeepsConsistency(articles, questions, a, qs);
    SameRowSameLookup(articles, articles + [ArticleRowOf(a)], x);
    InsertedQuestionsReadBack(questions, qs, x);
  }

  /**
   * Update replaces, it does not merge: after a committed `update` of a stored
   * article, its content fields are the new ones, `updated_at` is `now`, `id` and
   * `created_at` are kept, and its questions are exactly the supplied ones.
   */
  lemma UpdateReadBack(articles: seq<ArticleRow>, questions: seq<QuestionRow>, id: Id, a: Article,
                       qs: seq<Question>, now: Time)
    requires Consistent(articles, questions) && UpdateAccepted(articles, questions, id, a, qs, now)
    requires HasArticle(articles, id)
    ensures SelectById(UpdateArticles(articles, id, a, Some(now)), id)
         == Some(SelectById(articles, id).value.(url := a.url, title := a.title, body := a.body,
                                                 studiedAt := a.studiedAt, updatedAt := Some(now)))
    ensures multiset(SelectQuestions(WithoutQuestionsOf(questions, id) + QuestionRows(qs), id))
         == multiset(SuppliedFor(qs, id))
  {
    UpdateKeepsConsistency(articles, questions, id, a, qs, now);
    var updated := UpdateArticles(articles, id, a, Some(now));
    var row :| row in articles && row.id == id;
    var k :| 0 <= k < |articles| && articles[k] == row;
    SelectByIdFindsRow(articles, k);
    SelectByIdFindsRow(updated, k);
    NoQuestionsOf(WithoutQuestionsOf(questions, id), id);
    InsertedQuestionsReadBack(WithoutQuestionsOf(questions, id), qs, id);
  }

  lemma {:induction false} QuestionsOfOthersKept(questions: seq<QuestionRow>, id: Id, x: Id)
    requires x != id
    ensures QuestionsOf(WithoutQuestionsOf(questions, id), x) == QuestionsOf(questions, x)
    decreases |questions|
  {
    if questions != [] {
      QuestionsOfOthersKept(questions[1..], id, x);
      var head := if questions[0].articleId != id then [questions[0]] else [];
      QuestionsOfConcat(head, WithoutQuestionsOf(questions[1..], id), x);
    }
  }

  /** A committed `update` leaves every other article as it was and adds to it only the supplied questions pointing to it. */
  lemma UpdateKeepsOthers(articles: seq<ArticleRow>, questions: seq<QuestionRow>, id: Id, a: Article,
                          qs: seq<Question>, now: Time, x: Id)
    requires Consistent(articles, questions) && UpdateAccepted(articles, questions, id, a, qs, now) && x != id
    ensures SelectById(UpdateArticles(articles, id, a, Some(now)), x) == SelectById(articles, x)
    ensures multiset(SelectQuestions(WithoutQuestionsOf(questions, id) + QuestionRows(qs), x))
         == multiset(SelectQuestions(questions, x)) + multiset(SuppliedFor(qs, x))
  {
    UpdateKeepsConsistency(articles, questions, id, a, qs, now);
    var updated := UpdateArticles(articles, id, a, Some(now));
    forall row | row in articles && row.id == x ensures row in updated {
      var k :| 0 <= k < |articles| && articles[k] == row;
      assert updated[k] == row;
    }
    forall row | row in updated && row.id == x ensures row in articles {
      var k :| 0 <= k < |updated| && updated[k] == row;
      assert articles[k] == row;
    }
    SameRowSameLookup(articles, updated, x);
    QuestionsOfOthersKept(questions, id, x);
    InsertedQuestionsReadBack(WithoutQuestionsOf(questions, id), qs, x);
  }

  /** The cascading delete removes the article and all its questions and leaves every other article and its questions as they were. */
  lemma DeleteCascades(articles: seq<ArticleRow>, questions: seq<QuestionRow>, id: Id, x: Id)
    requires Consistent(articles, questions)
    ensures SelectWithQuestions(WithoutArticle(articles, id), WithoutQuestionsOf(questions, id), id).None?
    ensures SelectQuestions(WithoutQuestionsOf(questions, id), id) == []
    ensures x != id ==>
              SelectWithQuestions(WithoutArticle(articles, id), WithoutQuestionsOf(questions, id), x)
                == SelectWithQuestions(articles, questions, x)
  {
    DeleteKeepsConsistency(articles, questions, id);
    NoQuestionsOf(WithoutQuestionsOf(questions, id), id);
    if x != id {
      WithoutArticleKeepsUnique(articles, id);
      SameRowSameLookup(articles, WithoutArticle(articles, id), x);
      QuestionsOfOthersKept(questions, id, x);
    }
  }
}
