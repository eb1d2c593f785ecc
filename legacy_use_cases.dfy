/**
 * The use cases of the older layer: reads through either legacy repository,
 * and an update that runs the same steps as the application's update.
 */
module LegacyUseCases {
  import opened Wrappers
  import opened Entities
  import opened TitleExtractor
  import opened ArticleTables
  import opened TableProperties
  import opened SqliteRepository
  import opened LegacyRepositories
  import ArticleUseCases

  /** `GetArticleUseCase`: the article with the id, or null. */
  class GetArticleUseCase {
    const repository: LegacyRepository

    constructor (repository: LegacyRepository)
      ensures this.repository == repository
    {
      this.repository := repository;
    }

    function Execute(id: Id): (r: Option<Article>)
      reads repository.Objects()
      ensures r == repository.FindById(id)
      ensures r.Some? ==> r.value.id == id
      ensures repository.Mock? ==> (r.None? <==> forall a | a in repository.mock.articles :: a.id != id)
      ensures repository.MySql? ==> (r.None? <==> forall row | row in repository.mysql.rows :: row.id != id)
      ensures repository.MySql? && r.Some? ==> r.value.title == ExtractTitle(r.value.body)
    {
      repository.FindById(id)
    }
  }

  /** `GetArticlesUseCase`: every article the repository lists. */
  class GetArticlesUseCase {
    const repository: LegacyRepository

    constructor (repository: LegacyRepository)
      ensures this.repository == repository
    {
      this.repository := repository;
    }

    function Execute(): (r: seq<Article>)
      reads repository.Objects()
      ensures r == repository.FindAll()
      ensures repository.Mock? ==> r == repository.mock.articles
      ensures repository.MySql? ==> forall i, j | 0 <= i < j < |r| :: r[i].studiedAt >= r[j].studiedAt
      ensures repository.MySql? ==> forall a | a in r :: a.title == ExtractTitle(a.body)
    {
      repository.FindAll()
    }
  }

  /**
   * The older `UpdateArticleUseCase`: the same lookup, title derivation and
   * replacement as the application's update, on a repository that offers
   * `findById` and `update`.
   */
  class UpdateArticleUseCase {
    const repository: SqliteArticleRepository

    constructor (repository: SqliteArticleRepository)
      ensures this.repository == repository
    {
      this.repository := repository;
    }

    method Execute(id: Id, input: ArticleUseCases.UpdateArticleInput, now: Time) returns (r: Result<string, AppError>)
      requires repository.Valid()
      modifies repository
      ensures repository.Valid()
      ensures r == Failure(ArticleNotFound) <==> old(repository.FindById(id)).None?
      ensures old(repository.FindById(id)).Some? ==>
                (r.Success? <==>
                   UpdateAccepted(old(repository.articles), old(repository.questions), id,
                                  ArticleUseCases.RevisedArticle(old(repository.FindById(id)).value, id, input, now),
                                  input.questions, now))
      ensures r.Success? ==>
                && r.value == ArticleUpdated
                && repository.questions == WithoutQuestionsOf(old(repository.questions), id) + QuestionRows(input.questions)
                && repository.FindById(id)
                   == Some(old(repository.FindById(id)).value.(url := input.url, body := input.body,
                                                              title := ExtractTitle(input.body),
                                                              studiedAt := input.studiedAt, updatedAt := Some(now)))
                && multiset(SelectQuestions(repository.questions, id)) == multiset(SuppliedFor(input.questions, id))
                && (forall x | x != id :: repository.FindById(x) == old(repository.FindById(x)))
                && (forall x | x != id ::
                      multiset(SelectQuestions(repository.questions, x))
                      == multiset(SelectQuestions(old(repository.questions), x)) + multiset(SuppliedFor(input.questions, x)))
      ensures r.Failure? ==>
                && (r.error == ArticleNotFound || r.error == StorageFailure)
                && repository.articles == old(repository.articles) && repository.questions == old(repository.questions)
    {
      r := ArticleUseCases.UpdateArticle(repository, id, input, now);
    }
  }
}
