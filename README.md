# Article store with comprehension questions — a Dafny model

The system keeps articles that a learner studied. Each article has a source URL, a body, a title derived
from the body, a study date and an ordered list of comprehension questions with answers. The model covers
the following parts.

- **The title deriver.** The title is the first line of the body. A first line longer than 50 characters is
  cut to 50 and gets `...` appended.
- **The in-memory SQLite repository.** It is used by the integration tests. It holds two tables with
  primary keys and a cascading foreign key. Its reads are a query followed by a row-to-record map. Its
  `create` and `update` each run in one transaction: an `update` replaces the article's questions rather
  than merging them.
- **The MySQL repository of the layered application.** Its `create` and `update` take a pooled
  connection, begin a transaction, roll back on the first failing statement and always release the
  connection.
- **The older layer's repositories.** One is a mock seeded with four articles. The other is a read-only
  MySQL repository with no title column, which derives every title from the body.
- **The use cases.** Create, update, delete and read articles; scrape an article page through a scraper
  service. The older layer's get and update use cases are included too.

## How it is modelled

Modules, in dependency order:

- `Wrappers`: the Option, Result and Outcome types.
- `TitleExtractor`
- `Ordering`: ORDER BY as a stable insertion sort, and `find`.
- `Entities`: the records and error texts.
- `ArticleTables`:
  - the two tables as sequences of rows;
  - the schema constraints;
  - the queries;
  - the conditions under which a transaction commits.
- `TableProperties`: lemmas about those tables.
- `SqliteRepository`
- `MySqlRepository`
- `LegacyRepositories`
- `ArticleUseCases`
- `LegacyUseCases`

Fresh ids (`randomUUID`) and the current time (`new Date()`) are parameters. Dates and timestamps are
integers ordered like the instants they denote. The optional `created_at`/`updated_at` of a record are
`Option<Time>`.

The repositories are classes whose fields are their tables. `create` and `update` work on staged copies,
which is the transaction. They commit by assigning the fields, or fail and leave the fields untouched.

SQLite semantics:

- An insert fails on a missing timestamp, because `toISOString` is called on `undefined`.
- An insert also fails on a duplicate primary key or on a foreign key with no article.

The MySQL table definitions are not part of this model, so which statement fails is given as a step index.
The database's default timestamps are a parameter.

The application's use cases run against the SQLite repository. That is the one concrete implementation of
the application's repository interface whose constraints are visible.

`delete` is declared by the repository interface but implemented by no repository. The model adds it to the
SQLite repository as the removal of the article row together with the cascade its foreign key declares.

## Model

| member | source | states |
|---|---|---|
| TitleExtractor.FirstLine | api/src/domain/services/TitleExtractor.ts:2 | the first line has no newline, is a prefix of the body, and is the whole body or ends where the body has a newline |
| TitleExtractor.ExtractTitle | api/src/domain/services/TitleExtractor.ts:1-4 | the title has no newline, has at most 53 characters, and its first (up to) 50 characters are a prefix of the body |
| TitleExtractor.FirstLineOfSingleLine | api/src/domain/services/TitleExtractor.ts:2 | a body without newline is its own first line |
| TitleExtractor.FirstLineStopsAtNewline | api/src/domain/services/TitleExtractor.ts:2 | for a newline-free `a`, the first line of `a + "\n" + rest` is `a`, whatever `rest` is |
| TitleExtractor.ShortSingleLineIsTitle | api/src/domain/services/TitleExtractor.ts:2-3 | a newline-free body of at most 50 characters is its own title |
| TitleExtractor.LongFirstLineIsTruncated | api/src/domain/services/TitleExtractor.ts:3 | a first line longer than 50 gives its first 50 characters plus `...`, exactly 53 characters |
| TitleExtractor.ShortFirstLineIsPrefix | api/src/application/usecases/CreateArticleUseCase.ts:15-18 | when the first line has at most 50 characters, the title is that line and a prefix of the body |
| TitleExtractor.OnlyFirstLineMatters | api/src/application/usecases/UpdateArticleUseCase.ts:11-15 | `extractTitle(a + "\n" + b) == extractTitle(a)` for newline-free `a` |
| TitleExtractor.ExtractTitleIdempotent | api/src/usecases/UpdateArticleUseCase.ts:38-42 | the title of a title is that title itself, so re-deriving on every write is stable |
| TitleExtractor.EmptyBodyHasEmptyTitle | api/src/repositories/MySQLArticleRepository.ts:49-53 | the empty body yields the empty title |
| TitleExtractor.TitleOfTwoParagraphBody | api/src/domain/services/TitleExtractor.ts:2-3 | the body `"Hello\n\nWorld"` is titled `"Hello"` |
| Ordering.OrderBy | api/src/__tests__/helpers/SQLiteArticleRepository.ts:60 | ORDER BY returns a permutation of its input (same multiset, same length) that is ascending in the key |
| Ordering.Find | api/src/repositories/MockArticleRepository.ts:49 | `find` yields nothing exactly when no element matches; otherwise a matching element of the sequence |
| Ordering.FindIgnoresLaterElements | api/src/repositories/MockArticleRepository.ts:49 | once a match exists, appending elements does not change what `find` returns |
| Ordering.FindInAppended | api/src/repositories/MockArticleRepository.ts:49 | with no match in the front part, `find` over a concatenation searches the back part |
| Entities.Message | api/src/application/usecases/ScrapeArticleUseCase.ts:8-22 | the use cases' own errors have fixed texts; storage and scraper failures carry none of theirs |
| ArticleTables.ArticleRowOf | api/src/__tests__/helpers/SQLiteArticleRepository.ts:128-136 | the article row written by the insert reads back as the same record |
| ArticleTables.QuestionRowOf | api/src/__tests__/helpers/SQLiteArticleRepository.ts:139-147 | a question row written by the insert reads back as the same record |
| ArticleTables.QuestionRows | api/src/__tests__/helpers/SQLiteArticleRepository.ts:138-148 | the rows of the insert loop read back as exactly the supplied questions, in order |
| ArticleTables.SelectAll | api/src/__tests__/helpers/SQLiteArticleRepository.ts:59-71 | every stored article once (same multiset, same count), `studied_at` non-increasing |
| ArticleTables.SelectById | api/src/__tests__/helpers/SQLiteArticleRepository.ts:73-89 | null exactly when no row has the id; else the record of a row with that id |
| ArticleTables.QuestionsOf | api/src/__tests__/helpers/SQLiteArticleRepository.ts:98-100 | `WHERE article_id = ?` keeps each row of the article exactly as often as the table holds it and no other row |
| ArticleTables.SelectQuestions | api/src/__tests__/helpers/SQLiteArticleRepository.ts:98-110 | exactly the question rows of the article (as a multiset), ascending by `sort` |
| ArticleTables.SelectWithQuestions | api/src/__tests__/helpers/SQLiteArticleRepository.ts:91-116 | null exactly when the article is missing; else the article found by id and its sorted questions |
| ArticleTables.UpdateArticles | api/src/__tests__/helpers/SQLiteArticleRepository.ts:166-173 | the UPDATE keeps every row's id and created_at and leaves rows with other ids unchanged |
| ArticleTables.WithoutQuestionsOf | api/src/__tests__/helpers/SQLiteArticleRepository.ts:175 | after the DELETE, a row remains exactly when it was there and points to another article |
| ArticleTables.WithoutArticle | api/src/__tests__/helpers/SQLiteArticleRepository.ts:49 | removing the article row keeps exactly the rows with other ids |
| TableProperties.InsertableIff | api/src/__tests__/helpers/SQLiteArticleRepository.ts:138-148 | the step-by-step insert condition equals the all-at-once one: stamped, ids fresh and pairwise distinct, articles present |
| TableProperties.InsertsKeepConsistency | api/src/__tests__/helpers/SQLiteArticleRepository.ts:42-49 | inserting accepted question rows keeps both primary keys and the foreign key |
| TableProperties.CreateKeepsConsistency | api/src/__tests__/helpers/SQLiteArticleRepository.ts:127-151 | a committed create leaves the schema's constraints holding |
| TableProperties.UpdateKeepsConsistency | api/src/__tests__/helpers/SQLiteArticleRepository.ts:165-188 | a committed update leaves the schema's constraints holding |
| TableProperties.DeleteKeepsConsistency | api/src/__tests__/helpers/SQLiteArticleRepository.ts:49 | deleting an article with its questions leaves the schema's constraints holding |
| TableProperties.SuppliedFor | api/src/__tests__/helpers/SQLiteArticleRepository.ts:99-100 | a supplied question is kept exactly when it points to the article |
| TableProperties.QuestionsOfConcat | api/src/__tests__/helpers/SQLiteArticleRepository.ts:99-100 | selecting an article's questions distributes over appending rows |
| TableProperties.SuppliedRoundTrip | api/src/__tests__/helpers/SQLiteArticleRepository.ts:138-148 | the inserted rows of one article read back as the supplied questions that point to it |
| TableProperties.InsertedQuestionsReadBack | api/src/__tests__/helpers/SQLiteArticleRepository.ts:91-116 | after inserting, an article's questions are its old ones plus exactly the supplied ones pointing to it |
| TableProperties.SelectByIdFindsRow | api/src/__tests__/helpers/SQLiteArticleRepository.ts:74 | under the primary key, looking up a row's id finds that row |
| TableProperties.SameRowSameLookup | api/src/__tests__/helpers/SQLiteArticleRepository.ts:74 | two tables with the same rows for an id answer the lookup of that id alike |
| TableProperties.CreateReadBack | api/src/__tests__/helpers/SQLiteArticleRepository.ts:118-151 | after a committed create the article reads back as given, with exactly the supplied questions pointing to it |
| TableProperties.CreateKeepsOthers | api/src/__tests__/helpers/SQLiteArticleRepository.ts:118-151 | a committed create changes no other article, and adds to it only supplied questions pointing to it |
| TableProperties.UpdateReadBack | api/src/__tests__/helpers/SQLiteArticleRepository.ts:154-191 | after a committed update: new url, title, body, studied_at; updated_at is now; id and created_at kept; questions replaced, not merged |
| TableProperties.QuestionsOfOthersKept | api/src/__tests__/helpers/SQLiteArticleRepository.ts:175 | deleting one article's questions leaves every other article's questions as they were |
| TableProperties.UpdateKeepsOthers | api/src/__tests__/helpers/SQLiteArticleRepository.ts:154-191 | a committed update changes no other article, and adds to it only supplied questions pointing to it |
| TableProperties.DeleteCascades | api/src/__tests__/helpers/SQLiteArticleRepository.ts:49 | after the cascade the article reads back null with no questions; every other article reads back as before |
| SqliteRepository.InsertQuestions | api/src/__tests__/helpers/SQLiteArticleRepository.ts:138-148 | the insert loop succeeds exactly when every insert is accepted in turn, and then holds the old rows plus the supplied ones in order |
| SqliteRepository.SqliteArticleRepository.constructor | api/src/__tests__/helpers/SQLiteArticleRepository.ts:29-57 | a fresh schema: both tables empty and consistent |
| SqliteRepository.SqliteArticleRepository.FindAll | api/src/__tests__/helpers/SQLiteArticleRepository.ts:59-71 | every stored article once, most recently studied first |
| SqliteRepository.SqliteArticleRepository.FindById | api/src/__tests__/helpers/SQLiteArticleRepository.ts:73-89 | null exactly when no row has the id; else that row's record |
| SqliteRepository.SqliteArticleRepository.FindByIdWithQuestions | api/src/__tests__/helpers/SQLiteArticleRepository.ts:91-116 | null exactly when the article is missing; else it with exactly its questions, ascending by sort |
| SqliteRepository.SqliteArticleRepository.Create | api/src/__tests__/helpers/SQLiteArticleRepository.ts:118-152 | commits exactly when every insert is accepted, appending the article row and the question rows in order; otherwise changes nothing; constraints kept |
| SqliteRepository.SqliteArticleRepository.Update | api/src/__tests__/helpers/SQLiteArticleRepository.ts:154-191 | commits exactly when all replacement inserts are accepted after the delete; then the article is overwritten with updated_at = now and its questions replaced; otherwise nothing changes |
| SqliteRepository.SqliteArticleRepository.Delete | api/src/__tests__/helpers/SQLiteArticleRepository.ts:49 | the article row and every question row pointing to it are gone; all other rows stay; constraints kept |
| SqliteRepository.SqliteArticleRepository.ClearAll | api/src/__tests__/helpers/SQLiteArticleRepository.ts:194-197 | both tables are empty |
| MySqlRepository.WrittenArticleRow | api/src/infrastructure/repositories/MySQLArticleRepository.ts:98-101 | the inserted article reads back as given, except that both timestamps are the database default |
| MySqlRepository.WrittenQuestionRow | api/src/infrastructure/repositories/MySQLArticleRepository.ts:105-108 | an inserted question reads back as given, except that both timestamps are the database default |
| MySqlRepository.InsertQuestions | api/src/infrastructure/repositories/MySQLArticleRepository.ts:104-109 | the loop fails exactly when the failing step is one of its inserts; otherwise it appends every question in order |
| MySqlRepository.MySqlArticleRepository.FindAll | api/src/infrastructure/repositories/MySQLArticleRepository.ts:28-41 | every row once, ordered by studied_at descending |
| MySqlRepository.MySqlArticleRepository.FindById | api/src/infrastructure/repositories/MySQLArticleRepository.ts:43-61 | null exactly when no row matches; else a matching row's record |
| MySqlRepository.MySqlArticleRepository.FindByIdWithQuestions | api/src/infrastructure/repositories/MySQLArticleRepository.ts:63-89 | null for a missing article; else it with exactly its questions by sort ascending |
| MySqlRepository.MySqlArticleRepository.Create | api/src/infrastructure/repositories/MySQLArticleRepository.ts:91-118 | commits exactly when no step fails, appending the article then each question in order; any failure rolls back everything; the connection is always released |
| MySqlRepository.MySqlArticleRepository.Update | api/src/infrastructure/repositories/MySQLArticleRepository.ts:120-150 | commits exactly when no step fails; then only url, title, body and studied_at of the article change (timestamps kept) and its questions are replaced; else nothing changes; the connection is always released |
| LegacyRepositories.Lookup | api/src/repositories/MockArticleRepository.ts:48-51 | null exactly when no article has the id; else a stored article with that id |
| LegacyRepositories.LookupAfterAppend | api/src/repositories/MockArticleRepository.ts:48-66 | after an append, lookups are unchanged except that a previously missing id finds the new article; with a duplicate id the earlier one still wins |
| LegacyRepositories.SeedIsNewestFirst | api/src/repositories/MockArticleRepository.ts:5-42 | the seed holds four articles with ids "1" to "4", studied_at strictly descending |
| LegacyRepositories.MockArticleRepository.constructor | api/src/repositories/MockArticleRepository.ts:5-42 | the mock starts with the seed |
| LegacyRepositories.MockArticleRepository.FindAll | api/src/repositories/MockArticleRepository.ts:44-46 | the stored list as it is, in insertion order |
| LegacyRepositories.MockArticleRepository.FindById | api/src/repositories/MockArticleRepository.ts:48-51 | null exactly when no stored article has the id; else one that has it |
| LegacyRepositories.MockArticleRepository.FindByIdWithQuestions | api/src/repositories/MockArticleRepository.ts:53-63 | null exactly when the id is unknown; else that article with no questions |
| LegacyRepositories.MockArticleRepository.Create | api/src/repositories/MockArticleRepository.ts:65-68 | the article is appended at the end and the questions are dropped |
| LegacyRepositories.LegacyArticle | api/src/repositories/MySQLArticleRepository.ts:19-27 | id, url, body and studied_at are copied; the title is derived from the body |
| LegacyRepositories.LegacyMySqlArticleRepository.FindAll | api/src/repositories/MySQLArticleRepository.ts:16-28 | one article per row, studied_at descending, each titled from its body |
| LegacyRepositories.LegacyMySqlArticleRepository.FindById | api/src/repositories/MySQLArticleRepository.ts:30-47 | null exactly when no row matches; else the record of a matching row, titled from its body |
| LegacyRepositories.LegacyRepository.FindAll | api/src/repositories/ArticleRepository.ts:4 | exactly the chosen repository's `findAll`: the mock's list as it is, or one article per MySQL row, newest first and titled from its body |
| LegacyRepositories.LegacyRepository.FindById | api/src/repositories/ArticleRepository.ts:5 | the chosen repository's lookup; a found article has the id |
| ArticleUseCases.CreateArticle | api/src/application/usecases/CreateArticleUseCase.ts:21-44 | succeeds exactly when the store accepts the article and questions; then returns the fresh id and message; the article reads back titled from its body, stamped now; its questions are the supplied ones passed through; no other article changes; a failure propagates with the store unchanged |
| ArticleUseCases.UpdateArticle | api/src/application/usecases/UpdateArticleUseCase.ts:18-40 | fails with "Article not found" exactly when the id is unknown, before any write; else succeeds exactly when the store accepts the revised article (storage failures propagate as such): new url, body, derived title and studied date, created_at kept, updated_at now, questions replaced by the supplied ones; other articles unchanged |
| ArticleUseCases.DeleteArticle | api/src/application/usecases/DeleteArticleUseCase.ts:4-14 | an unknown id fails with "Article not found" and changes nothing; else the article and its questions are gone and every other article reads back as before |
| ArticleUseCases.GetArticleUseCase.Execute | api/src/application/usecases/GetArticleUseCase.ts:7-9 | exactly the repository's article-with-questions; null exactly when the article is missing; questions by sort |
| ArticleUseCases.GetArticlesUseCase.Execute | api/src/application/usecases/GetArticlesUseCase.ts:7-9 | exactly the repository's list: every article once, newest studied first |
| ArticleUseCases.ContainsIff | api/src/application/usecases/ScrapeArticleUseCase.ts:8 | the left-to-right scan finds the marker exactly when it occurs at some position of the URL |
| ArticleUseCases.ArticleUrlAccepted | api/src/application/usecases/ScrapeArticleUseCase.ts:8 | any URL containing the daily-news article marker passes the check |
| ArticleUseCases.ShortUrlRejected | api/src/application/usecases/ScrapeArticleUseCase.ts:8-10 | a URL shorter than the marker never passes the check |
| ArticleUseCases.CheckScraped | api/src/application/usecases/ScrapeArticleUseCase.ts:16-24 | passes exactly when title and body are non-empty and a question exists, returning the data unchanged; the missing title or body error takes precedence over the no-questions error |
| ArticleUseCases.ArticleScraper.ScrapeArticle | api/src/domain/services/ArticleScraper.ts:9 | the page's data or failure, and the URL is recorded as requested |
| ArticleUseCases.ArticleScraper.Close | api/src/domain/services/ArticleScraper.ts:10 | the scraper is closed |
| ArticleUseCases.ScrapeArticleUseCase.Execute | api/src/application/usecases/ScrapeArticleUseCase.ts:6-25 | a URL without the marker fails with the invalid-URL error and the scraper is not asked; else the scraper is asked once and its data is checked; any success has a title, a body and a question |
| ArticleUseCases.ScrapeArticleUseCase.Cleanup | api/src/application/usecases/ScrapeArticleUseCase.ts:27-29 | the scraper is closed |
| LegacyUseCases.GetArticleUseCase.Execute | api/src/usecases/GetArticleUseCase.ts:7-9 | exactly the repository's findById: null exactly when absent; a plain article, titled from its body for MySQL |
| LegacyUseCases.GetArticlesUseCase.Execute | api/src/usecases/GetArticlesUseCase.ts:7-9 | exactly the repository's findAll, in its order and unfiltered |
| LegacyUseCases.UpdateArticleUseCase.Execute | api/src/usecases/UpdateArticleUseCase.ts:14-36 | fails with "Article not found" exactly when the id is unknown, before any write; else succeeds exactly when the store accepts the revised article: url, body, derived title, studied date and updated_at replace the old ones, the question table becomes the old one without the article's questions plus the supplied ones, other articles unchanged |

## Left out

- The HTTP layer is not part of this model: controllers, routing, the required-field check and the
  mapping from errors to status codes.
- Parsing date strings and `toISOString` are not modelled. Dates and timestamps are integers.
- Asynchrony and concurrent requests are not modelled. Each call is one sequential step.
- The MySQL connection pool and its configuration are not modelled. `getConnection` is taken to succeed.
- The scraper's HTTP fetch and page extraction are not modelled. A scraper answers each URL with a fixed
  result given at construction.
- `memo` is not modelled. It appears in only one record type and no use case sets it.
- MySqlRepository.MySqlArticleRepository.Create: the MySQL table definitions are not part of this model,
  so which statement fails is an input (`fault`) instead of following from key constraints.
  `Update` is modelled the same way.
- MySqlRepository.MySqlArticleRepository.Update: the reads after a MySQL update are not proved about.
  The table constraints that the SQLite proofs rely on are unknown here.
- ArticleUseCases.CreateArticle: the source's input type declares its questions as `{question, answer}`
  pairs and passes them to `create` as they are. The model types them as question records and passes them
  through unchanged. It does not build ids, `article_id` or `sort` for them, because the code does not.
  As written, the SQLite insert loop calls `created_at.toISOString()` on each pair, which has no such
  field, so the insert throws and every create with at least one pair rolls back; in the model the same
  create succeeds whenever the supplied records are complete and accepted.
- Questions are not renumbered: `sort` is whatever the caller supplied; the code assigns no sort values,
  and the model follows the code.
- ArticleUseCases.DeleteArticle: no repository in the source implements `delete`. The model deletes the
  article row and the question rows its cascading foreign key removes.
- LegacyUseCases.UpdateArticleUseCase.Execute: it calls `update`, which the older repository interface
  does not declare. The model runs it against the SQLite repository, which has `findById` and `update`.
- Ordering.OrderBy: the order among rows with equal keys is left open by SQL. The contracts promise only
  ordering and permutation.
- MySqlRepository.WrittenArticleRow: one `defaultTime` stands for the database default of both timestamps
  of every row a create or update writes. The table definitions are not shown, and separate statements
  may receive different defaults. `WrittenQuestionRow` and `WrittenQuestionRows` share this simplification.
- LegacyRepositories.MockArticleRepository.FindAll: the source returns its internal array itself, so a
  caller holding the result sees later `create` pushes. The model returns a value, so that aliasing is
  not captured.
- Title lengths count characters of the sequence. JavaScript counts UTF-16 code units.
